/**
 * What the switch promises about a packet's life after each pipeline:
 * where enqueue puts it, what multicast produces, the order of clone,
 * learn and fate after ingress, and the exclusive fates after egress.
 */
module Lifecycle {
  import opened Wrappers
  import opened Mirroring
  import opened Packets

  // ---------------------------------------------------------------------------
  // enqueue
  // ---------------------------------------------------------------------------

  /** A priority in range picks queue nbQueues-1-priority of the port; out of range, nothing is queued. */
  lemma EnqueueMapping(port: nat, p: Packet, nbQueues: nat)
    ensures EnqueueActions(port, p, nbQueues) == [] <==> Priority(p) >= nbQueues
    ensures |EnqueueActions(port, p, nbQueues)| <= 1
    ensures forall a :: a in EnqueueActions(port, p, nbQueues) ==>
      && a.ToEgress? && a.port == port && a.queue < nbQueues
      && a.queue + Priority(p) == nbQueues - 1
      && a.packet == p.(egressPort := port)
  {
  }

  /** A higher priority lands in a higher-numbered queue. */
  lemma EnqueuePriorityOrder(port: nat, p: Packet, q: Packet, nbQueues: nat)
    requires Priority(p) < Priority(q) < nbQueues
    ensures EnqueueActions(port, p, nbQueues)[0].queue > EnqueueActions(port, q, nbQueues)[0].queue
  {
  }

  // ---------------------------------------------------------------------------
  // multicast
  // ---------------------------------------------------------------------------

  lemma ReplicaKeepsPriority(p: Packet, t: Target)
    ensures Priority(ReplicaOf(p, t)) == Priority(p)
    ensures ReplicaOf(p, t).phv.instanceType == p.phv.instanceType
  {
  }

  /** One egress-buffer push per target, in target order, each a copy with the target's rid and port. */
  lemma {:induction false} MulticastFanOut(p: Packet, targets: seq<Target>, nbQueues: nat)
    requires Priority(p) < nbQueues
    ensures |MulticastActions(p, targets, nbQueues)| == |targets|
    ensures forall i :: 0 <= i < |targets| ==>
      MulticastActions(p, targets, nbQueues)[i]
        == ToEgress(targets[i].egressPort, nbQueues - 1 - Priority(p),
                    ReplicaOf(p, targets[i]).(egressPort := targets[i].egressPort))
    decreases |targets|
  {
    if targets != [] {
      var init := targets[..|targets| - 1];
      var t := targets[|targets| - 1];
      MulticastFanOut(p, init, nbQueues);
      ReplicaKeepsPriority(p, t);
      var acts := MulticastActions(p, targets, nbQueues);
      assert acts == MulticastActions(p, init, nbQueues) + EnqueueActions(t.egressPort, ReplicaOf(p, t), nbQueues);
      forall i | 0 <= i < |targets|
        ensures acts[i] == ToEgress(targets[i].egressPort, nbQueues - 1 - Priority(p),
                                    ReplicaOf(p, targets[i]).(egressPort := targets[i].egressPort))
      {
        if i < |init| {
          assert targets[i] == init[i];
        }
      }
    }
  }

  /** With a priority out of range every copy is dropped by enqueue. */
  lemma {:induction false} MulticastOutOfRange(p: Packet, targets: seq<Target>, nbQueues: nat)
    requires Priority(p) >= nbQueues
    ensures MulticastActions(p, targets, nbQueues) == []
    decreases |targets|
  {
    if targets != [] {
      MulticastOutOfRange(p, targets[..|targets| - 1], nbQueues);
      ReplicaKeepsPriority(p, targets[|targets| - 1]);
    }
  }

  /** Every copy: registers cleared except the original's packet length; same data and instance type. */
  lemma {:induction false} MulticastCopies(p: Packet, targets: seq<Target>, nbQueues: nat)
    ensures forall a :: a in MulticastActions(p, targets, nbQueues) ==>
      && a.ToEgress?
      && a.packet.regs == ClearedRegisters(p.regs.packetLength)
      && a.packet.data == p.data
      && a.packet.phv.instanceType == p.phv.instanceType
    decreases |targets|
  {
    if targets != [] {
      MulticastCopies(p, targets[..|targets| - 1], nbQueues);
    }
  }

  // ---------------------------------------------------------------------------
  // Cloning
  // ---------------------------------------------------------------------------

  /** The masked session id never exceeds the mask (nor the register value). */
  lemma {:induction false} BitAndBound(a: nat, b: nat)
    ensures BitAnd(a, b) <= b && BitAnd(a, b) <= a
    decreases a
  {
    if a != 0 && b != 0 {
      BitAndBound(a / 2, b / 2);
    }
  }

  /** Every clone action is an egress-buffer push of the copy's instance type, and only a configured session clones. */
  lemma CloneActionsTagged(p: Packet, copy: Packet, sessions: map<int, SessionConfig>, mask: nat, e: Engine, nbQueues: nat)
    ensures forall a :: a in CloneActions(p, copy, sessions, mask, e, nbQueues) ==>
      a.ToEgress? && a.packet.phv.instanceType == copy.phv.instanceType
    ensures CloneActions(p, copy, sessions, mask, e, nbQueues) != [] ==>
      p.regs.cloneMirrorSessionId != 0 && BitAnd(p.regs.cloneMirrorSessionId, mask) in sessions
  {
    var id := p.regs.cloneMirrorSessionId;
    if id != 0 && BitAnd(id, mask) in sessions {
      var config := sessions[BitAnd(id, mask)];
      var targets := if config.mgidValid then e.replicate(config.mgid) else [];
      MulticastCopies(copy, targets, nbQueues);
    }
  }

  /**
   * A session with both a group and a port sends the clone both ways: one
   * copy per group member, then the clone itself to the port, carrying the
   * rid of the last member.
   */
  lemma CloneBothWays(copy: Packet, config: SessionConfig, e: Engine, nbQueues: nat)
    requires config.mgidValid && config.egressPortValid && Priority(copy) < nbQueues
    ensures var targets := e.replicate(config.mgid);
      var acts := CloneToSession(copy, config, e, nbQueues);
      && |acts| == |targets| + 1
      && acts[|targets|] == ToEgress(config.egressPort, nbQueues - 1 - Priority(copy),
                                     AfterMulticast(copy, targets).(egressPort := config.egressPort))
  {
    MulticastFanOut(copy, e.replicate(config.mgid), nbQueues);
  }

  // ---------------------------------------------------------------------------
  // After ingress
  // ---------------------------------------------------------------------------

  /**
   * The fate of the original after ingress is exactly one of: resubmitted
   * (pushed back as a RESUBMIT copy), multicast (the original discarded),
   * dropped at the drop port, or enqueued as NORMAL to its egress_spec.
   */
  lemma IngressFateExclusive(p: Packet, inData: seq<bv8>, ingressSize: nat, e: Engine, dropPort: nat, nbQueues: nat)
    ensures var f := IngressFate(p, inData, ingressSize, e, dropPort, nbQueues);
      && (f.toInput.Some? <==> p.regs.resubmitFlag != 0)
      && (f.dropped <==> p.regs.resubmitFlag == 0 && Mgid(p) == 0 && p.phv.egressSpec == dropPort)
      && !(f.toInput.Some? && f.dropped)
      && (f.toInput.Some? || f.dropped ==> f.actions == [])
  {
  }

  /** The resubmitted copy: unparsed input data, RESUBMIT, length register and field equal to the ingress length. */
  lemma IngressResubmit(p: Packet, inData: seq<bv8>, ingressSize: nat, e: Engine, dropPort: nat, nbQueues: nat)
    requires p.regs.resubmitFlag != 0
    ensures var c := IngressFate(p, inData, ingressSize, e, dropPort, nbQueues).toInput.value;
      && c.data == inData
      && c.phv.instanceType == InstanceType.Resubmit
      && c.regs == ClearedRegisters(ingressSize)
      && c.phv.packetLength == ingressSize
  {
  }

  /** Ingress multicast: REPLICATION copies, one per group member when the priority is in range. */
  lemma IngressMulticast(p: Packet, inData: seq<bv8>, ingressSize: nat, e: Engine, dropPort: nat, nbQueues: nat)
    requires p.regs.resubmitFlag == 0 && Mgid(p) != 0
    ensures var f := IngressFate(p, inData, ingressSize, e, dropPort, nbQueues);
      && f.toInput.None? && !f.dropped
      && (forall a :: a in f.actions ==> a.ToEgress? && a.packet.phv.instanceType == Replication)
      && (Priority(p) < nbQueues ==> |f.actions| == |e.replicate(Mgid(p))|)
  {
    var original := p.(phv := p.phv.(instanceType := Replication));
    MulticastCopies(original, e.replicate(Mgid(p)), nbQueues);
    if Priority(p) < nbQueues {
      assert Priority(original) == Priority(p);
      MulticastFanOut(original, e.replicate(Mgid(p)), nbQueues);
    }
  }

  /** The plain path: the original, tagged NORMAL, is enqueued to its egress_spec. */
  lemma IngressUnicast(p: Packet, inData: seq<bv8>, ingressSize: nat, e: Engine, dropPort: nat, nbQueues: nat)
    requires p.regs.resubmitFlag == 0 && Mgid(p) == 0 && p.phv.egressSpec != dropPort
    ensures var f := IngressFate(p, inData, ingressSize, e, dropPort, nbQueues);
      && f.toInput.None? && !f.dropped
      && (forall a :: a in f.actions ==>
            a.ToEgress? && a.port == p.phv.egressSpec && a.packet.phv.instanceType == InstanceType.Normal)
      && (|f.actions| == 1 <==> Priority(p) < nbQueues)
  {
  }

  /**
   * The order after ingress: first the clone's pushes (all INGRESS_CLONE),
   * then the learn request (if any), then whatever the fate of the original
   * produces.
   */
  lemma IngressOrder(p: Packet, inData: seq<bv8>, ingressSize: nat, sessions: map<int, SessionConfig>,
                     mask: nat, e: Engine, dropPort: nat, nbQueues: nat)
    ensures var o := IngressOutcome(p, inData, ingressSize, sessions, mask, e, dropPort, nbQueues);
      var c := CloneActions(p, IngressCloneCopy(p, inData, ingressSize, e), sessions, mask, e, nbQueues);
      var l := LearnActions(ClearCloneRequest(p));
      && |c| + |l| <= |o.actions|
      && (forall i :: 0 <= i < |c| ==> o.actions[i].ToEgress? && o.actions[i].packet.phv.instanceType == IngressClone)
      && (p.regs.lfFieldList > 0 ==> o.actions[|c|] == Learn(p.regs.lfFieldList, ClearCloneRequest(p)))
      && o.actions[|c| + |l|..] == IngressFate(ClearCloneRequest(p), inData, ingressSize, e, dropPort, nbQueues).actions
  {
    var copy := IngressCloneCopy(p, inData, ingressSize, e);
    CloneActionsTagged(p, copy, sessions, mask, e, nbQueues);
    var c := CloneActions(p, copy, sessions, mask, e, nbQueues);
    var o := IngressOutcome(p, inData, ingressSize, sessions, mask, e, dropPort, nbQueues);
    forall i | 0 <= i < |c|
      ensures o.actions[i].ToEgress? && o.actions[i].packet.phv.instanceType == IngressClone
    {
      assert o.actions[i] == c[i];
    }
  }

  // ---------------------------------------------------------------------------
  // After egress
  // ---------------------------------------------------------------------------

  /**
   * After egress cloning the packet is dropped (egress_spec is the drop
   * port), recirculated as a RECIRC copy whose length is its data size, or
   * sent to the output buffer: exactly one of the three.
   */
  lemma EgressFateExclusive(p: Packet, e: Engine, dropPort: nat)
    ensures var f := EgressFate(p, e, dropPort);
      && (f.dropped <==> p.phv.egressSpec == dropPort)
      && (f.dropped ==> f.actions == [] && f.toInput.None?)
      && (f.toInput.Some? ==>
            && f.actions == [] && !f.dropped
            && f.toInput.value.phv.instanceType == Recirc
            && f.toInput.value.phv.packetLength == |f.toInput.value.data|
            && f.toInput.value.regs == ClearedRegisters(|f.toInput.value.data|))
      && (!f.dropped && f.toInput.None? ==> |f.actions| == 1 && f.actions[0].ToOutput?)
  {
  }

  /** The order after egress: the clone's pushes (all EGRESS_CLONE) come first; at most one output, last. */
  lemma EgressOrder(p: Packet, port: nat, sessions: map<int, SessionConfig>, mask: nat, e: Engine, dropPort: nat, nbQueues: nat)
    ensures var o := EgressOutcome(p, port, sessions, mask, e, dropPort, nbQueues);
      var q := e.egress(EgressEntry(p, port));
      var c := CloneActions(q, EgressCloneCopy(q, e), sessions, mask, e, nbQueues);
      && (forall i :: 0 <= i < |c| ==> o.actions[i].ToEgress? && o.actions[i].packet.phv.instanceType == EgressClone)
      && |o.actions| <= |c| + 1
      && (|o.actions| == |c| + 1 <==> !o.dropped && o.toInput.None?)
      && (|o.actions| == |c| + 1 ==> o.actions[|c|].ToOutput?)
  {
    var q := e.egress(EgressEntry(p, port));
    var copy := EgressCloneCopy(q, e);
    CloneActionsTagged(q, copy, sessions, mask, e, nbQueues);
    EgressFateExclusive(ClearCloneRequest(q), e, dropPort);
    var c := CloneActions(q, copy, sessions, mask, e, nbQueues);
    var o := EgressOutcome(p, port, sessions, mask, e, dropPort, nbQueues);
    forall i | 0 <= i < |c|
      ensures o.actions[i].ToEgress? && o.actions[i].packet.phv.instanceType == EgressClone
    {
      assert o.actions[i] == c[i];
    }
  }
}
