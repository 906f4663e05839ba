/**
 * The switch itself (class P4Model in model/p4-model.cc): the ingress and
 * egress threads, enqueue and multicast, and the receive path from ns-3.
 * Each method updates the switch's state in place and is proved equal to the
 * pure description of the same step in module Packets.
 */
module P4Switch {
  import opened Wrappers
  import opened Mirroring
  import opened InputArbiter
  import opened Packets

  /** The capacities the switch gives its input arbiter: high queue first. */
  const CAPACITY_HI: nat := 10240
  const CAPACITY_LO: nat := 1024

  /** An ns-3 Address; the switch only compares addresses for equality. */
  type Address = seq<bv8>

  /** The tracing_* counters. */
  datatype Tracing = Tracing(totalIn: nat, ingressTotal: nat, ingressDrop: nat, egressTotal: nat, egressDrop: nat)

  // ---------------------------------------------------------------------------
  // Destination interning (ReceivePacket)
  // ---------------------------------------------------------------------------

  predicate NoDuplicates(s: seq<Address>) {
    forall i, j :: 0 <= i < j < |s| ==> s[i] != s[j]
  }

  /** std::find followed by std::distance: the index of the first occurrence. */
  function IndexOf(list: seq<Address>, d: Address): (r: Option<nat>)
    ensures r.None? <==> d !in list
    ensures r.Some? ==> r.value < |list| && list[r.value] == d && d !in list[..r.value]
  {
    if list == [] then None
    else if list[0] == d then Some(0)
    else
      var r := IndexOf(list[1..], d);
      if r.None? then None
      else
        assert list[..r.value + 1] == [list[0]] + list[1..][..r.value];
        Some(r.value + 1)
  }

  /** The destination list after interning d, and the index d is known by. */
  function Intern(list: seq<Address>, d: Address): (r: (seq<Address>, nat))
    ensures r.1 < |r.0| && r.0[r.1] == d
    ensures list <= r.0 && |r.0| <= |list| + 1
  {
    match IndexOf(list, d)
    case None => (list + [d], |list|)
    case Some(i) => (list, i)
  }

  /** The packet ReceivePacket hands to the input buffer. */
  function ReceivedPacket(e: Engine, id: nat, inPort: nat, data: seq<bv8>, protocol: nat, destIndex: nat): (p: Packet)
    ensures p.id == id && p.data == data && p.ingressPort == inPort
    ensures p.regs == ClearedRegisters(|data|)
    ensures p.phv.instanceType == InstanceType.Normal && p.phv.ingressPort == inPort && p.phv.packetLength == |data|
    ensures p.phv.ns3PktId.Some? <==> e.blankPhv.ns3PktId.Some?
    ensures p.phv.ns3PktId.Some? ==> p.phv.ns3PktId.value == id
    ensures p.phv.ns3Destination.Some? ==> p.phv.ns3Destination.value == destIndex
    ensures p.phv.ns3Protocol.Some? ==> p.phv.ns3Protocol.value == protocol
  {
    var reset := ResetMetadata(e.blankPhv);
    var phv := reset.(ingressPort := inPort, packetLength := |data|, instanceType := InstanceType.Normal,
                      ns3Protocol := SetIfPresent(reset.ns3Protocol, protocol),
                      ns3Destination := SetIfPresent(reset.ns3Destination, destIndex),
                      ns3PktId := SetIfPresent(reset.ns3PktId, id));
    Packet(id, inPort, 0, data, ClearedRegisters(|data|), phv)
  }

  /** The rescheduling delay of the ingress timer, in microseconds, for a reported size. */
  function TimerDelay(size: nat): (us: nat)
    ensures us == 100 || us == 1000
    ensures us < 1000 <==> size > 10
  {
    if size > 10 then 100 else 1000
  }

  /** IngressOutcome in the order the switch produces it: the clone actions first, then the rest. */
  lemma IngressOutcomeParts(q: Packet, inData: seq<bv8>, ingressSize: nat, sessions: map<int, SessionConfig>,
                            mask: nat, e: Engine, dropPort: nat, nbQueues: nat)
    ensures var o := IngressOutcome(q, inData, ingressSize, sessions, mask, e, dropPort, nbQueues);
      var fate := IngressFate(ClearCloneRequest(q), inData, ingressSize, e, dropPort, nbQueues);
      && o.actions == CloneActions(q, IngressCloneCopy(q, inData, ingressSize, e), sessions, mask, e, nbQueues)
                      + (LearnActions(ClearCloneRequest(q)) + fate.actions)
      && o.toInput == fate.toInput && o.dropped == fate.dropped
  {
  }

  class P4Model {
    const mirroring: MirroringSessions
    const inputBuffer: InputBuffer<Packet>
    const engine: Engine
    const dropPort: nat
    const nbQueuesPerPort: nat
    /** RegisterAccess::MIRROR_SESSION_ID_MASK, defined by the match-action engine. */
    const mirrorSessionIdMask: nat
    /** Everything handed to the egress buffers, the learn engine and the output buffer, in order. */
    var sink: seq<Action>
    var tracing: Tracing
    var destinationList: seq<Address>
    var pktId: nat

    ghost predicate Valid()
      reads this, mirroring, inputBuffer
    {
      && mirroring.Valid()
      && inputBuffer.Valid()
      && inputBuffer.capacityHi == CAPACITY_HI && inputBuffer.capacityLo == CAPACITY_LO
      && NoDuplicates(destinationList)
    }

    constructor(engine: Engine, dropPort: nat, nbQueuesPerPort: nat, maxSessionId: int, mirrorSessionIdMask: nat)
      ensures Valid()
      ensures fresh(mirroring) && fresh(inputBuffer)
      ensures this.dropPort == dropPort && this.nbQueuesPerPort == nbQueuesPerPort
      ensures this.mirrorSessionIdMask == mirrorSessionIdMask
      ensures mirroring.maxSessionId == maxSessionId && mirroring.sessions == map[]
      ensures inputBuffer.queueHi == [] && inputBuffer.queueLo == []
      ensures sink == [] && tracing == Tracing(0, 0, 0, 0, 0) && destinationList == [] && pktId == 0
    {
      this.engine := engine;
      this.dropPort := dropPort;
      this.nbQueuesPerPort := nbQueuesPerPort;
      this.mirrorSessionIdMask := mirrorSessionIdMask;
      inputBuffer := new InputBuffer(CAPACITY_HI, CAPACITY_LO);
      mirroring := new MirroringSessions(maxSessionId);
      sink := [];
      tracing := Tracing(0, 0, 0, 0, 0);
      destinationList := [];
      pktId := 0;
    }

    /** enqueue: set the egress port, map the priority to a queue, hand to the egress buffers. */
    method Enqueue(port: nat, p: Packet)
      modifies this`sink
      ensures sink == old(sink) + EnqueueActions(port, p, nbQueuesPerPort)
    {
      var packet := p.(egressPort := port);
      var priority := if packet.phv.priority.Some? then packet.phv.priority.value else 0;
      if priority >= nbQueuesPerPort {
        return;
      }
      sink := sink + [ToEgress(port, nbQueuesPerPort - 1 - priority, packet)];
    }

    /** multicast: one copy per replication target, the original's rid set on the way. */
    method Multicast(p: Packet, mgid: nat) returns (q: Packet)
      modifies this`sink
      ensures sink == old(sink) + MulticastActions(p, engine.replicate(mgid), nbQueuesPerPort)
      ensures q == AfterMulticast(p, engine.replicate(mgid))
    {
      var targets := engine.replicate(mgid);
      var packetSize := p.regs.packetLength;
      q := p;
      var i := 0;
      while i < |targets|
        invariant 0 <= i <= |targets|
        invariant q == AfterMulticast(p, targets[..i])
        invariant sink == old(sink) + MulticastActions(p, targets[..i], nbQueuesPerPort)
      {
        var t := targets[i];
        q := q.(phv := q.phv.(egressRid := t.rid));
        var copy := q.(regs := ClearedRegisters(packetSize));
        assert copy == ReplicaOf(p, t);
        Enqueue(t.egressPort, copy);
        assert targets[..i + 1][..i] == targets[..i];
        i := i + 1;
      }
      assert targets[..i] == targets;
    }

    /** The tail of both cloning branches: multicast and/or enqueue the copy. */
    method SendClone(copy: Packet, config: SessionConfig)
      modifies this`sink
      ensures sink == old(sink) + CloneToSession(copy, config, engine, nbQueuesPerPort)
    {
      var c := copy;
      if config.mgidValid {
        c := Multicast(c, config.mgid);
      }
      if config.egressPortValid {
        Enqueue(config.egressPort, c);
      }
    }

    /** One pass of the ingress thread, as IngressThread performs it. */
    twostate predicate IngressStepped(new popped: Option<Packet>)
      reads this, mirroring, inputBuffer
    {
      && popped == Oldest(old(inputBuffer.queueHi), old(inputBuffer.queueLo))
      && inputBuffer.queueLo == LoAfterPop(old(inputBuffer.queueHi), old(inputBuffer.queueLo))
      && if popped.None? then
           && sink == old(sink) && tracing == old(tracing)
           && inputBuffer.queueHi == old(inputBuffer.queueHi)
         else
           var p := popped.value;
           var o := IngressOutcome(engine.ingress(p), p.data, p.regs.packetLength, mirroring.sessions,
                                   mirrorSessionIdMask, engine, dropPort, nbQueuesPerPort);
           && sink == old(sink) + o.actions
           && tracing == old(tracing).(ingressTotal := old(tracing.ingressTotal) + 1,
                                       ingressDrop := old(tracing.ingressDrop) + (if o.dropped then 1 else 0))
           && inputBuffer.queueHi == PushIfRoom(HiAfterPop(old(inputBuffer.queueHi), old(inputBuffer.queueLo)), o.toInput, CAPACITY_HI)
    }

    /**
     * ingress_thread: take the next packet from the input arbiter, run the
     * ingress pipeline, then clone, learn, and resubmit / multicast / drop /
     * enqueue the packet.
     */
    method IngressThread() returns (popped: Option<Packet>)
      requires Valid()
      modifies this`sink, this`tracing, inputBuffer
      ensures Valid()
      ensures IngressStepped(popped)
    {
      popped := inputBuffer.PopBack();
      if popped.None? {
        return;
      }
      tracing := tracing.(ingressTotal := tracing.ingressTotal + 1);
      IngressProcess(popped.value);
    }

    /** The rest of ingress_thread for the packet taken from the input arbiter. */
    method IngressProcess(p: Packet)
      requires Valid()
      modifies this`sink, this`tracing, inputBuffer
      ensures Valid()
      ensures var o := IngressOutcome(engine.ingress(p), p.data, p.regs.packetLength, mirroring.sessions,
                                      mirrorSessionIdMask, engine, dropPort, nbQueuesPerPort);
        && sink == old(sink) + o.actions
        && tracing == old(tracing).(ingressDrop := old(tracing.ingressDrop) + (if o.dropped then 1 else 0))
        && inputBuffer.queueHi == PushIfRoom(old(inputBuffer.queueHi), o.toInput, CAPACITY_HI)
        && inputBuffer.queueLo == old(inputBuffer.queueLo)
    {
      var ingressSize := p.regs.packetLength;
      var inData := p.data;
      var packet := engine.ingress(p);
      var egressSpec := packet.phv.egressSpec;
      var mgid := 0;
      if packet.phv.mcastGrp.Some? {
        mgid := packet.phv.mcastGrp.value;
      }
      IngressOutcomeParts(packet, inData, ingressSize, mirroring.sessions, mirrorSessionIdMask, engine, dropPort, nbQueuesPerPort);
      packet := IngressCloning(packet, inData, ingressSize);
      IngressFinish(packet, inData, ingressSize, egressSpec, mgid);
    }

    /** Ingress cloning: when requested and the masked session is configured, send a re-parsed copy. */
    method IngressCloning(p: Packet, inData: seq<bv8>, ingressSize: nat) returns (packet: Packet)
      modifies this`sink
      ensures packet == ClearCloneRequest(p)
      ensures sink == old(sink) + CloneActions(p, IngressCloneCopy(p, inData, ingressSize, engine),
                                               mirroring.sessions, mirrorSessionIdMask, engine, nbQueuesPerPort)
    {
      packet := p;
      var cloneId := packet.regs.cloneMirrorSessionId;
      var cloneFieldList := packet.regs.cloneFieldList;
      if cloneId != 0 {
        packet := packet.(regs := packet.regs.(cloneMirrorSessionId := 0, cloneFieldList := 0));
        var config := mirroring.GetSession(BitAnd(cloneId, mirrorSessionIdMask));
        if config.Some? {
          var copy := Packet(packet.id, packet.ingressPort, packet.egressPort, inData, ClearedRegisters(ingressSize), engine.blankPhv);
          copy := engine.parse(copy);
          copy := copy.(phv := CopyFieldList(engine, cloneFieldList, copy.phv, packet.phv, IngressClone));
          SendClone(copy, config.value);
        }
      }
    }

    /** Learning, then the one fate of the original: resubmit, multicast, drop or enqueue. */
    method IngressFinish(packet: Packet, inData: seq<bv8>, ingressSize: nat, egressSpec: nat, mgid: nat)
      requires Valid()
      requires egressSpec == packet.phv.egressSpec && mgid == Mgid(packet)
      modifies this`sink, this`tracing, inputBuffer
      ensures Valid()
      ensures var fate := IngressFate(packet, inData, ingressSize, engine, dropPort, nbQueuesPerPort);
        && sink == old(sink) + LearnActions(packet) + fate.actions
        && tracing == old(tracing).(ingressDrop := old(tracing.ingressDrop) + (if fate.dropped then 1 else 0))
        && inputBuffer.queueHi == PushIfRoom(old(inputBuffer.queueHi), fate.toInput, CAPACITY_HI)
        && inputBuffer.queueLo == old(inputBuffer.queueLo)
    {
      // learning
      var learnId := packet.regs.lfFieldList;
      if learnId > 0 {
        sink := sink + [Learn(learnId, packet)];
      }

      // resubmit
      var resubmitFlag := packet.regs.resubmitFlag;
      if resubmitFlag != 0 {
        var copyPhv := CopyFieldList(engine, resubmitFlag, engine.blankPhv, packet.phv, InstanceType.Resubmit);
        var copy := Packet(packet.id, packet.ingressPort, packet.egressPort, inData, ClearedRegisters(ingressSize),
                           copyPhv.(packetLength := ingressSize));
        var _ := inputBuffer.Push(PacketType.Resubmit, copy);
        return;
      }

      // multicast: the original is discarded
      if mgid != 0 {
        var original := packet.(phv := packet.phv.(instanceType := Replication));
        var _ := Multicast(original, mgid);
        return;
      }

      // drop
      if egressSpec == dropPort {
        tracing := tracing.(ingressDrop := tracing.ingressDrop + 1);
        return;
      }
      var original := packet.(phv := packet.phv.(instanceType := InstanceType.Normal));
      Enqueue(egressSpec, original);
    }

    /**
     * egress_thread after its pop from the egress buffers (which are not part
     * of this model): popped is the (port, priority, packet) taken, or None
     * when the buffers were empty.
     */
    method EgressThread(popped: Option<(nat, nat, Packet)>)
      requires Valid()
      modifies this`sink, this`tracing, inputBuffer
      ensures Valid()
      ensures inputBuffer.queueLo == old(inputBuffer.queueLo)
      ensures popped.None? ==>
        sink == old(sink) && tracing == old(tracing) && inputBuffer.queueHi == old(inputBuffer.queueHi)
      ensures popped.Some? ==>
        var o := EgressOutcome(popped.value.2, popped.value.0, mirroring.sessions,
                               mirrorSessionIdMask, engine, dropPort, nbQueuesPerPort);
        && sink == old(sink) + o.actions
        && tracing == old(tracing).(egressTotal := old(tracing.egressTotal) + 1,
                                    egressDrop := old(tracing.egressDrop) + (if o.dropped then 1 else 0))
        && inputBuffer.queueHi == PushIfRoom(old(inputBuffer.queueHi), o.toInput, CAPACITY_HI)
    {
      if popped.None? {
        return;
      }
      var (port, _, p0) := popped.value;
      tracing := tracing.(egressTotal := tracing.egressTotal + 1);
      var packet := EnterEgress(p0, port);
      packet := engine.egress(packet);
      packet := EgressCloning(packet);
      EgressFinish(packet);
    }

    /** The fields egress_thread sets before the egress pipeline: egress port, egress spec 0, packet length from the register. */
    method EnterEgress(p0: Packet, port: nat) returns (packet: Packet)
      ensures packet == EgressEntry(p0, port)
    {
      packet := p0.(phv := p0.phv.(egressPort := port));
      packet := packet.(phv := packet.phv.(egressSpec := 0));
      packet := packet.(phv := packet.phv.(packetLength := packet.regs.packetLength));
    }

    /** Egress cloning: when requested and the masked session is configured, send a copy of the PHV. */
    method EgressCloning(p: Packet) returns (packet: Packet)
      modifies this`sink
      ensures packet == ClearCloneRequest(p)
      ensures sink == old(sink) + CloneActions(p, EgressCloneCopy(p, engine), mirroring.sessions,
                                               mirrorSessionIdMask, engine, nbQueuesPerPort)
    {
      packet := p;
      var cloneId := packet.regs.cloneMirrorSessionId;
      var cloneFieldList := packet.regs.cloneFieldList;
      if cloneId != 0 {
        packet := packet.(regs := packet.regs.(cloneMirrorSessionId := 0, cloneFieldList := 0));
        var config := mirroring.GetSession(BitAnd(cloneId, mirrorSessionIdMask));
        if config.Some? {
          var copy := packet.(phv := CopyFieldList(engine, cloneFieldList, packet.phv, packet.phv, EgressClone));
          var packetSize := packet.regs.packetLength;
          copy := copy.(regs := ClearedRegisters(packetSize));
          SendClone(copy, config.value);
        }
      }
    }

    /** After egress cloning: drop, or deparse and then recirculate or output. */
    method EgressFinish(p: Packet)
      requires Valid()
      modifies this`sink, this`tracing, inputBuffer
      ensures Valid()
      ensures var fate := EgressFate(p, engine, dropPort);
        && sink == old(sink) + fate.actions
        && tracing == old(tracing).(egressDrop := old(tracing.egressDrop) + (if fate.dropped then 1 else 0))
        && inputBuffer.queueHi == PushIfRoom(old(inputBuffer.queueHi), fate.toInput, CAPACITY_HI)
        && inputBuffer.queueLo == old(inputBuffer.queueLo)
    {
      var packet := p;
      // drop
      if packet.phv.egressSpec == dropPort {
        tracing := tracing.(egressDrop := tracing.egressDrop + 1);
        return;
      }

      packet := engine.deparse(packet);

      // recirculate
      var recirculateFlag := packet.regs.recirculateFlag;
      if recirculateFlag != 0 {
        var copyPhv := CopyFieldList(engine, recirculateFlag, engine.blankPhv, packet.phv, Recirc);
        var packetSize := |packet.data|;
        var copy := Packet(packet.id, packet.ingressPort, packet.egressPort, packet.data, ClearedRegisters(packetSize),
                           copyPhv.(packetLength := packetSize));
        var _ := inputBuffer.Push(PacketType.Recirculate, copy);
        return;
      }

      sink := sink + [ToOutput(packet)];
    }

    /**
     * The packet ReceivePacket builds: metadata reset, ingress port, length
     * and instance type set, and the ns-3 fields filled where the PHV has them.
     */
    method NewPacket(id: nat, inPort: nat, data: seq<bv8>, protocol: nat, index: nat) returns (packet: Packet)
      ensures packet == ReceivedPacket(engine, id, inPort, data, protocol, index)
    {
      var phv := ResetMetadata(engine.blankPhv);
      phv := phv.(ingressPort := inPort);
      phv := phv.(packetLength := |data|);
      phv := phv.(instanceType := InstanceType.Normal);
      if phv.ns3Protocol.Some? {
        phv := phv.(ns3Protocol := Some(protocol));
      }
      if phv.ns3Destination.Some? {
        phv := phv.(ns3Destination := Some(index));
      }
      if phv.ns3PktId.Some? {
        phv := phv.(ns3PktId := Some(id));
      }
      packet := Packet(id, inPort, 0, data, ClearedRegisters(|data|), phv);
    }

    /**
     * ReceivePacket: stamp the next packet id, reset the metadata, record the
     * protocol, intern the destination, and push the packet as NORMAL.
     */
    method ReceivePacket(data: seq<bv8>, inPort: nat, protocol: nat, destination: Address) returns (r: int)
      requires Valid()
      requires |inputBuffer.queueLo| < CAPACITY_LO
      modifies this`pktId, this`tracing, this`destinationList, inputBuffer
      ensures Valid()
      ensures r == 0
      ensures pktId == old(pktId) + 1
      ensures tracing == old(tracing).(totalIn := old(tracing.totalIn) + 1)
      ensures destinationList == Intern(old(destinationList), destination).0
      ensures inputBuffer.queueLo == PushFront(old(inputBuffer.queueLo),
        ReceivedPacket(engine, old(pktId), inPort, data, protocol, Intern(old(destinationList), destination).1))
      ensures inputBuffer.queueHi == old(inputBuffer.queueHi)
    {
      var id := pktId;
      pktId := pktId + 1;
      tracing := tracing.(totalIn := tracing.totalIn + 1);

      var index: nat;
      var found := IndexOf(destinationList, destination);
      if found.None? {
        destinationList := destinationList + [destination];
        index := |destinationList| - 1;
      } else {
        index := found.value;
      }
      InternProperties(old(destinationList), destination);

      var packet := NewPacket(id, inPort, data, protocol, index);
      var _ := inputBuffer.Push(PacketType.Normal, packet);
      r := 0;
    }

    /**
     * RunIngressTimerEvent without the rescheduling itself: run the ingress
     * thread when get_size() is positive and return the delay chosen for the
     * next event. get_size() reports the capacities, so the branch taken
     * never depends on the packets held.
     */
    method RunIngressTimerEvent() returns (popped: Option<Packet>, delayMicros: nat)
      requires Valid()
      modifies this`sink, this`tracing, inputBuffer
      ensures Valid()
      ensures IngressStepped(popped)
      ensures delayMicros == TimerDelay(CAPACITY_HI + CAPACITY_LO) == 100
    {
      var size := inputBuffer.GetSize();
      popped := None;
      if size > 0 {
        popped := IngressThread();
      }
      delayMicros := TimerDelay(size);
    }

    /** The timer as its branches suggest it was meant: driven by the packets held. */
    method RunIngressTimerEventByOccupancy() returns (popped: Option<Packet>, delayMicros: nat)
      requires Valid()
      modifies this`sink, this`tracing, inputBuffer
      ensures Valid()
      ensures IngressStepped(popped)
      ensures delayMicros == TimerDelay(|old(inputBuffer.queueHi)| + |old(inputBuffer.queueLo)|)
      ensures popped.Some? <==> |old(inputBuffer.queueHi)| + |old(inputBuffer.queueLo)| > 0
    {
      var size := |inputBuffer.queueHi| + |inputBuffer.queueLo|;
      popped := None;
      if size > 0 {
        popped := IngressThread();
      }
      delayMicros := TimerDelay(size);
    }
  }

  /**
   * After interning, the index names the destination; the list grows by one
   * entry exactly when the destination was new, existing entries keep their
   * indices, and the list stays free of duplicates.
   */
  lemma InternProperties(list: seq<Address>, d: Address)
    ensures var (list2, index) := Intern(list, d);
      && index < |list2| && list2[index] == d
      && list2[..|list|] == list
      && (|list2| == |list| + 1 <==> d !in list)
      && (|list2| == |list| <==> d in list)
      && (NoDuplicates(list) ==> NoDuplicates(list2))
  {
  }

  /** Interning a destination that is already known changes nothing and returns its old index. */
  lemma InternIdempotent(list: seq<Address>, d: Address)
    ensures var (list2, index) := Intern(list, d);
      Intern(list2, d) == (list2, index)
  {
  }
}
