/**
 * Packets as the switch core of model/p4-model.cc sees them, and what
 * happens to them after the ingress and egress pipelines, written as pure
 * functions of the post-pipeline packet.
 *
 * The match-action engine (parser, pipelines, deparser, field-list copy,
 * multicast replication) is foreign code: it enters as the function fields
 * of Engine. Everything the switch hands to a component outside this model
 * (the egress buffers, the learn engine, the output buffer) is an Action.
 */
module Packets {
  import opened Wrappers
  import opened Mirroring

  /** standard_metadata.instance_type values (PKT_INSTANCE_TYPE_*). */
  datatype InstanceType = Normal | IngressClone | EgressClone | Recirc | Replication | Resubmit

  /** The packet registers RegisterAccess reads and writes. */
  datatype Registers = Registers(
    packetLength: nat,
    cloneMirrorSessionId: nat,
    cloneFieldList: nat,
    lfFieldList: int,
    resubmitFlag: nat,
    recirculateFlag: nat)

  /**
   * The fields of the packet header vector the switch reads or writes by
   * name. A field the P4 program may not declare is an Option: None when the
   * program lacks it. The ns3i fields stand for either of their two spellings.
   * Every other field is in headers.
   */
  datatype Phv = Phv(
    instanceType: InstanceType,
    ingressPort: nat,
    egressSpec: nat,
    egressPort: nat,
    packetLength: nat,
    egressRid: nat,
    mcastGrp: Option<nat>,
    priority: Option<nat>,
    ns3Protocol: Option<nat>,
    ns3Destination: Option<nat>,
    ns3PktId: Option<nat>,
    headers: seq<int>)

  datatype Packet = Packet(
    id: nat,
    ingressPort: nat,
    egressPort: nat,
    data: seq<bv8>,
    regs: Registers,
    phv: Phv)

  /** One output of a multicast-group lookup. */
  datatype Target = Target(rid: nat, egressPort: nat)

  /** The parts of the bmv2 engine the switch calls but does not define. */
  datatype Engine = Engine(
    blankPhv: Phv,                     // the PHV of a new packet or of a copy made without one
    ingress: Packet -> Packet,         // parse, parser/checksum error fields, ingress apply
    parse: Packet -> Packet,           // the parser alone (re-parse of an ingress clone)
    egress: Packet -> Packet,          // egress apply
    deparse: Packet -> Packet,         // the deparser
    copyFields: (nat, Phv, Phv) -> Phv, // field list id, destination, source -> new destination
    replicate: nat -> seq<Target>)     // the PRE: replication targets of a multicast group

  /** Hand-offs to components outside the model, in the order they happen. */
  datatype Action =
    | ToEgress(port: nat, queue: nat, packet: Packet)   // egress_buffers.push_front
    | Learn(listId: int, packet: Packet)                 // the learn engine
    | ToOutput(packet: Packet)                           // output_buffer.push_front

  /** What one pass through ingress or egress produces. */
  datatype Outcome = Outcome(actions: seq<Action>, toInput: Option<Packet>, dropped: bool)

  /** RegisterAccess::clear_all, then the packet-length register set to length. */
  function ClearedRegisters(length: nat): (r: Registers)
    ensures r.packetLength == length
    ensures r.cloneMirrorSessionId == 0 && r.cloneFieldList == 0 && r.lfFieldList == 0
    ensures r.resubmitFlag == 0 && r.recirculateFlag == 0
  {
    Registers(length, 0, 0, 0, 0, 0)
  }

  /** Present optional field -> Some(v), absent stays absent. */
  function SetIfPresent(f: Option<nat>, v: nat): (r: Option<nat>)
    ensures r.Some? <==> f.Some?
    ensures r.Some? ==> r.value == v
  {
    if f.Some? then Some(v) else None
  }

  /** PHV::reset_metadata: every metadata field to 0; header fields untouched. */
  function ResetMetadata(phv: Phv): (r: Phv)
    ensures r.headers == phv.headers
    ensures r.instanceType == Normal && r.egressSpec == 0 && r.egressPort == 0 && r.packetLength == 0
    ensures r.mcastGrp.Some? == phv.mcastGrp.Some? && r.priority.Some? == phv.priority.Some?
  {
    Phv(Normal, 0, 0, 0, 0, 0,
        SetIfPresent(phv.mcastGrp, 0), SetIfPresent(phv.priority, 0),
        SetIfPresent(phv.ns3Protocol, 0), SetIfPresent(phv.ns3Destination, 0),
        SetIfPresent(phv.ns3PktId, 0), phv.headers)
  }

  /** The copy side of copy_field_list_and_set_type: reset, copy the list from src, tag. */
  function CopyFieldList(e: Engine, listId: nat, dst: Phv, src: Phv, t: InstanceType): (r: Phv)
    ensures r.instanceType == t
  {
    e.copyFields(listId, ResetMetadata(dst), src).(instanceType := t)
  }

  /** A field the program may not declare reads as 0 when absent. */
  function FieldOr0(f: Option<nat>): nat {
    if f.Some? then f.value else 0
  }

  // ---------------------------------------------------------------------------
  // enqueue and multicast
  // ---------------------------------------------------------------------------

  /** The priority enqueue reads from the PHV (0 when the field is absent). */
  function Priority(p: Packet): nat {
    FieldOr0(p.phv.priority)
  }

  /** enqueue(port, p): nothing when the priority is out of range, else one egress-buffer push. */
  function EnqueueActions(port: nat, p: Packet, nbQueues: nat): (acts: seq<Action>)
    ensures |acts| <= 1
    ensures forall a | a in acts :: a.ToEgress? && a.port == port && a.queue < nbQueues
  {
    if Priority(p) >= nbQueues then []
    else [ToEgress(port, nbQueues - 1 - Priority(p), p.(egressPort := port))]
  }

  /** The copy multicast makes for one target: the rid set, registers cleared but for the length. */
  function ReplicaOf(p: Packet, t: Target): (c: Packet)
    ensures c.regs == ClearedRegisters(p.regs.packetLength)
    ensures c.phv.egressRid == t.rid
  {
    p.(phv := p.phv.(egressRid := t.rid), regs := ClearedRegisters(p.regs.packetLength))
  }

  /** The egress-buffer pushes of multicast over targets, in target order. */
  function MulticastActions(p: Packet, targets: seq<Target>, nbQueues: nat): (acts: seq<Action>)
    ensures |acts| <= |targets|
    ensures forall a | a in acts :: a.ToEgress? && a.queue < nbQueues
  {
    if targets == [] then []
    else
      var t := targets[|targets| - 1];
      MulticastActions(p, targets[..|targets| - 1], nbQueues) + EnqueueActions(t.egressPort, ReplicaOf(p, t), nbQueues)
  }

  /** The multicast packet afterwards: its egress_rid is the last target's. */
  function AfterMulticast(p: Packet, targets: seq<Target>): Packet
  {
    if targets == [] then p else p.(phv := p.phv.(egressRid := targets[|targets| - 1].rid))
  }

  // ---------------------------------------------------------------------------
  // Cloning
  // ---------------------------------------------------------------------------

  /** The part of the clone register holding the session id: a bitwise AND with the mask. */
  function BitAnd(a: nat, b: nat): nat
    decreases a
  {
    if a == 0 || b == 0 then 0
    else 2 * BitAnd(a / 2, b / 2) + (if a % 2 == 1 && b % 2 == 1 then 1 else 0)
  }

  /** A cloned packet goes to the session's group (multicast), its port (enqueue), or both. */
  function CloneToSession(copy: Packet, config: SessionConfig, e: Engine, nbQueues: nat): (acts: seq<Action>)
    ensures !config.mgidValid && !config.egressPortValid ==> acts == []
    ensures forall a | a in acts :: a.ToEgress? && a.queue < nbQueues
  {
    var targets := if config.mgidValid then e.replicate(config.mgid) else [];
    (if config.mgidValid then MulticastActions(copy, targets, nbQueues) else [])
    + (if config.egressPortValid then EnqueueActions(config.egressPort, AfterMulticast(copy, targets), nbQueues) else [])
  }

  /** The original packet once a clone request has been taken: both clone registers zero. */
  function ClearCloneRequest(p: Packet): (r: Packet)
    ensures r.regs.cloneMirrorSessionId == 0
    ensures r.phv == p.phv && r.data == p.data
  {
    if p.regs.cloneMirrorSessionId != 0 then p.(regs := p.regs.(cloneMirrorSessionId := 0, cloneFieldList := 0)) else p
  }

  /** The clone actions for a packet whose pipeline requested one (copy is the clone to send). */
  function CloneActions(p: Packet, copy: Packet, sessions: map<int, SessionConfig>, mask: nat, e: Engine, nbQueues: nat): (acts: seq<Action>)
    ensures acts != [] ==> p.regs.cloneMirrorSessionId != 0 && BitAnd(p.regs.cloneMirrorSessionId, mask) in sessions
    ensures forall a | a in acts :: a.ToEgress? && a.queue < nbQueues
  {
    if p.regs.cloneMirrorSessionId == 0 then []
    else match SessionLookup(sessions, BitAnd(p.regs.cloneMirrorSessionId, mask))
      case None => []
      case Some(config) => CloneToSession(copy, config, e, nbQueues)
  }

  // ---------------------------------------------------------------------------
  // After ingress
  // ---------------------------------------------------------------------------

  /** An ingress clone: the unparsed input, registers cleared, parsed again, field list copied. */
  function IngressCloneCopy(p: Packet, inData: seq<bv8>, ingressSize: nat, e: Engine): (c: Packet)
    ensures c.phv.instanceType == IngressClone
  {
    var parsed := e.parse(Packet(p.id, p.ingressPort, p.egressPort, inData, ClearedRegisters(ingressSize), e.blankPhv));
    parsed.(phv := CopyFieldList(e, p.regs.cloneFieldList, parsed.phv, p.phv, IngressClone))
  }

  /** The multicast group the ingress pipeline chose (0: none). */
  function Mgid(p: Packet): nat {
    FieldOr0(p.phv.mcastGrp)
  }

  function LearnActions(p: Packet): seq<Action> {
    if p.regs.lfFieldList > 0 then [Learn(p.regs.lfFieldList, p)] else []
  }

  /** The resubmitted copy: unparsed input, field list copied, length register and field restored. */
  function ResubmitCopy(p: Packet, inData: seq<bv8>, ingressSize: nat, e: Engine): (c: Packet)
    ensures c.data == inData && c.phv.instanceType == Resubmit
    ensures c.regs.packetLength == ingressSize && c.phv.packetLength == ingressSize
  {
    Packet(p.id, p.ingressPort, p.egressPort, inData, ClearedRegisters(ingressSize),
           CopyFieldList(e, p.regs.resubmitFlag, e.blankPhv, p.phv, Resubmit).(packetLength := ingressSize))
  }

  /** The fate of the original after ingress: resubmit, multicast, drop or enqueue, first match wins. */
  function IngressFate(p: Packet, inData: seq<bv8>, ingressSize: nat, e: Engine, dropPort: nat, nbQueues: nat): (f: Outcome)
    ensures f.toInput.Some? ==> p.regs.resubmitFlag != 0 && f.actions == []
    ensures f.dropped ==> p.phv.egressSpec == dropPort && f.actions == []
    ensures forall a | a in f.actions :: a.ToEgress? && a.queue < nbQueues
  {
    if p.regs.resubmitFlag != 0 then
      Outcome([], Some(ResubmitCopy(p, inData, ingressSize, e)), false)
    else if Mgid(p) != 0 then
      Outcome(MulticastActions(p.(phv := p.phv.(instanceType := Replication)), e.replicate(Mgid(p)), nbQueues), None, false)
    else if p.phv.egressSpec == dropPort then
      Outcome([], None, true)
    else
      Outcome(EnqueueActions(p.phv.egressSpec, p.(phv := p.phv.(instanceType := Normal)), nbQueues), None, false)
  }

  /** Everything after the ingress pipeline: clone, then learn, then the fate of the original. */
  function IngressOutcome(p: Packet, inData: seq<bv8>, ingressSize: nat, sessions: map<int, SessionConfig>,
                          mask: nat, e: Engine, dropPort: nat, nbQueues: nat): (o: Outcome)
    ensures forall a | a in o.actions :: a.ToEgress? || a.Learn?
    ensures o.toInput.Some? ==> o.toInput.value.phv.instanceType == Resubmit
  {
    var p1 := ClearCloneRequest(p);
    var fate := IngressFate(p1, inData, ingressSize, e, dropPort, nbQueues);
    Outcome(CloneActions(p, IngressCloneCopy(p, inData, ingressSize, e), sessions, mask, e, nbQueues)
            + LearnActions(p1) + fate.actions,
            fate.toInput, fate.dropped)
  }

  // ---------------------------------------------------------------------------
  // Around egress
  // ---------------------------------------------------------------------------

  /** The packet as the egress pipeline receives it. */
  function EgressEntry(p: Packet, port: nat): (r: Packet)
    ensures r.phv.egressPort == port && r.phv.egressSpec == 0
    ensures r.phv.packetLength == p.regs.packetLength
    ensures r.regs == p.regs && r.data == p.data
  {
    p.(phv := p.phv.(egressPort := port, egressSpec := 0, packetLength := p.regs.packetLength))
  }

  /** An egress clone: the PHV with metadata reset and the field list copied, registers cleared. */
  function EgressCloneCopy(p: Packet, e: Engine): (c: Packet)
    ensures c.phv.instanceType == EgressClone
    ensures c.regs == ClearedRegisters(p.regs.packetLength)
  {
    var p1 := ClearCloneRequest(p);
    p1.(phv := CopyFieldList(e, p.regs.cloneFieldList, p1.phv, p1.phv, EgressClone),
        regs := ClearedRegisters(p1.regs.packetLength))
  }

  /** The recirculated copy: the deparsed data, field list copied, length set to the data size. */
  function RecirculateCopy(p: Packet, e: Engine): (c: Packet)
    ensures c.data == p.data && c.phv.instanceType == Recirc
    ensures c.regs.packetLength == |p.data| && c.phv.packetLength == |p.data|
  {
    Packet(p.id, p.ingressPort, p.egressPort, p.data, ClearedRegisters(|p.data|),
           CopyFieldList(e, p.regs.recirculateFlag, e.blankPhv, p.phv, Recirc).(packetLength := |p.data|))
  }

  /** What follows egress cloning: drop, or deparse and then recirculate or output. */
  function EgressFate(p: Packet, e: Engine, dropPort: nat): (f: Outcome)
    ensures |f.actions| <= 1 && forall a | a in f.actions :: a.ToOutput?
    ensures f.toInput.Some? ==> f.toInput.value.phv.instanceType == Recirc
  {
    if p.phv.egressSpec == dropPort then
      Outcome([], None, true)
    else
      var p2 := e.deparse(p);
      if p2.regs.recirculateFlag != 0 then Outcome([], Some(RecirculateCopy(p2, e)), false)
      else Outcome([ToOutput(p2)], None, false)
  }

  /** One pass of the egress thread over a packet popped from the given port. */
  function EgressOutcome(p: Packet, port: nat, sessions: map<int, SessionConfig>,
                         mask: nat, e: Engine, dropPort: nat, nbQueues: nat): (o: Outcome)
    ensures forall a | a in o.actions :: a.ToEgress? || a.ToOutput?
    ensures o.toInput.Some? ==> o.toInput.value.phv.instanceType == Recirc
  {
    var q := e.egress(EgressEntry(p, port));
    var fate := EgressFate(ClearCloneRequest(q), e, dropPort);
    Outcome(CloneActions(q, EgressCloneCopy(q, e), sessions, mask, e, nbQueues) + fate.actions,
            fate.toInput, fate.dropped)
  }
}
