/**
 * The input arbiter in front of the ingress pipeline (class
 * P4Model::InputBuffer in model/p4-model.cc): resubmitted and recirculated
 * packets (and the shutdown sentinel) go to a high-priority queue, packets
 * from the ports to a low-priority one. Both are deques: push_front adds the
 * newest item at index 0 and pop_back takes the oldest from the end.
 */
module InputArbiter {
  import opened Wrappers

  datatype PacketType = Normal | Resubmit | Recirculate | Sentinel

  /** Which queue a packet type goes to, and whether a push of that type waits for room. */
  predicate ToHighQueue(t: PacketType) {
    t != Normal
  }

  predicate Blocking(t: PacketType) {
    t == Normal || t == Sentinel
  }

  /** A queue after push_front(x). */
  function PushFront<T>(q: seq<T>, x: T): (r: seq<T>)
    ensures |r| == |q| + 1 && r[0] == x && r[1..] == q
  {
    [x] + q
  }

  /** The item pop_back removes (the oldest) and the queue left behind. */
  function Back<T>(q: seq<T>): T
    requires q != []
  {
    q[|q| - 1]
  }

  function DropBack<T>(q: seq<T>): (r: seq<T>)
    requires q != []
    ensures |r| == |q| - 1
  {
    q[..|q| - 1]
  }

  /** What pop_back yields from the two queues, and the queues it leaves. */
  function Oldest<T>(hi: seq<T>, lo: seq<T>): (r: Option<T>)
    ensures r.None? <==> hi == [] && lo == []
  {
    if hi != [] then Some(Back(hi)) else if lo != [] then Some(Back(lo)) else None
  }

  function HiAfterPop<T>(hi: seq<T>, lo: seq<T>): seq<T>
  {
    if hi != [] then DropBack(hi) else hi
  }

  function LoAfterPop<T>(hi: seq<T>, lo: seq<T>): seq<T>
  {
    if hi == [] && lo != [] then DropBack(lo) else lo
  }

  /** A non-blocking push of an optional item: refused when the queue is full. */
  function PushIfRoom<T>(q: seq<T>, item: Option<T>, capacity: nat): (r: seq<T>)
    ensures |q| <= capacity ==> |r| <= capacity
  {
    if item.Some? && |q| < capacity then PushFront(q, item.value) else q
  }

  class InputBuffer<T> {
    const capacityHi: nat
    const capacityLo: nat
    var queueHi: seq<T>
    var queueLo: seq<T>

    ghost predicate Valid()
      reads this
    {
      |queueHi| <= capacityHi && |queueLo| <= capacityLo
    }

    constructor(capacityHi: nat, capacityLo: nat)
      ensures Valid()
      ensures this.capacityHi == capacityHi && this.capacityLo == capacityLo
      ensures queueHi == [] && queueLo == []
    {
      this.capacityHi := capacityHi;
      this.capacityLo := capacityLo;
      queueHi := [];
      queueLo := [];
    }

    /**
     * push_front: normal packets to the low queue, all other types to the
     * high queue. Resubmit and recirculate pushes into a full queue are
     * refused (result 0); normal and sentinel pushes wait for room, which a
     * sequential model cannot do, so the queue must have room.
     */
    method Push(packetType: PacketType, item: T) returns (r: int)
      requires Valid()
      requires packetType == Normal ==> |queueLo| < capacityLo
      requires packetType == Sentinel ==> |queueHi| < capacityHi
      modifies this
      ensures Valid()
      ensures r == 0 || r == 1
      ensures r == 0 <==> !Blocking(packetType) && |old(queueHi)| == capacityHi
      ensures r == 1 && ToHighQueue(packetType) ==> queueHi == PushFront(old(queueHi), item) && queueLo == old(queueLo)
      ensures r == 1 && !ToHighQueue(packetType) ==> queueLo == PushFront(old(queueLo), item) && queueHi == old(queueHi)
      ensures r == 0 ==> queueHi == old(queueHi) && queueLo == old(queueLo)
    {
      match packetType
      case Normal =>
        r := PushInto(false, item, true);
      case Resubmit =>
        r := PushInto(true, item, false);
      case Recirculate =>
        r := PushInto(true, item, false);
      case Sentinel =>
        r := PushInto(true, item, true);
    }

    /** The private push_front on one queue: a full queue refuses a non-blocking push. */
    method PushInto(hi: bool, item: T, blocking: bool) returns (r: int)
      requires Valid()
      requires blocking ==> if hi then |queueHi| < capacityHi else |queueLo| < capacityLo
      modifies this
      ensures Valid()
      ensures r == (if (if hi then |old(queueHi)| == capacityHi else |old(queueLo)| == capacityLo) then 0 else 1)
      ensures r == 1 && hi ==> queueHi == PushFront(old(queueHi), item) && queueLo == old(queueLo)
      ensures r == 1 && !hi ==> queueLo == PushFront(old(queueLo), item) && queueHi == old(queueHi)
      ensures r == 0 ==> queueHi == old(queueHi) && queueLo == old(queueLo)
    {
      var size := if hi then |queueHi| else |queueLo|;
      var capacity := if hi then capacityHi else capacityLo;
      if size == capacity {
        return 0;
      }
      if hi {
        queueHi := PushFront(queueHi, item);
      } else {
        queueLo := PushFront(queueLo, item);
      }
      r := 1;
    }

    /**
     * pop_back: the oldest high-priority item if there is one, else the
     * oldest normal one; with both queues empty nothing happens and the
     * caller's slot stays empty.
     */
    method PopBack() returns (item: Option<T>)
      requires Valid()
      modifies this
      ensures Valid()
      ensures item == Oldest(old(queueHi), old(queueLo))
      ensures queueHi == HiAfterPop(old(queueHi), old(queueLo)) && queueLo == LoAfterPop(old(queueHi), old(queueLo))
      ensures old(queueHi) != [] ==>
        item == Some(Back(old(queueHi))) && queueHi == DropBack(old(queueHi)) && queueLo == old(queueLo)
      ensures old(queueHi) == [] && old(queueLo) != [] ==>
        item == Some(Back(old(queueLo))) && queueLo == DropBack(old(queueLo)) && queueHi == old(queueHi)
      ensures old(queueHi) == [] && old(queueLo) == [] ==>
        item == None && queueHi == old(queueHi) && queueLo == old(queueLo)
    {
      item := None;
      if |queueHi| > 0 || |queueLo| > 0 {
        if |queueHi| > 0 {
          item := Some(Back(queueHi));
          queueHi := DropBack(queueHi);
        } else {
          item := Some(Back(queueLo));
          queueLo := DropBack(queueLo);
        }
      }
    }

    /** get_size: the sum of the two capacities, not the number of packets held. */
    method GetSize() returns (size: nat)
      requires Valid()
      ensures size == capacityHi + capacityLo
      ensures size >= |queueHi| + |queueLo|
    {
      size := capacityHi + capacityLo;
    }
  }

  // ---------------------------------------------------------------------------
  // FIFO order within a queue
  // ---------------------------------------------------------------------------

  /** The queue after pushing xs[0], xs[1], ... in that order. */
  function PushAll<T>(q: seq<T>, xs: seq<T>): seq<T>
    decreases |xs|
  {
    if xs == [] then q else PushAll(PushFront(q, xs[0]), xs[1..])
  }

  /** The items pop_back yields, in order, until the queue is empty. */
  function PopAll<T>(q: seq<T>): seq<T>
    decreases |q|
  {
    if q == [] then [] else [Back(q)] + PopAll(DropBack(q))
  }

  lemma {:induction false} PushAllIsReversedPrefix<T>(q: seq<T>, xs: seq<T>)
    ensures PushAll(q, xs) == Rev(xs) + q
    decreases |xs|
  {
    if xs != [] {
      PushAllIsReversedPrefix(PushFront(q, xs[0]), xs[1..]);
      assert xs == [xs[0]] + xs[1..];
      assert Rev(xs) == Rev(xs[1..]) + [xs[0]];
    }
  }

  function Rev<T>(s: seq<T>): (r: seq<T>)
    ensures |r| == |s|
  {
    if s == [] then [] else Rev(s[1..]) + [s[0]]
  }

  lemma {:induction false} PopAllOfRev<T>(xs: seq<T>)
    ensures PopAll(Rev(xs)) == xs
  {
    if xs != [] {
      var r := Rev(xs);
      assert r == Rev(xs[1..]) + [xs[0]];
      assert Back(r) == xs[0];
      assert DropBack(r) == Rev(xs[1..]);
      PopAllOfRev(xs[1..]);
      assert xs == [xs[0]] + xs[1..];
    }
  }

  /** FIFO: items pushed into an empty queue come out of pop_back in the order they were pushed. */
  lemma FifoOrder<T>(xs: seq<T>)
    ensures PopAll(PushAll([], xs)) == xs
  {
    PushAllIsReversedPrefix([], xs);
    assert Rev(xs) + [] == Rev(xs);
    PopAllOfRev(xs);
  }
}
