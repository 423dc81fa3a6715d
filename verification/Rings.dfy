/** The rings between the driver and an xHCI controller (kernel/usb/host/xhci/xhci.cpp; sections 4.9.2 to 4.9.4 of
    the xHCI specification): a producer and a consumer that agree by cycle bits alone. */
module Rings {
  import opened Basics

  const TYPE_LINK: nat := 6
  const TYPE_PORT_STATUS_CHANGE: nat := 34

  /** A transfer request block; the lowest control bit is the cycle bit, bit 1 of a link toggles the cycle, and
      bits 10 to 15 are the type. */
  datatype Trb = Trb(param0: nat, param1: nat, status: nat, control: nat)

  predicate CycleOf(t: Trb) {
    t.control % 2 == 1
  }

  function WithCycle(t: Trb, cycle: bool): Trb {
    t.(control := t.control - t.control % 2 + if cycle then 1 else 0)
  }

  function TypeOf(t: Trb): nat {
    t.control / 0x400 % 0x40
  }

  predicate Toggles(t: Trb) {
    t.control / 2 % 2 == 1
  }

  const ZERO_TRB: Trb := Trb(0, 0, 0, 0)
  const LINK_TRB: Trb := Trb(0, 0, 0, TYPE_LINK * 0x400 + 2)

  /** What the entries say whatever their cycle bits. */
  function Payloads(ring: seq<Trb>): seq<Trb> {
    seq(|ring|, i requires 0 <= i < |ring| => WithCycle(ring[i], false))
  }

  /** The slots before the enqueue index have the producer's cycle bit, the others the opposite one. */
  ghost predicate CyclesSplit(ring: seq<Trb>, enqueue: nat, cycle: bool) {
    enqueue <= |ring| && forall i :: 0 <= i < |ring| ==> CycleOf(ring[i]) == if i < enqueue then cycle else !cycle
  }

  // ----- command and transfer rings

  /** The last slot is a link back to the first that toggles the cycle; no other slot is one. */
  ghost predicate Linked(ring: seq<Trb>) {
    && |ring| >= 2 && TypeOf(ring[|ring| - 1]) == TYPE_LINK && Toggles(ring[|ring| - 1])
    && forall i :: 0 <= i < |ring| - 1 ==> TypeOf(ring[i]) != TYPE_LINK
  }

  /** Producer and consumer agree: `queue` is what was pushed and not taken, in order. */
  ghost predicate Synced(ring: seq<Trb>, enqueue: nat, cycle: bool, dequeue: nat, consumerCycle: bool, queue: seq<Trb>) {
    && Linked(ring) && enqueue < |ring| - 1 && dequeue < |ring| - 1 && CyclesSplit(ring, enqueue, cycle)
    && if consumerCycle == cycle then
         dequeue <= enqueue && queue == Payloads(ring[dequeue..enqueue])
       else
         enqueue <= dequeue && queue == Payloads(ring[dequeue..|ring| - 1]) + Payloads(ring[..enqueue])
  }

  lemma SyncedStart(ring: seq<Trb>)
    requires |ring| >= 2 && ring[|ring| - 1] == LINK_TRB && forall i :: 0 <= i < |ring| - 1 ==> ring[i] == ZERO_TRB
    ensures Synced(ring, 0, true, 0, true, [])
  {
    assert TypeOf(LINK_TRB) == TYPE_LINK && TypeOf(ZERO_TRB) == 0;
  }

  /** The cycle bit is not part of the others. */
  lemma LowBit(q: nat, b: nat)
    requires b <= 1
    ensures (2 * q + b) % 2 == b && (2 * q + b) / 2 == q
  {}

  lemma TypeBits(a: nat, q: nat)
    requires a == 2 * q || a == 2 * q + 1
    ensures a / 0x400 == q / 0x200
  {
    var j, k := a / 0x400, q / 0x200;
    assert 0x400 * j <= a < 0x400 * j + 0x400;
    assert 0x200 * k <= q < 0x200 * k + 0x200;
  }

  lemma CycleFacts(t: Trb, cycle: bool)
    ensures CycleOf(WithCycle(t, cycle)) == cycle && TypeOf(WithCycle(t, cycle)) == TypeOf(t)
    ensures Toggles(WithCycle(t, cycle)) == Toggles(t)
    ensures WithCycle(WithCycle(t, cycle), false) == WithCycle(t, false)
  {
    var q, b := t.control / 2, t.control % 2;
    LowBit(q, 0);
    LowBit(q, 1);
    TypeBits(t.control, q);
    TypeBits(WithCycle(t, cycle).control, q);
  }

  /** The ring after a push. */
  ghost function Pushed(ring: seq<Trb>, enqueue: nat, cycle: bool, t: Trb): seq<Trb>
    requires enqueue + 1 < |ring|
  {
    var n, ring1 := |ring|, ring[enqueue := WithCycle(t, cycle)];
    if enqueue + 1 == n - 1 then ring1[n - 1 := WithCycle(ring1[n - 1], cycle)] else ring1
  }

  /** A push while fewer than the ring's slots less one are outstanding adds at the end of the queue. */
  lemma PushSynced(ring: seq<Trb>, enqueue: nat, cycle: bool, dequeue: nat, consumerCycle: bool, queue: seq<Trb>, t: Trb)
    requires Synced(ring, enqueue, cycle, dequeue, consumerCycle, queue) && |queue| < |ring| - 1
    requires TypeOf(t) != TYPE_LINK
    ensures var n, ring1 := |ring|, ring[enqueue := WithCycle(t, cycle)];
      if enqueue + 1 == n - 1 then
        Synced(ring1[n - 1 := WithCycle(ring1[n - 1], cycle)], 0, !cycle, dequeue, consumerCycle, queue + [WithCycle(t, false)])
      else
        Synced(ring1, enqueue + 1, cycle, dequeue, consumerCycle, queue + [WithCycle(t, false)])
  {
    var n, ring1 := |ring|, ring[enqueue := WithCycle(t, cycle)];
    CycleFacts(t, cycle);
    CycleFacts(ring1[n - 1], cycle);
    var ring2 := if enqueue + 1 == n - 1 then ring1[n - 1 := WithCycle(ring1[n - 1], cycle)] else ring1;
    if consumerCycle == cycle {
      assert ring2[dequeue..enqueue] == ring[dequeue..enqueue];
      assert ring2[dequeue..enqueue + 1] == ring[dequeue..enqueue] + [ring2[enqueue]];
      PayloadsJoin(ring[dequeue..enqueue], [ring2[enqueue]]);
    } else {
      assert ring2[dequeue..n - 1] == ring[dequeue..n - 1];
      assert ring2[..enqueue + 1] == ring[..enqueue] + [ring2[enqueue]];
      PayloadsJoin(ring[..enqueue], [ring2[enqueue]]);
    }
  }

  lemma PayloadsJoin(a: seq<Trb>, b: seq<Trb>)
    ensures Payloads(a + b) == Payloads(a) + Payloads(b)
  {}

  /** The consumer finds the first entry of the queue, and nothing exactly when the queue is empty. */
  lemma TakeSynced(ring: seq<Trb>, enqueue: nat, cycle: bool, dequeue: nat, consumerCycle: bool, queue: seq<Trb>)
    requires Synced(ring, enqueue, cycle, dequeue, consumerCycle, queue)
    ensures CycleOf(ring[dequeue]) == consumerCycle <==> queue != []
    ensures queue != [] ==>
      && WithCycle(ring[dequeue], false) == queue[0] && TypeOf(ring[dequeue]) != TYPE_LINK
      && if dequeue + 1 == |ring| - 1 then
           && CycleOf(ring[|ring| - 1]) == consumerCycle && TypeOf(ring[|ring| - 1]) == TYPE_LINK && Toggles(ring[|ring| - 1])
           && Synced(ring, enqueue, cycle, 0, !consumerCycle, queue[1..])
         else
           TypeOf(ring[dequeue + 1]) != TYPE_LINK && Synced(ring, enqueue, cycle, dequeue + 1, consumerCycle, queue[1..])
  {
    if queue != [] {
      if consumerCycle == cycle {
        assert ring[dequeue..enqueue] == [ring[dequeue]] + ring[dequeue + 1..enqueue];
        PayloadsJoin([ring[dequeue]], ring[dequeue + 1..enqueue]);
      } else {
        assert ring[dequeue..|ring| - 1] == [ring[dequeue]] + ring[dequeue + 1..|ring| - 1];
        PayloadsJoin([ring[dequeue]], ring[dequeue + 1..|ring| - 1]);
        assert ring[0..enqueue] == ring[..enqueue];
      }
    }
  }

  /** The driver's end of a command or transfer ring. */
  class ProducerRing {
    const ring: array<Trb>
    const size: nat
    var enqueue: nat
    var cycle: bool

    /** A zeroed ring whose last slot links back to the first. */
    constructor (size: nat)
      requires size >= 2
      ensures fresh(ring) && this.size == size && ring.Length == size && enqueue == 0 && cycle
      ensures Synced(ring[..], 0, true, 0, true, [])
    {
      this.size := size;
      ring := new Trb[size](_ => ZERO_TRB);
      enqueue, cycle := 0, true;
      new;
      ring[size - 1] := LINK_TRB;
      SyncedStart(ring[..]);
    }

    /** Writes a TRB with the current cycle bit; at the end of the ring the link is handed over too, and the cycle
        changes. `PushCommand` and `PushTransfer` are both this. */
    method Push(param0: nat, param1: nat, status: nat, control: nat,
                ghost dequeue: nat, ghost consumerCycle: bool, ghost queue: seq<Trb>)
      requires ring.Length == size && Synced(ring[..], enqueue, cycle, dequeue, consumerCycle, queue)
      requires control % 2 == 0 && TypeOf(Trb(param0, param1, status, control)) != TYPE_LINK
      requires |queue| < size - 1
      modifies this, ring
      ensures ring[..] == Pushed(old(ring[..]), old(enqueue), old(cycle), Trb(param0, param1, status, control))
      ensures if old(enqueue) + 1 == size - 1 then enqueue == 0 && cycle == !old(cycle)
              else enqueue == old(enqueue) + 1 && cycle == old(cycle)
      ensures Synced(ring[..], enqueue, cycle, dequeue, consumerCycle, queue + [Trb(param0, param1, status, control)])
    {
      ghost var before, t := ring[..], Trb(param0, param1, status, control);
      PushSynced(before, enqueue, cycle, dequeue, consumerCycle, queue, t);
      ring[enqueue] := Trb(param0, param1, status, control + if cycle then 1 else 0);
      assert ring[..] == before[enqueue := WithCycle(t, cycle)];
      enqueue := enqueue + 1;
      if enqueue == size - 1 {
        ring[enqueue] := WithCycle(ring[enqueue], cycle);
        cycle := !cycle;
        enqueue := 0;
      }
    }
  }

  /** The controller's end: it reads slots whose cycle bit is its own, and follows links. */
  class ConsumerRing {
    const ring: array<Trb>
    var dequeue: nat
    var cycle: bool

    constructor (ring: array<Trb>)
      ensures this.ring == ring && dequeue == 0 && cycle
    {
      this.ring := ring;
      dequeue, cycle := 0, true;
    }

    /** Takes the next TRB, if there is one, and goes on past a link that was handed over. */
    method Take(ghost enqueue: nat, ghost producerCycle: bool, ghost queue: seq<Trb>) returns (t: Option<Trb>)
      requires Synced(ring[..], enqueue, producerCycle, dequeue, cycle, queue)
      modifies this
      ensures t.Some? <==> queue != []
      ensures t.Some? ==> WithCycle(t.value, false) == queue[0]
      ensures Synced(ring[..], enqueue, producerCycle, dequeue, cycle, if queue == [] then [] else queue[1..])
    {
      TakeSynced(ring[..], enqueue, producerCycle, dequeue, cycle, queue);
      if CycleOf(ring[dequeue]) != cycle {
        return None;
      }
      t := Some(ring[dequeue]);
      dequeue := dequeue + 1;
      if TypeOf(ring[dequeue]) == TYPE_LINK && CycleOf(ring[dequeue]) == cycle {
        if Toggles(ring[dequeue]) {
          cycle := !cycle;
        }
        dequeue := 0;
      }
    }
  }

  datatype RingOp = PushOp(t: Trb) | TakeOp

  /** The first-in first-out queue of a given capacity that a ring implements. */
  ghost predicate FifoLegal(queue: seq<Trb>, ops: seq<RingOp>, capacity: nat)
    decreases |ops|
  {
    ops == [] ||
    match ops[0]
    case PushOp(t) =>
      |queue| < capacity && t.control % 2 == 0 && TypeOf(t) != TYPE_LINK && FifoLegal(queue + [t], ops[1..], capacity)
    case TakeOp => FifoLegal(if queue == [] then [] else queue[1..], ops[1..], capacity)
  }

  function FifoTakes(queue: seq<Trb>, ops: seq<RingOp>): seq<Trb>
    decreases |ops|
  {
    if ops == [] then []
    else match ops[0]
      case PushOp(t) => FifoTakes(queue + [t], ops[1..])
      case TakeOp => if queue == [] then FifoTakes([], ops[1..]) else [queue[0]] + FifoTakes(queue[1..], ops[1..])
  }

  lemma FifoStep(queue: seq<Trb>, ops: seq<RingOp>, i: nat, capacity: nat)
    requires i < |ops| && FifoLegal(queue, ops[i..], capacity)
    ensures match ops[i]
      case PushOp(t) =>
        && |queue| < capacity && t.control % 2 == 0 && TypeOf(t) != TYPE_LINK
        && FifoLegal(queue + [t], ops[i + 1..], capacity)
        && FifoTakes(queue, ops[i..]) == FifoTakes(queue + [t], ops[i + 1..])
      case TakeOp =>
        if queue == [] then FifoLegal([], ops[i + 1..], capacity) && FifoTakes([], ops[i..]) == FifoTakes([], ops[i + 1..])
        else FifoLegal(queue[1..], ops[i + 1..], capacity) && FifoTakes(queue, ops[i..]) == [queue[0]] + FifoTakes(queue[1..], ops[i + 1..])
  {
    assert ops[i..][1..] == ops[i + 1..];
  }

  /** Any run of pushes and takes across any number of wraps: the controller sees exactly what a queue of capacity
      `size - 1` would give it. */
  method RunRing(size: nat, ops: seq<RingOp>) returns (taken: seq<Trb>)
    requires size >= 2 && FifoLegal([], ops, size - 1)
    ensures taken == FifoTakes([], ops)
  {
    hide Synced, FifoLegal, FifoTakes, TypeOf, WithCycle;
    var producer := new ProducerRing(size);
    var consumer := new ConsumerRing(producer.ring);
    ghost var queue: seq<Trb> := [];
    taken := [];
    assert ops[0..] == ops;
    FifoEnds(queue);
    for i := 0 to |ops|
      invariant fresh(producer) && fresh(producer.ring) && fresh(consumer) && consumer.ring == producer.ring
      invariant producer.ring.Length == producer.size == size
      invariant Synced(producer.ring[..], producer.enqueue, producer.cycle, consumer.dequeue, consumer.cycle, queue)
      invariant FifoLegal(queue, ops[i..], size - 1) && taken + FifoTakes(queue, ops[i..]) == FifoTakes([], ops)
    {
      FifoStep(queue, ops, i, size - 1);
      match ops[i]
      case PushOp(t) =>
        producer.Push(t.param0, t.param1, t.status, t.control, consumer.dequeue, consumer.cycle, queue);
        queue := queue + [t];
      case TakeOp =>
        var t := consumer.Take(producer.enqueue, producer.cycle, queue);
        if t.Some? {
          taken := taken + [WithCycle(t.value, false)];
          queue := queue[1..];
        }
    }
    assert ops[|ops|..] == [];
    FifoEnds(queue);
  }

  lemma FifoEnds(queue: seq<Trb>)
    ensures FifoTakes(queue, []) == []
  {}

  // ----- a controller that may wait before the link

  /** Producer and consumer agree while the consumer may stand at the link, which was handed over to it; from there it
      sees what it would see at the beginning of the ring with the other cycle bit. */
  ghost predicate Lagging(ring: seq<Trb>, enqueue: nat, cycle: bool, dequeue: nat, consumerCycle: bool, queue: seq<Trb>) {
    if dequeue + 1 == |ring| then CycleOf(ring[dequeue]) == consumerCycle && Synced(ring, enqueue, cycle, 0, !consumerCycle, queue)
    else Synced(ring, enqueue, cycle, dequeue, consumerCycle, queue)
  }

  /** A push into a ring with room for it breaks the agreement if and only if the consumer stands at the link with
      `size - 2` entries outstanding; then the link is taken back from the consumer. */
  lemma PushLagging(ring: seq<Trb>, enqueue: nat, cycle: bool, dequeue: nat, consumerCycle: bool, queue: seq<Trb>, t: Trb)
    requires Lagging(ring, enqueue, cycle, dequeue, consumerCycle, queue) && enqueue + 1 < |ring|
    requires |queue| < |ring| - 1 && TypeOf(t) != TYPE_LINK
    ensures var n, wraps := |ring|, enqueue + 1 == |ring| - 1;
      Lagging(Pushed(ring, enqueue, cycle, t), if wraps then 0 else enqueue + 1, if wraps then !cycle else cycle,
              dequeue, consumerCycle, queue + [WithCycle(t, false)])
      <==> !(dequeue == n - 1 && |queue| == n - 2)
    ensures dequeue == |ring| - 1 && |queue| == |ring| - 2 ==>
      var ring' := Pushed(ring, enqueue, cycle, t);
      CycleOf(ring'[dequeue]) != consumerCycle && Synced(ring', 0, !cycle, 0, !consumerCycle, queue + [WithCycle(t, false)])
  {
    hide Synced, WithCycle, CycleOf, TypeOf;
    var n := |ring|;
    if dequeue + 1 == n {
      PushSynced(ring, enqueue, cycle, 0, !consumerCycle, queue, t);
      AtTheLink(ring, enqueue, cycle, consumerCycle, queue, t);
    } else {
      PushSynced(ring, enqueue, cycle, dequeue, consumerCycle, queue, t);
    }
  }

  /** The link and the number of entries while the consumer stands there. */
  lemma AtTheLink(ring: seq<Trb>, enqueue: nat, cycle: bool, consumerCycle: bool, queue: seq<Trb>, t: Trb)
    requires Synced(ring, enqueue, cycle, 0, !consumerCycle, queue) && CycleOf(ring[|ring| - 1]) == consumerCycle
    requires enqueue + 1 < |ring|
    ensures cycle != consumerCycle && |queue| == enqueue
    ensures CycleOf(Pushed(ring, enqueue, cycle, t)[|ring| - 1]) == if enqueue + 1 == |ring| - 1 then cycle else consumerCycle
  {
    CycleFacts(ring[|ring| - 1], cycle);
  }

  /** The controller's end, following the link on the way to the next entry or, as it likes, right away. */
  class LazyConsumer {
    const ring: array<Trb>
    var dequeue: nat
    var cycle: bool

    constructor (ring: array<Trb>)
      ensures this.ring == ring && dequeue == 0 && cycle
    {
      this.ring := ring;
      dequeue, cycle := 0, true;
    }

    /** Takes the next TRB, if there is one; behind it, `follow` says whether to go on past a link now or later. A
        slot that was not handed over stops it, the link included. */
    method Take(follow: bool, ghost enqueue: nat, ghost producerCycle: bool, ghost queue: seq<Trb>) returns (t: Option<Trb>)
      requires dequeue < ring.Length
      requires Lagging(ring[..], enqueue, producerCycle, dequeue, cycle, queue) || CycleOf(ring[dequeue]) != cycle
      modifies this
      ensures old(CycleOf(ring[dequeue]) != cycle) ==> t.None? && dequeue == old(dequeue) && cycle == old(cycle)
      ensures old(Lagging(ring[..], enqueue, producerCycle, dequeue, cycle, queue)) ==>
        && (t.Some? <==> queue != []) && (t.Some? ==> WithCycle(t.value, false) == queue[0])
        && dequeue < ring.Length
        && Lagging(ring[..], enqueue, producerCycle, dequeue, cycle, if queue == [] then [] else queue[1..])
        && (queue != [] && !follow && old(dequeue) + 1 < ring.Length ==> dequeue == old(dequeue) + 1 && cycle == old(cycle))
    {
      hide Synced, WithCycle, CycleOf, TypeOf, Toggles;
      if CycleOf(ring[dequeue]) != cycle {
        if Lagging(ring[..], enqueue, producerCycle, dequeue, cycle, queue) {
          TakeSynced(ring[..], enqueue, producerCycle, dequeue, cycle, queue);
        }
        return None;
      }
      SlotKind(ring[..], enqueue, producerCycle, dequeue, cycle, queue);
      if TypeOf(ring[dequeue]) == TYPE_LINK {
        if Toggles(ring[dequeue]) {
          cycle := !cycle;
        }
        dequeue := 0;
        if CycleOf(ring[dequeue]) != cycle {
          TakeSynced(ring[..], enqueue, producerCycle, dequeue, cycle, queue);
          return None;
        }
      }
      TakeSynced(ring[..], enqueue, producerCycle, dequeue, cycle, queue);
      t := Some(ring[dequeue]);
      dequeue := dequeue + 1;
      if follow && TypeOf(ring[dequeue]) == TYPE_LINK && CycleOf(ring[dequeue]) == cycle {
        if Toggles(ring[dequeue]) {
          cycle := !cycle;
        }
        dequeue := 0;
      }
    }
  }

  lemma SlotKind(ring: seq<Trb>, enqueue: nat, cycle: bool, dequeue: nat, consumerCycle: bool, queue: seq<Trb>)
    requires Lagging(ring, enqueue, cycle, dequeue, consumerCycle, queue) && dequeue < |ring|
    ensures |ring| >= 2 && (TypeOf(ring[dequeue]) == TYPE_LINK <==> dequeue == |ring| - 1)
    ensures dequeue == |ring| - 1 ==> Toggles(ring[dequeue])
  {}

  lemma LaggingStart(ring: seq<Trb>)
    requires Synced(ring, 0, true, 0, true, [])
    ensures Lagging(ring, 0, true, 0, true, [])
  {}

  lemma LaggingSynced(ring: seq<Trb>, enqueue: nat, cycle: bool, dequeue: nat, consumerCycle: bool, queue: seq<Trb>)
    requires Lagging(ring, enqueue, cycle, dequeue, consumerCycle, queue)
    ensures enqueue + 1 < |ring|
    ensures if dequeue + 1 == |ring| then Synced(ring, enqueue, cycle, 0, !consumerCycle, queue)
            else Synced(ring, enqueue, cycle, dequeue, consumerCycle, queue)
  {}

  lemma PlainTrb(t: Trb)
    requires t.control % 2 == 0
    ensures WithCycle(t, false) == t
  {}

  datatype LazyOp = LazyPush(t: Trb) | LazyTake(follow: bool)

  /** The operations, without what the consumer does about the link. */
  function Plain(ops: seq<LazyOp>): (plain: seq<RingOp>)
    ensures |plain| == |ops|
  {
    seq(|ops|, i requires 0 <= i < |ops| => if ops[i].LazyPush? then PushOp(ops[i].t) else TakeOp)
  }

  /** Any run with a controller that follows the link when it likes: it sees exactly what a queue of capacity
      `size - 2` would give it. */
  method RunLazily(size: nat, ops: seq<LazyOp>) returns (taken: seq<Trb>)
    requires size >= 2 && FifoLegal([], Plain(ops), size - 2)
    ensures taken == FifoTakes([], Plain(ops))
  {
    hide Synced, Lagging, FifoLegal, FifoTakes, TypeOf, WithCycle, CycleOf;
    var producer := new ProducerRing(size);
    var consumer := new LazyConsumer(producer.ring);
    ghost var queue, plain: seq<RingOp> := [], Plain(ops);
    taken := [];
    assert plain[0..] == plain;
    FifoEnds(queue);
    LaggingStart(producer.ring[..]);
    LaggingSynced(producer.ring[..], 0, true, 0, true, queue);
    for i := 0 to |ops|
      invariant fresh(producer) && fresh(producer.ring) && fresh(consumer) && consumer.ring == producer.ring
      invariant producer.ring.Length == producer.size == size && consumer.dequeue < size && producer.enqueue + 1 < size
      invariant Lagging(producer.ring[..], producer.enqueue, producer.cycle, consumer.dequeue, consumer.cycle, queue)
      invariant FifoLegal(queue, plain[i..], size - 2) && taken + FifoTakes(queue, plain[i..]) == FifoTakes([], plain)
    {
      FifoStep(queue, plain, i, size - 2);
      match ops[i]
      case LazyPush(t) =>
        ghost var before, enqueue, cycle := producer.ring[..], producer.enqueue, producer.cycle;
        LaggingSynced(before, enqueue, cycle, consumer.dequeue, consumer.cycle, queue);
        producer.Push(t.param0, t.param1, t.status, t.control, if consumer.dequeue + 1 == size then 0 else consumer.dequeue,
                      if consumer.dequeue + 1 == size then !consumer.cycle else consumer.cycle, queue);
        PushLagging(before, enqueue, cycle, consumer.dequeue, consumer.cycle, queue, t);
        PlainTrb(t);
        queue := queue + [t];
      case LazyTake(follow) =>
        var t := consumer.Take(follow, producer.enqueue, producer.cycle, queue);
        if t.Some? {
          taken := taken + [WithCycle(t.value, false)];
          queue := queue[1..];
        }
    }
    assert plain[|ops|..] == [];
    FifoEnds(queue);
  }

  /** A run of a ring with capacity `size - 1` that loses entries: the controller takes a full ring and waits before the
      link while the ring is filled again. However often it looks, it sees none of the `size - 1` entries, and no push
      is allowed any more. */
  method FillAtTheLink(size: nat, t: Trb, looks: nat) returns (seen: seq<Option<Trb>>, ghost queue: seq<Trb>)
    requires size >= 2 && t.control % 2 == 0 && TypeOf(t) != TYPE_LINK
    ensures |seen| == looks && forall i :: 0 <= i < looks ==> seen[i].None?
    ensures |queue| == size - 1 && forall i :: 0 <= i < |queue| ==> queue[i] == t
  {
    hide Synced, Lagging, TypeOf, CycleOf, Pushed;
    var producer := new ProducerRing(size);
    var consumer := new LazyConsumer(producer.ring);
    queue := FillAndEmpty(producer, consumer, t);
    for i := 0 to size - 1
      invariant producer.ring.Length == producer.size == size && consumer.dequeue == size - 1 && consumer.cycle
      invariant |queue| == i && (forall j :: 0 <= j < i ==> queue[j] == t) && producer.ring == consumer.ring
      invariant i < size - 1 ==> Lagging(producer.ring[..], producer.enqueue, producer.cycle, size - 1, true, queue)
      invariant i == size - 1 ==> CycleOf(producer.ring[size - 1]) != true
      invariant fresh(producer) && fresh(producer.ring) && fresh(consumer)
    {
      ghost var before, enqueue, cycle := producer.ring[..], producer.enqueue, producer.cycle;
      LaggingSynced(before, enqueue, cycle, size - 1, true, queue);
      producer.Push(t.param0, t.param1, t.status, t.control, 0, false, queue);
      PushLagging(before, enqueue, cycle, size - 1, true, queue, t);
      PlainTrb(t);
      queue := queue + [t];
    }
    seen := [];
    for i := 0 to looks
      invariant |seen| == i && (forall j :: 0 <= j < i ==> seen[j].None?)
      invariant consumer.dequeue == size - 1 && consumer.cycle && consumer.ring == producer.ring
      invariant producer.ring.Length == size && CycleOf(producer.ring[size - 1]) != true
      invariant fresh(consumer)
      modifies consumer
    {
      var x := consumer.Take(i % 2 == 0, producer.enqueue, producer.cycle, queue);
      seen := seen + [x];
    }
  }

  /** A new ring is filled, and taken empty by a consumer that then waits before the link. */
  method FillAndEmpty(producer: ProducerRing, consumer: LazyConsumer, t: Trb) returns (ghost queue: seq<Trb>)
    requires producer.ring.Length == producer.size >= 2 && consumer.ring == producer.ring
    requires producer.enqueue == 0 && producer.cycle && consumer.dequeue == 0 && consumer.cycle
    requires Synced(producer.ring[..], 0, true, 0, true, [])
    requires t.control % 2 == 0 && TypeOf(t) != TYPE_LINK
    modifies producer, producer.ring, consumer
    ensures queue == [] && consumer.dequeue == producer.size - 1 && consumer.cycle
    ensures Lagging(producer.ring[..], producer.enqueue, producer.cycle, consumer.dequeue, consumer.cycle, [])
  {
    hide Synced, Lagging, TypeOf, CycleOf, Pushed;
    var size := producer.size;
    queue := [];
    for i := 0 to size - 1
      invariant |queue| == i && Synced(producer.ring[..], producer.enqueue, producer.cycle, 0, true, queue)
      modifies producer, producer.ring
    {
      producer.Push(t.param0, t.param1, t.status, t.control, 0, true, queue);
      queue := queue + [t];
    }
    SyncedLags(producer.ring[..], producer.enqueue, producer.cycle, 0, true, queue);
    for i := 0 to size - 1
      invariant |queue| == size - 1 - i && consumer.dequeue == i && consumer.cycle
      invariant Lagging(producer.ring[..], producer.enqueue, producer.cycle, i, true, queue)
      modifies consumer
    {
      var x := consumer.Take(false, producer.enqueue, producer.cycle, queue);
      queue := queue[1..];
    }
  }

  lemma SyncedLags(ring: seq<Trb>, enqueue: nat, cycle: bool, dequeue: nat, consumerCycle: bool, queue: seq<Trb>)
    requires Synced(ring, enqueue, cycle, dequeue, consumerCycle, queue)
    ensures Lagging(ring, enqueue, cycle, dequeue, consumerCycle, queue)
  {}

  // ----- the event ring

  /** The controller has posted `queue` beyond what the driver took; there is no link, and the cycle changes at the
      end of the ring. */
  ghost predicate EventsSynced(ring: seq<Trb>, enqueue: nat, cycle: bool, dequeue: nat, consumerCycle: bool, queue: seq<Trb>) {
    && ring != [] && enqueue < |ring| && dequeue < |ring| && CyclesSplit(ring, enqueue, cycle)
    && if consumerCycle == cycle then
         dequeue <= enqueue && queue == Payloads(ring[dequeue..enqueue])
       else
         enqueue <= dequeue && queue == Payloads(ring[dequeue..]) + Payloads(ring[..enqueue])
  }

  predicate IsPortEvent(t: Trb) {
    TypeOf(t) == TYPE_PORT_STATUS_CHANGE
  }

  /** What is left after the port-status events at the front. */
  function SkipPortEvents(queue: seq<Trb>): (rest: seq<Trb>)
    ensures |rest| <= |queue| && (rest != [] ==> !IsPortEvent(rest[0]))
  {
    if queue == [] || !IsPortEvent(queue[0]) then queue else SkipPortEvents(queue[1..])
  }

  /** The events that are not port-status events. */
  function OtherEvents(queue: seq<Trb>): seq<Trb> {
    if queue == [] then [] else (if IsPortEvent(queue[0]) then [] else [queue[0]]) + OtherEvents(queue[1..])
  }

  lemma {:induction false} SkipKeepsOthers(queue: seq<Trb>)
    ensures OtherEvents(SkipPortEvents(queue)) == OtherEvents(queue)
  {
    if queue != [] && IsPortEvent(queue[0]) {
      SkipKeepsOthers(queue[1..]);
    }
  }

  lemma PostSynced(ring: seq<Trb>, enqueue: nat, cycle: bool, dequeue: nat, consumerCycle: bool, queue: seq<Trb>, t: Trb)
    requires EventsSynced(ring, enqueue, cycle, dequeue, consumerCycle, queue) && |queue| < |ring|
    ensures var ring1 := ring[enqueue := WithCycle(t, cycle)];
      if enqueue + 1 == |ring| then EventsSynced(ring1, 0, !cycle, dequeue, consumerCycle, queue + [WithCycle(t, false)])
      else EventsSynced(ring1, enqueue + 1, cycle, dequeue, consumerCycle, queue + [WithCycle(t, false)])
  {
    var n, ring1 := |ring|, ring[enqueue := WithCycle(t, cycle)];
    CycleFacts(t, cycle);
    if consumerCycle == cycle {
      assert ring1[dequeue..enqueue] == ring[dequeue..enqueue];
      assert ring1[dequeue..enqueue + 1] == ring[dequeue..enqueue] + [ring1[enqueue]];
      PayloadsJoin(ring[dequeue..enqueue], [ring1[enqueue]]);
      assert enqueue + 1 == n ==> ring1[dequeue..] == ring1[dequeue..enqueue + 1];
    } else {
      assert ring1[dequeue..] == ring[dequeue..];
      assert ring1[..enqueue + 1] == ring[..enqueue] + [ring1[enqueue]];
      PayloadsJoin(ring[..enqueue], [ring1[enqueue]]);
    }
  }

  lemma EventSynced(ring: seq<Trb>, enqueue: nat, cycle: bool, dequeue: nat, consumerCycle: bool, queue: seq<Trb>)
    requires EventsSynced(ring, enqueue, cycle, dequeue, consumerCycle, queue)
    ensures CycleOf(ring[dequeue]) == consumerCycle <==> queue != []
    ensures queue != [] ==>
      && WithCycle(ring[dequeue], false) == queue[0] && TypeOf(ring[dequeue]) == TypeOf(queue[0])
      && if dequeue + 1 == |ring| then EventsSynced(ring, enqueue, cycle, 0, !consumerCycle, queue[1..])
         else EventsSynced(ring, enqueue, cycle, dequeue + 1, consumerCycle, queue[1..])
  {
    CycleFacts(ring[dequeue], false);
    if queue != [] {
      if consumerCycle == cycle {
        assert ring[dequeue..enqueue] == [ring[dequeue]] + ring[dequeue + 1..enqueue];
        PayloadsJoin([ring[dequeue]], ring[dequeue + 1..enqueue]);
      } else {
        assert ring[dequeue..] == [ring[dequeue]] + ring[dequeue + 1..];
        PayloadsJoin([ring[dequeue]], ring[dequeue + 1..]);
        assert ring[0..enqueue] == ring[..enqueue];
      }
    }
  }

  /** The controller's end of the event ring. */
  class EventPoster {
    const ring: array<Trb>
    var enqueue: nat
    var cycle: bool

    constructor (ring: array<Trb>)
      ensures this.ring == ring && enqueue == 0 && cycle
    {
      this.ring := ring;
      enqueue, cycle := 0, true;
    }

    /** Posts an event while there is room. */
    method Post(t: Trb, ghost dequeue: nat, ghost consumerCycle: bool, ghost queue: seq<Trb>)
      requires EventsSynced(ring[..], enqueue, cycle, dequeue, consumerCycle, queue) && |queue| < ring.Length
      modifies this, ring
      ensures EventsSynced(ring[..], enqueue, cycle, dequeue, consumerCycle, queue + [WithCycle(t, false)])
    {
      ghost var before := ring[..];
      PostSynced(before, enqueue, cycle, dequeue, consumerCycle, queue, t);
      ring[enqueue] := WithCycle(t, cycle);
      assert ring[..] == before[enqueue := WithCycle(t, cycle)];
      enqueue := enqueue + 1;
      if enqueue == ring.Length {
        enqueue, cycle := 0, !cycle;
      }
    }
  }

  /** The driver's end of the event ring. */
  class EventRing {
    const ring: array<Trb>
    const size: nat
    var dequeue: nat
    var cycle: bool
    /** The dequeue index that the controller is told. */
    var erdp: nat

    constructor (size: nat)
      requires size > 0
      ensures fresh(ring) && this.size == size && ring.Length == size && dequeue == 0 && cycle && erdp == dequeue
      ensures EventsSynced(ring[..], 0, true, 0, true, [])
    {
      this.size := size;
      ring := new Trb[size](_ => ZERO_TRB);
      dequeue, cycle, erdp := 0, true, 0;
    }

    /** Takes posted events until one is not a port-status event; none when only such events were there, in which
        case the driver goes on waiting. */
    method WaitEvent(ghost enqueue: nat, ghost producerCycle: bool, ghost queue: seq<Trb>) returns (event: Option<Trb>)
      requires ring.Length == size && EventsSynced(ring[..], enqueue, producerCycle, dequeue, cycle, queue)
      modifies this
      ensures var rest := SkipPortEvents(queue);
        && (event.Some? <==> rest != [])
        && (event.Some? ==> WithCycle(event.value, false) == rest[0])
        && EventsSynced(ring[..], enqueue, producerCycle, dequeue, cycle, if rest == [] then [] else rest[1..])
      ensures queue != [] ==> erdp == dequeue
    {
      hide EventsSynced, CycleOf, TypeOf;
      ghost var left := queue;
      while true
        invariant EventsSynced(ring[..], enqueue, producerCycle, dequeue, cycle, left)
        invariant SkipPortEvents(left) == SkipPortEvents(queue) && (left != queue ==> erdp == dequeue)
        decreases |left|
      {
        EventSynced(ring[..], enqueue, producerCycle, dequeue, cycle, left);
        InRing(ring[..], enqueue, producerCycle, dequeue, cycle, left);
        if CycleOf(ring[dequeue]) != cycle {
          return None;
        }
        var current := ring[dequeue];
        dequeue := dequeue + 1;
        if dequeue == size {
          dequeue, cycle := 0, !cycle;
        }
        erdp := dequeue;
        ghost var first := left[0];
        left := left[1..];
        if TypeOf(current) == TYPE_PORT_STATUS_CHANGE {
          continue;
        }
        return Some(current);
      }
    }
  }

  lemma InRing(ring: seq<Trb>, enqueue: nat, cycle: bool, dequeue: nat, consumerCycle: bool, queue: seq<Trb>)
    requires EventsSynced(ring, enqueue, cycle, dequeue, consumerCycle, queue)
    ensures dequeue < |ring|
  {}

  datatype EventOp = PostOp(t: Trb) | WaitOp

  ghost predicate EventsLegal(queue: seq<Trb>, ops: seq<EventOp>, capacity: nat)
    decreases |ops|
  {
    ops == [] ||
    match ops[0]
    case PostOp(t) => |queue| < capacity && EventsLegal(queue + [WithCycle(t, false)], ops[1..], capacity)
    case WaitOp =>
      var rest := SkipPortEvents(queue);
      EventsLegal(if rest == [] then [] else rest[1..], ops[1..], capacity)
  }

  /** All events posted in a run. */
  function Posted(ops: seq<EventOp>): seq<Trb> {
    if ops == [] then []
    else Posted(ops[..|ops| - 1]) + if ops[|ops| - 1].PostOp? then [WithCycle(ops[|ops| - 1].t, false)] else []
  }

  lemma EventsStep(queue: seq<Trb>, ops: seq<EventOp>, i: nat, capacity: nat)
    requires i < |ops| && EventsLegal(queue, ops[i..], capacity)
    ensures match ops[i]
      case PostOp(t) => |queue| < capacity && EventsLegal(queue + [WithCycle(t, false)], ops[i + 1..], capacity)
      case WaitOp =>
        var rest := SkipPortEvents(queue); EventsLegal(if rest == [] then [] else rest[1..], ops[i + 1..], capacity)
    ensures Posted(ops[..i + 1]) == Posted(ops[..i]) + if ops[i].PostOp? then [WithCycle(ops[i].t, false)] else []
  {
    assert ops[i..][1..] == ops[i + 1..];
    assert ops[..i + 1][..i] == ops[..i];
  }

  lemma {:induction false} OthersJoin(a: seq<Trb>, b: seq<Trb>)
    ensures OtherEvents(a + b) == OtherEvents(a) + OtherEvents(b)
  {
    hide IsPortEvent;
    if a == [] {
      assert a + b == b;
    } else {
      OthersJoin(a[1..], b);
      assert (a + b)[1..] == a[1..] + b && (a + b)[0] == a[0];
      var first := if IsPortEvent(a[0]) then [] else [a[0]];
      assert first + (OtherEvents(a[1..]) + OtherEvents(b)) == first + OtherEvents(a[1..]) + OtherEvents(b);
    }
  }

  lemma OthersFirst(queue: seq<Trb>)
    requires queue != [] && !IsPortEvent(queue[0])
    ensures OtherEvents(queue) == [queue[0]] + OtherEvents(queue[1..])
  {}

  lemma NothingPosted()
    ensures Posted([]) == [] && OtherEvents([]) == []
  {}

  /** Any run of posts and waits: the driver gets every posted event that is not a port-status event, in order, and
      once all waiting events are taken it has got all of them. */
  method RunEvents(size: nat, ops: seq<EventOp>) returns (taken: seq<Trb>, ghost waiting: seq<Trb>)
    requires size > 0 && EventsLegal([], ops, size)
    ensures taken + OtherEvents(waiting) == OtherEvents(Posted(ops)) && |waiting| <= size
  {
    hide EventsSynced, EventsLegal, TypeOf, Posted, WithCycle, OtherEvents, SkipPortEvents;
    NothingPosted();
    var events := new EventRing(size);
    var poster := new EventPoster(events.ring);
    waiting := [];
    taken := [];
    assert ops[0..] == ops && ops[..0] == [];
    for i := 0 to |ops|
      invariant fresh(events) && fresh(events.ring) && fresh(poster) && poster.ring == events.ring
      invariant events.ring.Length == events.size == size && |waiting| <= size
      invariant EventsSynced(events.ring[..], poster.enqueue, poster.cycle, events.dequeue, events.cycle, waiting)
      invariant EventsLegal(waiting, ops[i..], size) && taken + OtherEvents(waiting) == OtherEvents(Posted(ops[..i]))
    {
      EventsStep(waiting, ops, i, size);
      match ops[i]
      case PostOp(t) =>
        poster.Post(t, events.dequeue, events.cycle, waiting);
        OthersJoin(waiting, [WithCycle(t, false)]);
        OthersJoin(Posted(ops[..i]), [WithCycle(t, false)]);
        assert taken + (OtherEvents(waiting) + OtherEvents([WithCycle(t, false)]))
            == taken + OtherEvents(waiting) + OtherEvents([WithCycle(t, false)]);
        waiting := waiting + [WithCycle(t, false)];
      case WaitOp =>
        var event := events.WaitEvent(poster.enqueue, poster.cycle, waiting);
        SkipKeepsOthers(waiting);
        waiting := SkipPortEvents(waiting);
        if event.Some? {
          OthersFirst(waiting);
          taken := taken + [WithCycle(event.value, false)];
          waiting := waiting[1..];
        }
        assert Posted(ops[..i]) + [] == Posted(ops[..i]);
    }
    assert ops[..|ops|] == ops;
  }
}
