/** Safety of the ring in every run: FIFO order, conservation, and race freedom. */
module SpscSafety {
  import opened Bits
  import opened SpscMachine

  // Tickets. The k-th item pushed has ticket k, an unbounded number. The indices stored in
  // `head` and `tail`, and the slots, are named by tickets reduced to one lap of the ring.

  function IndexOf(ticket: nat, n: nat): (i: nat)
    requires n >= 1
    ensures i < n
    decreases ticket
  {
    if ticket < n then ticket else IndexOf(ticket - n, n)
  }

  lemma {:induction false} IndexIsModulo(ticket: nat, n: nat)
    requires n >= 1
    ensures IndexOf(ticket, n) == ticket % n
    decreases ticket
  {
    if ticket >= n {
      IndexIsModulo(ticket - n, n);
      DivModUnique(ticket, n, (ticket - n) / n + 1, (ticket - n) % n);
    } else {
      DivModUnique(ticket, n, 0, ticket);
    }
  }

  /** The masked increment computes the index of the sum. */
  lemma NextIsIndex(c: Config, x: nat)
    requires c.Valid()
    ensures c.Next(x) == IndexOf(x + 1, c.capacity)
  {
    PowerOfTwoTest(c.capacity);
    var k: nat :| c.capacity == Pow2(k);
    AndMask(x + 1, k);
    IndexIsModulo(x + 1, c.capacity);
  }

  lemma {:induction false} IndexSum(n: nat, a: nat, k: nat)
    requires n >= 1
    ensures IndexOf(IndexOf(a, n) + k, n) == IndexOf(a + k, n)
    decreases a
  {
    if a >= n {
      IndexSum(n, a - n, k);
    }
  }

  /** The masked increment of a ticket's index is its successor's index. */
  lemma NextTicket(c: Config, k: nat)
    requires c.Valid()
    ensures c.Next(IndexOf(k, c.capacity)) == IndexOf(k + 1, c.capacity)
  {
    NextIsIndex(c, IndexOf(k, c.capacity));
    IndexSum(c.capacity, k, 1);
  }

  lemma NextLap(n: nat, a: nat)
    requires n >= 1
    ensures IndexOf(a + n, n) == IndexOf(a, n)
  {
  }

  /** Distinct tickets less than one lap apart have distinct indices. */
  lemma {:induction false} DistinctSlots(n: nat, a: nat, b: nat)
    requires n >= 1 && a < b < a + n
    ensures IndexOf(a, n) != IndexOf(b, n)
    decreases a
  {
    if a >= n {
      DistinctSlots(n, a - n, b - n);
    }
  }

  /** First ticket still in its slot, and first ticket not yet written to its slot. */
  ghost function Lo<T>(s: State<T>): nat {
    if s.cons.at.CTook? then |s.popped| + 1 else |s.popped|
  }

  ghost function Hi<T>(s: State<T>): nat {
    if s.prod.at.PWrote? then |s.pushed| + 1 else |s.pushed|
  }

  ghost function Written<T>(s: State<T>): seq<T> {
    if s.prod.at.PWrote? then s.pushed + [s.prod.at.item] else s.pushed
  }

  ghost predicate Shape<T(!new)>(c: Config, s: State<T>) {
    && c.Valid()
    && |s.slots| == c.capacity
    && |s.head| == |s.popped| + 1
    && |s.tail| == |s.pushed| + 1
    && s.prod.seen <= |s.popped| <= s.cons.seen <= |s.pushed| < s.prod.seen + c.capacity
    && (forall i {:trigger s.head[i]} | 0 <= i < |s.head| :: s.head[i].index == IndexOf(i, c.capacity))
    && (forall j {:trigger s.tail[j]} | 0 <= j < |s.tail| :: s.tail[j].index == IndexOf(j, c.capacity))
  }

  ghost predicate ProducerLocals<T(!new)>(c: Config, s: State<T>)
    requires c.capacity >= 1
  {
    match s.prod.at
    case PIdle => true
    case PHasTail(_, t) => t == IndexOf(|s.pushed|, c.capacity)
    case PHasRoom(_, t) => t == IndexOf(|s.pushed|, c.capacity) && |s.pushed| + 1 < s.prod.seen + c.capacity
    case PWrote(_, t) => t == IndexOf(|s.pushed|, c.capacity) && |s.pushed| + 1 < s.prod.seen + c.capacity
    case PEmptyHasHead(h) => h == IndexOf(s.prod.seen, c.capacity)
  }

  ghost predicate ConsumerLocals<T(!new)>(c: Config, s: State<T>)
    requires c.capacity >= 1
  {
    match s.cons.at
    case CIdle => true
    case CHasHead(h) => h == IndexOf(|s.popped|, c.capacity)
    case CHasItem(h) => h == IndexOf(|s.popped|, c.capacity) && |s.popped| < s.cons.seen
    case CTook(h, out) => h == IndexOf(|s.popped|, c.capacity) && |s.popped| < s.cons.seen <= |s.pushed|
                          && out == s.pushed[|s.popped|]
    case CEmptyHasHead(h) => h == IndexOf(|s.popped|, c.capacity)
  }

  /** Every ticket between the two ends is intact in its slot; whatever the other slots hold
      (unwritten, or moved from) is never relied on. */
  ghost predicate Intact<T(!new)>(c: Config, s: State<T>)
    requires c.capacity >= 1 && |s.slots| == c.capacity
  {
    forall k {:trigger s.slots[IndexOf(k, c.capacity)]} | Lo(s) <= k < Hi(s) ::
      s.slots[IndexOf(k, c.capacity)].value == Written(s)[k]
  }

  /** What every step keeps, whatever the memory orders are. */
  ghost predicate Ring<T(!new)>(c: Config, s: State<T>) {
    && Shape(c, s)
    && ProducerLocals(c, s)
    && ConsumerLocals(c, s)
    && s.popped == s.pushed[..|s.popped|]
    && Intact(c, s)
  }

  /** The class template accepts exactly the powers of two above 1. */
  lemma ValidCapacity(c: Config)
    ensures c.Valid() <==> c.capacity >= 2 && IsPowerOfTwo(c.capacity)
  {
    if c.capacity >= 1 {
      PowerOfTwoTest(c.capacity);
    }
  }

  /** The full test compares masked indices, yet decides on tickets. */
  lemma FullVerdict<T(!new)>(c: Config, s: State<T>, i: nat)
    requires Ring(c, s) && Enabled(c, s, PLoadHead(i))
    ensures Verdict(c, s, PLoadHead(i)) <==> |s.pushed| == i + c.capacity - 1
    ensures !Verdict(c, s, PLoadHead(i)) ==> |s.pushed| + 1 < i + c.capacity
  {
    var t := |s.pushed|;
    NextTicket(c, t);
    NextLap(c.capacity, i);
    if t + 1 == i + c.capacity {
    } else {
      DistinctSlots(c.capacity, i, t + 1);
    }
  }

  /** The empty test compares masked indices, yet decides on tickets. */
  lemma EmptyVerdict<T(!new)>(c: Config, s: State<T>, j: nat)
    requires Ring(c, s) && Enabled(c, s, CLoadTail(j))
    ensures Verdict(c, s, CLoadTail(j)) <==> |s.popped| == j
  {
    if |s.popped| < j {
      DistinctSlots(c.capacity, |s.popped|, j);
    }
  }

  lemma RingInit<T(!new)>(c: Config, slots: seq<T>)
    requires c.Valid() && |slots| == c.capacity
    ensures Ring(c, Init(c, slots))
  {
  }

  lemma RingStep<T(!new)>(c: Config, s: State<T>, e: Event<T>)
    requires Ring(c, s) && Enabled(c, s, e)
    ensures Ring(c, Apply(c, s, e))
  {
    match e
    case PLoadHead(i) => RingPLoadHead(c, s, i);
    case PWrite => RingPWrite(c, s);
    case PPublish => RingPPublish(c, s);
    case CLoadTail(j) => RingCLoadTail(c, s, j);
    case CTake(residue) => RingCTake(c, s, residue);
    case CPublish => RingCPublish(c, s);
    case _ => RingFrame(c, s, Apply(c, s, e));
  }

  /** A step that only moves the threads' own positions keeps everything else. */
  lemma RingFrame<T(!new)>(c: Config, s: State<T>, s': State<T>)
    requires Ring(c, s)
    requires s'.head == s.head && s'.tail == s.tail && s'.slots == s.slots
    requires s'.pushed == s.pushed && s'.popped == s.popped
    requires s.prod.seen <= s'.prod.seen <= |s.popped| && s.cons.seen <= s'.cons.seen <= |s.pushed|
    requires Lo(s') == Lo(s) && Hi(s') == Hi(s) && Written(s') == Written(s)
    requires ProducerLocals(c, s') && ConsumerLocals(c, s')
    ensures Ring(c, s')
  {
  }

  lemma RingPLoadHead<T(!new)>(c: Config, s: State<T>, i: nat)
    requires Ring(c, s) && Enabled(c, s, PLoadHead(i))
    ensures Ring(c, Apply(c, s, PLoadHead(i)))
  {
    FullVerdict(c, s, i);
    RingFrame(c, s, Apply(c, s, PLoadHead(i)));
  }

  lemma RingCLoadTail<T(!new)>(c: Config, s: State<T>, j: nat)
    requires Ring(c, s) && Enabled(c, s, CLoadTail(j))
    ensures Ring(c, Apply(c, s, CLoadTail(j)))
  {
    EmptyVerdict(c, s, j);
    RingFrame(c, s, Apply(c, s, CLoadTail(j)));
  }

  lemma RingPPublish<T(!new)>(c: Config, s: State<T>)
    requires Ring(c, s) && Enabled(c, s, PPublish)
    ensures Ring(c, Apply(c, s, PPublish))
  {
    NextTicket(c, |s.pushed|);
  }

  lemma RingCPublish<T(!new)>(c: Config, s: State<T>)
    requires Ring(c, s) && Enabled(c, s, CPublish)
    ensures Ring(c, Apply(c, s, CPublish))
  {
    NextTicket(c, |s.popped|);
  }

  lemma RingPWrite<T(!new)>(c: Config, s: State<T>)
    requires Ring(c, s) && Enabled(c, s, PWrite)
    ensures Ring(c, Apply(c, s, PWrite))
  {
    var s' := Apply(c, s, PWrite);
    forall k | Lo(s') <= k < Hi(s')
      ensures s'.slots[IndexOf(k, c.capacity)].value == Written(s')[k]
    {
      if k < |s.pushed| {
        DistinctSlots(c.capacity, k, |s.pushed|);
      }
    }
  }

  lemma RingCTake<T(!new)>(c: Config, s: State<T>, residue: T)
    requires Ring(c, s) && Enabled(c, s, CTake(residue))
    ensures Ring(c, Apply(c, s, CTake(residue)))
  {
    var s' := Apply(c, s, CTake(residue));
    forall k | Lo(s') <= k < Hi(s')
      ensures s'.slots[IndexOf(k, c.capacity)].value == Written(s')[k]
    {
      DistinctSlots(c.capacity, |s.popped|, k);
    }
  }

  // Happens-before. Each slot's last access by one thread is covered by the clock attached
  // to the index value that hands the slot to the other thread.

  ghost predicate TailClocks<T(!new)>(c: Config, s: State<T>)
    requires Shape(c, s)
  {
    && (forall i, j | 0 <= i <= j < |s.tail| :: s.tail[i].clock.producer <= s.tail[j].clock.producer)
    && Last(s.tail).clock.producer <= s.prod.clock.producer
    && s.tail[s.cons.seen].clock.producer <= s.cons.clock.producer
    && (forall x | 0 <= x < c.capacity :: s.slots[x].byProducer <= s.prod.clock.producer)
  }

  /** Every producer access to a slot is covered by the `tail` value published after it. */
  ghost predicate TailCovers<T(!new)>(c: Config, s: State<T>)
    requires Shape(c, s)
  {
    forall u {:trigger s.slots[IndexOf(u, c.capacity)]} | Hi(s) <= u < |s.pushed| + c.capacity ::
      s.slots[IndexOf(u, c.capacity)].byProducer
      <= if u < c.capacity then 0 else s.tail[u - c.capacity + 1].clock.producer
  }

  ghost predicate TailOrdered<T(!new)>(c: Config, s: State<T>)
    requires Shape(c, s)
  {
    TailClocks(c, s) && TailCovers(c, s)
  }

  ghost predicate HeadClocks<T(!new)>(c: Config, s: State<T>)
    requires Shape(c, s)
  {
    && (forall i, j | 0 <= i <= j < |s.head| :: s.head[i].clock.consumer <= s.head[j].clock.consumer)
    && Last(s.head).clock.consumer <= s.cons.clock.consumer
    && s.head[s.prod.seen].clock.consumer <= s.prod.clock.consumer
    && (forall x | 0 <= x < c.capacity :: s.slots[x].byConsumer <= s.cons.clock.consumer)
  }

  /** Every consumer access to a slot is covered by the `head` value published after it. */
  ghost predicate HeadCovers<T(!new)>(c: Config, s: State<T>)
    requires Shape(c, s)
  {
    forall u {:trigger s.slots[IndexOf(u, c.capacity)]} | Lo(s) <= u < |s.popped| + c.capacity ::
      s.slots[IndexOf(u, c.capacity)].byConsumer
      <= if u < c.capacity then 0 else s.head[u - c.capacity + 1].clock.consumer
  }

  ghost predicate HeadOrdered<T(!new)>(c: Config, s: State<T>)
    requires Shape(c, s)
  {
    HeadClocks(c, s) && HeadCovers(c, s)
  }

  ghost predicate Synchronized(o: Orders) {
    o.headAcquire && o.tailRelease && o.tailAcquire && o.headRelease
  }

  ghost predicate Safe<T(!new)>(c: Config, s: State<T>) {
    Ring(c, s) && TailOrdered(c, s) && HeadOrdered(c, s) && !s.raced
  }

  lemma SafeInit<T(!new)>(c: Config, slots: seq<T>)
    requires c.Valid() && |slots| == c.capacity
    ensures Safe(c, Init(c, slots))
  {
  }

  /** The acquired `head` orders the slot's previous pop before the coming write. */
  lemma WriteIsOrdered<T(!new)>(c: Config, s: State<T>)
    requires Safe(c, s) && s.prod.at.PHasRoom?
    ensures s.slots[s.prod.at.t].byConsumer <= s.prod.clock.consumer
  {
    var u := |s.pushed|;
    assert Lo(s) <= u < |s.popped| + c.capacity;
    if u >= c.capacity {
      assert s.head[u - c.capacity + 1].clock.consumer <= s.head[s.prod.seen].clock.consumer;
    }
  }

  /** The acquired `tail` orders the slot's write before the coming pop. */
  lemma TakeIsOrdered<T(!new)>(c: Config, s: State<T>)
    requires Safe(c, s) && s.cons.at.CHasItem?
    ensures s.slots[s.cons.at.h].byProducer <= s.cons.clock.producer
  {
    var u := |s.popped| + c.capacity;
    NextLap(c.capacity, |s.popped|);
    assert Hi(s) <= u < |s.pushed| + c.capacity;
    assert s.tail[u - c.capacity + 1].clock.producer <= s.tail[s.cons.seen].clock.producer;
  }

  lemma TailOrderedFrame<T(!new)>(c: Config, s: State<T>, s': State<T>)
    requires Shape(c, s) && TailOrdered(c, s) && Shape(c, s')
    requires s'.tail == s.tail && Hi(s') == Hi(s)
    requires s'.prod.clock.producer >= s.prod.clock.producer
    requires s'.tail[s'.cons.seen].clock.producer <= s'.cons.clock.producer
    requires forall x | 0 <= x < c.capacity :: s'.slots[x].byProducer == s.slots[x].byProducer
    ensures TailOrdered(c, s')
  {
  }

  lemma TailOrderedPWrite<T(!new)>(c: Config, s: State<T>)
    requires Ring(c, s) && TailOrdered(c, s) && Enabled(c, s, PWrite)
    requires Shape(c, Apply(c, s, PWrite))
    ensures TailOrdered(c, Apply(c, s, PWrite))
  {
    forall u | |s.pushed| < u < |s.pushed| + c.capacity
      ensures IndexOf(u, c.capacity) != s.prod.at.t
    {
      DistinctSlots(c.capacity, |s.pushed|, u);
    }
  }

  lemma TailOrderedPPublish<T(!new)>(c: Config, s: State<T>)
    requires Ring(c, s) && TailOrdered(c, s) && Enabled(c, s, PPublish) && c.orders.tailRelease
    requires Shape(c, Apply(c, s, PPublish))
    ensures TailOrdered(c, Apply(c, s, PPublish))
  {
    TailCoversPPublish(c, s);
  }

  lemma TailCoversPPublish<T(!new)>(c: Config, s: State<T>)
    requires Shape(c, s) && TailOrdered(c, s) && Enabled(c, s, PPublish) && c.orders.tailRelease
    requires Shape(c, Apply(c, s, PPublish)) && s.prod.at.t == IndexOf(|s.pushed|, c.capacity)
    ensures TailCovers(c, Apply(c, s, PPublish))
  {
    NextLap(c.capacity, |s.pushed|);
  }

  lemma TailOrderedStep<T(!new)>(c: Config, s: State<T>, e: Event<T>)
    requires Ring(c, s) && TailOrdered(c, s) && Enabled(c, s, e) && Synchronized(c.orders)
    requires Shape(c, Apply(c, s, e))
    ensures TailOrdered(c, Apply(c, s, e))
  {
    if e.PWrite? {
      TailOrderedPWrite(c, s);
    } else if e.PPublish? {
      TailOrderedPPublish(c, s);
    } else if e.OfProducer() {
      TailOrderedFrame(c, s, Apply(c, s, e));
    } else {
      TailOrderedByConsumer(c, s, e);
    }
  }

  lemma TailOrderedByConsumer<T(!new)>(c: Config, s: State<T>, e: Event<T>)
    requires Ring(c, s) && TailOrdered(c, s) && Enabled(c, s, e) && c.orders.tailAcquire && !e.OfProducer()
    requires Shape(c, Apply(c, s, e))
    ensures TailOrdered(c, Apply(c, s, e))
  {
    TailOrderedFrame(c, s, Apply(c, s, e));
  }

  lemma HeadOrderedFrame<T(!new)>(c: Config, s: State<T>, s': State<T>)
    requires Shape(c, s) && HeadOrdered(c, s) && Shape(c, s')
    requires s'.head == s.head && Lo(s') == Lo(s)
    requires s'.cons.clock.consumer >= s.cons.clock.consumer
    requires s'.head[s'.prod.seen].clock.consumer <= s'.prod.clock.consumer
    requires forall x | 0 <= x < c.capacity :: s'.slots[x].byConsumer == s.slots[x].byConsumer
    ensures HeadOrdered(c, s')
  {
  }

  lemma HeadOrderedCTake<T(!new)>(c: Config, s: State<T>, residue: T)
    requires Ring(c, s) && HeadOrdered(c, s) && Enabled(c, s, CTake(residue))
    requires Shape(c, Apply(c, s, CTake(residue)))
    ensures HeadOrdered(c, Apply(c, s, CTake(residue)))
  {
    forall u | |s.popped| < u < |s.popped| + c.capacity
      ensures IndexOf(u, c.capacity) != s.cons.at.h
    {
      DistinctSlots(c.capacity, |s.popped|, u);
    }
  }

  lemma HeadOrderedCPublish<T(!new)>(c: Config, s: State<T>)
    requires Ring(c, s) && HeadOrdered(c, s) && Enabled(c, s, CPublish) && c.orders.headRelease
    requires Shape(c, Apply(c, s, CPublish))
    ensures HeadOrdered(c, Apply(c, s, CPublish))
  {
    HeadCoversCPublish(c, s);
  }

  lemma HeadCoversCPublish<T(!new)>(c: Config, s: State<T>)
    requires Shape(c, s) && HeadOrdered(c, s) && Enabled(c, s, CPublish) && c.orders.headRelease
    requires Shape(c, Apply(c, s, CPublish)) && s.cons.at.h == IndexOf(|s.popped|, c.capacity)
    ensures HeadCovers(c, Apply(c, s, CPublish))
  {
    NextLap(c.capacity, |s.popped|);
  }

  lemma HeadOrderedStep<T(!new)>(c: Config, s: State<T>, e: Event<T>)
    requires Ring(c, s) && HeadOrdered(c, s) && Enabled(c, s, e) && Synchronized(c.orders)
    requires Shape(c, Apply(c, s, e))
    ensures HeadOrdered(c, Apply(c, s, e))
  {
    if e.CTake? {
      HeadOrderedCTake(c, s, e.residue);
    } else if e.CPublish? {
      HeadOrderedCPublish(c, s);
    } else if e.OfProducer() {
      HeadOrderedByProducer(c, s, e);
    } else {
      HeadOrderedFrame(c, s, Apply(c, s, e));
    }
  }

  lemma HeadOrderedByProducer<T(!new)>(c: Config, s: State<T>, e: Event<T>)
    requires Ring(c, s) && HeadOrdered(c, s) && Enabled(c, s, e) && c.orders.headAcquire && e.OfProducer()
    requires Shape(c, Apply(c, s, e))
    ensures HeadOrdered(c, Apply(c, s, e))
  {
    HeadOrderedFrame(c, s, Apply(c, s, e));
  }

  lemma SafeStep<T(!new)>(c: Config, s: State<T>, e: Event<T>)
    requires Safe(c, s) && Enabled(c, s, e) && Synchronized(c.orders)
    ensures Safe(c, Apply(c, s, e))
  {
    RingStep(c, s, e);
    TailOrderedStep(c, s, e);
    HeadOrderedStep(c, s, e);
    if e.PWrite? {
      WriteIsOrdered(c, s);
    } else if e.CTake? {
      TakeIsOrdered(c, s);
    }
  }

  lemma {:induction false} RingRun<T(!new)>(c: Config, s: State<T>, es: seq<Event<T>>)
    requires Ring(c, s) && Executes(c, s, es)
    ensures Ring(c, Execute(c, s, es))
    decreases |es|
  {
    if es != [] {
      RingStep(c, s, es[0]);
      RingRun(c, Apply(c, s, es[0]), es[1..]);
    }
  }

  lemma {:induction false} SafeRun<T(!new)>(c: Config, s: State<T>, es: seq<Event<T>>)
    requires Safe(c, s) && Executes(c, s, es) && Synchronized(c.orders)
    ensures Safe(c, Execute(c, s, es))
    decreases |es|
  {
    if es != [] {
      SafeStep(c, s, es[0]);
      SafeRun(c, Apply(c, s, es[0]), es[1..]);
    }
  }

  // The items physically in the ring, read off the masked indices and the slots alone. A
  // consumer that has moved an item out and not yet stored `head` is one index ahead of it.

  ghost function FirstIndex<T>(c: Config, s: State<T>): nat
    requires c.capacity >= 1 && s.head != []
  {
    if s.cons.at.CTook? then c.Next(s.cons.at.h) else Last(s.head).index
  }

  ghost function Occupied<T>(c: Config, s: State<T>): nat
    requires c.capacity >= 1 && s.head != [] && s.tail != []
    requires FirstIndex(c, s) < c.capacity
  {
    IndexOf(Last(s.tail).index + c.capacity - FirstIndex(c, s), c.capacity)
  }

  ghost function SlotItems<T>(c: Config, s: State<T>): seq<T>
    requires c.capacity >= 1 && s.head != [] && s.tail != [] && |s.slots| == c.capacity
    requires FirstIndex(c, s) < c.capacity
  {
    seq(Occupied(c, s), k requires 0 <= k => s.slots[IndexOf(FirstIndex(c, s) + k, c.capacity)].value)
  }

  /** The item the consumer has moved out but not yet released the slot of. */
  ghost function InHand<T>(s: State<T>): seq<T> {
    if s.cons.at.CTook? then [s.cons.at.out] else []
  }

  lemma {:induction false} IndexDistance(n: nat, a: nat, b: nat)
    requires n >= 1 && a <= b < a + n
    ensures IndexOf(IndexOf(b, n) + n - IndexOf(a, n), n) == b - a
    decreases a
  {
    if a >= n {
      IndexDistance(n, a - n, b - n);
    }
  }

  lemma FirstIndexIsTicket<T(!new)>(c: Config, s: State<T>)
    requires Ring(c, s)
    ensures FirstIndex(c, s) == IndexOf(Lo(s), c.capacity)
    ensures Occupied(c, s) == |s.pushed| - Lo(s)
  {
    if s.cons.at.CTook? {
      NextTicket(c, |s.popped|);
    }
    IndexDistance(c.capacity, Lo(s), |s.pushed|);
  }

  lemma SlotItemsAreTickets<T(!new)>(c: Config, s: State<T>)
    requires Ring(c, s)
    ensures FirstIndex(c, s) < c.capacity
    ensures SlotItems(c, s) == s.pushed[Lo(s)..]
  {
    FirstIndexIsTicket(c, s);
    var items := SlotItems(c, s);
    forall k | 0 <= k < |items| ensures items[k] == s.pushed[Lo(s)..][k] {
      IndexSum(c.capacity, Lo(s), k);
      assert s.slots[IndexOf(Lo(s) + k, c.capacity)].value == Written(s)[Lo(s) + k];
    }
  }

  /** What was popped, what is in hand and what the slots hold is what was pushed. */
  lemma Conservation<T(!new)>(c: Config, s: State<T>)
    requires Ring(c, s)
    ensures FirstIndex(c, s) < c.capacity
    ensures s.popped + InHand(s) + SlotItems(c, s) == s.pushed
    ensures |InHand(s) + SlotItems(c, s)| <= c.capacity - 1
  {
    SlotItemsAreTickets(c, s);
  }

  /** In every run, with arbitrarily stale index reads and whatever the moved-from slots are
      left holding, no slot access races, the bound holds, and nothing is lost, duplicated or
      reordered. */
  lemma FifoSafety<T(!new)>(c: Config, slots: seq<T>, es: seq<Event<T>>)
    requires c.Valid() && |slots| == c.capacity && Synchronized(c.orders)
    requires Executes(c, Init(c, slots), es)
    ensures var s := Execute(c, Init(c, slots), es);
            && Ring(c, s)
            && !s.raced
            && FirstIndex(c, s) < c.capacity
            && s.popped + InHand(s) + SlotItems(c, s) == s.pushed
            && |InHand(s) + SlotItems(c, s)| <= c.capacity - 1
  {
    SafeInit(c, slots);
    SafeRun(c, Init(c, slots), es);
    Conservation(c, Execute(c, Init(c, slots), es));
  }

  /** While both threads are between their checks and their stores, they use different slots. */
  lemma SlotsApart<T(!new)>(c: Config, slots: seq<T>, es: seq<Event<T>>)
    requires c.Valid() && |slots| == c.capacity
    requires Executes(c, Init(c, slots), es)
    ensures var s := Execute(c, Init(c, slots), es);
            (s.prod.at.PHasRoom? || s.prod.at.PWrote?) && (s.cons.at.CHasItem? || s.cons.at.CTook?)
            ==> s.prod.at.t != s.cons.at.h
  {
    RingInit(c, slots);
    RingRun(c, Init(c, slots), es);
    var s := Execute(c, Init(c, slots), es);
    if (s.prod.at.PHasRoom? || s.prod.at.PWrote?) && (s.cons.at.CHasItem? || s.cons.at.CTook?) {
      DistinctSlots(c.capacity, |s.popped|, |s.pushed|);
    }
  }
}
