/** `ll::SpscQueue` itself: the calls of one endpoint, with the other endpoint free to run
    between any two of their memory accesses, and with loads of the other endpoint's index that
    may be stale. */
module SpscQueues {
  import opened Bits
  import opened Options
  import opened SpscMachine
  import opened SpscSafety
  import opened SpscRefinement
  import opened SpscSchedules

  class SpscQueue<T(0, !new)> {
    const capacity: nat
    /** Every value stored to an index, oldest first; the last one is the newest. */
    var head: seq<nat>
    var tail: seq<nat>
    const slots: array<T>

    /** The initial slot values, and every step taken since, by either thread. */
    ghost const initial: seq<T>
    ghost var log: seq<Event<T>>

    ghost function Setup(): Config {
      Config(capacity, Orders(true, true, true, true))
    }

    ghost predicate Logged()
      reads this`log
    {
      && Setup().Valid() && |initial| == capacity
      && Executes(Setup(), Init(Setup(), initial), log)
    }

    /** The machine state the logged steps lead to. */
    ghost function Model(): State<T>
      requires Logged()
      reads this`log
    {
      Execute(Setup(), Init(Setup(), initial), log)
    }

    ghost function Pushed(): seq<T>
      requires Logged()
      reads this`log
    {
      Model().pushed
    }

    ghost function Popped(): seq<T>
      requires Logged()
      reads this`log
    {
      Model().popped
    }

    ghost function ProducerThread(): Thread<Producer<T>>
      requires Logged()
      reads this`log
    {
      Model().prod
    }

    ghost function Producer(): Producer<T>
      requires Logged()
      reads this`log
    {
      Model().prod.at
    }

    ghost function Consumer(): Consumer<T>
      requires Logged()
      reads this`log
    {
      Model().cons.at
    }

    /** The fields are what the logged steps make of them. */
    ghost predicate Valid()
      reads this, slots
    {
      && Logged()
      && var m := Model();
      && m.head != [] && m.tail != [] && slots.Length == |m.slots| == capacity
      && |head| == |m.head| && (forall k | 0 <= k < |head| :: head[k] == m.head[k].index)
      && |tail| == |m.tail| && (forall k | 0 <= k < |tail| :: tail[k] == m.tail[k].index)
      && forall k | 0 <= k < capacity :: slots[k] == m.slots[k].value
    }

    /** The k-th step of the run was `e`, taken in state `s`. */
    ghost predicate At(run: seq<Event<T>>, k: nat, s: State<T>, e: Event<T>) {
      && k < |run| && run[k] == e
      && Leads(Setup(), Init(Setup(), initial), run[..k], s)
    }

    /** After `before`, the run took step `e` in state `s`. */
    ghost predicate Took(before: seq<Event<T>>, run: seq<Event<T>>, s: State<T>, e: Event<T>) {
      exists k: nat :: |before| <= k && At(run, k, s, e)
    }

    /** What a run did stays done when the run goes on. */
    lemma StillTook(before: seq<Event<T>>, run: seq<Event<T>>, run': seq<Event<T>>, s: State<T>, e: Event<T>)
      requires Took(before, run, s, e) && run <= run'
      ensures Took(before, run', s, e)
    {
      var k: nat :| |before| <= k && At(run, k, s, e);
      assert run'[..k] == run[..k];
      assert At(run', k, s, e);
    }

    lemma ModelIsRing()
      requires Logged()
      ensures Ring(Setup(), Model()) && !Model().raced
    {
      FifoSafety(Setup(), initial, log);
    }

    constructor (capacity: nat)
      requires capacity >= 2 && And(capacity, capacity - 1) == 0
      ensures Valid() && fresh(slots) && this.capacity == capacity
      ensures Producer().PIdle? && Consumer().CIdle?
      ensures Pushed() == [] && Popped() == []
    {
      this.capacity := capacity;
      head, tail := [0], [0];
      var a := new T[capacity];
      slots := a;
      initial := a[..];
      log := [];
      new;
      assert And(this.capacity, this.capacity - 1) == And(capacity, capacity - 1);
      assert Model() == Init(Setup(), initial);
    }

    /** Records a step of this thread's own code. */
    ghost method Step(e: Event<T>)
      requires Logged() && Enabled(Setup(), Model(), e)
      modifies this`log
      ensures Logged() && Model() == Apply(Setup(), old(Model()), e)
      ensures log == old(log) + [e] && Took(old(log), log, old(Model()), e)
    {
      ExecuteFirst(Setup(), Model(), e, []);
      ExecuteConcat(Setup(), Init(Setup(), initial), log, [e]);
      log := log + [e];
      assert log[..|old(log)|] == old(log);
      assert At(log, |old(log)|, old(Model()), e);
    }

    /** Interference: any number of steps of the consumer thread. A caller may rely on nothing
        but this contract, which every sequence of consumer steps meets. */
    method ConsumerRuns()
      requires Valid()
      modifies this, slots
      ensures Valid()
      ensures exists es :: Leads(Setup(), old(Model()), es, Model()) && ByConsumer(es) && log == old(log) + es
    {
      assert Leads(Setup(), Model(), [], Model()) && ByConsumer<T>([]) && log == old(log) + [];
    }

    /** Interference: any number of steps of the producer thread. */
    method ProducerRuns()
      requires Valid()
      modifies this, slots
      ensures Valid()
      ensures exists es :: Leads(Setup(), old(Model()), es, Model()) && ByProducer(es) && log == old(log) + es
    {
      assert Leads(Setup(), Model(), [], Model()) && ByProducer<T>([]) && log == old(log) + [];
    }

    /** `ConsumerRuns` with what it leaves alone spelled out. */
    method ConsumerInterferes()
      requires Valid()
      modifies this, slots
      ensures Valid() && old(log) <= log
      ensures ProducerThread() == old(ProducerThread()) && Pushed() == old(Pushed())
      ensures old(Popped()) <= Popped()
    {
      ghost var s := Model();
      ModelIsRing();
      ConsumerRuns();
      ghost var es :| Leads(Setup(), s, es, Model()) && ByConsumer(es) && log == old(log) + es;
      ConsumerSteps(Setup(), s, es);
      HistoryGrows(Setup(), s, es);
    }

    /** `ProducerRuns` with what it leaves alone spelled out. */
    method ProducerInterferes()
      requires Valid()
      modifies this, slots
      ensures Valid() && old(log) <= log
      ensures Consumer() == old(Consumer()) && Popped() == old(Popped())
      ensures old(Pushed()) <= Pushed()
    {
      ghost var s := Model();
      ModelIsRing();
      ProducerRuns();
      ghost var es :| Leads(Setup(), s, es, Model()) && ByProducer(es) && log == old(log) + es;
      ProducerSteps(Setup(), s, es);
      HistoryGrows(Setup(), s, es);
    }

    /** An acquire load of the other thread's index: some stored value that is not older than the
        one this thread loaded last. A caller may rely on nothing but this contract. */
    static method CoherentLoad(stored: seq<nat>, ghost seen: nat) returns (value: nat, ghost i: nat)
      requires seen < |stored|
      ensures seen <= i < |stored| && value == stored[i]
    {
      i := |stored| - 1;
      value := Last(stored);
    }

    // The memory accesses of the two endpoints, each preceded by interference.

    method LoadOwnTail(item: T) returns (t: nat)
      requires Valid() && Producer().PIdle?
      modifies this, slots
      ensures Valid() && old(log) <= log && Producer() == PHasTail(item, t)
      ensures Pushed() == old(Pushed()) && old(Popped()) <= Popped()
    {
      ConsumerInterferes();
      t := Last(tail);
      Step(PStart(item));
    }

    method LoadHead(next: nat) returns (full: bool, ghost atLoad: State<T>, ghost i: nat)
      requires Valid() && Producer().PHasTail? && next == Setup().Next(Producer().t)
      modifies this, slots
      ensures Valid() && old(log) <= log && |atLoad.popped| <= |atLoad.pushed|
      ensures atLoad.pushed == Pushed() == old(Pushed())
      ensures old(Popped()) <= atLoad.popped == Popped()
      ensures Took(old(log), log, atLoad, PLoadHead(i))
      ensures Enabled(Setup(), atLoad, PLoadHead(i)) && (full <==> Verdict(Setup(), atLoad, PLoadHead(i)))
      ensures !full ==> |Contents(atLoad)| < capacity - 1
      ensures full ==> (|Contents(atLoad)| == capacity - 1 <==> Newest(atLoad, PLoadHead(i)))
      ensures Producer() == if full then PIdle else PHasRoom(old(Producer().item), old(Producer().t))
    {
      ConsumerInterferes();
      atLoad := Model();
      ModelIsRing();
      var h;
      h, i := CoherentLoad(head, atLoad.prod.seen);
      full := next == h;
      FullIsExact(Setup(), atLoad, i);
      Step(PLoadHead(i));
    }

    method WriteSlot(t: nat, item: T)
      requires Valid() && Producer() == PHasRoom(item, t)
      modifies this, slots
      ensures Valid() && old(log) <= log && Producer() == PWrote(item, t)
      ensures Pushed() == old(Pushed()) && old(Popped()) <= Popped()
    {
      ConsumerInterferes();
      ModelIsRing();
      Step(PWrite);
      slots[t] := item;
    }

    method StoreTail(next: nat)
      requires Valid() && Producer().PWrote? && next == Setup().Next(Producer().t)
      modifies this, slots
      ensures Valid() && old(log) <= log && Producer().PIdle?
      ensures Pushed() == old(Pushed()) + [old(Producer().item)]
      ensures old(Popped()) <= Popped()
    {
      ConsumerInterferes();
      Step(PPublish);
      tail := tail + [next];
    }

    method LoadOwnHead() returns (h: nat)
      requires Valid() && Consumer().CIdle?
      modifies this, slots
      ensures Valid() && old(log) <= log && Consumer() == CHasHead(h)
      ensures Popped() == old(Popped()) && old(Pushed()) <= Pushed()
    {
      ProducerInterferes();
      h := Last(head);
      Step(CStart);
    }

    method LoadTail(h: nat) returns (empty: bool, ghost atLoad: State<T>, ghost j: nat)
      requires Valid() && Consumer() == CHasHead(h)
      modifies this, slots
      ensures Valid() && old(log) <= log && |atLoad.popped| <= |atLoad.pushed|
      ensures atLoad.popped == Popped() == old(Popped())
      ensures old(Pushed()) <= atLoad.pushed == Pushed()
      ensures Took(old(log), log, atLoad, CLoadTail(j))
      ensures Enabled(Setup(), atLoad, CLoadTail(j)) && (empty <==> Verdict(Setup(), atLoad, CLoadTail(j)))
      ensures !empty ==> Contents(atLoad) != []
      ensures empty ==> (Contents(atLoad) == [] <==> Newest(atLoad, CLoadTail(j)))
      ensures Consumer() == if empty then CIdle else CHasItem(h)
    {
      ProducerInterferes();
      atLoad := Model();
      ModelIsRing();
      var t;
      t, j := CoherentLoad(tail, atLoad.cons.seen);
      empty := h == t;
      EmptyIsExact(Setup(), atLoad, j);
      Step(CLoadTail(j));
    }

    /** Moves the item out; what stays in the slot is arbitrary. */
    method TakeSlot(h: nat) returns (out: T)
      requires Valid() && Consumer() == CHasItem(h)
      modifies this, slots
      ensures Valid() && old(log) <= log && Consumer() == CTook(h, out)
      ensures |Popped()| < |Pushed()| && out == Pushed()[|Popped()|]
      ensures Popped() == old(Popped()) && old(Pushed()) <= Pushed()
    {
      ProducerInterferes();
      ModelIsRing();
      out := slots[h];
      slots[h] := *;
      Step(CTake(slots[h]));
    }

    method StoreHead(next: nat)
      requires Valid() && Consumer().CTook? && next == Setup().Next(Consumer().h)
      modifies this, slots
      ensures Valid() && old(log) <= log && Consumer().CIdle?
      ensures Popped() == old(Popped()) + [old(Consumer().out)]
      ensures old(Pushed()) <= Pushed()
    {
      ProducerInterferes();
      Step(CPublish);
      head := head + [next];
    }

    /** A push succeeds only if the queue was not full at the instant of the load of `head`; it
        fails rightly exactly if that load was not stale. */
    method TryPush(item: T) returns (ok: bool, ghost atLoad: State<T>, ghost i: nat)
      requires Valid() && Producer().PIdle?
      modifies this, slots
      ensures Valid() && old(log) <= log && Producer().PIdle?
      ensures |atLoad.popped| <= |atLoad.pushed| && old(Popped()) <= atLoad.popped <= Popped()
      ensures atLoad.pushed == old(Pushed())
      ensures Took(old(log), log, atLoad, PLoadHead(i))
      ensures Enabled(Setup(), atLoad, PLoadHead(i)) && (ok <==> !Verdict(Setup(), atLoad, PLoadHead(i)))
      ensures ok ==> |Contents(atLoad)| < capacity - 1
      ensures !ok ==> (|Contents(atLoad)| == capacity - 1 <==> Newest(atLoad, PLoadHead(i)))
      ensures Pushed() == old(Pushed()) + if ok then [item] else []
    {
      var full;
      var t := LoadOwnTail(item);
      var next := And(t + 1, capacity - 1);
      full, atLoad, i := LoadHead(next);
      if full {
        return false, atLoad, i;
      }
      ghost var loaded := log;
      WriteSlot(t, item);
      StoreTail(next);
      StillTook(old(log), loaded, log, atLoad, PLoadHead(i));
      return true, atLoad, i;
    }

    /** A pop returns the oldest item; it returns nothing rightly exactly if its load of `tail` was
        not stale. */
    method TryPop() returns (r: Option<T>, ghost atLoad: State<T>, ghost j: nat)
      requires Valid() && Consumer().CIdle?
      modifies this, slots
      ensures Valid() && old(log) <= log && Consumer().CIdle?
      ensures |atLoad.popped| <= |atLoad.pushed| && old(Pushed()) <= atLoad.pushed <= Pushed()
      ensures atLoad.popped == old(Popped())
      ensures Took(old(log), log, atLoad, CLoadTail(j))
      ensures Enabled(Setup(), atLoad, CLoadTail(j)) && (r.None? <==> Verdict(Setup(), atLoad, CLoadTail(j)))
      ensures r.Some? ==> Contents(atLoad) != [] && r.value == Contents(atLoad)[0]
      ensures r.None? ==> (Contents(atLoad) == [] <==> Newest(atLoad, CLoadTail(j)))
      ensures Popped() == old(Popped()) + if r.Some? then [r.value] else []
    {
      var empty;
      var h := LoadOwnHead();
      empty, atLoad, j := LoadTail(h);
      if empty {
        return None, atLoad, j;
      }
      ghost var loaded := log;
      var out := TakeSlot(h);
      StoreHead(And(h + 1, capacity - 1));
      StillTook(old(log), loaded, log, atLoad, CLoadTail(j));
      return Some(out), atLoad, j;
    }

    method EmptyLoadsHead() returns (h: nat, ghost atLoad: State<T>, ghost i: nat)
      requires Valid() && Producer().PIdle?
      modifies this, slots
      ensures Valid() && old(log) <= log && Producer() == PEmptyHasHead(h)
      ensures |atLoad.popped| <= |atLoad.pushed| && atLoad.pushed == Pushed() == old(Pushed())
      ensures old(Popped()) <= atLoad.popped == Popped()
      ensures Took(old(log), log, atLoad, PEmptyHead(i))
      ensures Enabled(Setup(), atLoad, PEmptyHead(i)) && ProducerThread().seen == i <= |atLoad.popped|
      ensures Newest(atLoad, PEmptyHead(i)) <==> i == |atLoad.popped|
    {
      ConsumerInterferes();
      atLoad := Model();
      ModelIsRing();
      h, i := CoherentLoad(head, atLoad.prod.seen);
      Step(PEmptyHead(i));
    }

    method EmptyLoadsOwnTail(h: nat) returns (empty: bool)
      requires Valid() && Producer() == PEmptyHasHead(h) && ProducerThread().seen <= |Pushed()|
      modifies this, slots
      ensures Valid() && old(log) <= log && Producer().PIdle?
      ensures Pushed() == old(Pushed()) && old(Popped()) <= Popped()
      ensures empty <==> old(ProducerThread().seen) == |Pushed()|
    {
      ConsumerInterferes();
      ModelIsRing();
      empty := h == Last(tail);
      if Model().prod.seen < |Pushed()| {
        DistinctSlots(capacity, Model().prod.seen, |Pushed()|);
      }
      Step(PEmptyTail);
    }

    /** `empty()` on the producer's thread is true exactly if the queue was empty at the instant of
        the load of `head` and that load was not stale. */
    method EmptyFromProducer() returns (empty: bool, ghost atLoad: State<T>, ghost i: nat)
      requires Valid() && Producer().PIdle?
      modifies this, slots
      ensures Valid() && old(log) <= log && Producer().PIdle? && Pushed() == old(Pushed())
      ensures |atLoad.popped| <= |atLoad.pushed| && old(Popped()) <= atLoad.popped <= Popped()
      ensures atLoad.pushed == old(Pushed())
      ensures Took(old(log), log, atLoad, PEmptyHead(i))
      ensures Enabled(Setup(), atLoad, PEmptyHead(i))
      ensures empty <==> Contents(atLoad) == [] && Newest(atLoad, PEmptyHead(i))
    {
      var h;
      h, atLoad, i := EmptyLoadsHead();
      ghost var loaded := log;
      empty := EmptyLoadsOwnTail(h);
      StillTook(old(log), loaded, log, atLoad, PEmptyHead(i));
    }

    method EmptyLoadsOwnHead() returns (h: nat)
      requires Valid() && Consumer().CIdle?
      modifies this, slots
      ensures Valid() && old(log) <= log && Consumer() == CEmptyHasHead(h)
      ensures Popped() == old(Popped()) && old(Pushed()) <= Pushed()
    {
      ProducerInterferes();
      h := Last(head);
      Step(CEmptyHead);
    }

    /** `empty()` on the consumer's thread is false only if the queue was not empty at the instant
        of the load of `tail`; it is true rightly exactly if that load was not stale. */
    method EmptyFromConsumer() returns (empty: bool, ghost atLoad: State<T>, ghost j: nat)
      requires Valid() && Consumer().CIdle?
      modifies this, slots
      ensures Valid() && old(log) <= log && Consumer().CIdle? && Popped() == old(Popped())
      ensures |atLoad.popped| <= |atLoad.pushed| && old(Pushed()) <= atLoad.pushed <= Pushed()
      ensures atLoad.popped == old(Popped())
      ensures Took(old(log), log, atLoad, CEmptyTail(j))
      ensures Enabled(Setup(), atLoad, CEmptyTail(j)) && (empty <==> Verdict(Setup(), atLoad, CEmptyTail(j)))
      ensures !empty ==> Contents(atLoad) != []
      ensures empty ==> (Contents(atLoad) == [] <==> Newest(atLoad, CEmptyTail(j)))
    {
      var h := EmptyLoadsOwnHead();
      ProducerInterferes();
      atLoad := Model();
      ModelIsRing();
      var t;
      t, j := CoherentLoad(tail, atLoad.cons.seen);
      empty := h == t;
      if |atLoad.popped| < j {
        DistinctSlots(capacity, |atLoad.popped|, j);
      }
      Step(CEmptyTail(j));
    }
  }
}
