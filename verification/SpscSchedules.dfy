/** Schedules that run one thread alone, and what they prove about the queue's contract:
    each endpoint can finish its operation without the other thread's help, calls are wait
    free, and the memory orders are necessary. */
module SpscSchedules {
  import opened SpscMachine
  import opened SpscSafety

  lemma {:induction false} ExecuteConcat<T(!new)>(c: Config, s: State<T>, a: seq<Event<T>>, b: seq<Event<T>>)
    requires Executes(c, s, a) && Executes(c, Execute(c, s, a), b)
    ensures Executes(c, s, a + b) && Execute(c, s, a + b) == Execute(c, Execute(c, s, a), b)
    decreases |a|
  {
    if a == [] {
      assert a + b == b;
    } else {
      assert (a + b)[1..] == a[1..] + b;
      ExecuteConcat(c, Apply(c, s, a[0]), a[1..], b);
    }
  }

  lemma ExecuteFirst<T(!new)>(c: Config, s: State<T>, e: Event<T>, es: seq<Event<T>>)
    requires Enabled(c, s, e) && Executes(c, Apply(c, s, e), es)
    ensures Executes(c, s, [e] + es) && Execute(c, s, [e] + es) == Execute(c, Apply(c, s, e), es)
  {
    assert ([e] + es)[1..] == es;
  }

  lemma {:induction false} HistoryGrows<T(!new)>(c: Config, s: State<T>, es: seq<Event<T>>)
    requires Executes(c, s, es)
    ensures s.popped <= Execute(c, s, es).popped && s.pushed <= Execute(c, s, es).pushed
    decreases |es|
  {
    if es != [] {
      HistoryGrows(c, Apply(c, s, es[0]), es[1..]);
    }
  }

  /** The producer's next step, reading the newest `head`. */
  ghost function NextPush<T>(s: State<T>, item: T): Event<T> {
    match s.prod.at
    case PIdle => PStart(item)
    case PHasTail(_, _) => PLoadHead(if s.head == [] then 0 else |s.head| - 1)
    case PHasRoom(_, _) => PWrite
    case PWrote(_, _) => PPublish
    case PEmptyHasHead(_) => PEmptyTail
  }

  ghost function NextPop<T>(s: State<T>, residue: T): Event<T> {
    match s.cons.at
    case CIdle => CStart
    case CHasHead(_) => CLoadTail(if s.tail == [] then 0 else |s.tail| - 1)
    case CHasItem(_) => CTake(residue)
    case CTook(_, _) => CPublish
    case CEmptyHasHead(_) => CEmptyTail(if s.tail == [] then 0 else |s.tail| - 1)
  }

  ghost function StepsToPush<T>(s: State<T>): nat {
    match s.prod.at
    case PEmptyHasHead(_) => 5
    case PIdle => 4
    case PHasTail(_, _) => 3
    case PHasRoom(_, _) => 2
    case PWrote(_, _) => 1
  }

  ghost function StepsToPop<T>(s: State<T>): nat {
    match s.cons.at
    case CEmptyHasHead(_) => 5
    case CIdle => 4
    case CHasHead(_) => 3
    case CHasItem(_) => 2
    case CTook(_, _) => 1
  }

  /** The item the producer's current or next call pushes. */
  ghost function Pending<T>(s: State<T>, item: T): T {
    match s.prod.at
    case PHasTail(x, _) => x
    case PHasRoom(x, _) => x
    case PWrote(x, _) => x
    case _ => item
  }

  lemma PushStep<T(!new)>(c: Config, s: State<T>, item: T)
    requires Ring(c, s) && |s.pushed| + 1 < |s.popped| + c.capacity
    ensures var e := NextPush(s, item);
            && Enabled(c, s, e) && e.OfProducer()
            && var s' := Apply(c, s, e);
            && Ring(c, s')
            && s'.popped == s.popped && s'.cons == s.cons && s'.head == s.head
            && if e.PPublish?
               then s'.prod.at.PIdle? && s'.pushed == s.pushed + [Pending(s, item)]
               else s'.pushed == s.pushed && Pending(s', item) == Pending(s, item)
                    && StepsToPush(s') + 1 == StepsToPush(s)
  {
    RingStep(c, s, NextPush(s, item));
    if s.prod.at.PHasTail? {
      FullVerdict(c, s, |s.head| - 1);
    }
  }

  /** The queue is not full: the producer alone completes a push, from any point of its code. */
  lemma {:induction false} CompletePush<T(!new)>(c: Config, s: State<T>, item: T) returns (es: seq<Event<T>>)
    requires Ring(c, s) && |s.pushed| + 1 < |s.popped| + c.capacity
    ensures |es| == StepsToPush(s)
    ensures ByProducer(es)
    ensures Executes(c, s, es)
    ensures var s' := Execute(c, s, es);
            && Ring(c, s') && s'.prod.at.PIdle?
            && s'.pushed == s.pushed + [Pending(s, item)]
            && s'.popped == s.popped && s'.cons == s.cons && s'.head == s.head
    decreases StepsToPush(s)
  {
    var e := NextPush(s, item);
    PushStep(c, s, item);
    var s' := Apply(c, s, e);
    var rest := [];
    if !e.PPublish? {
      rest := CompletePush(c, s', item);
    }
    ExecuteFirst(c, s, e, rest);
    es := [e] + rest;
  }

  lemma PopStep<T(!new)>(c: Config, s: State<T>, residue: T)
    requires Ring(c, s) && |s.popped| < |s.pushed|
    ensures var e := NextPop(s, residue);
            && Enabled(c, s, e) && !e.OfProducer()
            && var s' := Apply(c, s, e);
            && Ring(c, s')
            && s'.pushed == s.pushed && s'.prod == s.prod && s'.tail == s.tail
            && if e.CPublish?
               then s'.cons.at.CIdle? && s'.popped == s.popped + [s.pushed[|s.popped|]]
               else s'.popped == s.popped && StepsToPop(s') + 1 == StepsToPop(s)
  {
    RingStep(c, s, NextPop(s, residue));
    if s.cons.at.CHasHead? {
      EmptyVerdict(c, s, |s.tail| - 1);
    }
  }

  /** The queue is not empty: the consumer alone completes a pop, from any point of its code. */
  lemma {:induction false} CompletePop<T(!new)>(c: Config, s: State<T>, residue: T) returns (es: seq<Event<T>>)
    requires Ring(c, s) && |s.popped| < |s.pushed|
    ensures |es| == StepsToPop(s)
    ensures ByConsumer(es)
    ensures Executes(c, s, es)
    ensures var s' := Execute(c, s, es);
            && Ring(c, s') && s'.cons.at.CIdle?
            && s'.popped == s.popped + [s.pushed[|s.popped|]]
            && s'.pushed == s.pushed && s'.prod == s.prod && s'.tail == s.tail
    decreases StepsToPop(s)
  {
    var e := NextPop(s, residue);
    PopStep(c, s, residue);
    var s' := Apply(c, s, e);
    var rest := [];
    if !e.CPublish? {
      rest := CompletePop(c, s', residue);
    }
    ExecuteFirst(c, s, e, rest);
    es := [e] + rest;
  }

  // Wait freedom.

  /** Neither thread is ever blocked: wherever both are, each has an enabled next step. */
  lemma NeverBlocked<T(!new)>(c: Config, s: State<T>, item: T, residue: T)
    requires Ring(c, s)
    ensures Enabled(c, s, NextPush(s, item)) && Enabled(c, s, NextPop(s, residue))
  {
  }

  ghost function StepsBy<T>(producer: bool, es: seq<Event<T>>): nat {
    if es == [] then 0
    else (if es[0].OfProducer() == producer then 1 else 0) + StepsBy(producer, es[1..])
  }

  /** The most steps a thread takes until it returns from its current, or its next, call. */
  ghost function StepsLeft<T>(producer: bool, s: State<T>): nat {
    if producer then
      if s.prod.at.PEmptyHasHead? then 1 else StepsToPush(s)
    else
      if s.cons.at.CEmptyHasHead? then 1 else StepsToPop(s)
  }

  /** The last step of `es` is this thread's, and returns from its call. */
  ghost predicate Returns<T(!new)>(c: Config, s: State<T>, es: seq<Event<T>>, producer: bool) {
    && Executes(c, s, es) && es != [] && Last(es).OfProducer() == producer
    && if producer then Execute(c, s, es).prod.at.PIdle? else Execute(c, s, es).cons.at.CIdle?
  }

  /** A call returns within four steps of its own thread, whatever the other thread does meanwhile
      and however stale the loads are. */
  lemma {:induction false} WaitFree<T(!new)>(c: Config, s: State<T>, es: seq<Event<T>>, producer: bool) returns (m: nat)
    requires Executes(c, s, es) && StepsBy(producer, es) >= StepsLeft(producer, s)
    ensures m <= |es| && Returns(c, s, es[..m], producer) && StepsLeft(producer, s) <= 4
    decreases |es|
  {
    var e := es[0];
    var s' := Apply(c, s, e);
    if e.OfProducer() == producer && (if producer then s'.prod.at.PIdle? else s'.cons.at.CIdle?) {
      m := 1;
      assert es[..1] == [e];
      ExecuteFirst(c, s, e, []);
    } else {
      var k := WaitFree(c, s', es[1..], producer);
      m := k + 1;
      assert es[..m] == [e] + es[1..][..k];
      ExecuteFirst(c, s, e, es[1..][..k]);
    }
  }

  // Stale loads do happen: the failing verdicts can be wrong.

  lemma {:induction false} Fill<T(!new)>(c: Config, slots: seq<T>, n: nat) returns (es: seq<Event<T>>)
    requires c.Valid() && |slots| == c.capacity && n < c.capacity
    ensures Executes(c, Init(c, slots), es)
    ensures var s := Execute(c, Init(c, slots), es);
            Ring(c, s) && |s.pushed| == n && s.popped == [] && s.prod.at.PIdle? && s.cons == Init(c, slots).cons
  {
    es := [];
    RingInit(c, slots);
    if n > 0 {
      es := Fill(c, slots, n - 1);
      var s := Execute(c, Init(c, slots), es);
      var push := CompletePush(c, s, slots[0]);
      ExecuteConcat(c, Init(c, slots), es, push);
      es := es + push;
    }
  }

  /** For every capacity a call of `try_push` can find the queue full that is not: its load of
      `head` misses a pop. */
  lemma StaleRefusal<T(!new)>(c: Config, slots: seq<T>, item: T) returns (es: seq<Event<T>>)
    requires c.Valid() && |slots| == c.capacity
    ensures Executes(c, Init(c, slots), es)
    ensures var s := Execute(c, Init(c, slots), es);
            && Enabled(c, s, PLoadHead(0)) && Verdict(c, s, PLoadHead(0))
            && |s.pushed| - |s.popped| == c.capacity - 2
  {
    var init := Init(c, slots);
    es := Fill(c, slots, c.capacity - 1);
    var s := Execute(c, init, es);
    var pop := CompletePop(c, s, slots[0]);
    ExecuteConcat(c, init, es, pop);
    es := es + pop;
    var s' := Execute(c, init, es);
    ExecuteFirst(c, s', PStart(item), []);
    ExecuteConcat(c, init, es, [PStart(item)]);
    es := es + [PStart(item)];
    RingStep(c, s', PStart(item));
    FullVerdict(c, Apply(c, s', PStart(item)), 0);
  }

  /** And a call of `try_pop` can find the queue empty that is not: its load of `tail` misses a push. */
  lemma StaleNothing<T(!new)>(c: Config, slots: seq<T>) returns (es: seq<Event<T>>)
    requires c.Valid() && |slots| == c.capacity
    ensures Executes(c, Init(c, slots), es)
    ensures var s := Execute(c, Init(c, slots), es);
            && Enabled(c, s, CLoadTail(0)) && Verdict(c, s, CLoadTail(0))
            && |s.pushed| - |s.popped| == 1
  {
    var init := Init(c, slots);
    es := Fill(c, slots, 1);
    var s := Execute(c, init, es);
    ExecuteFirst(c, s, CStart, []);
    ExecuteConcat(c, init, es, [CStart]);
    es := es + [CStart];
    RingStep(c, s, CStart);
    EmptyVerdict(c, Apply(c, s, CStart), 0);
  }

  // The memory orders are necessary.

  ghost predicate TailSync(o: Orders) {
    o.tailRelease && o.tailAcquire
  }

  ghost predicate HeadSync(o: Orders) {
    o.headRelease && o.headAcquire
  }

  /** Without a release/acquire pair on an index, its reader learns nothing from it. */
  ghost predicate Uninformed<T(!new)>(o: Orders, s: State<T>) {
    && (!o.tailRelease ==> forall j | 0 <= j < |s.tail| :: s.tail[j].clock.producer == 0)
    && (!o.headRelease ==> forall i | 0 <= i < |s.head| :: s.head[i].clock.consumer == 0)
    && (!TailSync(o) ==> s.cons.clock.producer == 0)
    && (!HeadSync(o) ==> s.prod.clock.consumer == 0)
  }

  /** Slots that were written, or moved from, bear the time of it. */
  ghost predicate WrittenStamped<T(!new)>(c: Config, s: State<T>)
    requires Ring(c, s)
  {
    forall k {:trigger s.slots[IndexOf(k, c.capacity)]} | 0 <= k < Hi(s) ::
      s.slots[IndexOf(k, c.capacity)].byProducer >= 1
  }

  ghost predicate TakenStamped<T(!new)>(c: Config, s: State<T>)
    requires Ring(c, s)
  {
    forall k {:trigger s.slots[IndexOf(k, c.capacity)]} | 0 <= k < Lo(s) ::
      s.slots[IndexOf(k, c.capacity)].byConsumer >= 1
  }

  /** Without them, the first pop races, and so does the first write of a slot's second lap. */
  ghost predicate Unordered<T(!new)>(c: Config, s: State<T>)
    requires Ring(c, s)
  {
    && Uninformed(c.orders, s)
    && WrittenStamped(c, s)
    && TakenStamped(c, s)
    && (!TailSync(c.orders) && Lo(s) >= 1 ==> s.raced)
    && (!HeadSync(c.orders) && Hi(s) > c.capacity ==> s.raced)
  }

  lemma WrittenStampedStep<T(!new)>(c: Config, s: State<T>, e: Event<T>)
    requires Ring(c, s) && WrittenStamped(c, s) && Enabled(c, s, e) && Ring(c, Apply(c, s, e))
    ensures WrittenStamped(c, Apply(c, s, e))
  {
  }

  lemma TakenStampedStep<T(!new)>(c: Config, s: State<T>, e: Event<T>)
    requires Ring(c, s) && TakenStamped(c, s) && Enabled(c, s, e) && Ring(c, Apply(c, s, e))
    ensures TakenStamped(c, Apply(c, s, e))
  {
  }

  lemma UninformedStep<T(!new)>(c: Config, s: State<T>, e: Event<T>)
    requires Uninformed(c.orders, s) && Enabled(c, s, e)
    ensures Uninformed(c.orders, Apply(c, s, e))
  {
  }

  lemma UnorderedStep<T(!new)>(c: Config, s: State<T>, e: Event<T>)
    requires Ring(c, s) && Unordered(c, s) && Enabled(c, s, e)
    ensures Ring(c, Apply(c, s, e)) && Unordered(c, Apply(c, s, e))
  {
    RingStep(c, s, e);
    WrittenStampedStep(c, s, e);
    TakenStampedStep(c, s, e);
    UninformedStep(c, s, e);
    if e.PWrite? && |s.pushed| >= c.capacity {
      NextLap(c.capacity, |s.pushed| - c.capacity);
    }
  }

  lemma {:induction false} UnorderedRun<T(!new)>(c: Config, s: State<T>, es: seq<Event<T>>)
    requires Ring(c, s) && Unordered(c, s) && Executes(c, s, es)
    ensures Ring(c, Execute(c, s, es)) && Unordered(c, Execute(c, s, es))
    decreases |es|
  {
    if es != [] {
      UnorderedStep(c, s, es[0]);
      UnorderedRun(c, Apply(c, s, es[0]), es[1..]);
    }
  }

  /** `n` pushes and pops in alternation are possible from the start, for every `n`. */
  lemma {:induction false} Alternate<T(!new)>(c: Config, slots: seq<T>, n: nat) returns (es: seq<Event<T>>)
    requires c.Valid() && |slots| == c.capacity
    ensures Executes(c, Init(c, slots), es)
    ensures var s := Execute(c, Init(c, slots), es);
            Ring(c, s) && |s.pushed| == |s.popped| == n
  {
    if n == 0 {
      es := [];
      RingInit(c, slots);
    } else {
      es := Alternate(c, slots, n - 1);
      var init := Init(c, slots);
      var s := Execute(c, init, es);
      var push := CompletePush(c, s, slots[0]);
      ExecuteConcat(c, init, es, push);
      var pop := CompletePop(c, Execute(c, s, push), slots[0]);
      ExecuteConcat(c, init, es + push, pop);
      es := es + push + pop;
    }
  }

  /** The orders written in the code are exactly what race freedom needs: all runs are race
      free if both indices are published with release and read with acquire, and some run
      races if any one of the four is weakened. */
  lemma OrdersAreNecessary<T(!new)>(c: Config, slots: seq<T>)
    requires c.Valid() && |slots| == c.capacity
    ensures (forall es | Executes(c, Init(c, slots), es) :: !Execute(c, Init(c, slots), es).raced)
            <==> Synchronized(c.orders)
  {
    if Synchronized(c.orders) {
      forall es | Executes(c, Init(c, slots), es)
        ensures !Execute(c, Init(c, slots), es).raced
      {
        FifoSafety(c, slots, es);
      }
    } else {
      var es := Alternate(c, slots, c.capacity + 1);
      UnorderedRun(c, Init(c, slots), es);
      assert Execute(c, Init(c, slots), es).raced;
    }
  }
}
