/** The stress program: one thread pushes 1..n, retrying until each push succeeds; the other
    pops until it has n items, and adds them up. */
module SpscStress {
  import opened SpscMachine
  import opened SpscSafety
  import opened SpscSchedules

  datatype Program = Program(queue: State<int>, i: nat, got: nat, sum: int)

  ghost function Start(c: Config, slots: seq<int>): Program {
    Program(Init(c, slots), 1, 0, 0)
  }

  /** The step is one the two loops can take. */
  ghost predicate Allowed(c: Config, n: nat, p: Program, e: Event<int>) {
    && Enabled(c, p.queue, e)
    && match e
       case PStart(item) => item == p.i <= n
       case CStart => p.got < n
       case PEmptyHead(_) => false
       case CEmptyHead => false
       case _ => true
  }

  ghost function Advance(c: Config, n: nat, p: Program, e: Event<int>): Program
    requires Allowed(c, n, p, e)
  {
    var queue := Apply(c, p.queue, e);
    if e.PPublish? then p.(queue := queue, i := p.i + 1)
    else if e.CPublish? then Program(queue, p.i, p.got + 1, p.sum + p.queue.cons.at.out)
    else p.(queue := queue)
  }

  ghost predicate AllowedAll(c: Config, n: nat, p: Program, es: seq<Event<int>>)
    decreases |es|
  {
    es == [] || (Allowed(c, n, p, es[0]) && AllowedAll(c, n, Advance(c, n, p, es[0]), es[1..]))
  }

  ghost function AdvanceAll(c: Config, n: nat, p: Program, es: seq<Event<int>>): Program
    requires AllowedAll(c, n, p, es)
    decreases |es|
  {
    if es == [] then p else AdvanceAll(c, n, Advance(c, n, p, es[0]), es[1..])
  }

  ghost predicate Finished(n: nat, p: Program) {
    p.i > n && p.got >= n
  }

  /** Successful operations still to come. */
  ghost function Remaining(n: nat, p: Program): int {
    (n + 1 - p.i) + (n - p.got)
  }

  ghost predicate Good(c: Config, n: nat, p: Program) {
    Safe(c, p.queue) && Counted(n, p)
  }

  /** The loops' own variables agree with what has gone through the queue. */
  ghost predicate Counted(n: nat, p: Program) {
    var q := p.queue;
    && p.i == |q.pushed| + 1 <= n + 1
    && p.got == |q.popped|
    && (forall k | 0 <= k < |q.pushed| :: q.pushed[k] == k + 1)
    && 2 * p.sum == p.got * (p.got + 1)
    && !q.prod.at.PEmptyHasHead? && !q.cons.at.CEmptyHasHead?
    && (!q.prod.at.PIdle? ==> p.i <= n && Pending(q, 0) == p.i)
    && (!q.cons.at.CIdle? ==> p.got < n)
  }

  lemma CountedStep(c: Config, n: nat, p: Program, e: Event<int>)
    requires Counted(n, p) && Allowed(c, n, p, e)
    requires e.CPublish? ==> p.got < |p.queue.pushed| && p.queue.cons.at.out == p.queue.pushed[p.got]
    ensures Counted(n, Advance(c, n, p, e))
  {
    assert (p.got + 1) * (p.got + 2) == p.got * (p.got + 1) + 2 * (p.got + 1);
  }

  lemma GoodStep(c: Config, n: nat, p: Program, e: Event<int>)
    requires Good(c, n, p) && Allowed(c, n, p, e) && Synchronized(c.orders)
    ensures Good(c, n, Advance(c, n, p, e))
  {
    SafeStep(c, p.queue, e);
    assert e.CPublish? ==> p.queue.cons.at.out == p.queue.pushed[p.got];
    CountedStep(c, n, p, e);
  }

  lemma {:induction false} GoodRun(c: Config, n: nat, p: Program, es: seq<Event<int>>)
    requires Good(c, n, p) && AllowedAll(c, n, p, es) && Synchronized(c.orders)
    ensures Good(c, n, AdvanceAll(c, n, p, es))
    decreases |es|
  {
    if es != [] {
      GoodStep(c, n, p, es[0]);
      GoodRun(c, n, Advance(c, n, p, es[0]), es[1..]);
    }
  }

  /** No run races, and every finished run has received 1..n in order and the sum the test checks. */
  lemma FinishedRun(c: Config, slots: seq<int>, n: nat, es: seq<Event<int>>)
    requires c.Valid() && |slots| == c.capacity && Synchronized(c.orders)
    requires AllowedAll(c, n, Start(c, slots), es)
    ensures var p := AdvanceAll(c, n, Start(c, slots), es);
            && !p.queue.raced
            && (Finished(n, p) ==> p.queue.popped == seq(n, k => k + 1) && p.sum == n * (n + 1) / 2)
  {
    SafeInit(c, slots);
    GoodRun(c, n, Start(c, slots), es);
    var p := AdvanceAll(c, n, Start(c, slots), es);
    if Finished(n, p) {
      assert p.got == n;
      HalfOf(p.sum, n * (n + 1));
    }
  }

  lemma HalfOf(sum: int, product: int)
    requires 2 * sum == product
    ensures sum == product / 2
  {
  }

  lemma AdvanceFirst(c: Config, n: nat, p: Program, e: Event<int>, es: seq<Event<int>>)
    requires Allowed(c, n, p, e) && AllowedAll(c, n, Advance(c, n, p, e), es)
    ensures AllowedAll(c, n, p, [e] + es)
    ensures AdvanceAll(c, n, p, [e] + es) == AdvanceAll(c, n, Advance(c, n, p, e), es)
  {
    assert ([e] + es)[1..] == es;
  }

  lemma {:induction false} PushProgress(c: Config, n: nat, p: Program) returns (es: seq<Event<int>>)
    requires Good(c, n, p) && Synchronized(c.orders) && p.i <= n && p.queue.popped == p.queue.pushed
    ensures ByProducer(es)
    ensures AllowedAll(c, n, p, es)
    ensures Remaining(n, AdvanceAll(c, n, p, es)) == Remaining(n, p) - 1
    decreases StepsToPush(p.queue)
  {
    var e := NextPush(p.queue, p.i);
    PushStep(c, p.queue, p.i);
    GoodStep(c, n, p, e);
    var rest := [];
    if !e.PPublish? {
      rest := PushProgress(c, n, Advance(c, n, p, e));
    }
    AdvanceFirst(c, n, p, e, rest);
    es := [e] + rest;
  }

  lemma {:induction false} PopProgress(c: Config, n: nat, p: Program) returns (es: seq<Event<int>>)
    requires Good(c, n, p) && Synchronized(c.orders) && |p.queue.popped| < |p.queue.pushed|
    ensures ByConsumer(es)
    ensures AllowedAll(c, n, p, es)
    ensures Remaining(n, AdvanceAll(c, n, p, es)) == Remaining(n, p) - 1
    decreases StepsToPop(p.queue)
  {
    var e := NextPop(p.queue, 0);
    PopStep(c, p.queue, 0);
    GoodStep(c, n, p, e);
    var rest := [];
    if !e.CPublish? {
      rest := PopProgress(c, n, Advance(c, n, p, e));
    }
    AdvanceFirst(c, n, p, e, rest);
    es := [e] + rest;
  }

  /** No reachable unfinished state is stuck: one of the threads, run alone from wherever both
      happen to be in their code, completes a successful operation, and each success leaves
      one fewer to come. */
  lemma Progress(c: Config, slots: seq<int>, n: nat, es: seq<Event<int>>) returns (more: seq<Event<int>>)
    requires c.Valid() && |slots| == c.capacity && Synchronized(c.orders)
    requires AllowedAll(c, n, Start(c, slots), es)
    requires !Finished(n, AdvanceAll(c, n, Start(c, slots), es))
    ensures var p := AdvanceAll(c, n, Start(c, slots), es);
            && AllowedAll(c, n, p, more)
            && (ByProducer(more) || ByConsumer(more))
            && 0 <= Remaining(n, AdvanceAll(c, n, p, more)) == Remaining(n, p) - 1
  {
    SafeInit(c, slots);
    GoodRun(c, n, Start(c, slots), es);
    var p := AdvanceAll(c, n, Start(c, slots), es);
    if |p.queue.popped| < |p.queue.pushed| {
      more := PopProgress(c, n, p);
    } else {
      more := PushProgress(c, n, p);
    }
    GoodRun(c, n, p, more);
  }

  // Fair runs. Loads that stay stale for ever could keep a thread retrying for ever, so here
  // every load returns the newest value.

  ghost predicate AllNewest(c: Config, n: nat, p: Program, es: seq<Event<int>>)
    requires AllowedAll(c, n, p, es)
    decreases |es|
  {
    es == [] || (Newest(p.queue, es[0]) && AllNewest(c, n, Advance(c, n, p, es[0]), es[1..]))
  }

  /** A step leaves as many successes to come, or one fewer if it publishes an index. */
  lemma RemainingStep(c: Config, n: nat, p: Program, e: Event<int>)
    requires Good(c, n, p) && Allowed(c, n, p, e) && Synchronized(c.orders)
    ensures Good(c, n, Advance(c, n, p, e))
    ensures 0 <= Remaining(n, Advance(c, n, p, e))
            == Remaining(n, p) - if e.PPublish? || e.CPublish? then 1 else 0
  {
    GoodStep(c, n, p, e);
  }

  lemma {:induction false} RemainingNeverGrows(c: Config, n: nat, p: Program, es: seq<Event<int>>)
    requires Good(c, n, p) && AllowedAll(c, n, p, es) && Synchronized(c.orders)
    ensures Remaining(n, AdvanceAll(c, n, p, es)) <= Remaining(n, p)
    decreases |es|
  {
    if es != [] {
      RemainingStep(c, n, p, es[0]);
      RemainingNeverGrows(c, n, Advance(c, n, p, es[0]), es[1..]);
    }
  }

  lemma OwnPopStep(c: Config, n: nat, p: Program, e: Event<int>)
    requires Good(c, n, p) && Allowed(c, n, p, e) && Newest(p.queue, e)
    requires |p.queue.popped| < |p.queue.pushed| && !e.OfProducer() && !e.CPublish?
    ensures var q, q' := p.queue, Advance(c, n, p, e).queue;
            q'.pushed == q.pushed && q'.popped == q.popped && StepsToPop(q') + 1 == StepsToPop(q)
  {
    var residue := if e.CTake? then e.residue else 0;
    assert e == NextPop(p.queue, residue);
    PopStep(c, p.queue, residue);
  }

  lemma OwnPushStep(c: Config, n: nat, p: Program, e: Event<int>)
    requires Good(c, n, p) && Allowed(c, n, p, e) && Newest(p.queue, e)
    requires p.queue.popped == p.queue.pushed && e.OfProducer() && !e.PPublish?
    ensures var q, q' := p.queue, Advance(c, n, p, e).queue;
            q'.pushed == q.pushed && q'.popped == q.popped && StepsToPush(q') + 1 == StepsToPush(q)
  {
    assert e == NextPush(p.queue, p.i);
    PushStep(c, p.queue, p.i);
  }

  /** The queue holds an item: once the consumer has taken enough steps, among whatever steps of
      the producer, one more operation has succeeded. */
  lemma {:induction false} ConsumerMustPop(c: Config, n: nat, p: Program, es: seq<Event<int>>)
    requires Good(c, n, p) && AllowedAll(c, n, p, es) && AllNewest(c, n, p, es) && Synchronized(c.orders)
    requires |p.queue.popped| < |p.queue.pushed| && StepsBy(false, es) >= StepsToPop(p.queue)
    ensures Remaining(n, AdvanceAll(c, n, p, es)) < Remaining(n, p)
    decreases |es|
  {
    var e := es[0];
    RemainingStep(c, n, p, e);
    if e.PPublish? || e.CPublish? {
      RemainingNeverGrows(c, n, Advance(c, n, p, e), es[1..]);
    } else {
      if !e.OfProducer() {
        OwnPopStep(c, n, p, e);
      }
      ConsumerMustPop(c, n, Advance(c, n, p, e), es[1..]);
    }
  }

  lemma {:induction false} ProducerMustPush(c: Config, n: nat, p: Program, es: seq<Event<int>>)
    requires Good(c, n, p) && AllowedAll(c, n, p, es) && AllNewest(c, n, p, es) && Synchronized(c.orders)
    requires p.queue.popped == p.queue.pushed && StepsBy(true, es) >= StepsToPush(p.queue)
    ensures Remaining(n, AdvanceAll(c, n, p, es)) < Remaining(n, p)
    decreases |es|
  {
    var e := es[0];
    RemainingStep(c, n, p, e);
    if e.PPublish? || e.CPublish? {
      RemainingNeverGrows(c, n, Advance(c, n, p, e), es[1..]);
    } else {
      if e.OfProducer() {
        OwnPushStep(c, n, p, e);
      }
      ProducerMustPush(c, n, Advance(c, n, p, e), es[1..]);
    }
  }

  /** Each thread that is not done takes as many steps as one successful call needs. */
  ghost predicate FairWindow(c: Config, n: nat, p: Program, es: seq<Event<int>>) {
    && AllowedAll(c, n, p, es) && AllNewest(c, n, p, es)
    && (p.i <= n ==> StepsBy(true, es) >= StepsToPush(p.queue))
    && (p.got < n ==> StepsBy(false, es) >= StepsToPop(p.queue))
  }

  lemma ProducerCanStep(c: Config, n: nat, p: Program, k: nat)
    requires Good(c, n, p) && p.i <= n && k < StepsToPush(p.queue)
    ensures var e := NextPush(p.queue, p.i);
            && Allowed(c, n, p, e) && Newest(p.queue, e) && e.OfProducer()
            && var p' := Advance(c, n, p, e);
            && p'.got == p.got && StepsToPop(p'.queue) == StepsToPop(p.queue)
            && (k > 0 ==> p'.i <= n && k <= StepsToPush(p'.queue))
  {
  }

  lemma ConsumerCanStep(c: Config, n: nat, p: Program, m: nat)
    requires Good(c, n, p) && p.got < n && m < StepsToPop(p.queue)
    ensures var e := NextPop(p.queue, 0);
            && Allowed(c, n, p, e) && Newest(p.queue, e) && !e.OfProducer()
            && var p' := Advance(c, n, p, e);
            m > 0 ==> p'.got < n && m <= StepsToPop(p'.queue)
  {
  }

  /** `k` steps of the producer followed by `m` of the consumer, neither waiting for the other. */
  lemma {:induction false} Steps(c: Config, n: nat, p: Program, k: nat, m: nat) returns (es: seq<Event<int>>)
    requires Good(c, n, p) && Synchronized(c.orders)
    requires k > 0 ==> p.i <= n && k <= StepsToPush(p.queue)
    requires m > 0 ==> p.got < n && m <= StepsToPop(p.queue)
    ensures AllowedAll(c, n, p, es) && AllNewest(c, n, p, es)
    ensures StepsBy(true, es) == k && StepsBy(false, es) == m
    decreases k + m, 0
  {
    es := [];
    if k > 0 {
      var e := NextPush(p.queue, p.i);
      ProducerCanStep(c, n, p, k - 1);
      es := StepsAfter(c, n, p, e, k - 1, m);
    } else if m > 0 {
      var e := NextPop(p.queue, 0);
      ConsumerCanStep(c, n, p, m - 1);
      es := StepsAfter(c, n, p, e, 0, m - 1);
    }
  }

  lemma {:induction false} StepsAfter(c: Config, n: nat, p: Program, e: Event<int>, k: nat, m: nat)
      returns (es: seq<Event<int>>)
    requires Good(c, n, p) && Synchronized(c.orders) && Allowed(c, n, p, e) && Newest(p.queue, e)
    requires k > 0 ==> Advance(c, n, p, e).i <= n && k <= StepsToPush(Advance(c, n, p, e).queue)
    requires m > 0 ==> Advance(c, n, p, e).got < n && m <= StepsToPop(Advance(c, n, p, e).queue)
    ensures AllowedAll(c, n, p, es) && AllNewest(c, n, p, es)
    ensures StepsBy(true, es) == k + if e.OfProducer() then 1 else 0
    ensures StepsBy(false, es) == m + if e.OfProducer() then 0 else 1
    decreases k + m, 1
  {
    GoodStep(c, n, p, e);
    var rest := Steps(c, n, Advance(c, n, p, e), k, m);
    AdvanceFirst(c, n, p, e, rest);
    es := [e] + rest;
    assert es[1..] == rest;
  }

  /** A fair window can follow every reachable state. */
  lemma FairWindowExists(c: Config, n: nat, p: Program) returns (es: seq<Event<int>>)
    requires Good(c, n, p) && Synchronized(c.orders)
    ensures FairWindow(c, n, p, es)
  {
    es := Steps(c, n, p, if p.i <= n then StepsToPush(p.queue) else 0, if p.got < n then StepsToPop(p.queue) else 0);
  }

  /** However the steps of the two threads interleave in it, a fair window brings a success. */
  lemma WindowProgress(c: Config, n: nat, p: Program, es: seq<Event<int>>)
    requires Good(c, n, p) && Synchronized(c.orders) && FairWindow(c, n, p, es) && !Finished(n, p)
    ensures Remaining(n, AdvanceAll(c, n, p, es)) < Remaining(n, p)
  {
    if |p.queue.popped| < |p.queue.pushed| {
      ConsumerMustPop(c, n, p, es);
    } else {
      ProducerMustPush(c, n, p, es);
    }
  }

  /** A run in fair windows. */
  ghost predicate FairRun(c: Config, n: nat, p: Program, windows: seq<seq<Event<int>>>)
    decreases |windows|
  {
    windows == []
    || (FairWindow(c, n, p, windows[0]) && FairRun(c, n, AdvanceAll(c, n, p, windows[0]), windows[1..]))
  }

  ghost function RunWindows(c: Config, n: nat, p: Program, windows: seq<seq<Event<int>>>): Program
    requires FairRun(c, n, p, windows)
    decreases |windows|
  {
    if windows == [] then p else RunWindows(c, n, AdvanceAll(c, n, p, windows[0]), windows[1..])
  }

  lemma {:induction false} WindowsFinish(c: Config, n: nat, p: Program, windows: seq<seq<Event<int>>>)
    requires Good(c, n, p) && Synchronized(c.orders) && FairRun(c, n, p, windows)
    requires |windows| >= Remaining(n, p)
    ensures Good(c, n, RunWindows(c, n, p, windows)) && Finished(n, RunWindows(c, n, p, windows))
    decreases |windows|
  {
    if windows != [] {
      var p' := AdvanceAll(c, n, p, windows[0]);
      GoodRun(c, n, p, windows[0]);
      RemainingNeverGrows(c, n, p, windows[0]);
      if !Finished(n, p) {
        WindowProgress(c, n, p, windows[0]);
      }
      WindowsFinish(c, n, p', windows[1..]);
    }
  }

  /** Every interleaving of the two threads terminates under fair scheduling: after 2n fair windows
      both loops are done, with the result the test checks. */
  lemma FairRunFinishes(c: Config, slots: seq<int>, n: nat, windows: seq<seq<Event<int>>>)
    requires c.Valid() && |slots| == c.capacity && Synchronized(c.orders)
    requires FairRun(c, n, Start(c, slots), windows) && |windows| >= 2 * n
    ensures var p := RunWindows(c, n, Start(c, slots), windows);
            Finished(n, p) && p.queue.popped == seq(n, k => k + 1) && p.sum == n * (n + 1) / 2
  {
    SafeInit(c, slots);
    WindowsFinish(c, n, Start(c, slots), windows);
    var p := RunWindows(c, n, Start(c, slots), windows);
    assert p.got == n;
    HalfOf(p.sum, n * (n + 1));
  }
}
