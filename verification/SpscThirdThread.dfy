/** `empty()` called on a thread that is neither endpoint: its two loads see the queue at two
    instants, with any number of steps of both endpoints in between. Unless said otherwise both
    loads return the newest values. C++ leaves the order of the two operands of `==` open, so both orders are
    considered. */
module SpscThirdThread {
  import opened SpscMachine
  import opened SpscSafety
  import opened SpscSchedules

  /** The third thread's answer, from what it loads at the first and at the second instant. */
  ghost predicate SaysEmpty<T>(first: State<T>, second: State<T>, tailFirst: bool)
    requires first.head != [] && first.tail != [] && second.head != [] && second.tail != []
  {
    if tailFirst then Last(second.head).index == Last(first.tail).index
    else Last(first.head).index == Last(second.tail).index
  }

  ghost predicate Holds<T>(s: State<T>) {
    |s.popped| < |s.pushed|
  }

  /** The queue was empty at some instant of the run, its first and last state included. */
  ghost predicate EverEmpty<T(!new)>(c: Config, s: State<T>, es: seq<Event<T>>)
    requires Executes(c, s, es)
    decreases |es|
  {
    !Holds(s) || (es != [] && EverEmpty(c, Apply(c, s, es[0]), es[1..]))
  }

  /** The queue held an item at some instant of the run. */
  ghost predicate EverHeld<T(!new)>(c: Config, s: State<T>, es: seq<Event<T>>)
    requires Executes(c, s, es)
    decreases |es|
  {
    Holds(s) || (es != [] && EverHeld(c, Apply(c, s, es[0]), es[1..]))
  }

  /** A run of the queue in which the third thread loads at the start and the end of `between`. */
  ghost predicate Observed<T(!new)>(c: Config, slots: seq<T>, before: seq<Event<T>>, between: seq<Event<T>>) {
    && Executes(c, Init(c, slots), before)
    && Executes(c, Execute(c, Init(c, slots), before), between)
  }

  ghost predicate ToldEmpty<T(!new)>(c: Config, slots: seq<T>, before: seq<Event<T>>, between: seq<Event<T>>,
                                     tailFirst: bool)
    requires c.Valid() && |slots| == c.capacity && Observed(c, slots, before, between)
  {
    var s := Execute(c, Init(c, slots), before);
    ObservedStates(c, slots, before, between);
    SaysEmpty(s, Execute(c, s, between), tailFirst)
  }

  lemma ObservedStates<T(!new)>(c: Config, slots: seq<T>, before: seq<Event<T>>, between: seq<Event<T>>)
    requires c.Valid() && |slots| == c.capacity && Observed(c, slots, before, between)
    ensures var s := Execute(c, Init(c, slots), before);
            Ring(c, s) && Ring(c, Execute(c, s, between))
  {
    RingInit(c, slots);
    RingRun(c, Init(c, slots), before);
    RingRun(c, Execute(c, Init(c, slots), before), between);
  }

  // A false answer.

  lemma {:induction false} NeverHeldIsStill<T(!new)>(c: Config, s: State<T>, es: seq<Event<T>>)
    requires Ring(c, s) && Executes(c, s, es) && !EverHeld(c, s, es)
    ensures Execute(c, s, es).pushed == s.pushed && Execute(c, s, es).popped == s.popped
    decreases |es|
  {
    if es != [] {
      RingStep(c, s, es[0]);
      NeverHeldIsStill(c, Apply(c, s, es[0]), es[1..]);
    }
  }

  lemma StillEmptySaysEmpty<T(!new)>(c: Config, s: State<T>, s': State<T>, tailFirst: bool)
    requires Ring(c, s) && Ring(c, s') && s'.pushed == s.pushed && s'.popped == s.popped && !Holds(s)
    ensures SaysEmpty(s, s', tailFirst)
  {
    assert Last(s.head).index == Last(s'.tail).index && Last(s'.head).index == Last(s.tail).index;
  }

  /** For every capacity, a third thread that is told "not empty" is told so of a queue that held
      an item at some instant between its two loads. */
  lemma NotEmptyOnThirdThread<T(!new)>(c: Config, slots: seq<T>, before: seq<Event<T>>, between: seq<Event<T>>,
                                       tailFirst: bool)
    requires c.Valid() && |slots| == c.capacity && Observed(c, slots, before, between)
    ensures !ToldEmpty(c, slots, before, between, tailFirst)
            ==> EverHeld(c, Execute(c, Init(c, slots), before), between)
  {
    ObservedStates(c, slots, before, between);
    var s := Execute(c, Init(c, slots), before);
    if !EverHeld(c, s, between) {
      NeverHeldIsStill(c, s, between);
      StillEmptySaysEmpty(c, s, Execute(c, s, between), tailFirst);
    }
  }

  // A true answer.

  /** A ring of capacity 2 holds at most one item: while it holds one, neither index can move. */
  lemma {:induction false} NeverEmptyIsStill<T(!new)>(c: Config, s: State<T>, es: seq<Event<T>>)
    requires Ring(c, s) && Executes(c, s, es) && !EverEmpty(c, s, es) && c.capacity == 2
    ensures Execute(c, s, es).pushed == s.pushed && Execute(c, s, es).popped == s.popped
    ensures |s.pushed| == |s.popped| + 1
    decreases |es|
  {
    if es != [] {
      RingStep(c, s, es[0]);
      NeverEmptyIsStill(c, Apply(c, s, es[0]), es[1..]);
    }
  }

  /** If all that is popped in a run was pushed before it, and one item more, it never empties. */
  lemma {:induction false} PlentyIsNeverEmpty<T(!new)>(c: Config, s: State<T>, es: seq<Event<T>>)
    requires Executes(c, s, es) && |Execute(c, s, es).popped| < |s.pushed|
    ensures !EverEmpty(c, s, es)
    decreases |es|
  {
    HistoryGrows(c, s, es);
    if es != [] {
      ExecuteFirst(c, s, es[0], []);
      HistoryGrows(c, s, [es[0]]);
      PlentyIsNeverEmpty(c, Apply(c, s, es[0]), es[1..]);
    }
  }

  lemma {:induction false} NeverEmptyConcat<T(!new)>(c: Config, s: State<T>, a: seq<Event<T>>, b: seq<Event<T>>)
    requires Executes(c, s, a) && !EverEmpty(c, s, a)
    requires Executes(c, Execute(c, s, a), b) && !EverEmpty(c, Execute(c, s, a), b)
    ensures Executes(c, s, a + b) && !EverEmpty(c, s, a + b)
    decreases |a|
  {
    ExecuteConcat(c, s, a, b);
    if a == [] {
      assert a + b == b;
    } else {
      assert (a + b)[1..] == a[1..] + b;
      NeverEmptyConcat(c, Apply(c, s, a[0]), a[1..], b);
    }
  }

  /** Above capacity 2: the third thread loads `head`, one pop and one push go by, and the `tail`
      it loads is equal, although the queue held an item all the time. */
  lemma MisledHeadFirst<T(!new)>(c: Config, slots: seq<T>) returns (before: seq<Event<T>>, between: seq<Event<T>>)
    requires c.Valid() && |slots| == c.capacity && c.capacity > 2
    ensures Observed(c, slots, before, between) && ToldEmpty(c, slots, before, between, false)
    ensures !EverEmpty(c, Execute(c, Init(c, slots), before), between)
  {
    before := Fill(c, slots, c.capacity - 1);
    var s := Execute(c, Init(c, slots), before);
    var pop := CompletePop(c, s, slots[0]);
    var s' := Execute(c, s, pop);
    var push := CompletePush(c, s', slots[0]);
    between := pop + push;
    ExecuteConcat(c, s, pop, push);
    NextLap(c.capacity, 0);
    PlentyIsNeverEmpty(c, s, between);
  }

  /** Loading `tail` first, it is misled by one push and one pop. */
  lemma MisledTailFirst<T(!new)>(c: Config, slots: seq<T>) returns (before: seq<Event<T>>, between: seq<Event<T>>)
    requires c.Valid() && |slots| == c.capacity && c.capacity > 2
    ensures Observed(c, slots, before, between) && ToldEmpty(c, slots, before, between, true)
    ensures !EverEmpty(c, Execute(c, Init(c, slots), before), between)
  {
    before := Fill(c, slots, 1);
    var s := Execute(c, Init(c, slots), before);
    var push := CompletePush(c, s, slots[0]);
    var s' := Execute(c, s, push);
    var pop := CompletePop(c, s', slots[0]);
    between := push + pop;
    ExecuteConcat(c, s, push, pop);
    PlentyIsNeverEmpty(c, s, push);
    PlentyIsNeverEmpty(c, s', pop);
    NeverEmptyConcat(c, s, push, pop);
  }

  lemma ToldEmptyAtTwo<T(!new)>(c: Config, slots: seq<T>, before: seq<Event<T>>, between: seq<Event<T>>,
                                tailFirst: bool)
    requires c.Valid() && |slots| == c.capacity == 2 && Observed(c, slots, before, between)
    requires ToldEmpty(c, slots, before, between, tailFirst)
    ensures EverEmpty(c, Execute(c, Init(c, slots), before), between)
  {
    ObservedStates(c, slots, before, between);
    var s := Execute(c, Init(c, slots), before);
    if !EverEmpty(c, s, between) {
      NeverEmptyIsStill(c, s, between);
      DistinctSlots(2, |s.popped|, |s.pushed|);
    }
  }

  /** In all runs a third thread that is told "empty" is told so of a queue that was empty at some
      instant between its two loads, if and only if the capacity is 2. */
  lemma EmptyOnThirdThread<T(!new)>(c: Config, slots: seq<T>, tailFirst: bool)
    requires c.Valid() && |slots| == c.capacity
    ensures (forall before, between | Observed(c, slots, before, between) ::
               ToldEmpty(c, slots, before, between, tailFirst)
               ==> EverEmpty(c, Execute(c, Init(c, slots), before), between))
            <==> c.capacity == 2
  {
    if c.capacity == 2 {
      forall before, between | Observed(c, slots, before, between)
        ensures ToldEmpty(c, slots, before, between, tailFirst)
                ==> EverEmpty(c, Execute(c, Init(c, slots), before), between)
      {
        if ToldEmpty(c, slots, before, between, tailFirst) {
          ToldEmptyAtTwo(c, slots, before, between, tailFirst);
        }
      }
    } else if tailFirst {
      var before, between := MisledTailFirst(c, slots);
    } else {
      var before, between := MisledHeadFirst(c, slots);
    }
  }

  // Stale loads: a thread that has loaded neither index before may load any value stored to it.

  /** For every capacity, stale loads can make an unchanging queue that holds an item look empty. */
  lemma StaleEmpty<T(!new)>(c: Config, slots: seq<T>) returns (es: seq<Event<T>>, i: nat, j: nat)
    requires c.Valid() && |slots| == c.capacity
    ensures Executes(c, Init(c, slots), es)
    ensures var s := Execute(c, Init(c, slots), es);
            Holds(s) && i < |s.head| && j < |s.tail| && s.head[i].index == s.tail[j].index
  {
    es := Fill(c, slots, 1);
    i, j := 0, 0;
  }

  /** And they can make an unchanging empty queue look as if it held an item. */
  lemma StaleNotEmpty<T(!new)>(c: Config, slots: seq<T>) returns (es: seq<Event<T>>, i: nat, j: nat)
    requires c.Valid() && |slots| == c.capacity
    ensures Executes(c, Init(c, slots), es)
    ensures var s := Execute(c, Init(c, slots), es);
            !Holds(s) && i < |s.head| && j < |s.tail| && s.head[i].index != s.tail[j].index
  {
    es := Alternate(c, slots, 1);
    i, j := 1, 0;
    DistinctSlots(c.capacity, 0, 1);
  }
}
