/** The step machine implements an atomic bounded FIFO, and its verdicts are true of it. */
module SpscRefinement {
  import opened SpscMachine
  import opened SpscSafety

  /** The operations of an atomic queue that holds at most `bound` items. */
  datatype Op<T> = Enqueue(item: T) | Dequeue(item: T)

  ghost predicate Permits<T(!new)>(bound: nat, q: seq<T>, op: Op<T>) {
    match op
    case Enqueue(_) => |q| < bound
    case Dequeue(x) => q != [] && q[0] == x
  }

  ghost function After<T>(q: seq<T>, op: Op<T>): seq<T> {
    match op
    case Enqueue(x) => q + [x]
    case Dequeue(_) => if q == [] then [] else q[1..]
  }

  ghost predicate PermitsAll<T(!new)>(bound: nat, q: seq<T>, ops: seq<Op<T>>)
    decreases |ops|
  {
    ops == [] || (Permits(bound, q, ops[0]) && PermitsAll(bound, After(q, ops[0]), ops[1..]))
  }

  ghost function AfterAll<T>(q: seq<T>, ops: seq<Op<T>>): seq<T>
    decreases |ops|
  {
    if ops == [] then q else AfterAll(After(q, ops[0]), ops[1..])
  }

  /** The atomic operation a step carries out: the two index stores, and nothing else. */
  ghost function OpOf<T>(s: State<T>, e: Event<T>): seq<Op<T>> {
    if e.PPublish? && s.prod.at.PWrote? then [Enqueue(s.prod.at.item)]
    else if e.CPublish? && s.cons.at.CTook? then [Dequeue(s.cons.at.out)]
    else []
  }

  ghost function OpsOf<T(!new)>(c: Config, s: State<T>, es: seq<Event<T>>): seq<Op<T>>
    requires Executes(c, s, es)
    decreases |es|
  {
    if es == [] then [] else OpOf(s, es[0]) + OpsOf(c, Apply(c, s, es[0]), es[1..])
  }

  lemma StepRefines<T(!new)>(c: Config, s: State<T>, e: Event<T>)
    requires Ring(c, s) && Enabled(c, s, e)
    ensures Ring(c, Apply(c, s, e))
    ensures PermitsAll(c.capacity - 1, Contents(s), OpOf(s, e))
    ensures Contents(Apply(c, s, e)) == AfterAll(Contents(s), OpOf(s, e))
  {
    RingStep(c, s, e);
    var q, s' := Contents(s), Apply(c, s, e);
    if e.PPublish? {
      assert Contents(s') == After(q, Enqueue(s.prod.at.item));
    } else if e.CPublish? {
      assert Contents(s') == After(q, Dequeue(s.cons.at.out));
    }
  }

  /** Every run is a run of the atomic FIFO of capacity `Capacity - 1`. */
  lemma {:induction false} RunRefines<T(!new)>(c: Config, s: State<T>, es: seq<Event<T>>)
    requires Ring(c, s) && Executes(c, s, es)
    ensures Ring(c, Execute(c, s, es))
    ensures PermitsAll(c.capacity - 1, Contents(s), OpsOf(c, s, es))
    ensures Contents(Execute(c, s, es)) == AfterAll(Contents(s), OpsOf(c, s, es))
    decreases |es|
  {
    if es != [] {
      var s' := Apply(c, s, es[0]);
      StepRefines(c, s, es[0]);
      RunRefines(c, s', es[1..]);
      var first, rest := OpOf(s, es[0]), OpsOf(c, s', es[1..]);
      if first == [] {
        assert first + rest == rest;
      } else {
        assert (first + rest)[1..] == rest;
        assert After(Contents(s), first[0]) == Contents(s');
      }
    }
  }

  /** "Not full" is always true of the queue; "full" is true exactly when the load was not stale. */
  lemma FullIsExact<T(!new)>(c: Config, s: State<T>, i: nat)
    requires Ring(c, s) && Enabled(c, s, PLoadHead(i))
    ensures !Verdict(c, s, PLoadHead(i)) ==> |Contents(s)| < c.capacity - 1
    ensures Verdict(c, s, PLoadHead(i)) ==> (|Contents(s)| == c.capacity - 1 <==> Newest(s, PLoadHead(i)))
  {
    FullVerdict(c, s, i);
  }

  /** "Not empty" is always true of the queue; "empty" is true exactly when the load was not stale. */
  lemma EmptyIsExact<T(!new)>(c: Config, s: State<T>, j: nat)
    requires Ring(c, s) && Enabled(c, s, CLoadTail(j))
    ensures !Verdict(c, s, CLoadTail(j)) ==> Contents(s) != []
    ensures Verdict(c, s, CLoadTail(j)) ==> (Contents(s) == [] <==> Newest(s, CLoadTail(j)))
  {
    EmptyVerdict(c, s, j);
  }

  // empty() called on an endpoint thread.

  lemma {:induction false} ConsumerSteps<T(!new)>(c: Config, s: State<T>, es: seq<Event<T>>)
    requires Ring(c, s) && Executes(c, s, es)
    requires ByConsumer(es)
    ensures Ring(c, Execute(c, s, es))
    ensures Execute(c, s, es).prod == s.prod && Execute(c, s, es).pushed == s.pushed
    decreases |es|
  {
    if es != [] {
      RingStep(c, s, es[0]);
      ConsumerSteps(c, Apply(c, s, es[0]), es[1..]);
    }
  }

  lemma {:induction false} ProducerSteps<T(!new)>(c: Config, s: State<T>, es: seq<Event<T>>)
    requires Ring(c, s) && Executes(c, s, es)
    requires ByProducer(es)
    ensures Ring(c, Execute(c, s, es))
    ensures Execute(c, s, es).cons == s.cons && Execute(c, s, es).popped == s.popped
    decreases |es|
  {
    if es != [] {
      RingStep(c, s, es[0]);
      ProducerSteps(c, Apply(c, s, es[0]), es[1..]);
    }
  }

  /** On the producer's thread, `empty()` returns true exactly if the queue was empty at the
      instant of its load of `head` and that load was not stale, whatever the consumer does
      until the second load. */
  lemma EmptyOnProducer<T(!new)>(c: Config, s: State<T>, i: nat, es: seq<Event<T>>)
    requires Ring(c, s) && Enabled(c, s, PEmptyHead(i)) && ByConsumer(es)
    requires Executes(c, Apply(c, s, PEmptyHead(i)), es)
    ensures var s' := Execute(c, Apply(c, s, PEmptyHead(i)), es);
            && Enabled(c, s', PEmptyTail)
            && (Verdict(c, s', PEmptyTail) <==> Contents(s) == [] && Newest(s, PEmptyHead(i)))
  {
    RingStep(c, s, PEmptyHead(i));
    ConsumerSteps(c, Apply(c, s, PEmptyHead(i)), es);
    if i < |s.pushed| {
      DistinctSlots(c.capacity, i, |s.pushed|);
    }
  }

  /** On the consumer's thread, `empty()` returns false only if the queue was not empty at the
      instant of its load of `tail`, and true rightly exactly if that load was not stale,
      whatever the producer does since the first load. */
  lemma EmptyOnConsumer<T(!new)>(c: Config, s: State<T>, es: seq<Event<T>>, j: nat)
    requires Ring(c, s) && Enabled(c, s, CEmptyHead) && ByProducer(es)
    requires Executes(c, Apply(c, s, CEmptyHead), es)
    requires Enabled(c, Execute(c, Apply(c, s, CEmptyHead), es), CEmptyTail(j))
    ensures var s' := Execute(c, Apply(c, s, CEmptyHead), es);
            && |s'.popped| <= |s'.pushed|
            && (!Verdict(c, s', CEmptyTail(j)) ==> Contents(s') != [])
            && (Verdict(c, s', CEmptyTail(j)) ==> (Contents(s') == [] <==> Newest(s', CEmptyTail(j))))
  {
    RingStep(c, s, CEmptyHead);
    ProducerSteps(c, Apply(c, s, CEmptyHead), es);
    var s' := Execute(c, Apply(c, s, CEmptyHead), es);
    if |s'.popped| < j {
      DistinctSlots(c.capacity, |s'.popped|, j);
    }
  }
}
