/** The single-producer single-consumer ring as a step machine.

    Each atomic load, atomic store and slot access of `try_push`, `try_pop` and `empty`
    is one step, and the steps of the two threads interleave freely. The memory model is
    the release/acquire fragment of ISO/IEC 14882:2020, sections 6.9.2 and 31.4:

    - an atomic index is the list of the values stored to it, oldest first; a thread's load
      of the other thread's index may return any entry that is not older than the last one
      it saw there (coherence: a thread learns of the other's stores in no other way), and a
      thread always reads back its own last store;
    - happens-before is tracked by vector clocks: a release store attaches the storing
      thread's clock to the value, and an acquire load merges the attached clock;
    - slots are plain memory: an access that is not ordered after the other thread's last
      access to the same slot is a data race, and sets `raced`.

    The four memory orders written in the code are parameters, so that both their
    sufficiency and their necessity can be stated. */
module SpscMachine {
  import opened Bits

  /** Which accesses to the two indices are acquire loads and release stores. */
  datatype Orders = Orders(headAcquire: bool, tailRelease: bool, tailAcquire: bool, headRelease: bool)

  datatype Config = Config(capacity: nat, orders: Orders) {
    /** The class template's requirement on `Capacity`. */
    ghost predicate Valid() {
      capacity >= 2 && And(capacity, capacity - 1) == 0
    }

    function Next(index: nat): nat
      requires capacity >= 1
    {
      And(index + 1, capacity - 1)
    }
  }

  /** How much of each thread's past an execution point is ordered after. */
  datatype Clock = Clock(producer: nat, consumer: nat) {
    function Join(other: Clock): Clock {
      Clock(if producer < other.producer then other.producer else producer,
            if consumer < other.consumer then other.consumer else consumer)
    }
  }

  /** A value stored to an atomic index, with the clock a release store attaches to it. */
  datatype Message = Message(index: nat, clock: Clock)

  /** A slot, with the times of the last access by either thread. */
  datatype Slot<T> = Slot(value: T, byProducer: nat, byConsumer: nat)

  /** A thread between two of its steps, with the locals it has loaded so far. */
  datatype Producer<T> =
    | PIdle
    | PHasTail(item: T, t: nat)
    | PHasRoom(item: T, t: nat)
    | PWrote(item: T, t: nat)
    | PEmptyHasHead(h: nat)

  datatype Consumer<T> =
    | CIdle
    | CHasHead(h: nat)
    | CHasItem(h: nat)
    | CTook(h: nat, out: T)
    | CEmptyHasHead(h: nat)

  /** `seen` is the newest entry of the other thread's index this thread has loaded. */
  datatype Thread<L> = Thread(at: L, seen: nat, clock: Clock)

  /** `pushed` and `popped` record the items of the successful operations, in order. */
  datatype State<T> = State(
    head: seq<Message>, tail: seq<Message>, slots: seq<Slot<T>>,
    prod: Thread<Producer<T>>, cons: Thread<Consumer<T>>,
    pushed: seq<T>, popped: seq<T>, raced: bool)

  /** One step; its argument resolves the step's nondeterminism. */
  datatype Event<T> =
    | PStart(item: T)      // try_push: load the own tail
    | PLoadHead(i: nat)    //           load the i-th value of head, and compare
    | PWrite               //           assign the slot
    | PPublish             //           store the tail
    | PEmptyHead(i: nat)   // empty, on the producer's thread: load the i-th value of head
    | PEmptyTail           //           load the own tail, and compare
    | CStart               // try_pop:  load the own head
    | CLoadTail(j: nat)    //           load the j-th value of tail, and compare
    | CTake(residue: T)    //           move the item out, leaving an arbitrary residue
    | CPublish             //           store the head
    | CEmptyHead           // empty, on the consumer's thread: load the own head
    | CEmptyTail(j: nat)   //           load the j-th value of tail, and compare
  {
    predicate OfProducer() {
      PStart? || PLoadHead? || PWrite? || PPublish? || PEmptyHead? || PEmptyTail?
    }
  }

  function Last<A>(s: seq<A>): A
    requires s != []
  {
    s[|s| - 1]
  }

  ghost function Init<T>(c: Config, slots: seq<T>): State<T> {
    var m := Message(0, Clock(0, 0));
    State([m], [m], seq(|slots|, i requires 0 <= i < |slots| => Slot(slots[i], 0, 0)),
          Thread(PIdle, 0, Clock(0, 0)), Thread(CIdle, 0, Clock(0, 0)), [], [], false)
  }

  ghost predicate Enabled<T(!new)>(c: Config, s: State<T>, e: Event<T>) {
    && c.capacity >= 1 && s.head != [] && s.tail != []
    && match e
       case PStart(_) => s.prod.at.PIdle?
       case PLoadHead(i) => s.prod.at.PHasTail? && s.prod.seen <= i < |s.head|
       case PWrite => s.prod.at.PHasRoom? && s.prod.at.t < |s.slots|
       case PPublish => s.prod.at.PWrote?
       case PEmptyHead(i) => s.prod.at.PIdle? && s.prod.seen <= i < |s.head|
       case PEmptyTail => s.prod.at.PEmptyHasHead?
       case CStart => s.cons.at.CIdle?
       case CLoadTail(j) => s.cons.at.CHasHead? && s.cons.seen <= j < |s.tail|
       case CTake(_) => s.cons.at.CHasItem? && s.cons.at.h < |s.slots|
       case CPublish => s.cons.at.CTook?
       case CEmptyHead => s.cons.at.CIdle?
       case CEmptyTail(j) => s.cons.at.CEmptyHasHead? && s.cons.seen <= j < |s.tail|
  }

  /** The comparison a `PLoadHead`, `CLoadTail` or `empty` step makes: full, or empty. */
  ghost predicate Verdict<T(!new)>(c: Config, s: State<T>, e: Event<T>)
    requires Enabled(c, s, e)
  {
    match e
    case PLoadHead(i) => c.Next(s.prod.at.t) == s.head[i].index
    case CLoadTail(j) => s.cons.at.h == s.tail[j].index
    case PEmptyTail => s.prod.at.h == Last(s.tail).index
    case CEmptyTail(j) => s.cons.at.h == s.tail[j].index
    case _ => false
  }

  function PTick(k: Clock): Clock {
    k.(producer := k.producer + 1)
  }

  function CTick(k: Clock): Clock {
    k.(consumer := k.consumer + 1)
  }

  function Released(release: bool, k: Clock): Clock {
    if release then k else Clock(0, 0)
  }

  function Acquired(acquire: bool, k: Clock, m: Message): Clock {
    if acquire then k.Join(m.clock) else k
  }

  /** The effect of one step. Every step also advances its own thread's clock. */
  ghost function Apply<T(!new)>(c: Config, s: State<T>, e: Event<T>): State<T>
    requires Enabled(c, s, e)
  {
    var p, q := PTick(s.prod.clock), CTick(s.cons.clock);
    match e
    case PStart(item) =>
      s.(prod := s.prod.(at := PHasTail(item, Last(s.tail).index), clock := p))
    case PLoadHead(i) =>
      s.(prod := Thread(if Verdict(c, s, e) then PIdle else PHasRoom(s.prod.at.item, s.prod.at.t),
                        i, Acquired(c.orders.headAcquire, p, s.head[i])))
    case PWrite =>
      var slot := s.slots[s.prod.at.t];
      s.(prod := s.prod.(at := PWrote(s.prod.at.item, s.prod.at.t), clock := p),
         slots := s.slots[s.prod.at.t := slot.(value := s.prod.at.item, byProducer := p.producer)],
         raced := s.raced || slot.byConsumer > p.consumer)
    case PPublish =>
      s.(prod := s.prod.(at := PIdle, clock := p),
         tail := s.tail + [Message(c.Next(s.prod.at.t), Released(c.orders.tailRelease, p))],
         pushed := s.pushed + [s.prod.at.item])
    case PEmptyHead(i) =>
      s.(prod := Thread(PEmptyHasHead(s.head[i].index), i, Acquired(c.orders.headAcquire, p, s.head[i])))
    case PEmptyTail =>
      s.(prod := s.prod.(at := PIdle, clock := p))
    case CStart =>
      s.(cons := s.cons.(at := CHasHead(Last(s.head).index), clock := q))
    case CLoadTail(j) =>
      s.(cons := Thread(if Verdict(c, s, e) then CIdle else CHasItem(s.cons.at.h),
                        j, Acquired(c.orders.tailAcquire, q, s.tail[j])))
    case CTake(residue) =>
      var slot := s.slots[s.cons.at.h];
      s.(cons := s.cons.(at := CTook(s.cons.at.h, slot.value), clock := q),
         slots := s.slots[s.cons.at.h := slot.(value := residue, byConsumer := q.consumer)],
         raced := s.raced || slot.byProducer > q.producer)
    case CPublish =>
      s.(cons := s.cons.(at := CIdle, clock := q),
         head := s.head + [Message(c.Next(s.cons.at.h), Released(c.orders.headRelease, q))],
         popped := s.popped + [s.cons.at.out])
    case CEmptyHead =>
      s.(cons := s.cons.(at := CEmptyHasHead(Last(s.head).index), clock := q))
    case CEmptyTail(j) =>
      s.(cons := Thread(CIdle, j, Acquired(c.orders.tailAcquire, q, s.tail[j])))
  }

  /** `es` can be executed from `s`, one event after the other. */
  ghost predicate Executes<T(!new)>(c: Config, s: State<T>, es: seq<Event<T>>)
    decreases |es|
  {
    es == [] || (Enabled(c, s, es[0]) && Executes(c, Apply(c, s, es[0]), es[1..]))
  }

  ghost function Execute<T(!new)>(c: Config, s: State<T>, es: seq<Event<T>>): State<T>
    requires Executes(c, s, es)
    decreases |es|
  {
    if es == [] then s else Execute(c, Apply(c, s, es[0]), es[1..])
  }

  ghost predicate Leads<T(!new)>(c: Config, s: State<T>, es: seq<Event<T>>, s': State<T>) {
    Executes(c, s, es) && Execute(c, s, es) == s'
  }

  predicate ByProducer<T>(es: seq<Event<T>>) {
    forall k | 0 <= k < |es| :: es[k].OfProducer()
  }

  predicate ByConsumer<T>(es: seq<Event<T>>) {
    forall k | 0 <= k < |es| :: !es[k].OfProducer()
  }

  /** Plain interleaving: every load of the other thread's index returns its newest value. */
  ghost predicate Newest<T>(s: State<T>, e: Event<T>) {
    match e
    case PLoadHead(i) => i + 1 == |s.head|
    case PEmptyHead(i) => i + 1 == |s.head|
    case CLoadTail(j) => j + 1 == |s.tail|
    case CEmptyTail(j) => j + 1 == |s.tail|
    case _ => true
  }

  /** The queue's contents: pushed and not yet popped. */
  ghost function Contents<T>(s: State<T>): seq<T>
    requires |s.popped| <= |s.pushed|
  {
    s.pushed[|s.popped|..]
  }
}
