/** `ll::ObjectPool`: a fixed set of slots handed out and taken back through a free stack. */
module ObjectPools {

  /** A `T*`: null, the address of one of the pool's slots, or (index >= N) of anything else. */
  datatype Pointer = Null | To(slot: nat)

  /** The free stack, and the slots the clients hold, account for every slot exactly once. */
  ghost predicate Partition(n: nat, free: seq<Pointer>, held: set<nat>) {
    && (forall i | 0 <= i < |free| :: free[i].To? && free[i].slot < n && free[i].slot !in held)
    && (forall i, j | 0 <= i < j < |free| :: free[i] != free[j])
    && (forall k | k in held :: k < n)
    && (forall k: nat | k < n && k !in held :: To(k) in free)
  }

  class ObjectPool {
    const n: nat
    const free: array<Pointer>
    var top: nat

    /** The slots acquired and not released since. */
    ghost var held: set<nat>

    ghost predicate Valid()
      reads this
    {
      free.Length == n && top <= n
    }

    ghost function Free(): seq<Pointer>
      requires Valid()
      reads this, free
    {
      free[..top]
    }

    ghost predicate Conserved()
      requires Valid()
      reads this, free
    {
      Partition(n, Free(), held)
    }

    constructor (n: nat)
      ensures Valid() && fresh(free) && this.n == n && held == {}
      ensures Conserved() && Free() == seq(n, i requires 0 <= i => To(i))
    {
      this.n := n;
      var a := new Pointer[n](_ => Null);
      for i := 0 to n
        invariant forall j | 0 <= j < i :: a[j] == To(j)
      {
        a[i] := To(i);
      }
      free, top, held := a, n, {};
      new;
      assert forall k: nat | k < n :: Free()[k] == To(k);
    }

    /** Pops the free stack; null exactly when every slot is out, and never a slot that is held. */
    method Acquire() returns (p: Pointer)
      requires Valid()
      modifies this
      ensures Valid()
      ensures Pool(Free(), held, p) == Call(n, Pool(old(Free()), old(held), Null), AcquireOp)
      ensures if old(top) == 0 then p == Null && top == 0 && held == old(held)
              else top == old(top) - 1 && old(Free()) == Free() + [p]
                   && held == old(held) + if p.To? then {p.slot} else {}
      ensures old(Conserved()) ==>
                && Conserved()
                && (p == Null <==> |old(held)| == n)
                && (p.To? ==> p.slot < n && p.slot !in old(held))
    {
      if Conserved() {
        CallKeeps(n, Pool(Free(), held, Null), AcquireOp);
      }
      if top == 0 {
        return Null;
      }
      top := top - 1;
      p := free[top];
      held := held + if p.To? then {p.slot} else {};
      assert Free() == old(Free())[..top];
    }

    /** Pushes the pointer back. The pool cannot check that the caller holds it: conservation is
        kept exactly when it does, or when the call is a no-op. */
    method Release(p: Pointer)
      requires Valid()
      modifies this, free
      ensures Valid()
      ensures Pool(Free(), held, Null) == Call(n, Pool(old(Free()), old(held), Null), ReleaseOp(p))
      ensures Free() == old(Free()) + if p == Null || old(top) == n then [] else [p]
      ensures held == old(held) - if p.To? then {p.slot} else {}
      ensures old(Conserved()) ==> (Conserved() <==> p == Null || p.slot in old(held) || old(top) == n)
      ensures old(Conserved()) && p.To? && p.slot in old(held) ==> old(top) < n
    {
      ghost var was := Free();
      if Conserved() {
        FullMeansNoneHeld(n, was, held);
      }
      held := held - if p.To? then {p.slot} else {};
      if p == Null || top >= n {
        return;
      }
      free[top] := p;
      top := top + 1;
      assert Free() == was + [p];
      if Partition(n, was, old(held)) {
        ReleaseKeeps(n, was, old(held), p);
      }
    }

    /** `available()`: the slots that can still be acquired, all but those held. */
    method Available() returns (a: nat)
      requires Valid()
      ensures a == |Free()|
      ensures Conserved() ==> a + |held| == n
    {
      if Conserved() {
        FreeAndHeldAddUp(n, Free(), held);
      }
      return top;
    }
  }

  /** Distinct slots below n are at most n. */
  lemma {:induction false} SlotsCounted(n: nat, free: seq<Pointer>) returns (slots: set<nat>)
    requires forall i | 0 <= i < |free| :: free[i].To? && free[i].slot < n
    requires forall i, j | 0 <= i < j < |free| :: free[i] != free[j]
    ensures |slots| == |free| && forall k: nat :: k in slots <==> To(k) in free
  {
    if free == [] {
      slots := {};
    } else {
      var k := |free| - 1;
      slots := SlotsCounted(n, free[..k]);
      assert free[k] !in free[..k];
      assert free == free[..k] + [free[k]];
      slots := slots + {free[k].slot};
    }
  }

  lemma {:induction false} Below(n: nat) returns (all: set<nat>)
    ensures |all| == n && forall k: nat :: k in all <==> k < n
  {
    if n == 0 {
      all := {};
    } else {
      all := Below(n - 1);
      all := all + {n - 1};
    }
  }

  /** What is free and what is held add up to all the slots. */
  lemma FreeAndHeldAddUp(n: nat, free: seq<Pointer>, held: set<nat>)
    requires Partition(n, free, held)
    ensures |free| + |held| == n
  {
    var slots := SlotsCounted(n, free);
    var all := Below(n);
    assert all == slots + held;
    assert slots !! held;
  }

  lemma FullMeansNoneHeld(n: nat, free: seq<Pointer>, held: set<nat>)
    requires Partition(n, free, held)
    ensures |free| <= n && (|free| == n <==> held == {})
  {
    FreeAndHeldAddUp(n, free, held);
  }

  lemma ReleaseKeeps(n: nat, free: seq<Pointer>, held: set<nat>, p: Pointer)
    requires Partition(n, free, held) && p.To?
    ensures Partition(n, free + [p], held - {p.slot}) <==> p.slot in held
  {
    var free', held' := free + [p], held - {p.slot};
    if p.slot in held {
      forall k: nat | k < n && k !in held' ensures To(k) in free' {
        if k == p.slot {
          assert free'[|free|] == To(k);
        } else {
          assert To(k) in free;
        }
      }
    } else if p.slot < n {
      assert p in free;
      var i :| 0 <= i < |free| && free[i] == p;
      assert free'[i] == free'[|free|];
    } else {
      assert free'[|free|] == p;
    }
  }

  // Whole runs of the clients.

  datatype Op = AcquireOp | ReleaseOp(p: Pointer)

  /** The free stack and the held slots after a call, and what the call returned. */
  datatype Pool = Pool(free: seq<Pointer>, held: set<nat>, returned: Pointer)

  ghost function Call(n: nat, s: Pool, op: Op): Pool {
    match op
    case AcquireOp =>
      if s.free == [] then s.(returned := Null)
      else
        var p := s.free[|s.free| - 1];
        Pool(s.free[..|s.free| - 1], s.held + if p.To? then {p.slot} else {}, p)
    case ReleaseOp(p) =>
      Pool(s.free + if p == Null || |s.free| >= n then [] else [p],
           s.held - if p.To? then {p.slot} else {}, Null)
  }

  ghost function CallAll(n: nat, s: Pool, ops: seq<Op>): Pool {
    if ops == [] then s else Call(n, CallAll(n, s, ops[..|ops| - 1]), ops[|ops| - 1])
  }

  /** The clients release only what they hold at the time. */
  ghost predicate Disciplined(n: nat, s: Pool, ops: seq<Op>) {
    ops != [] ==>
      && Disciplined(n, s, ops[..|ops| - 1])
      && var op := ops[|ops| - 1];
      op.ReleaseOp? && op.p.To? ==> op.p.slot in CallAll(n, s, ops[..|ops| - 1]).held
  }

  /** Exactly one slot changes sides in a call that hands one out or takes one back, and none
      in any other call. */
  ghost predicate Moves(s: Pool, op: Op, s': Pool) {
    match op
    case AcquireOp =>
      if s'.returned == Null then s'.free == s.free && s'.held == s.held
      else s.free == s'.free + [s'.returned] && s'.held == s.held + {s'.returned.slot}
    case ReleaseOp(p) =>
      if p == Null then s'.free == s.free && s'.held == s.held
      else s'.free == s.free + [p] && s'.held == s.held - {p.slot}
  }

  lemma CallKeeps(n: nat, s: Pool, op: Op)
    requires Partition(n, s.free, s.held)
    requires op.ReleaseOp? && op.p.To? ==> op.p.slot in s.held
    ensures var s' := Call(n, s, op);
            && Partition(n, s'.free, s'.held)
            && (op.AcquireOp? ==> (s'.returned == Null <==> |s.held| == n))
            && (op.AcquireOp? && s'.returned.To? ==> s'.returned.slot < n && s'.returned.slot !in s.held)
            && (op.ReleaseOp? && op.p.To? ==> |s.free| < n)
  {
    FreeAndHeldAddUp(n, s.free, s.held);
    if op.ReleaseOp? && op.p.To? {
      ReleaseKeeps(n, s.free, s.held, op.p);
    } else if op.AcquireOp? && s.free != [] {
      AcquireKeeps(n, s.free, s.held);
    }
  }

  lemma CallMoves(n: nat, s: Pool, op: Op)
    requires Partition(n, s.free, s.held)
    requires op.ReleaseOp? && op.p.To? ==> |s.free| < n
    ensures Moves(s, op, Call(n, s, op))
  {
  }

  lemma AcquireKeeps(n: nat, free: seq<Pointer>, held: set<nat>)
    requires Partition(n, free, held) && free != []
    ensures Partition(n, free[..|free| - 1], held + {free[|free| - 1].slot})
  {
    var k := |free| - 1;
    forall j: nat | j < n && j !in held + {free[k].slot} ensures To(j) in free[..k] {
      var i :| 0 <= i < |free| && free[i] == To(j);
      assert free[..k][i] == To(j);
    }
  }

  /** In every disciplined run the slots stay partitioned, null is returned exactly when all are
      out, no held slot is handed out, and the capacity guard never fires. */
  lemma {:induction false} DisciplinedRun(n: nat, s: Pool, ops: seq<Op>)
    requires Partition(n, s.free, s.held) && Disciplined(n, s, ops)
    ensures Partition(n, CallAll(n, s, ops).free, CallAll(n, s, ops).held)
    ensures ops != [] ==>
              var before, after, op := CallAll(n, s, ops[..|ops| - 1]), CallAll(n, s, ops), ops[|ops| - 1];
              && (op.AcquireOp? ==> (after.returned == Null <==> |before.held| == n))
              && (op.AcquireOp? && after.returned.To? ==> after.returned.slot !in before.held)
              && (op.ReleaseOp? && op.p.To? ==> |before.free| < n)
              && Moves(before, op, after)
  {
    if ops != [] {
      DisciplinedRun(n, s, ops[..|ops| - 1]);
      CallKeeps(n, CallAll(n, s, ops[..|ops| - 1]), ops[|ops| - 1]);
      CallMoves(n, CallAll(n, s, ops[..|ops| - 1]), ops[|ops| - 1]);
    }
  }

  /** The stack was at least `depth` high before the run and after each of its calls. */
  ghost predicate StaysAbove(n: nat, s: Pool, ops: seq<Op>, depth: nat) {
    && |CallAll(n, s, ops).free| >= depth
    && (ops != [] ==> StaysAbove(n, s, ops[..|ops| - 1], depth))
  }

  lemma {:induction false} BottomUntouched(n: nat, s: Pool, ops: seq<Op>, depth: nat)
    requires StaysAbove(n, s, ops, depth)
    ensures depth <= |s.free| && depth <= |CallAll(n, s, ops).free|
    ensures CallAll(n, s, ops).free[..depth] == s.free[..depth]
  {
    if ops != [] {
      BottomUntouched(n, s, ops[..|ops| - 1], depth);
    }
  }

  /** Last in, first out: once everything acquired since a release has been matched, the next
      `acquire` returns the released pointer. */
  lemma LastReleasedFirstOut(n: nat, s: Pool, p: Pointer, ops: seq<Op>)
    requires Partition(n, s.free, s.held) && p.To? && p.slot in s.held
    requires var released := Call(n, s, ReleaseOp(p));
             && StaysAbove(n, released, ops, |s.free| + 1)
             && |CallAll(n, released, ops).free| == |s.free| + 1
    ensures var after := CallAll(n, Call(n, s, ReleaseOp(p)), ops);
            Call(n, after, AcquireOp).returned == p
  {
    var released := Call(n, s, ReleaseOp(p));
    FullMeansNoneHeld(n, s.free, s.held);
    BottomUntouched(n, released, ops, |s.free| + 1);
    assert CallAll(n, released, ops).free[..|s.free| + 1][|s.free|] == p;
  }
}
