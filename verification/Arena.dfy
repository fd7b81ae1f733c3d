/** `ll::Arena`: a bump allocator over `size` bytes of storage at address `base`. */
module Arenas {
  import opened Bits
  import opened Options

  datatype Request = Request(n: u64, align: u64) {
    /** What `allocate` asks of its caller. */
    ghost predicate Valid() {
      align >= 1 && IsPowerOfTwo(align)
    }
  }

  datatype Block = Block(address: nat, request: Request) {
    function End(): nat {
      address + request.n
    }
  }

  /** `a` is the least multiple of `align` that is not below `x`. */
  ghost predicate LeastAligned(a: nat, x: nat, align: nat)
    requires align >= 1
  {
    x <= a && a % align == 0 && forall b: nat | x <= b && b % align == 0 :: a <= b
  }

  lemma MultiplesApart(a: nat, b: nat, d: nat)
    requires d >= 1 && a % d == 0 && b % d == 0 && b < a
    ensures b + d <= a
  {
    assert a == a / d * d && b == b / d * d;
    MulAtLeast(a / d - b / d, d);
    assert (a / d - b / d) * d == a / d * d - b / d * d;
    MulAtLeast(b / d - a / d, d);
  }

  lemma RoundedDown(y: nat, d: nat)
    requires d >= 1
    ensures (y - y % d) % d == 0
  {
    assert y - y % d == y / d * d;
    DivModUnique(y - y % d, d, y / d, 0);
  }

  /** The least multiple of `align` that is not below `x`. */
  ghost function RoundUp(x: nat, align: nat): (a: nat)
    requires align >= 1
    ensures LeastAligned(a, x, align) && a < x + align
  {
    RoundedDown(x, align);
    var down := x - x % align;
    if down == x then x
    else
      NextMultiple(down, align);
      down + align
  }

  lemma NextMultiple(down: nat, d: nat)
    requires d >= 1 && down % d == 0
    ensures (down + d) % d == 0
    ensures forall b: nat | down < b && b % d == 0 :: down + d <= b
  {
    assert down == down / d * d;
    DivModUnique(down + d, d, down / d + 1, 0);
    forall b: nat | down < b && b % d == 0 ensures down + d <= b {
      MultiplesApart(b, down, d);
    }
  }

  lemma WrapOnce(n: nat)
    ensures n < WORD ==> Wrap(n) == n
    ensures WORD <= n < 2 * WORD ==> Wrap(n) == n - WORD
  {
  }

  /** 2^64 is a multiple of every 64-bit power of two. */
  lemma WordIsMultiple(k: nat)
    requires Pow2(k) < WORD
    ensures k < 64 && WORD % Pow2(k) == 0
  {
    Pow2Of64();
    if k >= 64 {
      Pow2Monotone(64, k);
    }
    Pow2Add(64 - k, k);
    DivModUnique(WORD, Pow2(k), Pow2(64 - k), 0);
  }

  /** Adding d - 1 and rounding down rounds up. */
  lemma RoundUpByDown(x: nat, d: nat)
    requires d >= 1
    ensures var y := x + (d - 1);
            y - y % d == RoundUp(x, d)
  {
    var y := x + (d - 1);
    RoundedDown(y, d);
    if RoundUp(x, d) < y - y % d {
      MultiplesApart(y - y % d, RoundUp(x, d), d);
    }
  }

  /** On 64-bit words, the mask expression `(x + (align - 1)) & ~(align - 1)` rounds up to the
      alignment, and wraps to 0 exactly when the next multiple is 2^64. */
  lemma MaskRoundsUp(x: u64, align: u64)
    requires IsPowerOfTwo(align)
    ensures RoundUp(x, align) <= WORD
    ensures And(Wrap(x as nat + (align - 1)), Not64(align - 1)) == Wrap(RoundUp(x, align))
  {
    var k: nat :| align == Pow2(k);
    Pow2Of64();
    WordIsMultiple(k);
    var y := Wrap(x as nat + (align - 1));
    AndHighMask(y, k, 64);
    RoundsWithinWord(x, align);
  }

  lemma RoundsWithinWord(x: u64, align: u64)
    requires align >= 1 && WORD % align == 0
    ensures RoundUp(x, align) <= WORD
    ensures var y := Wrap(x as nat + (align - 1));
            y - y % align == Wrap(RoundUp(x, align))
  {
    var y := Wrap(x as nat + (align - 1));
    WrapOnce(x as nat + (align - 1));
    if x + (align - 1) < WORD {
      RoundUpByDown(x, align);
    } else {
      assert y == x + (align - 1) - WORD < align;
      DivModUnique(y, align, 0, y);
      if RoundUp(x, align) < WORD {
        MultiplesApart(WORD, RoundUp(x, align), align);
      }
    }
  }

  /** The blocks are aligned as requested, lie in order between the two addresses, and are
      pairwise disjoint. */
  ghost predicate Placed(blocks: seq<Block>, low: nat, high: nat) {
    && (forall i | 0 <= i < |blocks| ::
          && low <= blocks[i].address && blocks[i].End() <= high
          && blocks[i].request.align >= 1 && blocks[i].address % blocks[i].request.align == 0)
    && (forall i, j | 0 <= i < j < |blocks| :: blocks[i].End() <= blocks[j].address)
  }

  /** The worst case of what the blocks take: each with the most padding its alignment allows. */
  ghost function WorstCase(blocks: seq<Block>): int {
    if blocks == [] then 0
    else WorstCase(blocks[..|blocks| - 1]) + blocks[|blocks| - 1].request.n + blocks[|blocks| - 1].request.align - 1
  }

  lemma PlacedNext(blocks: seq<Block>, low: nat, high: nat, b: Block)
    requires Placed(blocks, low, high) && low <= high <= b.address
    requires b.request.align >= 1 && b.address % b.request.align == 0
    ensures Placed(blocks + [b], low, b.End())
    ensures WorstCase(blocks + [b]) == WorstCase(blocks) + b.request.n + b.request.align - 1
  {
    assert (blocks + [b])[..|blocks|] == blocks;
  }

  /** The right answer to a request by an arena with `offset` bytes used: the least suitable
      address, or none if no aligned block of n bytes fits in what is left. */
  ghost predicate Answers(base: nat, size: nat, offset: nat, q: Request, r: Option<nat>, offset': nat)
    requires q.align >= 1
  {
    match r
    case Some(a) => LeastAligned(a, base + offset, q.align) && a + q.n <= base + size && offset' == a + q.n - base
    case None => offset' == offset && forall a: nat | base + offset <= a && a % q.align == 0 :: a + q.n > base + size
  }

  /** `offset_ + delta + n` before it wraps to 64 bits. */
  ghost function End(base: nat, offset: nat, q: Request): nat
    requires q.align >= 1
  {
    RoundUp(base + offset, q.align) - base + q.n
  }

  /** The answer `allocate` gives, and the offset it leaves: the end is compared after it wrapped. */
  ghost function Served(base: nat, size: nat, offset: nat, q: Request): (Option<nat>, nat)
    requires q.Valid()
  {
    if Wrap(End(base, offset, q)) > size then (None, offset)
    else (Some(Wrap(RoundUp(base + offset, q.align))), Wrap(End(base, offset, q)))
  }

  lemma UnwrappedIsRight(base: nat, size: nat, offset: nat, q: Request)
    requires base + size < WORD && offset <= size && q.Valid() && End(base, offset, q) < WORD
    ensures var (r, offset') := Served(base, size, offset, q);
            Answers(base, size, offset, q, r, offset')
  {
    var a := RoundUp(base + offset, q.align);
    if End(base, offset, q) <= size {
      assert a < WORD;
    }
  }

  lemma WrappedIsRightIfRefused(base: nat, size: nat, offset: nat, q: Request)
    requires base + size < WORD && offset <= size && q.Valid() && WORD <= End(base, offset, q)
    ensures var (r, offset') := Served(base, size, offset, q);
            Answers(base, size, offset, q, r, offset') <==> End(base, offset, q) - WORD > size
  {
    MaskRoundsUp(base + offset, q.align);
    var a, end := RoundUp(base + offset, q.align), End(base, offset, q);
    assert end < 2 * WORD && Wrap(end) == end - WORD;
    if Wrap(end) <= size {
      assert Wrap(a) <= a && a + q.n > base + size;
      assert a == WORD ==> Wrap(a) == 0 < base + offset;
    }
  }

  /** For all 64-bit sizes and alignments, the answer is right if and only if the end does not
      wrap, or wraps to beyond the storage all the same. */
  lemma ServedRightly(base: nat, size: nat, offset: nat, q: Request)
    requires base + size < WORD && offset <= size && q.Valid()
    ensures var (r, offset') := Served(base, size, offset, q);
            Answers(base, size, offset, q, r, offset')
            <==> End(base, offset, q) < WORD || End(base, offset, q) - WORD > size
  {
    if End(base, offset, q) < WORD {
      UnwrappedIsRight(base, size, offset, q);
    } else {
      WrappedIsRightIfRefused(base, size, offset, q);
    }
  }

  /** A caller that keeps its sizes below 2^64 minus the storage never meets the exception. */
  lemma ModestIsServedRightly(base: nat, size: nat, offset: nat, q: Request)
    requires base + size < WORD && offset <= size && q.Valid() && size + q.align + q.n <= WORD
    ensures End(base, offset, q) < WORD
    ensures var (r, offset') := Served(base, size, offset, q);
            Answers(base, size, offset, q, r, offset')
  {
    UnwrappedIsRight(base, size, offset, q);
  }

  /** The exception exists: 2^64 - 16 bytes are requested of 64 bytes with 32 in use. */
  lemma WrappingRequest()
    ensures var q := Request(WORD - 16, 1);
            && q.Valid()
            && Served(4096, 64, 32, q) == (Some(4128), 16)
            && !Answers(4096, 64, 32, q, Some(4128), 16)
  {
    assert Pow2(0) == 1;
    assert RoundUp(4128, 1) == 4128;
    assert Wrap(WORD + 16) == 16;
  }

  /** The code's own arithmetic, wrapping at every step, arrives at the wrapped end. */
  lemma WordsAddUp(cursor: u64, a: nat, offset: nat, n: nat)
    requires cursor <= a <= WORD
    ensures Wrap(Wrap(offset + Wrap(WORD + Wrap(a) - cursor) as nat) + n) == Wrap(offset + (a - cursor) + n)
  {
    var delta := Wrap(WORD + Wrap(a) - cursor);
    WrapAdd(offset + delta, n);
    if delta != a - cursor {
      assert Wrap(offset + WORD + n) == Wrap(offset + n);
    }
  }

  /** The blocks are in place, within the first `offset` bytes, and not too far spread. */
  ghost predicate InPlace(blocks: seq<Block>, base: nat, offset: nat) {
    Placed(blocks, base, base + offset) && offset <= WorstCase(blocks)
  }

  /** The blocks after a request. */
  ghost function Extended(blocks: seq<Block>, q: Request, r: Option<nat>): seq<Block> {
    if r.Some? then blocks + [Block(r.value, q)] else blocks
  }

  lemma StaysInPlace(blocks: seq<Block>, base: nat, size: nat, offset: nat, q: Request)
    requires base + size < WORD && offset <= size && q.Valid()
    requires InPlace(blocks, base, offset)
    requires End(base, offset, q) < WORD || End(base, offset, q) - WORD > size
    ensures var (r, offset') := Served(base, size, offset, q);
            InPlace(Extended(blocks, q, r), base, offset')
  {
    if End(base, offset, q) <= size {
      GrowsInPlace(blocks, base, size, offset, q);
    } else {
      MaskRoundsUp(base + offset, q.align);
      WrapOnce(End(base, offset, q));
      assert Served(base, size, offset, q) == (None, offset);
    }
  }

  lemma GrowsInPlace(blocks: seq<Block>, base: nat, size: nat, offset: nat, q: Request)
    requires base + size < WORD && offset <= size && q.Valid() && End(base, offset, q) <= size
    requires InPlace(blocks, base, offset)
    ensures var (r, offset') := Served(base, size, offset, q);
            InPlace(Extended(blocks, q, r), base, offset')
  {
    var a := RoundUp(base + offset, q.align);
    assert Served(base, size, offset, q) == (Some(a), End(base, offset, q));
    PlacedNext(blocks, base, base + offset, Block(a, q));
  }

  /** A list of requests served one after the other: the answers, and the final offset. */
  ghost function ServedAll(base: nat, size: nat, offset: nat, qs: seq<Request>): (seq<Option<nat>>, nat)
    requires forall i | 0 <= i < |qs| :: qs[i].Valid()
  {
    if qs == [] then ([], offset)
    else
      var (rs, mid) := ServedAll(base, size, offset, qs[..|qs| - 1]);
      var (r, end) := Served(base, size, mid, qs[|qs| - 1]);
      (rs + [r], end)
  }

  lemma {:induction false} ServedAllBounded(base: nat, size: nat, offset: nat, qs: seq<Request>)
    requires offset <= size && forall i | 0 <= i < |qs| :: qs[i].Valid()
    ensures var (rs, end) := ServedAll(base, size, offset, qs);
            |rs| == |qs| && end <= size
  {
    if qs != [] {
      ServedAllBounded(base, size, offset, qs[..|qs| - 1]);
    }
  }

  /** Each request of a list is answered from where the one before it ended. */
  lemma {:induction false} ServedInOrder(base: nat, size: nat, offset: nat, qs: seq<Request>, k: nat)
    requires offset <= size && (forall i | 0 <= i < |qs| :: qs[i].Valid()) && k < |qs|
    ensures var (rs, _) := ServedAll(base, size, offset, qs);
            var (_, start) := ServedAll(base, size, offset, qs[..k]);
            var (_, end) := ServedAll(base, size, offset, qs[..k + 1]);
            && |rs| == |qs|
            && (rs[k], end) == Served(base, size, start, qs[k])
            && (k == 0 ==> start == offset)
  {
    ServedAllBounded(base, size, offset, qs);
    if k == |qs| - 1 {
      ServedLast(base, size, offset, qs);
      assert qs[..k + 1] == qs;
    } else {
      var front := qs[..|qs| - 1];
      assert front[..k] == qs[..k] && front[..k + 1] == qs[..k + 1] && front[k] == qs[k];
      ServedInOrder(base, size, offset, front, k);
      ServedLast(base, size, offset, qs);
      ServedAllBounded(base, size, offset, front);
    }
  }

  lemma ServedLast(base: nat, size: nat, offset: nat, qs: seq<Request>)
    requires (forall i | 0 <= i < |qs| :: qs[i].Valid()) && qs != []
    ensures var front, last := qs[..|qs| - 1], qs[|qs| - 1];
            var (rs, start) := ServedAll(base, size, offset, front);
            var (r, end) := Served(base, size, start, last);
            ServedAll(base, size, offset, qs) == (rs + [r], end)
  {
  }

  /** If no request of a list can wrap, each is answered rightly: the least suitable address behind
      the block before it, or none because no suitable block fits there. */
  lemma ServedAllRightly(base: nat, size: nat, offset: nat, qs: seq<Request>, k: nat)
    requires base + size < WORD && offset <= size && k < |qs|
    requires forall i | 0 <= i < |qs| :: qs[i].Valid()
    requires size + qs[k].align + qs[k].n <= WORD
    ensures var (rs, _) := ServedAll(base, size, offset, qs);
            var (_, start) := ServedAll(base, size, offset, qs[..k]);
            var (_, end) := ServedAll(base, size, offset, qs[..k + 1]);
            && |rs| == |qs| && qs[k].align >= 1
            && Answers(base, size, start, qs[k], rs[k], end)
  {
    ServedInOrder(base, size, offset, qs, k);
    ServedAllBounded(base, size, offset, qs[..k]);
    var (_, start) := ServedAll(base, size, offset, qs[..k]);
    ModestIsServedRightly(base, size, start, qs[k]);
  }

  /** The blocks after a list of requests and its answers. */
  ghost function ExtendedAll(blocks: seq<Block>, qs: seq<Request>, rs: seq<Option<nat>>): seq<Block>
    requires |qs| == |rs|
  {
    if qs == [] then blocks
    else
      var k := |qs| - 1;
      Extended(ExtendedAll(blocks, qs[..k], rs[..k]), qs[k], rs[k])
  }

  /** The blocks after a list are those before it, and behind them one for each address answered. */
  lemma {:induction false} AnswersAreBlocks(blocks: seq<Block>, qs: seq<Request>, rs: seq<Option<nat>>, k: nat)
    requires |qs| == |rs| && k < |qs|
    ensures blocks <= ExtendedAll(blocks, qs, rs)
    ensures rs[k].Some? ==> Block(rs[k].value, qs[k]) in ExtendedAll(blocks, qs, rs)
    ensures |ExtendedAll(blocks, qs, rs)| <= |blocks| + |qs|
  {
    var n := |qs| - 1;
    if k < n {
      AnswersAreBlocks(blocks, qs[..n], rs[..n], k);
    } else if n > 0 {
      AnswersAreBlocks(blocks, qs[..n], rs[..n], n - 1);
    }
  }

  /** Serving one more request of a list. */
  lemma OneMoreServed(base: nat, size: nat, offset: nat, blocks: seq<Block>, qs: seq<Request>, k: nat,
                      rs: seq<Option<nat>>, r: Option<nat>)
    requires k < |qs| && (forall i | 0 <= i < |qs| :: qs[i].Valid()) && |rs| == k
    ensures var (rs', mid) := ServedAll(base, size, offset, qs[..k]);
            var (r', end) := Served(base, size, mid, qs[k]);
            ServedAll(base, size, offset, qs[..k + 1]) == (rs' + [r'], end)
    ensures ExtendedAll(blocks, qs[..k + 1], rs + [r]) == Extended(ExtendedAll(blocks, qs[..k], rs), qs[k], r)
  {
    assert qs[..k + 1][..k] == qs[..k] && (rs + [r])[..k] == rs;
  }

  /** The mask expression of `allocate`. */
  method AlignUp(x: u64, align: u64) returns (aligned: u64)
    requires IsPowerOfTwo(align)
    ensures RoundUp(x, align) <= WORD && aligned == Wrap(RoundUp(x, align))
  {
    MaskRoundsUp(x, align);
    aligned := And(Wrap(x as nat + (align - 1)), Not64(align - 1));
  }

  class Arena {
    const base: nat
    const size: nat
    var offset: nat

    /** The successful requests since the last reset. */
    ghost var blocks: seq<Block>

    /** The storage, with the address one past its end, lies in the 64-bit address space. */
    ghost predicate Bounded()
      reads this
    {
      base + size < WORD && offset <= size
    }

    ghost predicate Valid()
      reads this
    {
      && Bounded()
      && InPlace(blocks, base, offset)
    }

    constructor (base: nat, size: nat)
      requires base + size < WORD
      ensures Valid() && this.base == base && this.size == size && offset == 0 && blocks == []
    {
      this.base, this.size, offset, blocks := base, size, 0, [];
    }

    /** Returns the least suitable address and keeps the blocks in place, or throws (`None`) exactly
        when no aligned block of n bytes fits in what is left, unless `offset_ + delta + n` wraps
        into the storage; then, and only then, the answer is wrong. */
    method Allocate(n: u64, align: u64) returns (r: Option<nat>)
      requires Bounded() && IsPowerOfTwo(align)
      modifies this
      ensures Bounded() && (r, offset) == Served(base, size, old(offset), Request(n, align))
      ensures var end := End(base, old(offset), Request(n, align));
              && (Answers(base, size, old(offset), Request(n, align), r, offset)
                  <==> end < WORD || end - WORD > size)
              && (old(Valid()) && (end < WORD || end - WORD > size) ==> Valid())
      ensures blocks == if r.Some? then old(blocks) + [Block(r.value, Request(n, align))] else old(blocks)
    {
      ghost var q := Request(n, align);
      var cursor: u64 := base + offset;
      var aligned := AlignUp(cursor, align);
      var delta := Wrap(WORD + aligned - cursor);
      var end := Wrap(Wrap(offset + delta as nat) + n);
      WordsAddUp(cursor, RoundUp(cursor, align), offset, n);
      assert offset + (RoundUp(cursor, align) - cursor) + n == End(base, offset, q);
      ghost var (answer, after) := Served(base, size, offset, q);
      assert (answer, after) == if end > size then (None, offset) else (Some(aligned), end);
      ServedRightly(base, size, offset, q);
      if Valid() && (End(base, offset, q) < WORD || End(base, offset, q) - WORD > size) {
        StaysInPlace(blocks, base, size, offset, q);
      }
      blocks := Extended(blocks, q, answer);
      if end > size {
        return None;
      }
      offset := end;
      return Some(aligned);
    }

    method Reset()
      requires Bounded()
      modifies this
      ensures Valid() && offset == 0 && blocks == []
    {
      offset := 0;
      blocks := [];
    }

    /** The bytes not yet handed out: from the cursor to the end, apart from every block. */
    method Remaining() returns (address: nat, length: nat)
      requires Valid()
      ensures address == base + offset && offset + length == size
      ensures forall i | 0 <= i < |blocks| :: blocks[i].End() <= address
    {
      address, length := base + offset, size - offset;
    }

    /** A client: serves a list of requests. If no request can wrap, the blocks it was answered with
        are in place, together with those it had. */
    method AllocateAll(requests: seq<Request>) returns (answers: seq<Option<nat>>)
      requires Bounded() && forall i | 0 <= i < |requests| :: requests[i].Valid()
      modifies this
      ensures Bounded() && (answers, offset) == ServedAll(base, size, old(offset), requests)
      ensures |answers| == |requests| && blocks == ExtendedAll(old(blocks), requests, answers)
      ensures old(Valid()) && (forall i | 0 <= i < |requests| :: size + requests[i].align + requests[i].n <= WORD)
              ==> Valid()
    {
      answers := [];
      ghost var modest := forall i | 0 <= i < |requests| :: size + requests[i].align + requests[i].n <= WORD;
      for i := 0 to |requests|
        invariant Bounded() && (answers, offset) == ServedAll(base, size, old(offset), requests[..i])
        invariant |answers| == i && blocks == ExtendedAll(old(blocks), requests[..i], answers)
        invariant old(Valid()) && modest ==> Valid()
      {
        if modest {
          ModestIsServedRightly(base, size, offset, requests[i]);
        }
        var r := Allocate(requests[i].n, requests[i].align);
        OneMoreServed(base, size, old(offset), old(blocks), requests, i, answers, r);
        answers := answers + [r];
      }
      assert requests[..|requests|] == requests;
    }

    /** A client: the same requests, replayed after a reset, get the same addresses. */
    method Replay(requests: seq<Request>) returns (first: seq<Option<nat>>, second: seq<Option<nat>>)
      requires Bounded() && forall i | 0 <= i < |requests| :: requests[i].Valid()
      modifies this
      ensures Bounded() && first == second
      ensures (first, offset) == ServedAll(base, size, 0, requests) && |first| == |requests|
      ensures blocks == ExtendedAll([], requests, first)
    {
      Reset();
      first := AllocateAll(requests);
      Reset();
      second := AllocateAll(requests);
    }
  }
}
