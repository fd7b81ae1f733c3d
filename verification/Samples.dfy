/** Counting and ranking in sample lists, and the log2 buckets they are counted in. */
module Samples {
  import opened Bits

  function Min(a: nat, b: nat): nat {
    if b < a then b else a
  }

  function Max(a: nat, b: nat): nat {
    if a < b then b else a
  }

  /** The bucket of a sample: 0 for 0, else floor(log2 v) + 1, clamped to the last bucket. */
  function BucketIndex(buckets: nat, v: u64): (i: nat)
    requires buckets >= 8
    ensures i < buckets
  {
    if v == 0 then 0
    else
      WordLength(v);
      var idx := 63 - LeadingZeros(v) + 1;
      if idx < buckets then idx else buckets - 1
  }

  lemma WordLength(v: u64)
    requires v > 0
    ensures 1 <= BitLength(v) <= 64
  {
    BitLengthBracket(v);
    Pow2Of64();
    if BitLength(v) > 64 {
      Pow2Monotone(64, BitLength(v) - 1);
    }
  }

  /** The value reported for a bucket, on 64-bit words: lo + lo / 2 with lo = 1 << (i - 1). */
  function Representative(i: nat): u64 {
    if i == 0 then 0
    else
      var lo := Wrap(Pow2(i - 1));
      Wrap(lo + lo / 2)
  }

  /** The samples bucket `i` is for: [2^(i-1), 2^i), with no upper end in the last bucket. */
  ghost predicate InRange(buckets: nat, i: nat, v: nat) {
    if i == 0 then v == 0 else Pow2(i - 1) <= v && (i < buckets - 1 ==> v < Pow2(i))
  }

  lemma BucketInRange(buckets: nat, v: u64)
    requires buckets >= 8
    ensures BucketIndex(buckets, v) <= 64 && InRange(buckets, BucketIndex(buckets, v), v)
  {
    if v > 0 {
      WordLength(v);
      BitLengthBracket(v);
      if buckets - 1 < BitLength(v) {
        Pow2Monotone(buckets - 2, BitLength(v) - 1);
      }
    }
  }

  lemma RangesApart(buckets: nat, i: nat, v: nat, j: nat, w: nat)
    requires i < buckets && j < buckets && InRange(buckets, i, v) && InRange(buckets, j, w) && v <= w
    ensures i <= j
  {
    if 0 < j < i {
      Pow2Monotone(j, i - 1);
    }
  }

  /** A sample is counted in bucket `i` exactly when it lies in the bucket's range. */
  lemma BucketIsRange(buckets: nat, v: u64, i: nat)
    requires buckets >= 8 && i < buckets
    ensures BucketIndex(buckets, v) == i <==> InRange(buckets, i, v)
  {
    BucketInRange(buckets, v);
    if InRange(buckets, i, v) {
      RangesApart(buckets, i, v, BucketIndex(buckets, v), v);
      RangesApart(buckets, BucketIndex(buckets, v), v, i, v);
    }
  }

  lemma BucketMonotone(buckets: nat, v: u64, w: u64)
    requires buckets >= 8 && v <= w
    ensures BucketIndex(buckets, v) <= BucketIndex(buckets, w)
  {
    BucketInRange(buckets, v);
    BucketInRange(buckets, w);
    RangesApart(buckets, BucketIndex(buckets, v), v, BucketIndex(buckets, w), w);
  }

  /** For a bucket that can hold a 64-bit sample, neither the shift nor the sum overflows. */
  lemma RepresentativeExact(i: nat)
    requires 0 < i <= 64
    ensures Representative(i) == Pow2(i - 1) + Pow2(i - 1) / 2
  {
    Pow2Of64();
    Pow2Monotone(i - 1, 63);
    assert Pow2(64) == 2 * Pow2(63);
  }

  lemma RepresentativeMonotone(i: nat, j: nat)
    requires i <= j <= 64
    ensures Representative(i) <= Representative(j)
  {
    if i > 0 {
      RepresentativeExact(i);
      RepresentativeExact(j);
      Pow2Monotone(i - 1, j - 1);
    }
  }

  function Distance(a: nat, b: nat): nat {
    if a < b then b - a else a - b
  }

  /** The representative is within half of the sample, unless the sample is so far into the
      clamped last bucket that it exceeds three quarters of the next power of two; and it
      never exceeds the sample by more than half. */
  lemma RepresentativeError(buckets: nat, x: u64)
    requires buckets >= 8
    ensures var r := Representative(BucketIndex(buckets, x));
            && (2 * Distance(r, x) <= x <==> x <= 3 * Pow2(buckets - 2))
            && r <= x + x / 2
  {
    BucketInRange(buckets, x);
    var i := BucketIndex(buckets, x);
    if i > 0 {
      RepresentativeExact(i);
      if i < buckets - 1 {
        Pow2Monotone(i, buckets - 2);
      }
      EvenOrOne(i - 1);
      MidError(Pow2(i - 1), x, Pow2(buckets - 2), i == buckets - 1);
    }
  }

  lemma {:induction false} EvenOrOne(k: nat)
    ensures if k == 0 then Pow2(k) == 1 else Pow2(k) % 2 == 0
  {
    if k > 0 {
      Doubled(Pow2(k - 1));
    }
  }

  lemma Doubled(x: nat)
    ensures 2 * x % 2 == 0
  {
  }

  lemma MidError(lo: nat, x: nat, top: nat, last: bool)
    requires 1 <= lo <= x && (lo == 1 || lo % 2 == 0)
    requires if last then lo == top && lo % 2 == 0 else x < 2 * lo <= top
    ensures 2 * Distance(lo + lo / 2, x) <= x <==> x <= 3 * top
    ensures lo + lo / 2 <= x + x / 2
  {
  }

  // Counting.

  ghost function Total(s: seq<u64>): nat {
    if s == [] then 0 else Total(s[..|s| - 1]) + s[|s| - 1]
  }

  ghost function Least(s: seq<u64>): u64 {
    if s == [] then WORD - 1 else Min(Least(s[..|s| - 1]), s[|s| - 1])
  }

  ghost function Greatest(s: seq<u64>): u64 {
    if s == [] then 0 else Max(Greatest(s[..|s| - 1]), s[|s| - 1])
  }

  /** How many samples fall in the buckets below `i`. */
  ghost function CountBelow(buckets: nat, s: seq<u64>, i: nat): (n: nat)
    requires buckets >= 8
    ensures n <= |s|
  {
    if s == [] then 0
    else CountBelow(buckets, s[..|s| - 1], i) + if BucketIndex(buckets, s[|s| - 1]) < i then 1 else 0
  }

  /** How many samples fall in bucket `i`. */
  ghost function CountIn(buckets: nat, s: seq<u64>, i: nat): (n: nat)
    requires buckets >= 8
    ensures n <= |s|
  {
    if s == [] then 0
    else CountIn(buckets, s[..|s| - 1], i) + if BucketIndex(buckets, s[|s| - 1]) == i then 1 else 0
  }

  /** How many samples lie in the range bucket `i` is for. */
  ghost function CountInRange(buckets: nat, s: seq<u64>, i: nat): nat {
    if s == [] then 0
    else CountInRange(buckets, s[..|s| - 1], i) + if InRange(buckets, i, s[|s| - 1]) then 1 else 0
  }

  lemma {:induction false} CountInIsInRange(buckets: nat, s: seq<u64>, i: nat)
    requires buckets >= 8 && i < buckets
    ensures CountIn(buckets, s, i) == CountInRange(buckets, s, i)
  {
    if s != [] {
      CountInIsInRange(buckets, s[..|s| - 1], i);
      BucketIsRange(buckets, s[|s| - 1], i);
    }
  }

  lemma {:induction false} CountAdds(buckets: nat, s: seq<u64>, i: nat)
    requires buckets >= 8
    ensures CountBelow(buckets, s, i + 1) == CountBelow(buckets, s, i) + CountIn(buckets, s, i)
  {
    if s != [] {
      CountAdds(buckets, s[..|s| - 1], i);
    }
  }

  lemma {:induction false} CountEnds(buckets: nat, s: seq<u64>)
    requires buckets >= 8
    ensures CountBelow(buckets, s, 0) == 0 && CountBelow(buckets, s, buckets) == |s|
  {
    if s != [] {
      CountEnds(buckets, s[..|s| - 1]);
    }
  }

  lemma {:induction false} TotalBounds(s: seq<u64>, lo: nat, hi: nat)
    requires forall k | 0 <= k < |s| :: lo <= s[k] <= hi
    ensures lo * |s| <= Total(s) <= hi * |s|
  {
    if s != [] {
      var n := |s| - 1;
      TotalBounds(s[..n], lo, hi);
      assert lo * (n + 1) == lo * n + lo && hi * (n + 1) == hi * n + hi;
    }
  }

  lemma {:induction false} GreatestIsBound(s: seq<u64>, k: nat)
    requires k < |s|
    ensures Least(s) <= s[k] <= Greatest(s)
  {
    if k < |s| - 1 {
      GreatestIsBound(s[..|s| - 1], k);
    }
  }

  /** The extremes are samples, and bound all of them. */
  lemma {:induction false} ExtremesAttained(s: seq<u64>)
    requires s != []
    ensures Least(s) in s && Greatest(s) in s
    ensures forall x | x in s :: Least(s) <= x <= Greatest(s)
  {
    if |s| > 1 {
      ExtremesAttained(s[..|s| - 1]);
    }
    forall x | x in s ensures Least(s) <= x <= Greatest(s) {
      var k :| 0 <= k < |s| && s[k] == x;
      GreatestIsBound(s, k);
    }
  }

  /** The total of one sample is the sample, and totals add up. */
  lemma {:induction false} TotalAdds(s: seq<u64>, t: seq<u64>, x: u64)
    ensures Total([]) == 0 && Total([x]) == x && Total(s + t) == Total(s) + Total(t)
  {
    assert [x][..0] == [];
    if t == [] {
      assert s + t == s;
    } else {
      assert (s + t)[..|s + t| - 1] == s + t[..|t| - 1];
      TotalAdds(s, t[..|t| - 1], x);
    }
  }

  // Ranks.

  /** How many samples are less than `bound`. */
  ghost function Below(s: seq<u64>, bound: nat): (n: nat)
    ensures n <= |s|
  {
    if s == [] then 0 else Below(s[..|s| - 1], bound) + if s[|s| - 1] < bound then 1 else 0
  }

  /** `x` is the k-th smallest sample, k counted from 1: fewer than k samples are less than it,
      and at least k are not greater. */
  ghost predicate IsRanked(s: seq<u64>, k: int, x: u64) {
    x in s && Below(s, x) < k <= Below(s, x + 1)
  }

  lemma {:induction false} BelowMonotone(s: seq<u64>, lo: nat, hi: nat)
    requires lo <= hi
    ensures Below(s, lo) <= Below(s, hi)
  {
    if s != [] {
      BelowMonotone(s[..|s| - 1], lo, hi);
    }
  }

  lemma {:induction false} BelowConcat(s: seq<u64>, t: seq<u64>, bound: nat)
    ensures Below(s + t, bound) == Below(s, bound) + Below(t, bound)
  {
    if t == [] {
      assert s + t == s;
    } else {
      assert (s + t)[..|s + t| - 1] == s + t[..|t| - 1];
      BelowConcat(s, t[..|t| - 1], bound);
    }
  }

  lemma {:induction false} BelowOfPermutation(s: seq<u64>, t: seq<u64>, bound: nat)
    requires multiset(s) == multiset(t)
    ensures Below(s, bound) == Below(t, bound)
    decreases |s|
  {
    assert |s| == |multiset(s)| && |t| == |multiset(t)|;
    if s != [] {
      var r, x := s[..|s| - 1], s[|s| - 1];
      assert s == r + [x];
      var a, b := SplitAt(r, x, t);
      BelowOfPermutation(r, a + b, bound);
      BelowConcat(a, b, bound);
      BelowConcat(a + [x], b, bound);
      BelowConcat(a, [x], bound);
      BelowConcat(r, [x], bound);
    }
  }

  /** In a sorted list the samples less than a bound are the first ones. */
  lemma {:induction false} BelowInSorted(s: seq<u64>, bound: nat, k: nat)
    requires Sorted(s) && k < |s|
    ensures s[k] < bound <==> k < Below(s, bound)
  {
    var r := s[..|s| - 1];
    if k < |r| {
      BelowInSorted(r, bound, k);
      if Below(r, bound) < |r| {
        BelowInSorted(r, bound, |r| - 1);
      }
    } else if r != [] && Below(r, bound) < |r| {
      BelowInSorted(r, bound, |r| - 1);
    }
  }

  /** The k-th entry of the sorted list is the k-th smallest sample, and nothing else is. */
  lemma RankedBySorting(s: seq<u64>, k: int, x: u64)
    requires 1 <= k <= |s|
    ensures IsRanked(s, k, x) <==> x == Sort(s)[k - 1]
  {
    RankedInSorted(s, Sort(s), k, x);
  }

  lemma RankedInSorted(s: seq<u64>, t: seq<u64>, k: int, x: u64)
    requires Sorted(t) && multiset(s) == multiset(t) && 1 <= k <= |t|
    ensures IsRanked(s, k, x) <==> x == t[k - 1]
  {
    BelowOfPermutation(s, t, x);
    BelowOfPermutation(s, t, x + 1);
    BelowInSorted(t, x, k - 1);
    BelowInSorted(t, x + 1, k - 1);
    SameMembers(s, t, t[k - 1]);
  }

  lemma SameMembers(s: seq<u64>, t: seq<u64>, x: u64)
    requires multiset(s) == multiset(t)
    ensures x in s <==> x in t
  {
    assert x in multiset(s) <==> x in multiset(t);
  }

  // Sorting, and the independence of every count from the order of the samples.

  ghost predicate Sorted(s: seq<u64>) {
    forall i, j | 0 <= i <= j < |s| :: s[i] <= s[j]
  }

  function Insert(s: seq<u64>, x: u64): (r: seq<u64>)
    ensures multiset(r) == multiset(s) + multiset{x}
  {
    if s == [] || s[|s| - 1] <= x then s + [x]
    else
      assert s == s[..|s| - 1] + [s[|s| - 1]];
      Insert(s[..|s| - 1], x) + [s[|s| - 1]]
  }

  lemma {:induction false} InsertBelow(s: seq<u64>, x: u64, y: u64)
    requires x <= y && forall k | 0 <= k < |s| :: s[k] <= y
    ensures forall k | 0 <= k < |Insert(s, x)| :: Insert(s, x)[k] <= y
  {
    if s != [] && x < s[|s| - 1] {
      InsertBelow(s[..|s| - 1], x, y);
    }
  }

  lemma {:induction false} InsertSorts(s: seq<u64>, x: u64)
    requires Sorted(s)
    ensures Sorted(Insert(s, x))
  {
    if s != [] && x < s[|s| - 1] {
      InsertSorts(s[..|s| - 1], x);
      InsertBelow(s[..|s| - 1], x, s[|s| - 1]);
    }
  }

  /** The samples in increasing order. */
  function Sort(s: seq<u64>): (r: seq<u64>)
    ensures Sorted(r) && multiset(r) == multiset(s) && |r| == |s|
  {
    if s == [] then []
    else
      assert s == s[..|s| - 1] + [s[|s| - 1]];
      var r := Insert(Sort(s[..|s| - 1]), s[|s| - 1]);
      InsertSorts(Sort(s[..|s| - 1]), s[|s| - 1]);
      assert |r| == |multiset(r)| && |s| == |multiset(s)|;
      r
  }

  /** All that a sample list leaves behind in a histogram. */
  datatype Digest = Digest(count: nat, total: nat, least: nat, greatest: nat, below: nat)

  ghost function DigestOf(buckets: nat, s: seq<u64>, i: nat): Digest
    requires buckets >= 8
  {
    Digest(|s|, Total(s), Least(s), Greatest(s), CountBelow(buckets, s, i))
  }

  lemma {:induction false} DigestConcat(buckets: nat, s: seq<u64>, t: seq<u64>, i: nat)
    requires buckets >= 8
    ensures var d, a, b := DigestOf(buckets, s + t, i), DigestOf(buckets, s, i), DigestOf(buckets, t, i);
            && d.total == a.total + b.total && d.below == a.below + b.below
            && d.least == Min(a.least, b.least) && d.greatest == Max(a.greatest, b.greatest)
  {
    if t == [] {
      assert s + t == s;
    } else {
      assert (s + t)[..|s + t| - 1] == s + t[..|t| - 1];
      DigestConcat(buckets, s, t[..|t| - 1], i);
    }
  }

  lemma SplitAt(r: seq<u64>, x: u64, t: seq<u64>) returns (a: seq<u64>, b: seq<u64>)
    requires multiset(r + [x]) == multiset(t)
    ensures t == a + [x] + b && multiset(r) == multiset(a + b)
  {
    assert x in multiset(t);
    var k :| 0 <= k < |t| && t[k] == x;
    a, b := t[..k], t[k + 1..];
    assert t == a + [x] + b;
    var one := multiset{x};
    assert multiset(t) == multiset(a) + one + multiset(b);
    assert multiset(r) == multiset(r + [x]) - one;
    assert multiset(a + b) == multiset(a) + multiset(b) == multiset(t) - one;
  }

  lemma {:induction false} DigestOfPermutation(buckets: nat, s: seq<u64>, t: seq<u64>, i: nat)
    requires buckets >= 8 && multiset(s) == multiset(t)
    ensures DigestOf(buckets, s, i) == DigestOf(buckets, t, i)
    decreases |s|
  {
    assert |s| == |multiset(s)| && |t| == |multiset(t)|;
    if s != [] {
      var r, x := s[..|s| - 1], s[|s| - 1];
      assert s == r + [x];
      var a, b := SplitAt(r, x, t);
      DigestOfPermutation(buckets, r, a + b, i);
      DigestConcat(buckets, a, b, i);
      DigestConcat(buckets, a + [x], b, i);
      DigestConcat(buckets, a, [x], i);
      DigestConcat(buckets, r, [x], i);
    }
  }

  /** In a sorted list, the samples of the buckets below `i` are the first ones. */
  lemma {:induction false} RankInSorted(buckets: nat, s: seq<u64>, i: nat, k: nat)
    requires buckets >= 8 && Sorted(s) && k < |s|
    ensures BucketIndex(buckets, s[k]) < i <==> k < CountBelow(buckets, s, i)
  {
    var r, x := s[..|s| - 1], s[|s| - 1];
    if k < |r| {
      RankInSorted(buckets, r, i, k);
      if CountBelow(buckets, r, i) < |r| {
        RankInSorted(buckets, r, i, |r| - 1);
      }
      BucketMonotone(buckets, s[|r| - 1], x);
      BucketMonotone(buckets, s[k], s[|r| - 1]);
    } else if r != [] {
      if CountBelow(buckets, r, i) < |r| {
        RankInSorted(buckets, r, i, |r| - 1);
        BucketMonotone(buckets, s[|r| - 1], x);
      }
    }
  }

  /** The first bucket up to which at least k samples are counted holds the k-th smallest. */
  lemma FirstBucketHoldsRank(buckets: nat, s: seq<u64>, t: seq<u64>, k: nat, i: nat)
    requires buckets >= 8 && Sorted(t) && multiset(s) == multiset(t) && 1 <= k <= |t|
    requires CountBelow(buckets, s, i) < k <= CountBelow(buckets, s, i + 1)
    ensures BucketIndex(buckets, t[k - 1]) == i
  {
    CountOfPermutation(buckets, s, t, i);
    CountOfPermutation(buckets, s, t, i + 1);
    RankInSorted(buckets, t, i, k - 1);
    RankInSorted(buckets, t, i + 1, k - 1);
  }

  lemma CountOfPermutation(buckets: nat, s: seq<u64>, t: seq<u64>, i: nat)
    requires buckets >= 8 && multiset(s) == multiset(t)
    ensures CountBelow(buckets, s, i) == CountBelow(buckets, t, i)
  {
    DigestOfPermutation(buckets, s, t, i);
    assert DigestOf(buckets, s, i).below == DigestOf(buckets, t, i).below;
  }

  /** The bucket counts, on 64-bit counters. */
  ghost function Counted(buckets: nat, s: seq<u64>): (r: seq<u64>)
    requires buckets >= 8
    ensures |r| == buckets
  {
    seq(buckets, i requires 0 <= i => Wrap(CountIn(buckets, s, i)))
  }

  lemma CountedOneMore(buckets: nat, s: seq<u64>, x: u64)
    requires buckets >= 8
    ensures var k := BucketIndex(buckets, x);
            Counted(buckets, s + [x]) == Counted(buckets, s)[k := Wrap(Counted(buckets, s)[k] as nat + 1)]
  {
    assert (s + [x])[..|s|] == s;
    var k := BucketIndex(buckets, x);
    WrapAdd(CountIn(buckets, s, k), 1);
    forall i | 0 <= i < buckets
      ensures Counted(buckets, s + [x])[i]
              == if i == k then Wrap(Counted(buckets, s)[i] as nat + 1) else Counted(buckets, s)[i]
    {
    }
  }

  lemma TotalOneMore(s: seq<u64>, x: u64)
    ensures Wrap(Total(s + [x])) == Wrap(Wrap(Total(s)) + x)
    ensures Least(s + [x]) == Min(Least(s), x) && Greatest(s + [x]) == Max(Greatest(s), x)
  {
    assert (s + [x])[..|s|] == s;
    WrapAdd(Total(s), x);
  }
}
