/** `ll::HdrLatencyHistogram` against the sorted list of the samples recorded in it. */
module Histograms {
  import opened Bits
  import opened Options
  import opened Samples

  function Ceil(x: real): int {
    -(-x).Floor
  }

  /** `target`: the rank of the requested percentile among `n` samples. */
  function Rank(pct: real, n: nat): int {
    Ceil((if 100.0 < pct then 100.0 else pct) / 100.0 * n as real)
  }

  lemma ScaleMonotone(x: real, y: real, n: nat)
    requires x <= y
    ensures x * n as real <= y * n as real
  {
  }

  lemma RankBounds(pct: real, n: nat)
    requires pct > 0.0 && n > 0
    ensures 1 <= Rank(pct, n) <= n
    ensures pct <= 100.0 ==> (Rank(pct, n) - 1) as real < pct * n as real / 100.0 <= Rank(pct, n) as real
  {
    var share := (if 100.0 < pct then 100.0 else pct) / 100.0;
    ScaleMonotone(share, 1.0, n);
    assert share * n as real > 0.0;
    if pct <= 100.0 {
      assert pct / 100.0 * n as real == pct * n as real / 100.0;
    }
  }

  lemma RankOfAll(pct: real, n: nat)
    requires pct >= 100.0
    ensures Rank(pct, n) == n
  {
    assert (if 100.0 < pct then 100.0 else pct) == 100.0;
    assert 100.0 / 100.0 * n as real == n as real;
    assert Ceil(n as real) == n;
  }

  lemma RankMonotone(pct: real, pct': real, n: nat)
    requires pct <= pct'
    ensures Rank(pct, n) <= Rank(pct', n)
  {
    var share, share' := (if 100.0 < pct then 100.0 else pct) / 100.0, (if 100.0 < pct' then 100.0 else pct') / 100.0;
    ScaleMonotone(share, share', n);
    CeilMonotone(share * n as real, share' * n as real);
  }

  lemma CeilMonotone(x: real, y: real)
    requires x <= y
    ensures Ceil(x) <= Ceil(y)
  {
  }

  /** The k-th smallest sample, k counted from 1. */
  ghost function Ranked(s: seq<u64>, k: int): u64
    requires 1 <= k <= |s|
  {
    Sort(s)[k - 1]
  }

  /** The sample a percentile asks for. */
  ghost function ExactPercentile(s: seq<u64>, pct: real): (x: u64)
    requires s != [] && pct > 0.0
    ensures IsRanked(s, Rank(pct, |s|), x)
  {
    RankBounds(pct, |s|);
    RankedBySorting(s, Rank(pct, |s|), Ranked(s, Rank(pct, |s|)));
    Ranked(s, Rank(pct, |s|))
  }

  /** What the histogram answers: the representative of that sample's bucket. */
  ghost function Percentile(buckets: nat, s: seq<u64>, pct: real): u64
    requires buckets >= 8 && s != [] && pct > 0.0
  {
    Representative(BucketIndex(buckets, ExactPercentile(s, pct)))
  }

  /** The answer is within half of the exact percentile x, unless x lies beyond three quarters of
      2^Buckets; and it never exceeds the greatest sample by more than half, not even there. */
  lemma PercentileError(buckets: nat, s: seq<u64>, pct: real)
    requires buckets >= 8 && s != [] && pct > 0.0
    ensures var x, p := ExactPercentile(s, pct), Percentile(buckets, s, pct);
            && (2 * Distance(p, x) <= x <==> x <= 3 * Pow2(buckets - 2))
            && p <= Greatest(s) + Greatest(s) / 2
  {
    var x := ExactPercentile(s, pct);
    RepresentativeError(buckets, x);
    RankBounds(pct, |s|);
    assert x in multiset(Sort(s));
    var k :| 0 <= k < |s| && s[k] == x;
    GreatestIsBound(s, k);
  }

  /** The percentile is the sample at the rank asked for, and no other value is. */
  lemma PercentileIsRanked(s: seq<u64>, pct: real, x: u64)
    requires s != [] && pct > 0.0
    ensures IsRanked(s, Rank(pct, |s|), x) <==> x == ExactPercentile(s, pct)
  {
    RankBounds(pct, |s|);
    RankedBySorting(s, Rank(pct, |s|), x);
  }

  lemma PercentileMonotone(buckets: nat, s: seq<u64>, pct: real, pct': real)
    requires buckets >= 8 && s != [] && 0.0 < pct <= pct'
    ensures Percentile(buckets, s, pct) <= Percentile(buckets, s, pct')
  {
    RankMonotone(pct, pct', |s|);
    RankBounds(pct, |s|);
    RankBounds(pct', |s|);
    var x, y := ExactPercentile(s, pct), ExactPercentile(s, pct');
    BucketMonotone(buckets, x, y);
    BucketInRange(buckets, y);
    RepresentativeMonotone(BucketIndex(buckets, x), BucketIndex(buckets, y));
  }

  lemma MeanBounds(s: seq<u64>)
    requires s != []
    ensures Least(s) as real <= Total(s) as real / |s| as real <= Greatest(s) as real
  {
    forall k | 0 <= k < |s| ensures Least(s) <= s[k] <= Greatest(s) {
      GreatestIsBound(s, k);
    }
    TotalBounds(s, Least(s), Greatest(s));
    QuotientBounds(Least(s), Greatest(s), Total(s), |s|);
  }

  lemma QuotientBounds(lo: nat, hi: nat, sum: nat, n: nat)
    requires n > 0 && lo * n <= sum <= hi * n
    ensures lo as real <= sum as real / n as real <= hi as real
  {
    CastMul(lo, n);
    CastMul(hi, n);
    RealQuotientBounds(lo as real, hi as real, sum as real, n as real);
  }

  lemma CastMul(a: nat, n: nat)
    ensures (a * n) as real == a as real * n as real
  {
  }

  lemma RealQuotientBounds(lo: real, hi: real, sum: real, n: real)
    requires n > 0.0 && lo * n <= sum <= hi * n
    ensures lo <= sum / n <= hi
  {
  }

  class HdrLatencyHistogram {
    const buckets: nat
    const counts: array<u64>
    var count: u64
    var sum: u64
    var min: u64
    var max: u64

    /** Everything recorded since the last reset, in order. */
    ghost var samples: seq<u64>

    ghost predicate Valid()
      reads this, counts
    {
      && 8 <= buckets <= 128
      && counts.Length == buckets
      && count == Wrap(|samples|)
      && sum == Wrap(Total(samples))
      && min == Least(samples)
      && max == Greatest(samples)
      && counts[..] == Counted(buckets, samples)
    }

    /** The state of a histogram without samples. */
    ghost predicate Cleared()
      reads this, counts
    {
      count == 0 && sum == 0 && min == WORD - 1 && max == 0 && forall i | 0 <= i < counts.Length :: counts[i] == 0
    }

    constructor (buckets: nat)
      requires 8 <= buckets <= 128
      ensures Valid() && fresh(counts) && samples == [] && this.buckets == buckets && Cleared()
    {
      this.buckets := buckets;
      counts := new u64[buckets](_ => 0);
      count, sum, min, max := 0, 0, WORD - 1, 0;
      samples := [];
    }

    method Record(value: u64)
      requires Valid()
      modifies this, counts
      ensures Valid() && samples == old(samples) + [value]
    {
      count := Wrap(count as nat + 1);
      min := Min(min, value);
      max := Max(max, value);
      sum := Wrap(sum as nat + value as nat);
      var idx := BucketIndex(buckets, value);
      counts[idx] := Wrap(counts[idx] as nat + 1);
      assert counts[..] == old(counts[..])[idx := Wrap(old(counts[idx]) as nat + 1)];
      samples := samples + [value];
      WrapAdd(|old(samples)|, 1);
      TotalOneMore(old(samples), value);
      CountedOneMore(buckets, old(samples), value);
    }

    method Reset()
      requires Valid()
      modifies this, counts
      ensures Valid() && samples == [] && Cleared()
    {
      for i := 0 to buckets
        modifies counts
        invariant forall j | 0 <= j < i :: counts[j] == 0
      {
        counts[i] := 0;
      }
      count, sum, min, max := 0, 0, WORD - 1, 0;
      samples := [];
    }

    /** The scan: as long as the 64-bit sample count has not wrapped, it ends inside the loop, in
        the bucket of the `target`-th smallest sample. */
    method Scan(target: nat) returns (v: u64)
      requires Valid() && 1 <= target <= count
      ensures |samples| < WORD ==> v == Representative(BucketIndex(buckets, Ranked(samples, target)))
      ensures |samples| < WORD ==>
                exists x :: IsRanked(samples, target, x) && v == Representative(BucketIndex(buckets, x))
    {
      var seen: u64 := 0;
      CountEnds(buckets, samples);
      for i := 0 to buckets
        invariant |samples| < WORD ==> seen == CountBelow(buckets, samples, i) < target
      {
        CountAdds(buckets, samples, i);
        assert counts[i] == counts[..][i] == Counted(buckets, samples)[i];
        seen := Wrap(seen as nat + counts[i] as nat);
        if seen >= target {
          if |samples| < WORD {
            FirstBucketHoldsRank(buckets, samples, Sort(samples), target, i);
            RankedBySorting(samples, target, Ranked(samples, target));
          }
          return Representative(i);
        }
      }
      return max;
    }

    /** The percentile is the representative of the bucket of the k-th smallest sample, k the
        exact ceiling of pct/100 * count. */
    method ValueAtPercentile(pct: real) returns (r: Option<u64>)
      requires Valid()
      ensures r.None? <==> count == 0 || pct <= 0.0
      ensures r.Some? && |samples| < WORD ==> samples != [] && r.value == Percentile(buckets, samples, pct)
      ensures r.Some? && |samples| < WORD ==>
                exists x :: IsRanked(samples, Rank(pct, |samples|), x)
                            && r.value == Representative(BucketIndex(buckets, x))
    {
      if count == 0 || pct <= 0.0 {
        return None;
      }
      RankBounds(pct, count);
      var v := Scan(Rank(pct, count));
      return Some(v);
    }

    /** The mean lies between the extremes as long as neither the count nor the sum has wrapped. */
    method Mean() returns (m: real)
      requires Valid()
      ensures m == if count == 0 then 0.0 else sum as real / count as real
      ensures samples != [] && |samples| < WORD && Total(samples) < WORD
              ==> m == Total(samples) as real / |samples| as real && min as real <= m <= max as real
    {
      if count == 0 {
        return 0.0;
      }
      m := sum as real / count as real;
      if |samples| < WORD && Total(samples) < WORD {
        assert sum == Total(samples) && count == |samples|;
        MeanBounds(samples);
      }
    }

    /** `min()`: the least sample, or 0 if there is none. */
    method MinValue() returns (m: u64)
      requires Valid()
      ensures count == 0 ==> m == 0
      ensures samples != [] && |samples| < WORD ==> m in samples && forall x | x in samples :: m <= x
    {
      if samples != [] {
        ExtremesAttained(samples);
      }
      return if count != 0 then min else 0;
    }

    /** `max()`: the greatest sample, or 0 if there is none. */
    method MaxValue() returns (m: u64)
      requires Valid()
      ensures samples == [] ==> m == 0
      ensures samples != [] ==> m in samples && forall x | x in samples :: x <= m
    {
      if samples != [] {
        ExtremesAttained(samples);
      }
      return max;
    }

    /** The two fields hold samples that bound all the others. */
    lemma ExtremesAreSamples()
      requires Valid() && samples != []
      ensures min in samples && max in samples && forall x | x in samples :: min <= x <= max
    {
      ExtremesAttained(samples);
    }

    lemma {:induction false} CountsUpTo(i: nat)
      requires Valid() && |samples| < WORD && i <= buckets
      ensures forall k | 0 <= k < i :: counts[k] == CountIn(buckets, samples, k)
      ensures Total(counts[..i]) == CountBelow(buckets, samples, i)
    {
      CountEnds(buckets, samples);
      if i > 0 {
        CountsUpTo(i - 1);
        CountAdds(buckets, samples, i - 1);
        assert counts[..i][..i - 1] == counts[..i - 1];
        assert counts[i - 1] == Counted(buckets, samples)[i - 1];
      }
    }

    /** Each bucket counts exactly the samples of its range, and the buckets add up to the count. */
    lemma CountsConserved()
      requires Valid() && |samples| < WORD
      ensures forall i | 0 <= i < buckets :: counts[i] == CountInRange(buckets, samples, i)
      ensures Total(counts[..]) == count == |samples|
    {
      CountsUpTo(buckets);
      forall i | 0 <= i < buckets ensures counts[i] == CountInRange(buckets, samples, i) {
        CountInIsInRange(buckets, samples, i);
      }
      CountEnds(buckets, samples);
      assert counts[..] == counts[..buckets];
    }
  }

  /** The whole state depends on the multiset of the samples alone: recording them in any other
      order gives the same histogram. */
  lemma OrderIndependent(h: HdrLatencyHistogram, g: HdrLatencyHistogram)
    requires h.Valid() && g.Valid() && h.buckets == g.buckets
    requires multiset(h.samples) == multiset(g.samples)
    ensures h.count == g.count && h.sum == g.sum && h.min == g.min && h.max == g.max
    ensures h.counts[..] == g.counts[..]
  {
    DigestOfPermutation(h.buckets, h.samples, g.samples, 0);
    forall i | 0 <= i < h.buckets ensures h.counts[i] == g.counts[i] {
      DigestOfPermutation(h.buckets, h.samples, g.samples, i);
      DigestOfPermutation(h.buckets, h.samples, g.samples, i + 1);
      CountAdds(h.buckets, h.samples, i);
      CountAdds(h.buckets, g.samples, i);
    }
  }
}
