/** Bit operations of unsigned machine words, defined bit by bit on the naturals,
    and the arithmetic they compute when an operand is a power of two. */
module Bits {

  const WORD: nat := 0x1_0000_0000_0000_0000

  type u64 = x: nat | x < WORD

  /** The 64-bit word a number wraps to. */
  function Wrap(n: nat): u64 {
    if n < WORD then n else Wrap(n - WORD)
  }

  lemma {:induction false} WrapIsModulo(n: nat)
    ensures Wrap(n) == n % WORD
  {
    if n >= WORD {
      WrapIsModulo(n - WORD);
    }
  }

  lemma {:induction false} WrapAdd(a: nat, b: nat)
    ensures Wrap(Wrap(a) + b) == Wrap(a + b)
  {
    if a >= WORD {
      WrapAdd(a - WORD, b);
    }
  }

  function Pow2(k: nat): (p: nat)
    ensures p >= 1
  {
    if k == 0 then 1 else 2 * Pow2(k - 1)
  }

  /** Bitwise `x & y`. */
  function And(x: nat, y: nat): nat
    decreases x
  {
    if x == 0 || y == 0 then 0 else 2 * And(x / 2, y / 2) + (x % 2) * (y % 2)
  }

  /** Bitwise `~x` on a 64-bit word. */
  function Not64(x: u64): u64 {
    WORD - 1 - x
  }

  /** Length of `v` in binary, without leading zeros. */
  function BitLength(v: nat): nat {
    if v == 0 then 0 else 1 + BitLength(v / 2)
  }

  /** Leading zeros of a 64-bit word. */
  function LeadingZeros(v: u64): int {
    64 - BitLength(v)
  }

  ghost predicate IsPowerOfTwo(c: nat) {
    exists k: nat :: c == Pow2(k)
  }

  lemma ModHalves(x: nat, p: nat)
    requires p >= 1
    ensures x % (2 * p) == 2 * ((x / 2) % p) + x % 2
  {
    var q, r := (x / 2) / p, (x / 2) % p;
    assert x / 2 == q * p + r;
    assert x == 2 * (x / 2) + x % 2;
    assert x == q * (2 * p) + (2 * r + x % 2) by {
      assert 2 * (q * p) == q * (2 * p);
    }
    DivModUnique(x, 2 * p, q, 2 * r + x % 2);
  }

  lemma DivModUnique(x: int, d: int, q: int, r: int)
    requires d > 0 && x == q * d + r && 0 <= r < d
    ensures x / d == q && x % d == r
  {
    var q', r' := x / d, x % d;
    MulAtLeast(q - q', d);
    MulAtLeast(q' - q, d);
    assert (q - q') * d == q * d - q' * d && (q' - q) * d == q' * d - q * d;
  }

  lemma MulAtLeast(a: int, d: int)
    requires d > 0
    ensures a >= 1 ==> a * d >= d
  {
  }

  lemma Pow2Monotone(j: nat, k: nat)
    requires j <= k
    ensures Pow2(j) <= Pow2(k)
  {
    if j < k {
      Pow2Monotone(j, k - 1);
    }
  }

  lemma {:induction false} Pow2Add(j: nat, k: nat)
    ensures Pow2(j + k) == Pow2(j) * Pow2(k)
  {
    if j > 0 {
      Pow2Add(j - 1, k);
      assert 2 * (Pow2(j - 1) * Pow2(k)) == 2 * Pow2(j - 1) * Pow2(k);
    }
  }

  lemma Pow2Of64()
    ensures Pow2(64) == WORD
  {
    assert Pow2(4) == 16 by { Pow2Add(2, 2); }
    Pow2Add(4, 4);
    Pow2Add(8, 8);
    Pow2Add(16, 16);
    Pow2Add(32, 32);
  }

  /** Masking with 2^k - 1 is reduction modulo 2^k. */
  lemma {:induction false} AndMask(x: nat, k: nat)
    ensures And(x, Pow2(k) - 1) == x % Pow2(k)
  {
    if k > 0 {
      var m := Pow2(k - 1) - 1;
      AndMask(x / 2, k - 1);
      ModHalves(x, Pow2(k - 1));
      assert (2 * m + 1) / 2 == m && (2 * m + 1) % 2 == 1;
    }
  }

  lemma AndEven(x: nat, h: nat)
    ensures And(x, 2 * h) == 2 * And(x / 2, h)
  {
    assert (2 * h) / 2 == h && (2 * h) % 2 == 0;
  }

  /** Masking with the complement of 2^k - 1 rounds down to a multiple of 2^k. */
  lemma {:induction false} AndHighMask(x: nat, k: nat, w: nat)
    requires k <= w && x < Pow2(w)
    ensures Pow2(k) <= Pow2(w)
    ensures And(x, Pow2(w) - Pow2(k)) == x - x % Pow2(k)
  {
    Pow2Monotone(k, w);
    if k == 0 {
      AndMask(x, w);
      DivModUnique(x, Pow2(w), 0, x);
    } else {
      AndHighMask(x / 2, k - 1, w - 1);
      ModHalves(x, Pow2(k - 1));
      AndEven(x, Pow2(w - 1) - Pow2(k - 1));
    }
  }

  lemma {:induction false} AndSelf(x: nat)
    ensures And(x, x) == x
  {
    if x > 0 {
      AndSelf(x / 2);
    }
  }

  lemma OddPow2(k: nat)
    ensures Pow2(k) % 2 == 1 ==> k == 0
  {
  }

  /** The test `c & (c - 1) == 0` accepts exactly the powers of two. */
  lemma {:induction false} PowerOfTwoTest(c: nat)
    requires c >= 1
    ensures And(c, c - 1) == 0 <==> IsPowerOfTwo(c)
  {
    if c == 1 {
      assert c == Pow2(0);
    } else if c % 2 == 1 {
      assert (c - 1) / 2 == c / 2;
      AndSelf(c / 2);
      forall k: nat ensures c != Pow2(k) {
        OddPow2(k);
      }
    } else {
      assert (c - 1) / 2 == c / 2 - 1 && c % 2 == 0;
      PowerOfTwoTest(c / 2);
      if k: nat :| c / 2 == Pow2(k) {
        assert c == Pow2(k + 1);
      }
      if k: nat :| c == Pow2(k) {
        assert c / 2 == Pow2(k - 1);
      }
    }
  }

  /** A number's length brackets it between two consecutive powers of two. */
  lemma {:induction false} BitLengthBracket(v: nat)
    requires v >= 1
    ensures BitLength(v) >= 1 && Pow2(BitLength(v) - 1) <= v < Pow2(BitLength(v))
  {
    if v > 1 {
      BitLengthBracket(v / 2);
    }
  }
}
