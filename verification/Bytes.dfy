/** Bytes in memory, host byte orders, and the byte swaps that undo them. */
module Bytes {
  import opened Bits

  type byte = x: nat | x < 0x100
  type u16 = x: nat | x < 0x1_0000
  type u32 = x: nat | x < 0x1_0000_0000
  type i32 = x: int | -0x8000_0000 <= x < 0x8000_0000

  /** 256^w: how many values w bytes hold. */
  function Values(w: nat): (n: nat)
    ensures n >= 1
  {
    if w == 0 then 1 else 0x100 * Values(w - 1)
  }

  lemma ValuesOfWidths()
    ensures Values(2) == 0x1_0000 && Values(4) == 0x1_0000_0000 && Values(8) == WORD
  {
    assert Values(4) == 0x100 * (0x100 * Values(2));
    assert Values(8) == 0x100 * (0x100 * Values(6));
    assert Values(6) == 0x100 * (0x100 * Values(4));
  }

  /** The `w` bytes of `v`, least significant first. */
  function ToLe(v: nat, w: nat): (bs: seq<byte>)
    ensures |bs| == w
  {
    if w == 0 then [] else [v % 0x100] + ToLe(v / 0x100, w - 1)
  }

  lemma DivDiv(v: nat, a: nat, b: nat)
    requires a >= 1 && b >= 1
    ensures a * b >= 1 && v / a / b == v / (a * b)
  {
    MulAtLeast(b, a);
    var q, r := v / a, v % a;
    assert v == q * a + r && q == q / b * b + q % b;
    assert q / b * b * a == q / b * (a * b);
    MulAtLeast(b - q % b, a);
    assert (b - q % b) * a == a * b - q % b * a;
    DivModUnique(v, a * b, q / b, q % b * a + r);
  }

  /** The k-th digit of a number in base 256. */
  ghost function Digit(v: nat, k: nat): byte {
    if k == 0 then v % 0x100 else Digit(v / 0x100, k - 1)
  }

  lemma {:induction false} DigitIsQuotient(v: nat, k: nat)
    ensures Digit(v, k) == v / Values(k) % 0x100
  {
    if k > 0 {
      DigitIsQuotient(v / 0x100, k - 1);
      DivDiv(v, 0x100, Values(k - 1));
    }
  }

  /** The k-th byte is the k-th digit of the value. */
  lemma {:induction false} ToLeDigit(v: nat, w: nat, k: nat)
    requires k < w
    ensures ToLe(v, w)[k] == Digit(v, k)
  {
    if k > 0 {
      ToLeDigit(v / 0x100, w - 1, k - 1);
    }
  }

  function FromLe(bs: seq<byte>): nat {
    if bs == [] then 0 else bs[0] + 0x100 * FromLe(bs[1..])
  }

  function Reverse(bs: seq<byte>): (r: seq<byte>)
    ensures |r| == |bs| && forall k | 0 <= k < |bs| :: r[k] == bs[|bs| - 1 - k]
  {
    if bs == [] then [] else Reverse(bs[1..]) + [bs[0]]
  }

  lemma {:induction false} FromToLe(v: nat, w: nat)
    requires v < Values(w)
    ensures FromLe(ToLe(v, w)) == v
  {
    if w > 0 {
      FromToLe(v / 0x100, w - 1);
      assert ToLe(v, w)[1..] == ToLe(v / 0x100, w - 1);
    }
  }

  lemma {:induction false} ToFromLe(bs: seq<byte>)
    ensures FromLe(bs) < Values(|bs|) && ToLe(FromLe(bs), |bs|) == bs
  {
    if bs != [] {
      ToFromLe(bs[1..]);
      LowByte(bs[0], FromLe(bs[1..]));
      assert [bs[0]] + bs[1..] == bs;
    }
  }

  lemma LowByte(b: byte, q: nat)
    ensures (b + 0x100 * q) % 0x100 == b && (b + 0x100 * q) / 0x100 == q
  {
  }

  lemma ReverseTwice(bs: seq<byte>)
    ensures Reverse(Reverse(bs)) == bs
  {
  }

  datatype Host = LittleEndian | BigEndian

  /** How the host lays out a `w`-byte unsigned integer in memory, and reads it back. */
  function ToMemory(host: Host, v: nat, w: nat): (bs: seq<byte>)
    ensures |bs| == w
  {
    if host.LittleEndian? then ToLe(v, w) else Reverse(ToLe(v, w))
  }

  function FromMemory(host: Host, bs: seq<byte>): nat {
    if host.LittleEndian? then FromLe(bs) else FromLe(Reverse(bs))
  }

  /** In memory the digits stand in order on a little-endian host, and in reverse on the other. */
  lemma MemoryDigit(host: Host, v: nat, w: nat, k: nat)
    requires k < w
    ensures ToMemory(host, v, w)[k] == Digit(v, if host.LittleEndian? then k else w - 1 - k)
  {
    ToLeDigit(v, w, if host.LittleEndian? then k else w - 1 - k);
  }

  /** `__builtin_bswap`. */
  function Bswap(v: nat, w: nat): nat {
    FromLe(Reverse(ToLe(v, w)))
  }

  /** `SBE_LITTLE_ENDIAN_ENCODE`: the identity or a byte swap, depending on the host. */
  function LittleEndianEncode(host: Host, v: nat, w: nat): nat {
    if host.LittleEndian? then v else Bswap(v, w)
  }

  /** Encoding and storing leaves the little-endian bytes in memory, on either host. */
  lemma StoreIsLittleEndian(host: Host, v: nat, w: nat)
    ensures ToMemory(host, LittleEndianEncode(host, v, w), w) == ToLe(v, w)
  {
    if host.BigEndian? {
      ToFromLe(Reverse(ToLe(v, w)));
      ReverseTwice(ToLe(v, w));
    }
  }

  /** Loading and decoding reads the little-endian bytes, on either host. */
  lemma LoadIsLittleEndian(host: Host, bs: seq<byte>)
    ensures LittleEndianEncode(host, FromMemory(host, bs), |bs|) == FromLe(bs)
  {
    if host.BigEndian? {
      ToFromLe(Reverse(bs));
      ReverseTwice(bs);
    }
  }

  /** The two's complement bits of an `int32_t`, and back. */
  function ToBits(i: i32): u32 {
    if i < 0 then i + 0x1_0000_0000 else i
  }

  function FromBits(u: u32): i32 {
    if u < 0x8000_0000 then u else u - 0x1_0000_0000
  }

  /** The bits are the value modulo 2^32, and determine it. */
  lemma TwosComplement(i: i32)
    ensures ToBits(i) == i % 0x1_0000_0000 && FromBits(ToBits(i)) == i
  {
    DivModUnique(i, 0x1_0000_0000, if i < 0 then -1 else 0, ToBits(i));
  }

  /** `s` with the bytes from `at` on overwritten by `bs`. */
  function Splice(s: seq<byte>, at: nat, bs: seq<byte>): (r: seq<byte>)
    requires at + |bs| <= |s|
    ensures |r| == |s|
  {
    s[..at] + bs + s[at + |bs|..]
  }

  lemma SubRange(s: seq<byte>, lo: nat, hi: nat, k: nat, w: nat)
    requires lo <= hi <= |s| && k + w <= hi - lo
    ensures s[lo..hi][k..k + w] == s[lo + k..lo + k + w]
  {
    var a, b := s[lo..hi][k..k + w], s[lo + k..lo + k + w];
    assert |a| == |b| == w;
    forall i | 0 <= i < w ensures a[i] == b[i] {
      assert a[i] == s[lo..hi][k + i] == s[lo + k + i];
    }
  }

  /** `memcpy` into a buffer. */
  method Copy(dst: array<byte>, at: nat, src: seq<byte>)
    requires at + |src| <= dst.Length
    modifies dst
    ensures dst[..] == Splice(old(dst[..]), at, src)
  {
    forall i | 0 <= i < |src| {
      dst[at + i] := src[i];
    }
  }
}
