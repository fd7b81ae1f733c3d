/** `ll::sbe::TickMsg`, the hand-written packed struct, and when its bytes agree with the
    generated codec's. */
module SbeStyle {
  import opened Bytes
  import opened Options
  import opened SbeWire

  const MSG_BYTES := 16

  datatype TickMsg = TickMsg(instrumentId: u32, priceTicks: i32, qty: u32, seqNo: u32)

  /** The struct in memory: its fields in order, without padding, in the host's byte order. */
  function Image(host: Host, m: TickMsg): (bs: seq<byte>)
    ensures |bs| == MSG_BYTES
  {
    ToMemory(host, m.instrumentId, 4) + ToMemory(host, ToBits(m.priceTicks), 4)
    + ToMemory(host, m.qty, 4) + ToMemory(host, m.seqNo, 4)
  }

  method Encode(host: Host, dst: array<byte>, m: TickMsg) returns (ok: bool)
    modifies dst
    ensures ok <==> dst.Length >= MSG_BYTES
    ensures dst[..] == if ok then Image(host, m) + old(dst[MSG_BYTES..]) else old(dst[..])
  {
    if dst.Length < MSG_BYTES {
      return false;
    }
    Copy(dst, 0, Image(host, m));
    return true;
  }

  /** `memcpy` into a struct: the value whose memory image is the source's first 16 bytes. */
  function FromImage(host: Host, s: seq<byte>): TickMsg
    requires |s| >= MSG_BYTES
  {
    TickMsg(Load(host, s[0..4]), FromBits(Load(host, s[4..8])), Load(host, s[8..12]), Load(host, s[12..16]))
  }

  function Load(host: Host, bs: seq<byte>): u32
    requires |bs| == 4
  {
    ToFromLe(bs);
    ToFromLe(Reverse(bs));
    ValuesOfWidths();
    FromMemory(host, bs)
  }

  method DecodeCopy(host: Host, src: array<byte>) returns (r: Option<TickMsg>)
    ensures r.Some? <==> src.Length >= MSG_BYTES
    ensures r.Some? ==> Image(host, r.value) == src[..MSG_BYTES]
  {
    if src.Length < MSG_BYTES {
      return None;
    }
    ImageRoundTrip(host, src[..MSG_BYTES]);
    return Some(FromImage(host, src[..MSG_BYTES]));
  }

  lemma StoreLoad(host: Host, bs: seq<byte>)
    requires |bs| == 4
    ensures ToMemory(host, Load(host, bs), 4) == bs
  {
    ToFromLe(bs);
    ToFromLe(Reverse(bs));
    ReverseTwice(bs);
  }

  lemma ImageRoundTrip(host: Host, s: seq<byte>)
    requires |s| == MSG_BYTES
    ensures Image(host, FromImage(host, s)) == s
  {
    StoreLoad(host, s[0..4]);
    StoreLoad(host, s[4..8]);
    StoreLoad(host, s[8..12]);
    StoreLoad(host, s[12..16]);
    BitsRoundTrip(Load(host, s[4..8]));
    assert s == s[0..4] + s[4..8] + s[8..12] + s[12..16];
  }

  /** Different structs have different images. */
  lemma ImageInjective(host: Host, m: TickMsg, m': TickMsg)
    requires Image(host, m) == Image(host, m')
    ensures m == m'
  {
    FourParts(ToMemory(host, m.instrumentId, 4), ToMemory(host, ToBits(m.priceTicks), 4),
              ToMemory(host, m.qty, 4), ToMemory(host, m.seqNo, 4),
              ToMemory(host, m'.instrumentId, 4), ToMemory(host, ToBits(m'.priceTicks), 4),
              ToMemory(host, m'.qty, 4), ToMemory(host, m'.seqNo, 4));
    MemoryInjective(host, m.instrumentId, m'.instrumentId);
    MemoryInjective(host, ToBits(m.priceTicks), ToBits(m'.priceTicks));
    MemoryInjective(host, m.qty, m'.qty);
    MemoryInjective(host, m.seqNo, m'.seqNo);
    TwosComplement(m.priceTicks);
    TwosComplement(m'.priceTicks);
  }

  lemma MemoryInjective(host: Host, a: u32, b: u32)
    requires ToMemory(host, a, 4) == ToMemory(host, b, 4)
    ensures a == b
  {
    ValuesOfWidths();
    ReverseTwice(ToLe(a, 4));
    ReverseTwice(ToLe(b, 4));
    FromToLe(a, 4);
    FromToLe(b, 4);
  }

  function Truncated(v: TickValues): TickMsg {
    TickMsg(v.instrumentId, v.priceTicks, v.qty, v.seqNo)
  }

  /** The value reads the same from either end, byte by byte. */
  predicate Palindrome(v: nat, w: nat) {
    Reverse(ToLe(v, w)) == ToLe(v, w)
  }

  /** The struct's image is bytes 8..24 of the generated encoding on a little-endian host, and on
      a big-endian host only of the ticks whose fields are byte palindromes. */
  lemma LayoutAgrees(host: Host, v: TickValues)
    ensures Image(host, Truncated(v)) == Wire(v)[8..24]
            <==> host.LittleEndian?
                 || (Palindrome(v.instrumentId, 4) && Palindrome(ToBits(v.priceTicks), 4)
                     && Palindrome(v.qty, 4) && Palindrome(v.seqNo, 4))
  {
    var b := Body(v);
    assert Wire(v)[8..24] == b[0..16];
    assert b[0..16] == ToLe(v.instrumentId, 4) + ToLe(ToBits(v.priceTicks), 4) + ToLe(v.qty, 4) + ToLe(v.seqNo, 4);
    FourParts(ToMemory(host, v.instrumentId, 4), ToMemory(host, ToBits(v.priceTicks), 4),
              ToMemory(host, v.qty, 4), ToMemory(host, v.seqNo, 4),
              ToLe(v.instrumentId, 4), ToLe(ToBits(v.priceTicks), 4), ToLe(v.qty, 4), ToLe(v.seqNo, 4));
  }

  lemma FourParts(a: seq<byte>, b: seq<byte>, c: seq<byte>, d: seq<byte>,
                  a': seq<byte>, b': seq<byte>, c': seq<byte>, d': seq<byte>)
    requires |a| == |b| == |c| == |d| == 4 && |a'| == |b'| == |c'| == |d'| == 4
    ensures a + b + c + d == a' + b' + c' + d' <==> a == a' && b == b' && c == c' && d == d'
  {
    var s, t := a + b + c + d, a' + b' + c' + d';
    assert s[0..4] == a && s[4..8] == b && s[8..12] == c && s[12..16] == d;
    assert t[0..4] == a' && t[4..8] == b' && t[8..12] == c' && t[12..16] == d';
  }
}
