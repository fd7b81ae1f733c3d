/** The wire format of `market.sbe.Tick`: FIX Simple Binary Encoding 1.0, a message header
    (section 3) and a fixed-length body, read under the schema extension rules (section 5). */
module SbeWire {
  import opened Bits
  import opened Bytes

  const HEADER_LENGTH := 8
  const BLOCK_LENGTH := 24
  const TEMPLATE_ID := 1
  const SCHEMA_ID := 77
  const SCHEMA_VERSION := 0
  const WIRE_LENGTH := 32

  datatype TickValues = TickValues(instrumentId: u32, priceTicks: i32, qty: u32, seqNo: u32, tsNs: u64)

  /** What a decode does: fill in the values and return true, return false, or throw. */
  datatype Decoded = Tick(values: TickValues) | False | Throws

  function Header(blockLength: u16, templateId: u16, schemaId: u16, version: u16): (bs: seq<byte>)
    ensures |bs| == HEADER_LENGTH
  {
    ToLe(blockLength, 2) + ToLe(templateId, 2) + ToLe(schemaId, 2) + ToLe(version, 2)
  }

  function Body(v: TickValues): (bs: seq<byte>)
    ensures |bs| == BLOCK_LENGTH
  {
    ToLe(v.instrumentId, 4) + ToLe(ToBits(v.priceTicks), 4) + ToLe(v.qty, 4) + ToLe(v.seqNo, 4) + ToLe(v.tsNs, 8)
  }

  function Wire(v: TickValues): (bs: seq<byte>)
    ensures |bs| == WIRE_LENGTH
  {
    Header(BLOCK_LENGTH, TEMPLATE_ID, SCHEMA_ID, SCHEMA_VERSION) + Body(v)
  }

  // The bytes on the wire.

  /** The header of every encoding: block length 24, template 1, schema 77, version 0. */
  lemma WireHeader(v: TickValues)
    ensures Wire(v)[..8] == [24, 0, 1, 0, 77, 0, 0, 0]
  {
    assert ToLe(24, 2) == [24, 0] && ToLe(1, 2) == [1, 0] && ToLe(77, 2) == [77, 0] && ToLe(0, 2) == [0, 0];
  }

  /** The body of every encoding: where each field starts, and its bytes as digits in base 256. */
  lemma WireDigits(v: TickValues, k: nat)
    requires k < 8
    ensures k < 4 ==>
              && Wire(v)[8 + k] == Digit(v.instrumentId, k)
              && Wire(v)[12 + k] == Digit(v.priceTicks % 0x1_0000_0000, k)
              && Wire(v)[16 + k] == Digit(v.qty, k)
              && Wire(v)[20 + k] == Digit(v.seqNo, k)
    ensures Wire(v)[24 + k] == Digit(v.tsNs, k)
  {
    var b := Body(v);
    assert forall i | 0 <= i < 24 :: Wire(v)[8 + i] == b[i];
    ToLeDigit(v.tsNs, 8, k);
    assert b[16 + k] == ToLe(v.tsNs, 8)[k];
    if k < 4 {
      TwosComplement(v.priceTicks);
      ToLeDigit(v.instrumentId, 4, k);
      ToLeDigit(ToBits(v.priceTicks), 4, k);
      ToLeDigit(v.qty, 4, k);
      ToLeDigit(v.seqNo, 4, k);
      assert b[k] == ToLe(v.instrumentId, 4)[k] && b[4 + k] == ToLe(ToBits(v.priceTicks), 4)[k];
      assert b[8 + k] == ToLe(v.qty, 4)[k] && b[12 + k] == ToLe(v.seqNo, 4)[k];
    }
  }

  // Reading.

  function U16At(s: seq<byte>, at: nat): u16
    requires at + 2 <= |s|
  {
    ToFromLe(s[at..at + 2]);
    ValuesOfWidths();
    FromLe(s[at..at + 2])
  }

  function U32At(s: seq<byte>, at: nat): u32
    requires at + 4 <= |s|
  {
    ToFromLe(s[at..at + 4]);
    ValuesOfWidths();
    FromLe(s[at..at + 4])
  }

  function U64At(s: seq<byte>, at: nat): u64
    requires at + 8 <= |s|
  {
    ToFromLe(s[at..at + 8]);
    ValuesOfWidths();
    FromLe(s[at..at + 8])
  }

  function ValuesAt(s: seq<byte>, at: nat): TickValues
    requires at + BLOCK_LENGTH <= |s|
  {
    TickValues(U32At(s, at), FromBits(U32At(s, at + 4)), U32At(s, at + 8), U32At(s, at + 12), U64At(s, at + 16))
  }

  predicate IsTick(s: seq<byte>)
    requires |s| >= HEADER_LENGTH
  {
    U16At(s, 4) == SCHEMA_ID && U16At(s, 2) == TEMPLATE_ID
  }

  /** The getters do not look at the acting block length: for a message whose block fits in the
      span, the buffer must hold the five fields, whatever shorter length it claims. */
  predicate SpanReadable(s: seq<byte>, size: nat)
    requires size <= |s|
  {
    size >= HEADER_LENGTH && IsTick(s) && HEADER_LENGTH + U16At(s, 0) <= size ==> |s| >= WIRE_LENGTH
  }

  /** What `decode_tick` makes of the first `size` bytes of the buffer `s`. */
  function DecodeSpan(s: seq<byte>, size: nat): Decoded
    requires size <= |s| && SpanReadable(s, size)
  {
    if size < HEADER_LENGTH || !IsTick(s) then False
    else if HEADER_LENGTH + U16At(s, 0) > size then Throws
    else Tick(ValuesAt(s, HEADER_LENGTH))
  }

  predicate Readable(s: seq<byte>) {
    SpanReadable(s, |s|)
  }

  function Decode(s: seq<byte>): Decoded
    requires Readable(s)
  {
    DecodeSpan(s, |s|)
  }

  lemma HeaderFields(b: u16, t: u16, c: u16, v: u16, rest: seq<byte>)
    ensures var s := Header(b, t, c, v) + rest;
            U16At(s, 0) == b && U16At(s, 2) == t && U16At(s, 4) == c && U16At(s, 6) == v
  {
    var s := Header(b, t, c, v) + rest;
    ValuesOfWidths();
    FromToLe(b, 2);
    FromToLe(t, 2);
    FromToLe(c, 2);
    FromToLe(v, 2);
    assert s[0..2] == ToLe(b, 2);
    assert s[2..4] == ToLe(t, 2);
    assert s[4..6] == ToLe(c, 2);
    assert s[6..8] == ToLe(v, 2);
  }

  lemma BodyFields(front: seq<byte>, v: TickValues, rest: seq<byte>)
    ensures ValuesAt(front + Body(v) + rest, |front|) == v
  {
    var s, at := front + Body(v) + rest, |front|;
    ValuesOfWidths();
    FromToLe(v.instrumentId, 4);
    FromToLe(ToBits(v.priceTicks), 4);
    FromToLe(v.qty, 4);
    FromToLe(v.seqNo, 4);
    FromToLe(v.tsNs, 8);
    assert s[at..at + 4] == ToLe(v.instrumentId, 4);
    assert s[at + 4..at + 4 + 4] == ToLe(ToBits(v.priceTicks), 4);
    assert s[at + 8..at + 8 + 4] == ToLe(v.qty, 4);
    assert s[at + 12..at + 12 + 4] == ToLe(v.seqNo, 4);
    assert s[at + 16..at + 16 + 8] == ToLe(v.tsNs, 8);
  }

  lemma BitsRoundTrip(u: u32)
    ensures ToBits(FromBits(u)) == u
  {
  }

  lemma FieldBytes(s: seq<byte>, at: nat, k: nat, w: nat)
    requires at + BLOCK_LENGTH <= |s| && k + w <= BLOCK_LENGTH
    ensures ToLe(FromLe(s[at + k..at + k + w]), w) == s[at..at + BLOCK_LENGTH][k..k + w]
  {
    ToFromLe(s[at + k..at + k + w]);
    SubRange(s, at, at + BLOCK_LENGTH, k, w);
  }

  lemma FiveParts(s: seq<byte>)
    requires |s| == BLOCK_LENGTH
    ensures s == s[0..4] + s[4..8] + s[8..12] + s[12..16] + s[16..24]
  {
  }

  /** The body bytes are determined by the values read from them. */
  lemma BodyOfFields(s: seq<byte>, at: nat)
    requires at + BLOCK_LENGTH <= |s|
    ensures Body(ValuesAt(s, at)) == s[at..at + BLOCK_LENGTH]
  {
    FieldBytes(s, at, 0, 4);
    FieldBytes(s, at, 4, 4);
    FieldBytes(s, at, 8, 4);
    FieldBytes(s, at, 12, 4);
    FieldBytes(s, at, 16, 8);
    BitsRoundTrip(U32At(s, at + 4));
    FiveParts(s[at..at + BLOCK_LENGTH]);
  }

  lemma HeaderOfFields(s: seq<byte>)
    requires |s| >= HEADER_LENGTH
    ensures Header(U16At(s, 0), U16At(s, 2), U16At(s, 4), U16At(s, 6)) == s[..HEADER_LENGTH]
  {
    ToFromLe(s[0..2]);
    ToFromLe(s[2..4]);
    ToFromLe(s[4..6]);
    ToFromLe(s[6..8]);
    assert s[..8] == s[0..2] + s[2..4] + s[4..6] + s[6..8];
  }

  /** Schema extension: a message of any version, whatever length its header claims for the block,
      decodes to the same five fields once all of that block has arrived, and throws before. */
  lemma DecodeExtended(blockLength: u16, version: u16, v: TickValues, rest: seq<byte>)
    ensures var s := Header(blockLength, TEMPLATE_ID, SCHEMA_ID, version) + Body(v) + rest;
            && Readable(s)
            && Decode(s) == if BLOCK_LENGTH + |rest| >= blockLength then Tick(v) else Throws
  {
    var front := Header(blockLength, TEMPLATE_ID, SCHEMA_ID, version);
    HeaderFields(blockLength, TEMPLATE_ID, SCHEMA_ID, version, Body(v) + rest);
    assert front + Body(v) + rest == front + (Body(v) + rest);
    BodyFields(front, v, rest);
  }

  /** Decoding an encoding, followed by anything, gives back the values. */
  lemma DecodeEncode(v: TickValues, rest: seq<byte>)
    ensures Readable(Wire(v) + rest) && Decode(Wire(v) + rest) == Tick(v)
  {
    DecodeExtended(BLOCK_LENGTH, SCHEMA_VERSION, v, rest);
  }

  /** A peer's message, header bytes spelled out, is accepted. */
  lemma PeerMessage(v: TickValues, rest: seq<byte>)
    ensures var s := [24, 0, 1, 0, 77, 0, 0, 0] + Body(v) + rest;
            Readable(s) && Decode(s) == Tick(v)
  {
    WireHeader(v);
    assert Wire(v)[..8] + Body(v) == Wire(v);
    DecodeEncode(v, rest);
  }

  /** A message with our own header decodes to `v` exactly when its first 32 bytes are the
      encoding of `v`. */
  lemma EncodeDecode(s: seq<byte>, v: TickValues)
    requires |s| >= WIRE_LENGTH
    requires U16At(s, 0) == BLOCK_LENGTH && U16At(s, 2) == TEMPLATE_ID
    requires U16At(s, 4) == SCHEMA_ID && U16At(s, 6) == SCHEMA_VERSION
    ensures Decode(s) == Tick(v) <==> Wire(v) == s[..WIRE_LENGTH]
  {
    HeaderOfFields(s);
    BodyOfFields(s, HEADER_LENGTH);
    assert s[..WIRE_LENGTH] == s[..HEADER_LENGTH] + s[HEADER_LENGTH..WIRE_LENGTH];
    if Wire(v) == s[..WIRE_LENGTH] {
      DecodeEncode(v, s[WIRE_LENGTH..]);
      assert Wire(v) + s[WIRE_LENGTH..] == s;
    }
  }

  /** A truncated encoding never decodes: without its header it is refused, and without all of
      its body it throws. */
  lemma DecodeTruncated(v: TickValues, n: nat)
    requires n <= WIRE_LENGTH
    ensures var s := Wire(v)[..n];
            && Readable(s)
            && Decode(s) == if n < HEADER_LENGTH then False else if n < WIRE_LENGTH then Throws else Tick(v)
  {
    var s := Wire(v)[..n];
    if n == WIRE_LENGTH {
      DecodeEncode(v, []);
      assert s == Wire(v) + [];
    } else if n >= HEADER_LENGTH {
      HeaderFields(BLOCK_LENGTH, TEMPLATE_ID, SCHEMA_ID, SCHEMA_VERSION, Body(v)[..n - HEADER_LENGTH]);
      assert s == Header(BLOCK_LENGTH, TEMPLATE_ID, SCHEMA_ID, SCHEMA_VERSION) + Body(v)[..n - HEADER_LENGTH];
    }
  }

  /** Whatever follows the header, another schema or template is refused, and only that is. */
  lemma DecodeMismatch(blockLength: u16, templateId: u16, schemaId: u16, version: u16, rest: seq<byte>)
    requires Readable(Header(blockLength, templateId, schemaId, version) + rest)
    ensures Decode(Header(blockLength, templateId, schemaId, version) + rest) == False
            <==> schemaId != 77 || templateId != 1
  {
    HeaderFields(blockLength, templateId, schemaId, version, rest);
  }

  /** Reading the front of a span is reading the span. */
  lemma Prefix(s: seq<byte>, size: nat)
    requires HEADER_LENGTH <= size <= |s|
    ensures forall at | 0 <= at <= 6 :: U16At(s[..size], at) == U16At(s, at)
    ensures size >= WIRE_LENGTH ==> ValuesAt(s[..size], HEADER_LENGTH) == ValuesAt(s, HEADER_LENGTH)
  {
    forall at | 0 <= at <= 6 ensures U16At(s[..size], at) == U16At(s, at) {
      assert s[..size][at..at + 2] == s[at..at + 2];
    }
    if size >= WIRE_LENGTH {
      assert s[..size][8..12] == s[8..12] && s[..size][12..16] == s[12..16] && s[..size][16..20] == s[16..20];
      assert s[..size][20..24] == s[20..24] && s[..size][24..32] == s[24..32];
    }
  }

  lemma DecodePrefix(s: seq<byte>, size: nat)
    requires size <= |s| && Readable(s[..size])
    ensures SpanReadable(s, size) && DecodeSpan(s, size) == Decode(s[..size])
  {
    if size >= HEADER_LENGTH {
      Prefix(s, size);
    }
  }

  /** The outcome depends on the bytes of the span alone exactly if the span does not end between
      the block its header claims and the end of the five fields. */
  lemma DecodeStaysInSpan(s: seq<byte>, size: nat)
    requires size <= |s| && SpanReadable(s, size)
    ensures (forall t: seq<byte> | |t| == |s| && t[..size] == s[..size] ::
               SpanReadable(t, size) && DecodeSpan(t, size) == DecodeSpan(s, size))
            <==> Readable(s[..size])
  {
    if Readable(s[..size]) {
      forall t: seq<byte> | |t| == |s| && t[..size] == s[..size]
        ensures SpanReadable(t, size) && DecodeSpan(t, size) == DecodeSpan(s, size)
      {
        DecodePrefix(s, size);
        DecodePrefix(t, size);
      }
    } else {
      Prefix(s, size);
      var last := WIRE_LENGTH - 1;
      var t := s[last := if s[last] == 0 then 1 else 0];
      assert t[..size] == s[..size];
      Prefix(t, size);
      BodyOfFields(s, HEADER_LENGTH);
      BodyOfFields(t, HEADER_LENGTH);
      assert s[HEADER_LENGTH..WIRE_LENGTH][23] != t[HEADER_LENGTH..WIRE_LENGTH][23];
    }
  }
}
