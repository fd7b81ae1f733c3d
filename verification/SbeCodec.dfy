/** The generated flyweights `MessageHeader` and `Tick`, and `ll::sbe_gen::encode_tick` and
    `decode_tick` on top of them. A thrown exception is the out-parameter `thrown`. */
module SbeCodec {
  import opened Bits
  import opened Bytes
  import opened SbeWire

  /** A setter: convert to little-endian, and memcpy the host's bytes into the buffer. */
  method Put(host: Host, buffer: array<byte>, at: nat, value: nat, w: nat)
    requires at + w <= buffer.Length
    modifies buffer
    ensures buffer[..] == Splice(old(buffer[..]), at, ToLe(value, w))
  {
    StoreIsLittleEndian(host, value, w);
    var val := LittleEndianEncode(host, value, w);
    Copy(buffer, at, ToMemory(host, val, w));
  }

  /** A getter: memcpy the bytes into a host integer, and convert it from little-endian. */
  method Get(host: Host, buffer: array<byte>, at: nat, w: nat) returns (value: nat)
    requires at + w <= buffer.Length
    ensures value == FromLe(buffer[at..at + w])
  {
    LoadIsLittleEndian(host, buffer[at..at + w]);
    var val := FromMemory(host, buffer[at..at + w]);
    value := LittleEndianEncode(host, val, w);
  }

  method GetU16(host: Host, buffer: array<byte>, at: nat) returns (value: u16)
    requires at + 2 <= buffer.Length
    ensures value == U16At(buffer[..], at)
  {
    assert buffer[..][at..at + 2] == buffer[at..at + 2];
    ghost var read := U16At(buffer[..], at);
    value := Get(host, buffer, at, 2);
  }

  method GetU32(host: Host, buffer: array<byte>, at: nat) returns (value: u32)
    requires at + 4 <= buffer.Length
    ensures value == U32At(buffer[..], at)
  {
    assert buffer[..][at..at + 4] == buffer[at..at + 4];
    ghost var read := U32At(buffer[..], at);
    value := Get(host, buffer, at, 4);
  }

  method GetU64(host: Host, buffer: array<byte>, at: nat) returns (value: u64)
    requires at + 8 <= buffer.Length
    ensures value == U64At(buffer[..], at)
  {
    assert buffer[..][at..at + 8] == buffer[at..at + 8];
    ghost var read := U64At(buffer[..], at);
    value := Get(host, buffer, at, 8);
  }

  class MessageHeader {
    const host: Host
    const buffer: array<byte>
    const offset: nat
    const bufferLength: nat
    const actingVersion: nat

    constructor (host: Host, buffer: array<byte>, offset: nat, bufferLength: nat, actingVersion: nat)
      ensures this.host == host && this.buffer == buffer && this.offset == offset
      ensures this.bufferLength == bufferLength && this.actingVersion == actingVersion
    {
      this.host, this.buffer, this.offset := host, buffer, offset;
      this.bufferLength, this.actingVersion := bufferLength, actingVersion;
    }

    /** The whole header lies in the buffer, as the setters need. */
    ghost predicate Fits() {
      offset + HEADER_LENGTH <= buffer.Length
    }

    /** The constructor's bounds check against the length the caller claims for the buffer: it
        throws exactly when the header does not fit that length. */
    method CheckBounds() returns (thrown: bool)
      requires offset + HEADER_LENGTH < WORD
      ensures thrown <==> offset + HEADER_LENGTH > bufferLength
      ensures !thrown && bufferLength <= buffer.Length ==> Fits()
    {
      thrown := offset + HEADER_LENGTH > bufferLength;
    }

    method SetBlockLength(value: u16)
      requires Fits()
      modifies buffer
      ensures buffer[..] == Splice(old(buffer[..]), offset, ToLe(value, 2))
    {
      Put(host, buffer, offset, value, 2);
    }

    method SetTemplateId(value: u16)
      requires Fits()
      modifies buffer
      ensures buffer[..] == Splice(old(buffer[..]), offset + 2, ToLe(value, 2))
    {
      Put(host, buffer, offset + 2, value, 2);
    }

    method SetSchemaId(value: u16)
      requires Fits()
      modifies buffer
      ensures buffer[..] == Splice(old(buffer[..]), offset + 4, ToLe(value, 2))
    {
      Put(host, buffer, offset + 4, value, 2);
    }

    method SetVersion(value: u16)
      requires Fits()
      modifies buffer
      ensures buffer[..] == Splice(old(buffer[..]), offset + 6, ToLe(value, 2))
    {
      Put(host, buffer, offset + 6, value, 2);
    }
  }

  /** Overwriting the bytes right behind what is already written extends it. */
  lemma SpliceExtends(s: seq<byte>, at: nat, written: seq<byte>, bs: seq<byte>)
    requires at + |written| + |bs| <= |s|
    ensures Splice(Splice(s, at, written), at + |written|, bs) == Splice(s, at, written + bs)
  {
  }

  class TickFlyweight {
    const host: Host
    var buffer: array<byte>
    var bufferLength: nat
    var offset: nat
    var position: nat
    var actingBlockLength: nat
    var actingVersion: nat

    constructor (host: Host, none: array<byte>)
      ensures this.host == host
    {
      this.host := host;
      buffer, bufferLength, offset, position := none, 0, 0, 0;
      actingBlockLength, actingVersion := 0, 0;
    }

    /** `sbeCheckPosition`, assigned to the position unless it throws. */
    method SetPosition(p: nat) returns (thrown: bool)
      modifies this`position
      ensures thrown <==> p > bufferLength
      ensures position == if thrown then old(position) else p
    {
      thrown := p > bufferLength;
      if !thrown {
        position := p;
      }
    }

    /** Writes the header and places the flyweight on the body behind it. A buffer too short for
        the body throws with the header already written. */
    method WrapAndApplyHeader(buf: array<byte>, at: nat, length: nat) returns (thrown: bool)
      requires length <= buf.Length && at + WIRE_LENGTH < WORD
      modifies this, buf
      ensures thrown <==> at + WIRE_LENGTH > length
      ensures buf[..] == if at + HEADER_LENGTH > length then old(buf[..])
                         else Splice(old(buf[..]), at, Header(BLOCK_LENGTH, TEMPLATE_ID, SCHEMA_ID, SCHEMA_VERSION))
      ensures if at + HEADER_LENGTH > length
              then buffer == old(buffer) && bufferLength == old(bufferLength) && offset == old(offset)
                   && actingBlockLength == old(actingBlockLength) && actingVersion == old(actingVersion)
              else buffer == buf && bufferLength == length && offset == at + 8
                   && actingBlockLength == 24 && actingVersion == 0
      ensures position == if thrown then old(position) else at + 32
    {
      var hdr := new MessageHeader(host, buf, at, length, SCHEMA_VERSION);
      thrown := hdr.CheckBounds();
      if thrown {
        return;
      }
      ghost var s := buf[..];
      hdr.SetBlockLength(BLOCK_LENGTH);
      hdr.SetTemplateId(TEMPLATE_ID);
      ghost var h2 := ToLe(BLOCK_LENGTH, 2);
      SpliceExtends(s, at, h2, ToLe(TEMPLATE_ID, 2));
      hdr.SetSchemaId(SCHEMA_ID);
      SpliceExtends(s, at, h2 + ToLe(TEMPLATE_ID, 2), ToLe(SCHEMA_ID, 2));
      hdr.SetVersion(SCHEMA_VERSION);
      SpliceExtends(s, at, h2 + ToLe(TEMPLATE_ID, 2) + ToLe(SCHEMA_ID, 2), ToLe(SCHEMA_VERSION, 2));
      buffer, bufferLength, offset := buf, length, at + HEADER_LENGTH;
      actingBlockLength, actingVersion := BLOCK_LENGTH, SCHEMA_VERSION;
      thrown := SetPosition(offset + actingBlockLength);
    }

    /** Places the flyweight on a body; throws exactly when the claimed block does not fit. */
    method WrapForDecode(buf: array<byte>, at: nat, blockLength: u16, version: u16, length: nat) returns (thrown: bool)
      requires at + 0x1_0000 < WORD
      modifies this
      ensures thrown <==> at + blockLength > length
      ensures buffer == buf && bufferLength == length && offset == at
      ensures actingBlockLength == blockLength && actingVersion == version
      ensures position == if thrown then old(position) else at + blockLength
    {
      buffer, bufferLength, offset := buf, length, at;
      actingBlockLength, actingVersion := blockLength, version;
      thrown := SetPosition(offset + actingBlockLength);
    }

    method SetInstrumentId(value: u32)
      requires offset + BLOCK_LENGTH <= buffer.Length
      modifies buffer
      ensures buffer[..] == Splice(old(buffer[..]), offset, ToLe(value, 4))
    {
      Put(host, buffer, offset, value, 4);
    }

    method SetPriceTicks(value: i32)
      requires offset + BLOCK_LENGTH <= buffer.Length
      modifies buffer
      ensures buffer[..] == Splice(old(buffer[..]), offset + 4, ToLe(ToBits(value), 4))
    {
      Put(host, buffer, offset + 4, ToBits(value), 4);
    }

    method SetQty(value: u32)
      requires offset + BLOCK_LENGTH <= buffer.Length
      modifies buffer
      ensures buffer[..] == Splice(old(buffer[..]), offset + 8, ToLe(value, 4))
    {
      Put(host, buffer, offset + 8, value, 4);
    }

    method SetSeq(value: u32)
      requires offset + BLOCK_LENGTH <= buffer.Length
      modifies buffer
      ensures buffer[..] == Splice(old(buffer[..]), offset + 12, ToLe(value, 4))
    {
      Put(host, buffer, offset + 12, value, 4);
    }

    method SetTsNs(value: u64)
      requires offset + BLOCK_LENGTH <= buffer.Length
      modifies buffer
      ensures buffer[..] == Splice(old(buffer[..]), offset + 16, ToLe(value, 8))
    {
      Put(host, buffer, offset + 16, value, 8);
    }

    /** The chained setters write the body. */
    method SetAll(v: TickValues)
      requires offset + BLOCK_LENGTH <= buffer.Length
      modifies buffer
      ensures buffer[..] == Splice(old(buffer[..]), offset, Body(v))
    {
      ghost var s := buffer[..];
      SetInstrumentId(v.instrumentId);
      ghost var b := ToLe(v.instrumentId, 4);
      SetPriceTicks(v.priceTicks);
      SpliceExtends(s, offset, b, ToLe(ToBits(v.priceTicks), 4));
      b := b + ToLe(ToBits(v.priceTicks), 4);
      SetQty(v.qty);
      SpliceExtends(s, offset, b, ToLe(v.qty, 4));
      b := b + ToLe(v.qty, 4);
      SetSeq(v.seqNo);
      SpliceExtends(s, offset, b, ToLe(v.seqNo, 4));
      b := b + ToLe(v.seqNo, 4);
      SetTsNs(v.tsNs);
      SpliceExtends(s, offset, b, ToLe(v.tsNs, 8));
    }

    /** The five getters. */
    method GetAll() returns (v: TickValues)
      requires offset + BLOCK_LENGTH <= buffer.Length
      ensures v == ValuesAt(buffer[..], offset)
    {
      var instrumentId := GetU32(host, buffer, offset);
      var price := GetU32(host, buffer, offset + 4);
      var qty := GetU32(host, buffer, offset + 8);
      var seqNo := GetU32(host, buffer, offset + 12);
      var tsNs := GetU64(host, buffer, offset + 16);
      v := TickValues(instrumentId, FromBits(price), qty, seqNo, tsNs);
    }
  }

  lemma WireWritten(s: seq<byte>, v: TickValues)
    requires |s| >= WIRE_LENGTH
    ensures var header := Header(BLOCK_LENGTH, TEMPLATE_ID, SCHEMA_ID, SCHEMA_VERSION);
            Splice(Splice(s, 0, header), HEADER_LENGTH, Body(v)) == Wire(v) + s[WIRE_LENGTH..]
  {
    var header := Header(BLOCK_LENGTH, TEMPLATE_ID, SCHEMA_ID, SCHEMA_VERSION);
    SpliceExtends(s, 0, header, Body(v));
    SpliceFront(s, header + Body(v));
  }

  lemma SpliceFront(s: seq<byte>, bs: seq<byte>)
    requires |bs| <= |s|
    ensures Splice(s, 0, bs) == bs + s[|bs|..]
  {
  }

  /** Encodes into the caller's buffer: the same 32 bytes on every host, and nothing behind
      them is touched; a buffer that is too short is left alone. */
  method EncodeTick(host: Host, dst: array<byte>, v: TickValues) returns (n: nat)
    modifies dst
    ensures n == if dst.Length < WIRE_LENGTH then 0 else WIRE_LENGTH
    ensures dst[..] == if n == 0 then old(dst[..]) else Wire(v) + old(dst[WIRE_LENGTH..])
  {
    if dst.Length < WIRE_LENGTH {
      return 0;
    }
    ghost var s := dst[..];
    var tick := new TickFlyweight(host, dst);
    var thrown := tick.WrapAndApplyHeader(dst, 0, dst.Length);
    tick.SetAll(v);
    WireWritten(s, v);
    return WIRE_LENGTH;
  }

  /** Decodes the first `size` bytes of a buffer: the same outcome on every host. */
  method DecodeTick(host: Host, src: array<byte>, size: nat) returns (r: Decoded)
    requires size <= src.Length && SpanReadable(src[..], size)
    ensures r == DecodeSpan(src[..], size)
    ensures Readable(src[..size]) ==> r == Decode(src[..size])
  {
    if Readable(src[..size]) {
      assert src[..][..size] == src[..size];
      DecodePrefix(src[..], size);
    }
    if size < HEADER_LENGTH {
      return False;
    }
    var schemaId := GetU16(host, src, 4);
    var templateId := GetU16(host, src, 2);
    if schemaId != SCHEMA_ID || templateId != TEMPLATE_ID {
      return False;
    }
    var blockLength := GetU16(host, src, 0);
    var version := GetU16(host, src, 6);
    var tick := new TickFlyweight(host, src);
    var thrown := tick.WrapForDecode(src, HEADER_LENGTH, blockLength, version, size);
    if thrown {
      return Throws;
    }
    var values := tick.GetAll();
    return Tick(values);
  }
}
