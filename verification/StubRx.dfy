/** `ll::bypass::StubPollModeRx`, the one-packet mailbox, and the tick path through it. */
module StubRx {
  import opened Bits
  import opened Bytes
  import opened SbeWire
  import opened SbeCodec

  const SLOT_BYTES := 2048

  /** A received packet: a view of the receiver's own slot, not a copy of it. */
  datatype PacketView = PacketView(data: array<byte>, length: nat, hwTimestampNs: u64, portId: u16, queueId: u16)

  class StubPollModeRx {
    var open: bool
    var pending: bool
    var port: u16
    var queue: u16
    var len: nat
    const slot: array<byte>

    /** The payloads accepted so far, and the indices of those delivered, in order of delivery. */
    ghost var accepted: seq<seq<byte>>
    ghost var delivered: seq<nat>

    /** The latest accepted payload has not been delivered yet. */
    ghost predicate Undelivered()
      reads this
    {
      accepted != [] && (delivered == [] || delivered[|delivered| - 1] < |accepted| - 1)
    }

    /** The slot holds the latest accepted payload, `pending` tells whether it was delivered, and
        no payload was delivered twice or out of order. */
    ghost predicate Valid()
      reads this, slot
    {
      && slot.Length == SLOT_BYTES
      && len <= SLOT_BYTES
      && (accepted != [] ==> slot[..len] == accepted[|accepted| - 1])
      && (pending <==> Undelivered())
      && (forall i | 0 <= i < |delivered| :: delivered[i] < |accepted|)
      && (forall i, j | 0 <= i < j < |delivered| :: delivered[i] < delivered[j])
    }

    constructor ()
      ensures Valid() && fresh(slot) && !open && accepted == [] && delivered == []
    {
      open, pending, port, queue, len := false, false, 0, 0, 0;
      slot := new byte[SLOT_BYTES](_ => 0);
      accepted, delivered := [], [];
    }

    method Open(portId: u16, queueId: u16) returns (ok: bool)
      requires Valid()
      modifies this
      ensures Valid() && ok && open && port == portId && queue == queueId
      ensures accepted == old(accepted) && delivered == old(delivered)
    {
      port, queue, open := portId, queueId, true;
      return true;
    }

    method Close()
      requires Valid()
      modifies this
      ensures Valid() && !open && port == old(port) && queue == old(queue)
      ensures accepted == old(accepted) && delivered == old(delivered)
    {
      open := false;
    }

    /** Accepts every payload that fits the slot, open or not, in place of the previous one. */
    method InjectForTest(payload: seq<byte>)
      requires Valid()
      modifies this, slot
      ensures Valid() && open == old(open) && port == old(port) && queue == old(queue)
      ensures accepted == old(accepted) + if |payload| > 2048 then [] else [payload]
      ensures delivered == old(delivered)
    {
      if |payload| > SLOT_BYTES {
        return;
      }
      Copy(slot, 0, payload);
      len := |payload|;
      pending := true;
      accepted := accepted + [payload];
    }

    /** Delivers the latest accepted payload if it was not delivered before, and nothing else. */
    method Poll(out: array<PacketView>) returns (n: nat)
      requires Valid()
      modifies this, out
      ensures Valid() && open == old(open) && port == old(port) && queue == old(queue)
      ensures accepted == old(accepted)
      ensures n == if old(open) && old(Undelivered()) && out.Length > 0 then 1 else 0
      ensures delivered == old(delivered) + if n == 1 then [|accepted| - 1] else []
      ensures n == 1 ==> accepted != [] && out[0] == PacketView(slot, len, 0, port, queue)
                         && len <= slot.Length && slot[..len] == accepted[|accepted| - 1]
      ensures forall i | n <= i < out.Length :: out[i] == old(out[i])
    {
      if !open || !pending || out.Length == 0 {
        return 0;
      }
      out[0] := PacketView(slot, len, 0, port, queue);
      pending := false;
      delivered := delivered + [|accepted| - 1];
      return 1;
    }
  }

  lemma WireDecodes(v: TickValues, s: seq<byte>)
    requires s == Wire(v)
    ensures Readable(s) && Decode(s) == Tick(v)
  {
    DecodeEncode(v, []);
    assert s + [] == s;
  }

  method Send(host: Host, rx: StubPollModeRx, tick: TickValues, wire: array<byte>)
    requires rx.Valid() && wire != rx.slot && WIRE_LENGTH <= wire.Length
    modifies rx, rx.slot, wire
    ensures rx.Valid() && rx.open == old(rx.open)
    ensures rx.accepted == old(rx.accepted) + [Wire(tick)] && rx.delivered == old(rx.delivered)
  {
    var n := EncodeTick(host, wire, tick);
    assert wire[..n] == Wire(tick);
    rx.InjectForTest(wire[..n]);
  }

  method Receive(host: Host, rx: StubPollModeRx, batch: array<PacketView>, ghost tick: TickValues)
      returns (out: Decoded)
    requires rx.Valid() && rx.open && batch.Length > 0
    requires rx.Undelivered() && rx.accepted[|rx.accepted| - 1] == Wire(tick)
    modifies rx, batch
    ensures rx.Valid() && rx.open && rx.accepted == old(rx.accepted)
    ensures rx.delivered == old(rx.delivered) + [|rx.accepted| - 1]
    ensures out == Tick(tick)
  {
    var got := rx.Poll(batch);
    var packet := batch[0];
    WireDecodes(tick, packet.data[..packet.length]);
    DecodePrefix(packet.data[..], packet.length);
    out := DecodeTick(host, packet.data, packet.length);
  }

  /** A tick encoded, injected and polled is the tick that is decoded, whatever the hosts of the
      two ends are, and a second poll delivers nothing. */
  method TickThroughRx(sender: Host, receiver: Host, rx: StubPollModeRx, tick: TickValues,
                       wire: array<byte>, batch: array<PacketView>)
      returns (out: Decoded, again: nat)
    requires rx.Valid() && rx.open && wire != rx.slot && WIRE_LENGTH <= wire.Length && batch.Length > 0
    modifies rx, rx.slot, wire, batch
    ensures rx.Valid() && out == Tick(tick) && again == 0
  {
    Send(sender, rx, tick, wire);
    assert forall i | 0 <= i < |rx.delivered| :: rx.delivered[i] < |old(rx.accepted)|;
    out := Receive(receiver, rx, batch, tick);
    again := rx.Poll(batch);
  }
}
