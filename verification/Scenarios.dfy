/** The repository's own unit tests and examples, as theorems about the model: the inputs are
    theirs, and the results are literals. */
module Scenarios {
  import opened Bits
  import opened Options
  import opened Bytes
  import SpscMachine
  import SpscSafety
  import SpscSchedules
  import Samples
  import Histograms
  import Arenas
  import ObjectPools
  import SbeWire
  import SbeCodec
  import SbeStyle
  import StubRx

  // The ring: two pushes, two pops, and a third pop that finds nothing.

  lemma PushPushPopPop(slots: seq<int>) returns (es: seq<SpscMachine.Event<int>>)
    requires |slots| == 8
    ensures var c := SpscMachine.Config(8, SpscMachine.Orders(true, true, true, true));
            && SpscMachine.Executes(c, SpscMachine.Init(c, slots), es)
            && var s := SpscMachine.Execute(c, SpscMachine.Init(c, slots), es);
            && s.popped == [1, 2] && s.pushed == [1, 2]
            && SpscMachine.Enabled(c, s, SpscMachine.CStart)
            && var t := SpscMachine.Apply(c, s, SpscMachine.CStart);
            && SpscMachine.Enabled(c, t, SpscMachine.CLoadTail(2))
            && SpscMachine.Verdict(c, t, SpscMachine.CLoadTail(2))
  {
    var c := SpscMachine.Config(8, SpscMachine.Orders(true, true, true, true));
    assert c.Valid() by {
      assert Pow2(3) == 8;
      PowerOfTwoTest(8);
    }
    es := TwoThrough(c, slots, 1, 2);
    var s := SpscMachine.Execute(c, SpscMachine.Init(c, slots), es);
    SpscSafety.RingStep(c, s, SpscMachine.CStart);
    SpscSafety.EmptyVerdict(c, SpscMachine.Apply(c, s, SpscMachine.CStart), 2);
  }

  lemma TwoThrough(c: SpscMachine.Config, slots: seq<int>, x: int, y: int) returns (es: seq<SpscMachine.Event<int>>)
    requires c.Valid() && |slots| == c.capacity > 2
    ensures SpscMachine.Executes(c, SpscMachine.Init(c, slots), es)
    ensures var s := SpscMachine.Execute(c, SpscMachine.Init(c, slots), es);
            && SpscSafety.Ring(c, s) && s.cons.at.CIdle? && s.cons.seen <= 2
            && s.pushed == [x, y] && s.popped == [x, y]
  {
    var init := SpscMachine.Init(c, slots);
    SpscSafety.RingInit(c, slots);
    var p := SpscSchedules.CompletePush(c, init, x);
    var s := SpscMachine.Execute(c, init, p);
    var q := SpscSchedules.CompletePush(c, s, y);
    SpscSchedules.ExecuteConcat(c, init, p, q);
    var s' := SpscMachine.Execute(c, s, q);
    var a := SpscSchedules.CompletePop(c, s', x);
    SpscSchedules.ExecuteConcat(c, init, p + q, a);
    var s'' := SpscMachine.Execute(c, s', a);
    var b := SpscSchedules.CompletePop(c, s'', x);
    SpscSchedules.ExecuteConcat(c, init, p + q + a, b);
    es := p + q + a + b;
  }

  // The histogram: 1 to 1000, and an outlier.

  ghost function UpTo(n: nat): (s: seq<u64>)
    requires n < WORD
    ensures |s| == n
  {
    if n == 0 then [] else UpTo(n - 1) + [n]
  }

  lemma {:induction false} BelowUpTo(n: nat, bound: nat)
    requires n < WORD && bound >= 1
    ensures Samples.Below(UpTo(n), bound) == if bound <= n then bound - 1 else n
    ensures forall x: u64 :: x in UpTo(n) <==> 1 <= x <= n
  {
    if n > 0 {
      BelowUpTo(n - 1, bound);
      assert UpTo(n)[..n - 1] == UpTo(n - 1);
    }
  }

  lemma WithOutlier(n: nat, x: u64)
    requires 1 <= x <= n < 100000
    ensures Samples.IsRanked(UpTo(n) + [100000], x, x)
    ensures forall y: u64 :: y in UpTo(n) + [100000] <==> 1 <= y <= n || y == 100000
  {
    var s, t := UpTo(n), [100000];
    BelowUpTo(n, x);
    BelowUpTo(n, x + 1);
    Samples.BelowConcat(s, t, x);
    Samples.BelowConcat(s, t, x + 1);
    assert t[..0] == [];
    assert Samples.Below(t, x) == 0 && Samples.Below(t, x + 1) == 0;
  }

  lemma BucketOf(v: u64, i: nat, lo: nat)
    requires 1 <= i < 63 && lo == Pow2(i - 1) && lo <= v < 2 * lo
    ensures Samples.BucketIndex(64, v) == i && Samples.Representative(i) == lo + lo / 2
  {
    Samples.BucketIsRange(64, v, i);
    Samples.RepresentativeExact(i);
  }

  lemma RanksOfTest()
    ensures Histograms.Rank(50.0, 1001) == 501 && Histograms.Rank(99.0, 1001) == 991
  {
    Histograms.RankBounds(50.0, 1001);
    Histograms.RankBounds(99.0, 1001);
  }

  /** What the test records. */
  ghost predicate Recorded(s: seq<u64>) {
    exists n | n == 1000 :: s == UpTo(n) + [100000]
  }

  lemma RecordedFacts(s: seq<u64>)
    requires Recorded(s)
    ensures |s| == 1001 && 1 in s && 100000 in s && forall y | y in s :: 1 <= y <= 100000
    ensures Samples.IsRanked(s, 501, 501) && Samples.IsRanked(s, 991, 991)
  {
    var n :| n == 1000 && s == UpTo(n) + [100000];
    WithOutlier(n, 501);
    WithOutlier(n, 991);
    assert 1 in s && 100000 in s;
  }

  method RecordAll(n: nat) returns (h: Histograms.HdrLatencyHistogram)
    requires n == 1000
    ensures fresh(h) && h.Valid() && h.buckets == 64 && Recorded(h.samples)
  {
    h := new Histograms.HdrLatencyHistogram(64);
    for i := 0 to n
      invariant fresh(h) && fresh(h.counts) && h.Valid() && h.buckets == 64 && h.samples == UpTo(i)
    {
      h.Record(i + 1);
    }
    h.Record(100000);
  }

  method HistogramTracks()
      returns (count: u64, max: u64, min: u64, p50: Option<u64>, p99: Option<u64>)
    ensures count == 1001 && max == 100000 && min == 1
    ensures p50 == Some(384) && p99 == Some(768)
  {
    var h := RecordAll(1000);
    RecordedFacts(h.samples);
    RanksOfTest();
    count := h.count;
    max := h.MaxValue();
    min := h.MinValue();
    p50 := h.ValueAtPercentile(50.0);
    p99 := h.ValueAtPercentile(99.0);
    Histograms.PercentileIsRanked(h.samples, 50.0, 501);
    Histograms.PercentileIsRanked(h.samples, 99.0, 991);
    assert Pow2(8) == 256 && Pow2(9) == 512;
    BucketOf(501, 9, 256);
    BucketOf(991, 10, 512);
  }

  // The arena: an int and a double, a reset, and an int.

  lemma Fits(base: nat, size: nat, offset: nat, q: Arenas.Request)
    requires base + size < WORD && q.Valid() && offset + q.align + q.n <= size
    ensures var (r, offset') := Arenas.Served(base, size, offset, q);
            && r.Some? && base + offset <= r.value < base + offset + q.align && r.value % q.align == 0
            && base + offset' == r.value + q.n
  {
    Arenas.WrapOnce(Arenas.End(base, offset, q));
    Arenas.WrapOnce(Arenas.RoundUp(base + offset, q.align));
  }

  method ArenaResets(base: nat) returns (a: Option<nat>, b: Option<nat>, used: nat, reset: nat, c: Option<nat>)
    requires base + 4096 < WORD
    ensures a.Some? && base <= a.value < base + 4 && a.value % 4 == 0
    ensures b.Some? && a.value + 4 <= b.value < a.value + 12 && b.value % 8 == 0
    ensures used == b.value + 8 - base && reset == 0 && c == a
  {
    assert Pow2(2) == 4 && Pow2(3) == 8;
    var arena := new Arenas.Arena(base, 4096);
    Fits(base, 4096, 0, Arenas.Request(4, 4));
    a := arena.Allocate(4, 4);
    Fits(base, 4096, arena.offset, Arenas.Request(8, 8));
    b := arena.Allocate(8, 8);
    used := arena.offset;
    arena.Reset();
    reset := arena.offset;
    c := arena.Allocate(4, 4);
  }

  // The pool: one slot out and back.

  method PoolCheckout() returns (before: nat, p: ObjectPools.Pointer, during: nat, after: nat)
    ensures before == 4 && p.To? && p.slot < 4 && during == 3 && after == 4
  {
    var pool := new ObjectPools.ObjectPool(4);
    before := pool.Available();
    p := pool.Acquire();
    during := pool.Available();
    pool.Release(p);
    after := pool.Available();
  }

  // The generated codec.

  lemma {:induction false} Padded(v: byte, w: nat)
    requires w >= 1
    ensures ToLe(v, w) == [v] + seq(w - 1, _ => 0)
  {
    if w > 1 {
      Padded(0, w - 1);
    }
  }

  lemma SmallBytes(v: byte)
    ensures ToLe(v, 4) == [v, 0, 0, 0] && ToLe(v, 8) == [v, 0, 0, 0, 0, 0, 0, 0]
  {
    Padded(v, 4);
    Padded(v, 8);
  }

  lemma Reversed(v: byte)
    ensures Reverse([v, 0, 0, 0]) == [0, 0, 0, v]
  {
  }

  /** The 32 bytes of a tick whose fields are small, like those of the example program. */
  lemma WireOfSmallFields(a: byte, b: byte, c: byte, d: byte, e: byte)
    ensures SbeWire.Wire(SbeWire.TickValues(a, b, c, d, e))
            == [24, 0, 1, 0, 77, 0, 0, 0]
               + ([a, 0, 0, 0] + [b, 0, 0, 0] + [c, 0, 0, 0] + [d, 0, 0, 0] + [e, 0, 0, 0, 0, 0, 0, 0])
  {
    var v := SbeWire.TickValues(a, b, c, d, e);
    SbeWire.WireHeader(v);
    SmallBytes(a);
    SmallBytes(b);
    SmallBytes(c);
    SmallBytes(d);
    SmallBytes(e);
    assert SbeWire.Wire(v) == SbeWire.Wire(v)[..8] + SbeWire.Body(v);
  }

  /** The 16 bytes of a small packed struct, on a host of either byte order. */
  lemma ImageOfSmallFields(host: Host, a: byte, b: byte, c: byte, d: byte)
    ensures SbeStyle.Image(host, SbeStyle.TickMsg(a, b, c, d))
            == if host.LittleEndian? then [a, 0, 0, 0] + [b, 0, 0, 0] + [c, 0, 0, 0] + [d, 0, 0, 0]
               else [0, 0, 0, a] + [0, 0, 0, b] + [0, 0, 0, c] + [0, 0, 0, d]
  {
    SmallBytes(a);
    SmallBytes(b);
    SmallBytes(c);
    SmallBytes(d);
    Reversed(a);
    Reversed(b);
    Reversed(c);
    Reversed(d);
  }

  /** The bytes of a negative price. */
  lemma NegativePrice()
    ensures ToLe(ToBits(-2), 4) == [0xfe, 0xff, 0xff, 0xff]
  {
  }

  method SbeRoundTrip(sender: Host, receiver: Host) returns (n: nat, out: SbeWire.Decoded)
    ensures n == 32
    ensures out == SbeWire.Tick(SbeWire.TickValues(42, 1902500, 10, 99, 1_700_000_000_000_000_000))
  {
    var buf := new byte[64](_ => 0);
    var values := SbeWire.TickValues(42, 1902500, 10, 99, 1_700_000_000_000_000_000);
    n := SbeCodec.EncodeTick(sender, buf, values);
    assert buf[..32] == SbeWire.Wire(values);
    StubRx.WireDecodes(values, buf[..32]);
    SbeWire.DecodePrefix(buf[..], n);
    out := SbeCodec.DecodeTick(receiver, buf, n);
  }

  method SbeWrongSchema(sender: Host, receiver: Host) returns (n: nat, out: SbeWire.Decoded)
    ensures n == 32 && out == SbeWire.False
  {
    var buf := new byte[64](_ => 0);
    n := SbeCodec.EncodeTick(sender, buf, SbeWire.TickValues(1, 1, 1, 1, 1));
    buf[4] := 0;
    buf[5] := 0;
    assert buf[..][4..6] == [0, 0];
    out := SbeCodec.DecodeTick(receiver, buf, buf.Length);
  }

  method PodRoundTrip(host: Host, msg: SbeStyle.TickMsg) returns (ok: bool, out: Option<SbeStyle.TickMsg>)
    ensures ok && out == Some(msg)
  {
    var buf := new byte[16](_ => 0);
    ok := SbeStyle.Encode(host, buf, msg);
    assert buf[..16] == SbeStyle.Image(host, msg);
    out := SbeStyle.DecodeCopy(host, buf);
    SbeStyle.ImageInjective(host, out.value, msg);
  }

  // The stub mailbox: one packet, and then none.

  method StubDrains(port: u16, queue: u16)
      returns (isOpen: bool, n: nat, length: nat, bytes: seq<byte>, portId: u16, queueId: u16, again: nat)
    ensures isOpen && n == 1 && length == 4 && bytes == [0x54, 0x49, 0x43, 0x4b]
    ensures portId == port && queueId == queue && again == 0
  {
    var rx := new StubRx.StubPollModeRx();
    isOpen := rx.Open(port, queue);
    rx.InjectForTest([0x54, 0x49, 0x43, 0x4b]);
    var none := StubRx.PacketView(rx.slot, 0, 0, 0, 0);
    var views := new StubRx.PacketView[4](_ => none);
    n := rx.Poll(views);
    var view := views[0];
    length, bytes, portId, queueId := view.length, view.data[..view.length], view.portId, view.queueId;
    again := rx.Poll(views);
    rx.Close();
  }
}
