/**
 * The host end of a telemetry stream (client/src/rdp.rs): which push frames are queued, with which
 * values, and which layouts come through from the device.
 */
module HostTelemetry {
  import opened Bytes
  import opened Telemetry
  import Streams

  /** How the descriptor of a channel says it is sent. */
  datatype ValueType = U16Value | I16Value | BoolValue | OtherValue

  datatype TelemetryFrame = TelemetryFrame(stream: byte, number: u16, time: u32, values: seq<int>)

  type Layouts = map<byte, seq<u16>>
  type Channels = map<u16, ValueType>

  predicate Readable(channels: Channels, id: u16) {
    id in channels && channels[id] != OtherValue
  }

  function WireFor(channels: Channels, id: u16): WireType {
    if id in channels && channels[id] == U16Value then U16
    else if id in channels && channels[id] == I16Value then I16
    else Bit
  }

  function WiresFor(channels: Channels, layout: seq<u16>): (wires: seq<WireType>)
    ensures |wires| == |layout| && forall i | 0 <= i < |layout| :: wires[i] == WireFor(channels, layout[i])
  {
    seq(|layout|, i requires 0 <= i < |layout| => WireFor(channels, layout[i]))
  }

  ghost predicate AllReadable(channels: Channels, layout: seq<u16>) {
    forall i | 0 <= i < |layout| :: Readable(channels, layout[i])
  }

  /** What a push body queues. */
  ghost function QueuedBy(layouts: Layouts, channels: Channels, body: seq<byte>): Option<TelemetryFrame> {
    if |body| < Streams.BODY_HEADER || body[0] !in layouts then None
    else if !AllReadable(channels, layouts[body[0]]) then None
    else
      match Unpacked(WiresFor(channels, layouts[body[0]]), body[Streams.BODY_HEADER..])
      case None => None
      case Some(values) =>
        Some(TelemetryFrame(body[0], From16(body[1], body[2]), FromLe32(body[3], body[4], body[5], body[6]), values))
  }

  ghost predicate NumberRead(wires: seq<WireType>, data: seq<byte>, values: seq<int>, j: nat)
    requires j < |wires| == |values|
  {
    var k := Numbers(wires[..j]);
    2 * k + 1 < |data| && values[j] == ReadNumber(wires[j], data[2 * k], data[2 * k + 1])
  }

  ghost predicate NumbersRead(wires: seq<WireType>, data: seq<byte>, values: seq<int>, i: nat) {
    i <= |wires| == |values| && forall j | 0 <= j < i && wires[j] != Bit :: NumberRead(wires, data, values, j)
  }

  /** `slots` lists the flags among the first `i` wires in order. */
  ghost predicate FlagPlaces(wires: seq<WireType>, slots: seq<nat>, i: nat)
    requires i <= |wires|
  {
    && |slots| == Flags(wires[..i])
    && (forall k | 0 <= k < |slots| :: slots[k] < i && wires[slots[k]] == Bit && Flags(wires[..slots[k]]) == k)
    && (forall j | 0 <= j < i && wires[j] == Bit :: Flags(wires[..j]) < |slots| && slots[Flags(wires[..j])] == j)
  }

  lemma FirstPlaces(wires: seq<WireType>, data: seq<byte>)
    ensures FlagPlaces(wires, [], 0) && Numbers(wires[..0]) == 0
    ensures forall values: seq<int> | |values| == |wires| :: NumbersRead(wires, data, values, 0)
  {
  }

  lemma SkipNumber(wires: seq<WireType>, data: seq<byte>, values: seq<int>, i: nat)
    requires i < |wires| && wires[i] == Bit && NumbersRead(wires, data, values, i)
    ensures NumbersRead(wires, data, values, i + 1)
  {
  }

  lemma TooShort(wires: seq<WireType>, data: seq<byte>, i: nat)
    requires i < |wires| && wires[i] != Bit && 2 * Numbers(wires[..i]) + 2 > |data|
    ensures |data| < DataLen(wires)
  {
    CountsBefore(wires, i);
  }

  lemma NumberAdded(wires: seq<WireType>, data: seq<byte>, values: seq<int>, i: nat, v: int)
    requires i < |wires| && wires[i] != Bit && NumbersRead(wires, data, values, i)
    requires var k := Numbers(wires[..i]); 2 * k + 1 < |data| && v == ReadNumber(wires[i], data[2 * k], data[2 * k + 1])
    ensures NumbersRead(wires, data, values[i := v], i + 1)
  {
    hide ReadNumber;
    forall j | 0 <= j < i && wires[j] != Bit ensures NumberRead(wires, data, values[i := v], j) {
      assert NumberRead(wires, data, values, j);
    }
  }

  lemma NextPlace(wires: seq<WireType>, slots: seq<nat>, i: nat)
    requires i < |wires| && FlagPlaces(wires, slots, i)
    ensures FlagPlaces(wires, if wires[i] == Bit then slots + [i] else slots, i + 1)
    ensures Numbers(wires[..i + 1]) == Numbers(wires[..i]) + (if wires[i] == Bit then 0 else 1)
    ensures Flags(wires[..i + 1]) == Flags(wires[..i]) + (if wires[i] == Bit then 1 else 0)
  {
    assert wires[..i + 1] == wires[..i] + [wires[i]];
    CountsAppend(wires[..i], wires[i]);
  }

  method ReadNumbers(channels: Channels, layout: seq<u16>, data: seq<byte>) returns (r: Option<(seq<int>, seq<nat>)>)
    ensures var wires := WiresFor(channels, layout);
      match r
      case None => AllReadable(channels, layout) ==> |data| < DataLen(wires)
      case Some((values, flagSlots)) =>
        && AllReadable(channels, layout) && 2 * Numbers(wires) <= |data|
        && Numbers(wires) == |layout| - |flagSlots|
        && FlagPlaces(wires, flagSlots, |wires|) && NumbersRead(wires, data, values, |wires|)
  {
    hide ReadNumber, FlagPlaces, NumbersRead, Numbers, Flags, DataLen;
    ghost var wires := WiresFor(channels, layout);
    FirstPlaces(wires, data);
    var values := seq(|layout|, _ => 0);
    var pos, flagSlots: seq<nat> := 0, [];
    for i := 0 to |layout|
      invariant |values| == |layout| && forall k | 0 <= k < i :: Readable(channels, layout[k])
      invariant pos == 2 * Numbers(wires[..i]) == 2 * (i - |flagSlots|) <= |data|
      invariant FlagPlaces(wires, flagSlots, i) && NumbersRead(wires, data, values, i)
    {
      NextPlace(wires, flagSlots, i);
      if layout[i] !in channels {
        return None;
      }
      match channels[layout[i]]
      case BoolValue =>
        SkipNumber(wires, data, values, i);
        flagSlots := flagSlots + [i];
      case OtherValue =>
        return None;
      case kind =>
        if pos + 2 > |data| {
          TooShort(wires, data, i);
          return None;
        }
        var v := ReadNumber(if kind == U16Value then U16 else I16, data[pos], data[pos + 1]);
        NumberAdded(wires, data, values, i, v);
        values := values[i := v];
        pos := pos + 2;
    }
    assert wires[..|wires|] == wires;
    return Some((values, flagSlots));
  }

  lemma ShortData(wires: seq<WireType>, flagSlots: seq<nat>, data: seq<byte>, bit: nat)
    requires bit < |flagSlots| && FlagPlaces(wires, flagSlots, |wires|)
    requires 2 * Numbers(wires) + bit / 8 >= |data|
    ensures Unpacked(wires, data) == None
  {
    assert wires[..|wires|] == wires;
  }

  function FlagRead(data: seq<byte>, pos: nat, k: nat): int
    requires pos + k / 8 < |data|
  {
    if BitAt(data[pos + k / 8], k % 8) then 1 else 0
  }

  lemma AllRead(wires: seq<WireType>, numbers: seq<int>, values: seq<int>, flagSlots: seq<nat>, data: seq<byte>, pos: nat)
    requires pos == 2 * Numbers(wires) <= |data| && |values| == |wires|
    requires FlagPlaces(wires, flagSlots, |wires|) && NumbersRead(wires, data, numbers, |wires|)
    requires forall j | 0 <= j < |wires| && wires[j] != Bit :: values[j] == numbers[j]
    requires forall k | 0 <= k < |flagSlots| :: pos + k / 8 < |data| && values[flagSlots[k]] == FlagRead(data, pos, k)
    requires |flagSlots| > 0 ==> pos + (|flagSlots| - 1) / 8 < |data|
    ensures Unpacked(wires, data) == Some(values)
  {
    hide ReadNumber;
    assert wires[..|wires|] == wires;
    assert |data| >= DataLen(wires);
    forall j | 0 <= j < |wires|
      ensures values[j] == ReadAt(wires, data, j)
    {
      if wires[j] == Bit {
        assert flagSlots[Flags(wires[..j])] == j;
      } else {
        assert NumberRead(wires, data, numbers, j);
      }
    }
    assert Unpacked(wires, data).value == values;
  }

  method ReadFlags(ghost wires: seq<WireType>, numbers: seq<int>, flagSlots: seq<nat>, data: seq<byte>, pos: nat)
    returns (r: Option<seq<int>>)
    requires pos == 2 * Numbers(wires) <= |data|
    requires FlagPlaces(wires, flagSlots, |wires|) && NumbersRead(wires, data, numbers, |wires|)
    ensures r == Unpacked(wires, data)
  {
    hide Unpacked;
    var values := numbers;
    for bit := 0 to |flagSlots|
      invariant |values| == |wires|
      invariant bit > 0 ==> pos + (bit - 1) / 8 < |data|
      invariant forall j | 0 <= j < |wires| && wires[j] != Bit :: values[j] == numbers[j]
      invariant forall k | 0 <= k < bit :: pos + k / 8 < |data| && values[flagSlots[k]] == FlagRead(data, pos, k)
    {
      if pos + bit / 8 >= |data| {
        ShortData(wires, flagSlots, data, bit);
        return None;
      }
      values := values[flagSlots[bit] := if BitAt(data[pos + bit / 8], bit % 8) then 1 else 0];
    }
    AllRead(wires, numbers, values, flagSlots, data, pos);
    return Some(values);
  }

  /** The two loops over the layout: numbers as they come, then the flags that were put aside. */
  method Unpack(channels: Channels, layout: seq<u16>, data: seq<byte>) returns (r: Option<seq<int>>)
    ensures r == if AllReadable(channels, layout) then Unpacked(WiresFor(channels, layout), data) else None
  {
    ghost var wires := WiresFor(channels, layout);
    var numbers := ReadNumbers(channels, layout, data);
    if numbers.None? {
      return None;
    }
    assert wires[..|wires|] == wires;
    var (values, flagSlots) := numbers.value;
    r := ReadFlags(wires, values, flagSlots, data, 2 * (|layout| - |flagSlots|));
  }

  class TelemetryClient {
    var layouts: Layouts
    var channels: Channels
    var telemetry: seq<TelemetryFrame>

    constructor ()
      ensures layouts == map[] && channels == map[] && telemetry == []
    {
      layouts, channels, telemetry := map[], map[], [];
    }

    method QueueTelemetry(body: seq<byte>)
      modifies this`telemetry
      ensures telemetry == old(telemetry) +
                (match QueuedBy(layouts, channels, body) case None => [] case Some(frame) => [frame])
    {
      hide Unpacked;
      assert telemetry + [] == telemetry;
      if |body| < 7 || body[0] !in layouts {
        return;
      }
      var values := Unpack(channels, layouts[body[0]], body[7..]);
      if values.Some? {
        var number := From16(body[1], body[2]);
        var time := FromLe32(body[3], body[4], body[5], body[6]);
        telemetry := telemetry + [TelemetryFrame(body[0], number, time, values.value)];
      }
    }
  }

  /** A body is queued exactly if it has its seven bytes, a known stream, readable channels, and enough data. */
  lemma QueuedIff(layouts: Layouts, channels: Channels, body: seq<byte>)
    ensures QueuedBy(layouts, channels, body).Some? <==>
      && |body| >= 7 && body[0] in layouts
      && (forall i | 0 <= i < |layouts[body[0]]| :: layouts[body[0]][i] in channels && channels[layouts[body[0]][i]] != OtherValue)
      && var wires := WiresFor(channels, layouts[body[0]]);
         |body| >= 7 + 2 * Numbers(wires) + (Flags(wires) + 7) / 8
  {
  }

  // ── From the device to the host ──────────────────────────────────────────

  /** The host has read the catalogue of the device. */
  ghost predicate CatalogueKnown(channels: Channels) {
    forall id: u16 | 1 <= id <= 16 || 32 <= id <= 37 ::
      id in channels &&
      channels[id] == (if 32 <= id then BoolValue else if id == 2 || id == 3 || id == 9 || id == 12 then I16Value else U16Value)
  }

  /** The frame that the device writes for a stream is queued with its number and time, and its values show the readings. */
  ghost predicate Arrives(s: Streams.Stream, id: byte, snap: Snapshot, now: u32, layouts: Layouts, channels: Channels)
    requires Known(s.channels)
  {
    match QueuedBy(layouts, channels, Streams.FrameBody(id, s.number, now, Packed(SamplesOf(s.channels, snap), [])))
    case None => false
    case Some(f) => f.stream == id && f.number == s.number && f.time == now && AllShown(s.channels, snap, f.values)
  }

  lemma WiresAgree(channels: Channels, layout: seq<u16>)
    requires Known(layout) && CatalogueKnown(channels)
    ensures WiresFor(channels, layout) == WiresOf(layout) && AllReadable(channels, layout)
  {
    forall i | 0 <= i < |layout| ensures Readable(channels, layout[i]) && WireFor(channels, layout[i]) == WiresOf(layout)[i] {
      ChannelNumbers(layout[i]);
    }
  }

  lemma ArrivesIffRoundTrip(s: Streams.Stream, id: byte, snap: Snapshot, now: u32, layouts: Layouts, channels: Channels)
    requires Known(s.channels) && id in layouts && layouts[id] == s.channels && CatalogueKnown(channels)
    ensures Arrives(s, id, snap, now, layouts, channels) <==> RoundTrips(s.channels, snap)
  {
    hide Packed, Unpacked, Le32, FromLe32, Lo, Hi, From16, AllShown, ChannelWire, Known, CatalogueKnown;
    var data := Packed(SamplesOf(s.channels, snap), []);
    var body := Streams.FrameBody(id, s.number, now, data);
    var head := [id, Lo(s.number), Hi(s.number)] + Le32(now);
    assert body[Streams.BODY_HEADER..] == data;
    assert body[1] == Lo(s.number) && body[2] == Hi(s.number);
    assert body[3] == Le32(now)[0] && body[4] == Le32(now)[1] && body[5] == Le32(now)[2] && body[6] == Le32(now)[3];
    Split16(s.number, 0, 0);
    Split32(now);
    WiresAgree(channels, s.channels);
    var values := Unpacked(WiresOf(s.channels), data);
    if values.Some? {
      AllShownIff(s.channels, snap, values.value);
    }
  }

  /**
   * A frame the device writes for a subscribed stream is queued with its stream, number, time and
   * every value in its place, whatever is measured, exactly if fewer than eight flags precede the
   * last number of the layout.
   */
  lemma FramesArriveIffFewFlagsFirst(s: Streams.Stream, id: byte, now: u32, layouts: Layouts, channels: Channels)
    requires Known(s.channels) && id in layouts && layouts[id] == s.channels && CatalogueKnown(channels)
    ensures (forall snap :: Arrives(s, id, snap, now, layouts, channels)) <==> FlagsBeforeLastNumber(WiresOf(s.channels)) < 8
  {
    forall snap ensures Arrives(s, id, snap, now, layouts, channels) <==> RoundTrips(s.channels, snap) {
      ArrivesIffRoundTrip(s, id, snap, now, layouts, channels);
    }
    RoundTripIffFewFlagsFirst(s.channels);
  }

  // ── An accepted layout that does not come through ────────────────────────

  function EightFlagsThenNumber(): seq<u16> { [32, 32, 32, 32, 32, 32, 32, 32, 1] }

  lemma EightFlagsKnown()
    ensures Known(EightFlagsThenNumber())
  {
  }

  lemma EightFlagsSubscribed()
    ensures Known(EightFlagsThenNumber())
    ensures Streams.Subscribed([None, None, None, None], EightFlagsThenNumber(), 10, 0).1 == Ok((1, 10))
  {
    hide Streams.FirstUnknown, ChannelWire;
    EightFlagsKnown();
    Streams.KnownHasNoUnknown(EightFlagsThenNumber());
  }

  lemma ZerosAndSetFlags(layout: seq<u16>, snap: Snapshot)
    requires Known(layout) && snap == Snapshot(_ => Value(0.0), _ => true)
    ensures Telltale(SamplesOf(layout, snap))
  {
  }

  lemma {:induction false} FlagsThenNumber(wires: seq<WireType>)
    requires wires != [] && wires[|wires| - 1] == U16 && forall i | 0 <= i < |wires| - 1 :: wires[i] == Bit
    ensures Numbers(wires) == 1 && FlagsBeforeLastNumber(wires) == |wires| - 1
  {
    if |wires| == 1 {
      assert wires[1..] == [];
    } else {
      FlagsThenNumber(wires[1..]);
    }
  }

  lemma EightBeforeLast(wires: seq<WireType>)
    requires wires == [Bit, Bit, Bit, Bit, Bit, Bit, Bit, Bit, U16]
    ensures FlagsBeforeLastNumber(wires) == 8
  {
    var n := |wires|;
    forall i | 0 <= i < n ensures Numbers(wires[i..]) == 1 && FlagsBeforeLastNumber(wires[i..]) == 8 - i {
      FlagsThenNumber(wires[i..]);
    }
    assert wires[0..] == wires;
  }

  /** Eight times the same flag, then engine speed: the device accepts it, the host misreads it. */
  lemma AcceptedLayoutMisread()
    ensures var layout := EightFlagsThenNumber();
      && Streams.Subscribed([None, None, None, None], layout, 10, 0).1 == Ok((1, 10))
      && Known(layout) && !RoundTrips(layout, Snapshot(_ => Value(0.0), _ => true))
  {
    hide Packed, Unpacked, Telltale, Streams.Subscribed;
    var layout, snap := EightFlagsThenNumber(), Snapshot(_ => Value(0.0), _ => true);
    EightFlagsSubscribed();
    var samples, wires := SamplesOf(layout, snap), WiresOf(layout);
    assert WiresIn(samples) == wires;
    EightBeforeLast(wires);
    ZerosAndSetFlags(layout, snap);
    HostMisreadsTelltale(samples);
  }
}
