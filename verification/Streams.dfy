/**
 * Subscriptions (engine-core/src/comms/telemetry.rs): which stream is due and the frame written for
 * it.
 */
module Streams {
  import opened Bytes
  import opened Telemetry

  const MAX_STREAMS := 4
  const MAX_STREAM_CHANNELS := 16
  const MAX_RATE_HZ := 100
  const BODY_HEADER := 7

  datatype Stream = Stream(channels: seq<u16>, interval: nat, nextDue: u32, number: u16)

  datatype SubscribeError = NoFreeStream | BadChannel(id: u16) | TooManyChannels

  type Slots = seq<Option<Stream>>

  predicate ValidStream(s: Stream) {
    Known(s.channels) && |s.channels| <= MAX_STREAM_CHANNELS && 10 <= s.interval <= 1000
  }

  ghost predicate ValidSlots(slots: Slots) {
    |slots| == MAX_STREAMS && forall i | 0 <= i < MAX_STREAMS && slots[i].Some? :: ValidStream(slots[i].value)
  }

  // ── Meaning of the operations ────────────────────────────────────────────

  function FirstUnknown(channels: seq<u16>): (i: nat)
    ensures i <= |channels| && Known(channels[..i])
    ensures i < |channels| ==> ChannelWire(channels[i]).None?
  {
    if channels == [] || ChannelWire(channels[0]).None? then 0
    else
      var i := 1 + FirstUnknown(channels[1..]);
      assert forall j | 0 < j < i :: channels[j] == channels[1..][j - 1];
      i
  }

  function FirstFree(slots: Slots): (i: nat)
    ensures i <= |slots| && forall j | 0 <= j < i :: slots[j].Some?
    ensures i < |slots| ==> slots[i].None?
  {
    if slots == [] || slots[0].None? then 0 else 1 + FirstFree(slots[1..])
  }

  function Clamped(rate: u16): u16 { if rate < 1 then 1 else if rate > MAX_RATE_HZ then MAX_RATE_HZ else rate }

  function Subscribed(slots: Slots, channels: seq<u16>, rate: u16, now: u32): (Slots, Result<(byte, u16), SubscribeError>)
    requires |slots| <= MAX_STREAMS
  {
    if |channels| > MAX_STREAM_CHANNELS then (slots, Err(TooManyChannels))
    else if FirstUnknown(channels) < |channels| then (slots, Err(BadChannel(channels[FirstUnknown(channels)])))
    else if FirstFree(slots) == |slots| then (slots, Err(NoFreeStream))
    else
      (slots[FirstFree(slots) := Some(Stream(channels, 1000 / Clamped(rate), now, 0))],
       Ok((FirstFree(slots) + 1, Clamped(rate))))
  }

  predicate Catalogued(id: u16) { 1 <= id <= 16 || 32 <= id <= 37 }

  /** Channel `id` at place `i` is the first that is not in the catalogue. */
  ghost predicate FirstBad(channels: seq<u16>, i: nat, id: u16) {
    i < |channels| && channels[i] == id && !Catalogued(id) && forall j | 0 <= j < i :: Catalogued(channels[j])
  }

  /** Slot `i` is the first free one. */
  ghost predicate FirstEmpty(slots: Slots, i: nat) {
    i < |slots| && slots[i].None? && forall j | 0 <= j < i :: slots[j].Some?
  }

  /** The rate is the requested one, held within 1 to 100, and the interval the whole milliseconds of it. */
  ghost predicate RateFor(rate: u16, actual: u16, interval: nat) {
    && actual == (if rate == 0 then 1 else if rate > 100 then 100 else rate)
    && interval * actual <= 1000 < (interval + 1) * actual
  }

  lemma WholeMilliseconds(rate: u16)
    ensures RateFor(rate, Clamped(rate), 1000 / Clamped(rate))
  {
    QuotientAndRemainder(1000, Clamped(rate));
  }

  lemma CataloguedIff(id: u16)
    ensures ChannelWire(id).Some? <==> Catalogued(id)
  {
    ChannelNumbers(id);
  }

  /**
   * A subscription names what is wrong, in this order, or fills the first free slot with a stream that is
   * due at once, numbered from 0 and sent at the rate in the answer; other slots stay.
   */
  lemma SubscribedStreamStarts(slots: Slots, channels: seq<u16>, rate: u16, now: u32)
    requires |slots| == 4
    ensures var (next, r) := Subscribed(slots, channels, rate, now);
      match r
      case Err(TooManyChannels) => next == slots && |channels| > 16
      case Err(BadChannel(id)) => next == slots && |channels| <= 16 && exists i: nat :: FirstBad(channels, i, id)
      case Err(NoFreeStream) => next == slots && |channels| <= 16 && (forall i | 0 <= i < |channels| :: Catalogued(channels[i]))
                                && forall i | 0 <= i < 4 :: slots[i].Some?
      case Ok((id, actual)) =>
        && |channels| <= 16 && (forall i | 0 <= i < |channels| :: Catalogued(channels[i]))
        && id >= 1 && FirstEmpty(slots, id - 1) && |next| == 4 && next[id - 1].Some?
        && next == slots[id - 1 := next[id - 1]]
        && var s := next[id - 1].value;
           s.channels == channels && s.nextDue == now && s.number == 0 && RateFor(rate, actual, s.interval)
  {
    hide ChannelWire, RateFor, Catalogued;
    WholeMilliseconds(rate);
    forall id: u16 ensures ChannelWire(id).Some? <==> Catalogued(id) {
      CataloguedIff(id);
    }
    var i := FirstUnknown(channels);
    if i < |channels| {
      assert FirstBad(channels, i, channels[i]) by {
        assert forall j | 0 <= j < i :: channels[..i][j] == channels[j];
      }
    } else {
      assert channels[..i] == channels;
    }
  }

  predicate Due(slot: Option<Stream>, now: u32) { slot.Some? && slot.value.nextDue <= now }

  /** Number of the first slot that is due, or the number of slots. */
  function FirstDue(slots: Slots, now: u32): (i: nat)
    ensures i <= |slots| && forall j | 0 <= j < i :: !Due(slots[j], now)
    ensures i < |slots| ==> Due(slots[i], now)
  {
    if slots == [] || Due(slots[0], now) then 0 else 1 + FirstDue(slots[1..], now)
  }

  function WrapAdd(now: u32, interval: nat): u32 { (now + interval) % 0x1_0000_0000 }

  function NextNumber(n: u16): u16 { (n + 1) % 0x1_0000 }

  function FrameLen(s: Stream): nat
    requires Known(s.channels)
  {
    BODY_HEADER + DataLen(WiresOf(s.channels))
  }

  /** One poll: the schedule afterwards and the slot whose frame was written, if one was. */
  function Poll(slots: Slots, now: u32, room: nat): (r: (Slots, Option<nat>))
    requires ValidSlots(slots)
    ensures ValidSlots(r.0)
    ensures r.1.Some? ==> r.1.value < MAX_STREAMS && slots[r.1.value].Some?
  {
    var i := FirstDue(slots, now);
    if i == |slots| then (slots, None) else
    var s := slots[i].value;
    var moved := s.(nextDue := WrapAdd(now, s.interval));
    if room < FrameLen(s) then (slots[i := Some(moved)], None)
    else (slots[i := Some(moved.(number := NextNumber(s.number)))], Some(i))
  }

  /** The first slot that is due, if `i` is one. */
  ghost predicate FirstDueIs(slots: Slots, now: u32, i: nat) {
    && i < |slots| && slots[i].Some? && slots[i].value.nextDue <= now
    && forall j | 0 <= j < i :: slots[j].None? || slots[j].value.nextDue > now
  }

  /**
   * A poll moves the time of the first due stream by its interval whether or not there is room, counts
   * its number up only if its frame is written, and leaves every other slot alone.
   */
  lemma PollMovesFirstDue(slots: Slots, now: u32, room: nat, i: nat)
    requires ValidSlots(slots) && FirstDueIs(slots, now, i)
    ensures var s, fits := slots[i].value, FrameLen(slots[i].value) <= room;
      Poll(slots, now, room) ==
      (slots[i := Some(Stream(s.channels, s.interval, (now + s.interval) % 0x1_0000_0000,
                              if fits then (s.number + 1) % 0x1_0000 else s.number))],
       if fits then Some(i) else None)
  {
    hide FrameLen;
    var k := FirstDue(slots, now);
    if k < |slots| {
      assert Due(slots[k], now);
    }
    assert Due(slots[i], now) && k == i;
  }

  /** A poll that finds nothing due does nothing. */
  lemma PollFindsNothing(slots: Slots, now: u32, room: nat)
    requires ValidSlots(slots) && forall j | 0 <= j < |slots| :: slots[j].None? || slots[j].value.nextDue > now
    ensures Poll(slots, now, room) == (slots, None)
  {
  }

  /** Stream id, sequence number and time in front of the data section. */
  function FrameBody(id: byte, number: u16, now: u32, data: seq<byte>): seq<byte> {
    [id, Lo(number), Hi(number)] + Le32(now) + data
  }

  /** One body byte for byte: stream, number and time with their low bytes first, data. */
  lemma ExampleBody()
    ensures FrameBody(1, 0x0203, 0x0A0B_0C0D, [0xEE]) == [1, 3, 2, 0x0D, 0x0C, 0x0B, 0x0A, 0xEE]
  {
  }

  // ── The device ───────────────────────────────────────────────────────────

  lemma {:induction false} UnknownIsFirst(channels: seq<u16>, i: nat)
    requires i < |channels| && Known(channels[..i]) && ChannelWire(channels[i]).None?
    ensures FirstUnknown(channels) == i
  {
    if i == 0 {
    } else {
      assert channels[..i][0] == channels[0] && channels[..i][1..] == channels[1..][..i - 1];
      UnknownIsFirst(channels[1..], i - 1);
    }
  }

  lemma {:induction false} KnownHasNoUnknown(channels: seq<u16>)
    requires Known(channels)
    ensures FirstUnknown(channels) == |channels|
  {
  }

  lemma IntervalInRange(rate: nat)
    requires 1 <= rate <= MAX_RATE_HZ
    ensures 10 <= 1000 / rate <= 1000
  {
  }

  /** Bytes written and flags waiting once one more sample is packed. */
  function Push(done: seq<byte>, pending: seq<bool>, s: Sample): (r: (seq<byte>, seq<bool>))
    requires |pending| < 8 && ValidSample(s)
    ensures |r.1| < 8
  {
    if !s.Flag? then (done + NumberOf(s), pending)
    else if |pending| < 7 then (done, pending + [s.b])
    else (done + [ByteOf(pending + [s.b])], [])
  }

  ghost predicate Progress(out: array<byte>, start: nat, pos: nat, bitAcc: byte, bitCount: nat,
                           done: seq<byte>, pending: seq<bool>)
    reads out
  {
    && bitCount == |pending| && bitAcc == Sum(pending)
    && pos == start + |done| <= out.Length && out[start..pos] == done
  }

  method PutByte(out: array<byte>, start: nat, pos: nat, b: byte, ghost done: seq<byte>) returns (next: nat)
    requires start <= pos < out.Length && out[start..pos] == done
    modifies out
    ensures next == pos + 1 && out[start..next] == done + [b]
    ensures out[..start] == old(out[..start])
  {
    out[pos] := b;
    return pos + 1;
  }

  lemma EmptySum()
    ensures Sum([]) == 0
  {
  }

  method PackChannel(id: u16, snap: Snapshot, out: array<byte>, start: nat, pos0: nat, bitAcc0: byte, bitCount0: nat,
                     ghost done: seq<byte>, ghost pending: seq<bool>)
    returns (pos: nat, bitAcc: byte, bitCount: nat)
    requires ChannelWire(id).Some? && |pending| < 8 && Progress(out, start, pos0, bitAcc0, bitCount0, done, pending)
    requires start + |Push(done, pending, SampleOf(id, snap)).0| <= out.Length
    modifies out
    ensures out[..start] == old(out[..start])
    ensures var (bytes, bits) := Push(done, pending, SampleOf(id, snap));
      Progress(out, start, pos, bitAcc, bitCount, bytes, bits)
  {
    hide Quantise, Power, Sum;
    EmptySum();
    ghost var sample := SampleOf(id, snap);
    pos, bitAcc, bitCount := pos0, bitAcc0, bitCount0;
    match ChannelWire(id).value
    case Bit =>
      SumAppend(pending, sample.b);
      PowerMonotone(|pending| + 1, 8);
      if snap.flag(id) {
        bitAcc := bitAcc + Power(bitCount);
      }
      bitCount := bitCount + 1;
      if bitCount == 8 {
        pos := PutByte(out, start, pos, bitAcc, done);
        bitAcc := 0;
        bitCount := 0;
      }
    case _ =>
      var raw := Number(SampleOf(id, snap));
      pos := PutByte(out, start, pos, raw % 0x100, done);
      pos := PutByte(out, start, pos, raw / 0x100, done + [raw % 0x100]);
      assert done + [raw % 0x100] + [raw / 0x100] == done + NumberOf(sample);
  }

  lemma PackLast(done: seq<byte>, pending: seq<bool>, goal: seq<byte>)
    requires |pending| < 8 && done + Packed([], pending) == goal
    ensures if pending == [] then done == goal
            else Sum(pending) < 0x100 && done + [Sum(pending)] == goal
  {
    PowerMonotone(|pending|, 8);
    assert done + [] == done;
  }

  /** Packing the first sample of some is pushing it with nothing written, and then packing the others. */
  lemma PackedByPush(samples: seq<Sample>, pending: seq<bool>)
    requires samples != [] && AllValid(samples) && |pending| < 8
    ensures var (bytes, bits) := Push([], pending, samples[0]);
      Packed(samples, pending) == bytes + Packed(samples[1..], bits)
  {
    hide ByteOf, NumberOf;
    var s := samples[0];
    if !s.Flag? {
      NothingInFront(NumberOf(s));
    } else if |pending| < 7 {
      NothingInFront(Packed(samples[1..], pending + [s.b]));
    } else {
      NothingInFront([ByteOf(pending + [s.b])]);
    }
  }

  lemma PushBehind(done: seq<byte>, pending: seq<bool>, s: Sample)
    requires |pending| < 8 && ValidSample(s)
    ensures var (bytes, bits) := Push([], pending, s);
      Push(done, pending, s) == (done + bytes, bits)
  {
    hide ByteOf, NumberOf;
    if !s.Flag? {
      NothingInFront(NumberOf(s));
    } else if |pending| == 7 {
      NothingInFront([ByteOf(pending + [s.b])]);
    } else {
      assert done + [] == done;
    }
  }

  lemma PackFirst(done: seq<byte>, rest: seq<Sample>, pending: seq<bool>, goal: seq<byte>)
    requires rest != [] && AllValid(rest) && |pending| < 8
    requires done + Packed(rest, pending) == goal
    ensures var (bytes, bits) := Push(done, pending, rest[0]);
      bytes + Packed(rest[1..], bits) == goal && |bytes| <= |goal|
  {
    hide Packed, Push;
    var (bytes, bits) := Push([], pending, rest[0]);
    PackedByPush(rest, pending);
    PushBehind(done, pending, rest[0]);
    Regrouped(done, bytes, Packed(rest[1..], bits));
  }

  /** The loop that packs the data section behind the first `start` bytes of `out`. */
  method PackInto(channels: seq<u16>, snap: Snapshot, out: array<byte>, start: nat) returns (pos: nat)
    requires Known(channels) && start + DataLen(WiresOf(channels)) <= out.Length
    modifies out
    ensures pos == start + DataLen(WiresOf(channels)) <= out.Length
    ensures out[..start] == old(out[..start])
    ensures out[start..pos] == Packed(SamplesOf(channels, snap), [])
  {
    hide Packed, Push, SampleOf, ByteOf;
    ghost var samples := SamplesOf(channels, snap);
    ghost var goal, done, pending, rest := Packed(samples, []), [], [], samples;
    assert WiresIn(samples) == WiresOf(channels);
    PackedLength(samples, []);
    pos := start;
    var bitAcc: byte, bitCount := 0, 0;
    for i := 0 to |channels|
      invariant rest == samples[i..] && |pending| < 8
      invariant Progress(out, start, pos, bitAcc, bitCount, done, pending)
      invariant out[..start] == old(out[..start])
      invariant done + Packed(rest, pending) == goal && start + |goal| <= out.Length
    {
      PackFirst(done, rest, pending, goal);
      pos, bitAcc, bitCount := PackChannel(channels[i], snap, out, start, pos, bitAcc, bitCount, done, pending);
      ghost var step := Push(done, pending, samples[i]);
      done, pending, rest := step.0, step.1, rest[1..];
    }
    PackLast(done, pending, goal);
    if bitCount > 0 {
      pos := PutByte(out, start, pos, bitAcc, done);
    }
  }

  method WriteFrame(id: byte, s: Stream, snap: Snapshot, now: u32, out: array<byte>) returns (n: nat)
    requires ValidStream(s) && FrameLen(s) <= out.Length
    modifies out
    ensures n == FrameLen(s) <= out.Length
    ensures out[..n] == FrameBody(id, s.number, now, Packed(SamplesOf(s.channels, snap), []))
  {
    out[0] := id;
    out[1] := s.number % 0x100;
    out[2] := s.number / 0x100;
    out[3] := now % 0x100;
    out[4] := now / 0x100 % 0x100;
    out[5] := now / 0x1_0000 % 0x100;
    out[6] := now / 0x100_0000;
    ghost var head := [id, Lo(s.number), Hi(s.number)] + Le32(now);
    assert out[..BODY_HEADER] == head;
    n := PackInto(s.channels, snap, out, BODY_HEADER);
    assert out[..n] == out[..BODY_HEADER] + out[BODY_HEADER..n];
  }

  class TelemetryStreams {
    var slots: Slots

    ghost predicate Valid()
      reads this
    {
      ValidSlots(slots)
    }

    constructor ()
      ensures Valid() && slots == [None, None, None, None]
    {
      slots := [None, None, None, None];
    }

    method Subscribe(channels: seq<u16>, rate: u16, now: u32) returns (r: Result<(byte, u16), SubscribeError>)
      requires Valid()
      modifies this
      ensures Valid() && (slots, r) == Subscribed(old(slots), channels, rate, now)
    {
      if |channels| > MAX_STREAM_CHANNELS {
        return Err(TooManyChannels);
      }
      for i := 0 to |channels|
        invariant Known(channels[..i])
      {
        if ChannelWire(channels[i]).None? {
          UnknownIsFirst(channels, i);
          return Err(BadChannel(channels[i]));
        }
      }
      assert channels[..|channels|] == channels;
      KnownHasNoUnknown(channels);
      var actual := if rate < 1 then 1 else if rate > MAX_RATE_HZ then MAX_RATE_HZ else rate;
      var idx := 0;
      while idx < |slots| && slots[idx].Some?
        invariant idx <= |slots| && forall j | 0 <= j < idx :: slots[j].Some?
      {
        idx := idx + 1;
      }
      assert idx == FirstFree(slots);
      if idx == |slots| {
        return Err(NoFreeStream);
      }
      IntervalInRange(actual);
      slots := slots[idx := Some(Stream(channels, 1000 / actual, now, 0))];
      return Ok((idx + 1, actual));
    }

    method Unsubscribe(id: byte) returns (found: bool)
      requires Valid()
      modifies this
      ensures Valid() && found == (1 <= id <= MAX_STREAMS && old(slots)[id - 1].Some?)
      ensures slots == if found then old(slots)[id - 1 := None] else old(slots)
    {
      if id < 1 || id > |slots| || slots[id - 1].None? {
        return false;
      }
      slots := slots[id - 1 := None];
      return true;
    }

    method EncodeDueFrame(snap: Snapshot, now: u32, out: array<byte>) returns (r: Option<nat>)
      requires Valid()
      modifies this, out
      ensures Valid()
      ensures var (next, written) := Poll(old(slots), now, out.Length);
        && slots == next
        && r.Some? == written.Some?
        && (written.Some? ==>
              var s := old(slots)[written.value].value;
              && r.value == FrameLen(s) <= out.Length
              && out[..r.value] == FrameBody(written.value + 1, s.number, now, Packed(SamplesOf(s.channels, snap), [])))
      ensures r.None? ==> out[..] == old(out[..])
    {
      hide Packed, FrameBody, DataLen, WiresOf, SamplesOf, Known;
      var idx := 0;
      while idx < |slots| && !(slots[idx].Some? && slots[idx].value.nextDue <= now)
        invariant idx <= |slots| && forall j | 0 <= j < idx :: !Due(slots[j], now)
      {
        idx := idx + 1;
      }
      assert idx == FirstDue(slots, now);
      if idx == |slots| {
        return None;
      }
      var s := slots[idx].value;
      slots := slots[idx := Some(s.(nextDue := (now + s.interval) % 0x1_0000_0000))];
      var dataLen := PackedDataLen(s.channels);
      if out.Length < BODY_HEADER + dataLen {
        return None;
      }
      slots := slots[idx := Some(slots[idx].value.(number := (s.number + 1) % 0x1_0000))];
      var n := WriteFrame(idx + 1, s, snap, now, out);
      return Some(n);
    }
  }
}
