/**
 * Rates over whole runs of polls (engine-core/src/comms/telemetry.rs) and the loop that drains what
 * is due (sim/src/serve.rs). The time of the next frame wraps at 2^32 ms and is compared without
 * wrapping; the lemmas say exactly what that breaks.
 */
module Schedule {
  import opened Bytes
  import opened Telemetry
  import opened Streams

  // ── Any run of polls ─────────────────────────────────────────────────────

  datatype PollAt = PollAt(now: u32, room: nat)

  datatype Emission = Emission(number: u16, time: u32)

  /** The frames of slot `i` over a run of polls. */
  ghost function Emitted(slots: Slots, polls: seq<PollAt>, i: nat): seq<Emission>
    requires ValidSlots(slots) && i < MAX_STREAMS
    decreases |polls|
  {
    if polls == [] then [] else
    var (next, written) := Poll(slots, polls[0].now, polls[0].room);
    (if written == Some(i) then [Emission(slots[i].value.number, polls[0].now)] else []) + Emitted(next, polls[1..], i)
  }

  ghost predicate NonDecreasing(polls: seq<PollAt>) {
    forall j, k | 0 <= j < k < |polls| :: polls[j].now <= polls[k].now
  }

  ghost predicate NoWrap(polls: seq<PollAt>, interval: nat) {
    forall j | 0 <= j < |polls| :: polls[j].now + interval < 0x1_0000_0000
  }

  /** Frames numbered without a gap, at least `interval` apart, none before `earliest`. */
  ghost predicate Paced(frames: seq<Emission>, number: nat, interval: nat, earliest: nat) {
    && (forall k | 0 <= k < |frames| :: frames[k].number == (number + k) % 0x1_0000)
    && (forall k | 0 <= k < |frames| - 1 :: frames[k].time + interval <= frames[k + 1].time)
    && (frames != [] ==> earliest <= frames[0].time)
  }

  lemma NothingPaced(s: Stream)
    ensures Paced([], s.number, s.interval, s.nextDue)
  {
  }

  lemma PacedEarlier(frames: seq<Emission>, number: nat, interval: nat, late: nat, early: nat)
    requires Paced(frames, number, interval, late) && early <= late
    ensures Paced(frames, number, interval, early)
  {
  }

  lemma PollsLater(polls: seq<PollAt>, interval: nat)
    requires polls != [] && NonDecreasing(polls) && NoWrap(polls, interval)
    ensures NonDecreasing(polls[1..]) && NoWrap(polls[1..], interval) && polls[0].now + interval < 0x1_0000_0000
  {
  }

  /** What a poll does to one stream. */
  lemma PollSlot(slots: Slots, now: u32, room: nat, i: nat)
    requires ValidSlots(slots) && i < MAX_STREAMS && slots[i].Some? && now + slots[i].value.interval < 0x1_0000_0000
    ensures var (next, written) := Poll(slots, now, room);
      var s := slots[i].value;
      && next[i].Some? && next[i].value.interval == s.interval
      && (if written == Some(i)
          then s.nextDue <= now && next[i].value.nextDue == now + s.interval && next[i].value.number == NextNumber(s.number)
          else next[i].value.nextDue >= s.nextDue && next[i].value.number == s.number)
  {
  }

  lemma PacedCons(now: u32, later: seq<Emission>, number: u16, interval: nat, due: nat)
    requires Paced(later, NextNumber(number), interval, now + interval) && due <= now
    ensures Paced([Emission(number, now)] + later, number, interval, due)
  {
    var frames := [Emission(number, now)] + later;
    forall k | 0 <= k < |frames| ensures frames[k].number == (number + k) % 0x1_0000 {
      if k > 0 {
        assert frames[k] == later[k - 1];
        assert (NextNumber(number) + (k - 1)) % 0x1_0000 == (number + k) % 0x1_0000;
      }
    }
    forall k | 0 <= k < |frames| - 1 ensures frames[k].time + interval <= frames[k + 1].time {
      assert frames[k + 1] == later[k];
      if k > 0 {
        assert frames[k] == later[k - 1];
      }
    }
  }

  /**
   * Whatever the polls and however much room each of them has: frames of one stream are at least
   * its interval apart and their numbers have no gap.
   */
  lemma {:induction false} StreamIsPaced(slots: Slots, polls: seq<PollAt>, i: nat)
    requires ValidSlots(slots) && i < MAX_STREAMS && slots[i].Some?
    requires NonDecreasing(polls) && NoWrap(polls, slots[i].value.interval)
    ensures Paced(Emitted(slots, polls, i), slots[i].value.number, slots[i].value.interval, slots[i].value.nextDue)
    decreases |polls|
  {
    hide Poll, Paced, NoWrap, NonDecreasing;
    if polls == [] {
      NothingPaced(slots[i].value);
    } else {
      PollsLater(polls, slots[i].value.interval);
      PollSlot(slots, polls[0].now, polls[0].room, i);
      var (next, written) := Poll(slots, polls[0].now, polls[0].room);
      var s, later := slots[i].value, Emitted(next, polls[1..], i);
      StreamIsPaced(next, polls[1..], i);
      if written == Some(i) {
        PacedCons(polls[0].now, later, s.number, s.interval, s.nextDue);
      } else {
        PacedEarlier(later, s.number, s.interval, next[i].value.nextDue, s.nextDue);
        assert [] + later == later;
      }
    }
  }

  /** A stream that has just been sent is due again at the same time exactly if its next time wraps. */
  lemma DueAgainAtOnceIffWraps(slots: Slots, now: u32, room: nat)
    requires ValidSlots(slots) && Poll(slots, now, room).1.Some?
    ensures var (next, written) := Poll(slots, now, room);
      var s := slots[written.value].value;
      Due(next[written.value], now) <==> now + s.interval >= 0x1_0000_0000
  {
  }

  // ── Draining everything that is due ──────────────────────────────────────

  function Advanced(s: Stream, now: u32): Stream {
    s.(nextDue := WrapAdd(now, s.interval), number := NextNumber(s.number))
  }

  function Drained(slots: Slots, now: u32): (r: Slots)
    ensures |r| == |slots|
  {
    seq(|slots|, i requires 0 <= i < |slots| => if Due(slots[i], now) then Some(Advanced(slots[i].value, now)) else slots[i])
  }

  ghost function FrameOf(s: Stream, id: byte, snap: Snapshot, now: u32): seq<byte>
    requires ValidStream(s)
  {
    FrameBody(id, s.number, now, Packed(SamplesOf(s.channels, snap), []))
  }

  /** One frame for each due slot, in slot order; the first slot has stream number `id`. */
  ghost function DueFrames(slots: Slots, id: nat, snap: Snapshot, now: u32): seq<seq<byte>>
    requires id + |slots| <= 0x100 && forall i | 0 <= i < |slots| && slots[i].Some? :: ValidStream(slots[i].value)
  {
    if slots == [] then [] else
    (if Due(slots[0], now) then [FrameOf(slots[0].value, id, snap, now)] else []) +
    DueFrames(slots[1..], id + 1, snap, now)
  }

  /** The due streams stay behind the clock, so one frame is enough. */
  ghost predicate ClockHolds(slots: Slots, now: u32) {
    forall i | 0 <= i < |slots| && Due(slots[i], now) :: now + slots[i].value.interval < 0x1_0000_0000
  }

  function DueCount(slots: Slots, now: u32): nat {
    if slots == [] then 0 else (if Due(slots[0], now) then 1 else 0) + DueCount(slots[1..], now)
  }

  const ROOM := 39

  lemma {:induction false} CountsTotal(wires: seq<WireType>)
    ensures Numbers(wires) + Flags(wires) == |wires|
  {
    if wires == [] {
    } else {
      CountsTotal(wires[1..]);
    }
  }

  lemma FrameFits(s: Stream)
    requires ValidStream(s)
    ensures FrameLen(s) <= ROOM
  {
    CountsTotal(WiresOf(s.channels));
  }

  lemma PollStep(slots: Slots, now: u32, room: nat)
    requires ValidSlots(slots) && room >= ROOM
    ensures var i := FirstDue(slots, now);
      Poll(slots, now, room) ==
      if i == |slots| then (slots, None) else (slots[i := Some(Advanced(slots[i].value, now))], Some(i))
  {
    var i := FirstDue(slots, now);
    if i < |slots| {
      FrameFits(slots[i].value);
    }
  }

  lemma {:induction false} DrainStep(slots: Slots, id: nat, snap: Snapshot, now: u32)
    requires id + |slots| <= 0x100 && forall i | 0 <= i < |slots| && slots[i].Some? :: ValidStream(slots[i].value)
    requires ClockHolds(slots, now)
    ensures var i := FirstDue(slots, now);
      i < |slots| ==>
        var next := slots[i := Some(Advanced(slots[i].value, now))];
        && ClockHolds(next, now) && Drained(next, now) == Drained(slots, now) && DueCount(next, now) < DueCount(slots, now)
        && DueFrames(slots, id, snap, now) == [FrameOf(slots[i].value, id + i, snap, now)] + DueFrames(next, id, snap, now)
  {
    hide FrameOf;
    var i := FirstDue(slots, now);
    if i == |slots| {
    } else {
      var next := slots[i := Some(Advanced(slots[i].value, now))];
      assert !Due(next[i], now);
      assert Drained(next, now) == Drained(slots, now);
      if i == 0 {
        assert next[1..] == slots[1..];
      } else {
        assert next[1..] == slots[1..][i - 1 := Some(Advanced(slots[i].value, now))];
        assert forall j | 0 <= j < |slots[1..]| :: slots[1..][j] == slots[j + 1];
        DrainStep(slots[1..], id + 1, snap, now);
      }
    }
  }

  lemma {:induction false} NothingDue(slots: Slots, id: nat, snap: Snapshot, now: u32)
    requires id + |slots| <= 0x100 && forall i | 0 <= i < |slots| && slots[i].Some? :: ValidStream(slots[i].value)
    requires FirstDue(slots, now) == |slots|
    ensures DueFrames(slots, id, snap, now) == [] && Drained(slots, now) == slots && DueCount(slots, now) == 0
  {
    if slots == [] {
    } else {
      assert forall j | 0 <= j < |slots[1..]| :: slots[1..][j] == slots[j + 1];
      NothingDue(slots[1..], id + 1, snap, now);
    }
    assert Drained(slots, now) == slots;
  }

  /** What a poll with room leaves: nothing is due, or the frame of the first due slot is in `out`. */
  ghost predicate Polled(before: Slots, after: Slots, n: Option<nat>, out: seq<byte>, snap: Snapshot, now: u32)
    requires ValidSlots(before)
  {
    var i := FirstDue(before, now);
    if n.None? then i == |before| && after == before
    else
      && i < |before| && after == before[i := Some(Advanced(before[i].value, now))]
      && n.value <= |out| && out[..n.value] == FrameOf(before[i].value, i + 1, snap, now)
  }

  method PollWithRoom(streams: TelemetryStreams, snap: Snapshot, now: u32, push: array<byte>) returns (n: Option<nat>)
    requires streams.Valid() && push.Length >= ROOM
    modifies streams, push
    ensures streams.Valid() && Polled(old(streams.slots), streams.slots, n, push[..], snap, now)
  {
    hide Poll, Packed, FrameBody;
    PollStep(streams.slots, now, push.Length);
    n := streams.EncodeDueFrame(snap, now, push);
    if n.Some? {
      assert push[..][..n.value] == push[..n.value];
    }
  }

  lemma PolledMore(before: Slots, after: Slots, n: Option<nat>, out: seq<byte>, sent: seq<seq<byte>>, snap: Snapshot, now: u32)
    requires ValidSlots(before) && ValidSlots(after) && ClockHolds(before, now)
    requires Polled(before, after, n, out, snap, now) && n.Some?
    ensures n.value <= |out|
    ensures ClockHolds(after, now) && Drained(after, now) == Drained(before, now) && DueCount(after, now) < DueCount(before, now)
    ensures sent + [out[..n.value]] + DueFrames(after, 1, snap, now) == sent + DueFrames(before, 1, snap, now)
  {
    hide FrameOf, DueFrames, Drained, DueCount, ClockHolds;
    DrainStep(before, 1, snap, now);
    Regrouped(sent, [out[..n.value]], DueFrames(after, 1, snap, now));
  }

  /** With room for a frame, the loop ends with each due stream sent exactly once, in slot order. */
  method Drain(streams: TelemetryStreams, snap: Snapshot, now: u32, push: array<byte>) returns (sent: seq<seq<byte>>)
    requires streams.Valid() && push.Length >= ROOM && ClockHolds(streams.slots, now)
    modifies streams, push
    ensures streams.Valid() && streams.slots == Drained(old(streams.slots), now)
    ensures sent == DueFrames(old(streams.slots), 1, snap, now)
  {
    hide DueFrames, Drained, DueCount, ClockHolds, FrameOf;
    sent := [];
    ghost var before := streams.slots;
    ghost var all, last := DueFrames(before, 1, snap, now), Drained(before, now);
    var n := PollWithRoom(streams, snap, now, push);
    assert sent + all == all;
    while n.Some?
      invariant streams.Valid() && ValidSlots(before)
      invariant ClockHolds(before, now) && Drained(before, now) == last
      invariant sent + DueFrames(before, 1, snap, now) == all
      invariant Polled(before, streams.slots, n, push[..], snap, now)
      decreases DueCount(before, now)
    {
      PolledMore(before, streams.slots, n, push[..], sent, snap, now);
      sent := sent + [push[..][..n.value]];
      before := streams.slots;
      n := PollWithRoom(streams, snap, now, push);
    }
    NothingDue(before, 1, snap, now);
    assert sent + [] == sent;
  }

  // ── ... which ends only while the clock does not wrap ────────────────────

  /** The schedule after `n` polls at one time. */
  ghost function AfterPolls(slots: Slots, now: u32, room: nat, n: nat): (r: Slots)
    requires ValidSlots(slots)
    ensures ValidSlots(r)
    decreases n
  {
    if n == 0 then slots else AfterPolls(Poll(slots, now, room).0, now, room, n - 1)
  }

  /** The drain loop stops: some poll finds nothing due. */
  ghost predicate Stops(slots: Slots, now: u32, room: nat)
    requires ValidSlots(slots)
  {
    exists n: nat :: Poll(AfterPolls(slots, now, room, n), now, room).1.None?
  }

  lemma {:induction false} StopsWhenClockHolds(slots: Slots, now: u32, room: nat, snap: Snapshot)
    requires ValidSlots(slots) && room >= ROOM && ClockHolds(slots, now)
    ensures Stops(slots, now, room)
    decreases DueCount(slots, now)
  {
    hide Poll;
    PollStep(slots, now, room);
    var next := Poll(slots, now, room).0;
    if FirstDue(slots, now) < |slots| {
      DrainStep(slots, 1, snap, now);
      StopsWhenClockHolds(next, now, room, snap);
      var n: nat :| Poll(AfterPolls(next, now, room, n), now, room).1.None?;
      assert AfterPolls(slots, now, room, n + 1) == AfterPolls(next, now, room, n);
    } else {
      assert AfterPolls(slots, now, room, 0) == slots;
    }
  }

  lemma {:induction false} NeverStops(slots: Slots, now: u32, room: nat, i: nat, n: nat)
    requires ValidSlots(slots) && room >= ROOM
    requires i < |slots| && Due(slots[i], now) && now + slots[i].value.interval >= 0x1_0000_0000
    ensures Poll(AfterPolls(slots, now, room, n), now, room).1.Some?
    decreases n
  {
    hide Poll;
    PollStep(slots, now, room);
    if n == 0 {
    } else {
      NeverStops(Poll(slots, now, room).0, now, room, i, n - 1);
    }
  }

  /**
   * With room for a frame, draining stops exactly if no due stream would next be due after the
   * clock wraps: such a stream counts as due again at once.
   */
  lemma DrainStopsIffClockHolds(slots: Slots, now: u32, room: nat)
    requires ValidSlots(slots) && room >= ROOM
    ensures Stops(slots, now, room) <==> ClockHolds(slots, now)
  {
    if ClockHolds(slots, now) {
      StopsWhenClockHolds(slots, now, room, Snapshot(_ => NotANumber, _ => false));
    } else {
      var i :| 0 <= i < |slots| && Due(slots[i], now) && now + slots[i].value.interval >= 0x1_0000_0000;
      forall n: nat ensures Poll(AfterPolls(slots, now, room, n), now, room).1.Some? {
        NeverStops(slots, now, room, i, n);
      }
    }
  }

  // ── Over true time ───────────────────────────────────────────────────────

  /** The comparison at true time `t` for a stream due at true time `end`. */
  predicate DueAt(end: nat, t: nat) { end % CLOCK <= t % CLOCK }

  /** First poll that finds the stream due, or the number of polls. */
  function FirstFoundDue(end: nat, times: seq<nat>): (i: nat)
    ensures i <= |times| && forall j | 0 <= j < i :: !DueAt(end, times[j])
    ensures i < |times| ==> DueAt(end, times[i])
  {
    if times == [] || DueAt(end, times[0]) then 0 else 1 + FirstFoundDue(end, times[1..])
  }

  /** First poll at or after the time the stream is due, or the number of polls. */
  function FirstAtOrAfter(end: nat, times: seq<nat>): (i: nat)
    ensures i <= |times| && forall j | 0 <= j < i :: times[j] < end
    ensures i < |times| ==> times[i] >= end
  {
    if times == [] || times[0] >= end then 0 else 1 + FirstAtOrAfter(end, times[1..])
  }

  /** A stream sent at true time `sent` is found due by this comparison. */
  lemma DueByTrueTime(s: Stream, sent: nat, t: nat)
    ensures Due(Some(Advanced(s, sent % CLOCK)), t % CLOCK) <==> DueAt(sent + s.interval, t)
  {
    RemainderAdds(sent, s.interval);
  }

  lemma TurnsAndRemainders(a: nat, b: nat)
    ensures a == a / CLOCK * CLOCK + a % CLOCK && b == b / CLOCK * CLOCK + b % CLOCK
    ensures a / CLOCK < b / CLOCK ==> a < b
    ensures a <= b ==> a / CLOCK <= b / CLOCK
  {
  }

  /**
   * The comparison is right at a time in the same turn of the clock as the end of the interval. In an
   * earlier turn it always finds the stream due too early; in a later one it finds it due exactly if
   * the clock has come round past the end again.
   */
  lemma DueRightlyIff(sent: nat, interval: nat, t: nat)
    requires sent <= t && interval <= 1000
    ensures var end := sent + interval;
      (DueAt(end, t) <==> t >= end) <==>
      t / CLOCK == end / CLOCK || (t / CLOCK > end / CLOCK && t % CLOCK >= end % CLOCK)
  {
    var end := sent + interval;
    TurnsAndRemainders(t, end);
    TurnsAndRemainders(sent, end);
    TurnsAndRemainders(sent, t);
  }

  lemma EarlyPoll(sent: nat, interval: nat, t: nat)
    requires sent <= t < sent + interval && interval <= 1000
    ensures DueAt(sent + interval, t) <==> t / CLOCK != (sent + interval) / CLOCK
  {
    DueRightlyIff(sent, interval, t);
    TurnsAndRemainders(t, sent + interval);
  }

  lemma DueAtIs(end: nat, t: nat)
    ensures DueAt(end, t) <==> end % CLOCK <= t % CLOCK
  {
  }

  /**
   * Over any series of polls a stream is first found due by the first poll at or after the end of
   * its interval exactly if no poll falls in front of a wrap before that end, and that poll does not
   * come after a wrap with the clock not yet past the end again.
   */
  lemma FoundDueOnTimeIff(sent: nat, interval: nat, times: seq<nat>)
    requires interval <= 1000 && forall i | 0 <= i < |times| :: sent <= times[i]
    requires forall i, j | 0 <= i < j < |times| :: times[i] <= times[j]
    ensures var end := sent + interval;
      var on := FirstAtOrAfter(end, times);
      FirstFoundDue(end, times) == on <==>
      && (forall i | 0 <= i < on :: times[i] / CLOCK == end / CLOCK)
      && (on < |times| ==> times[on] % CLOCK >= end % CLOCK)
  {
    hide DueAt;
    var end := sent + interval;
    var on, found := FirstAtOrAfter(end, times), FirstFoundDue(end, times);
    forall i | 0 <= i < on ensures DueAt(end, times[i]) <==> times[i] / CLOCK != end / CLOCK {
      EarlyPoll(sent, interval, times[i]);
    }
    if on < |times| {
      DueAtIs(end, times[on]);
    }
  }

  /** Due one millisecond before the clock wraps and polled on both sides of it: not found due. */
  lemma NotFoundDueAfterWrap()
    ensures FirstFoundDue(CLOCK - 1, [CLOCK - 5, CLOCK + 5, CLOCK + 100_000]) == 3
  {
    assert !DueAt(CLOCK - 1, CLOCK - 5) && !DueAt(CLOCK - 1, CLOCK + 5) && !DueAt(CLOCK - 1, CLOCK + 100_000);
  }
}
