/**
 * Which stream a poll serves (engine-core/src/comms/telemetry.rs): one a poll, the first slot that
 * is due. The firmware polls once in 10 ms (stm32/src/main.rs), so lower slots can take every poll.
 */
module Service {
  import opened Bytes
  import opened Telemetry
  import opened Streams
  import opened Schedule

  // ── One poll ─────────────────────────────────────────────────────────────

  predicate LowerDue(slots: Slots, i: nat, now: u32)
    requires i <= |slots|
  {
    exists j | 0 <= j < i :: Due(slots[j], now)
  }

  /** The poll comes to slot `i`: it is due and no lower slot is. */
  predicate Reaches(slots: Slots, i: nat, now: u32)
    requires i < |slots|
  {
    Due(slots[i], now) && !LowerDue(slots, i, now)
  }

  lemma ReachesFirstDue(slots: Slots, i: nat, now: u32)
    requires i < |slots|
    ensures Reaches(slots, i, now) <==> FirstDue(slots, now) == i
    ensures LowerDue(slots, i, now) <==> FirstDue(slots, now) < i
  {
  }

  /** A poll sends the frame of a slot exactly if it is due, no lower slot is, and there is room. */
  lemma SentIff(slots: Slots, now: u32, room: nat, i: nat)
    requires ValidSlots(slots) && i < MAX_STREAMS
    ensures Poll(slots, now, room).1 == Some(i) <==> Reaches(slots, i, now) && FrameLen(slots[i].value) <= room
  {
    ReachesFirstDue(slots, i, now);
  }

  /** A poll that does not reach a slot leaves it alone. */
  lemma UnreachedStays(slots: Slots, now: u32, room: nat, i: nat)
    requires ValidSlots(slots) && i < MAX_STREAMS && !Reaches(slots, i, now)
    ensures Poll(slots, now, room).0[i] == slots[i]
  {
    ReachesFirstDue(slots, i, now);
  }

  /** A frame that is skipped for want of room is not sent before the interval has passed again. */
  lemma SkippedFrameWaits(slots: Slots, now: u32, room: nat, later: u32, i: nat)
    requires ValidSlots(slots) && FirstDueIs(slots, now, i) && room < FrameLen(slots[i].value)
    requires now + slots[i].value.interval < 0x1_0000_0000
    ensures var next := Poll(slots, now, room).0;
      forall roomier :: later < now + slots[i].value.interval ==> Poll(next, later, roomier).1 != Some(i)
  {
    PollMovesFirstDue(slots, now, room, i);
    var next := Poll(slots, now, room).0;
    forall roomier: nat ensures later < now + slots[i].value.interval ==> Poll(next, later, roomier).1 != Some(i) {
      SentIff(next, later, roomier, i);
    }
  }

  /** A stream just subscribed is sent by the first poll that has room and finds no lower slot due, under number 0. */
  lemma FreshStreamSentAtOnce(slots: Slots, channels: seq<u16>, rate: u16, now: u32, later: u32, room: nat)
    requires ValidSlots(slots) && now <= later && room >= ROOM
    requires Subscribed(slots, channels, rate, now).1.Ok? && ValidSlots(Subscribed(slots, channels, rate, now).0)
    ensures var (next, r) := Subscribed(slots, channels, rate, now);
      var i := r.value.0 - 1;
      && 0 <= i < 4 && next[i].Some? && next[i].value.number == 0
      && (Poll(next, later, room).1 == Some(i) <==> !LowerDue(next, i, later))
  {
    hide Subscribed;
    SubscribedStreamStarts(slots, channels, rate, now);
    var (next, r) := Subscribed(slots, channels, rate, now);
    var i := r.value.0 - 1;
    SentIff(next, later, room, i);
    FrameFits(next[i].value);
  }

  // ── The schedule during a run ────────────────────────────────────────────

  /** The schedule that poll `k` meets. */
  ghost function At(slots: Slots, polls: seq<PollAt>, k: nat): (r: Slots)
    requires ValidSlots(slots) && k <= |polls|
    ensures ValidSlots(r)
    decreases k
  {
    if k == 0 then slots else Poll(At(slots, polls, k - 1), polls[k - 1].now, polls[k - 1].room).0
  }

  ghost predicate ReachedAt(slots: Slots, polls: seq<PollAt>, i: nat, k: nat)
    requires ValidSlots(slots) && i < MAX_STREAMS && k < |polls|
  {
    Reaches(At(slots, polls, k), i, polls[k].now)
  }

  ghost predicate LowerDueAt(slots: Slots, polls: seq<PollAt>, i: nat, k: nat)
    requires ValidSlots(slots) && i < MAX_STREAMS && k < |polls|
  {
    LowerDue(At(slots, polls, k), i, polls[k].now)
  }

  lemma {:induction false} AtLater(slots: Slots, polls: seq<PollAt>, k: nat)
    requires ValidSlots(slots) && polls != [] && k < |polls|
    ensures At(slots, polls, k + 1) == At(Poll(slots, polls[0].now, polls[0].room).0, polls[1..], k)
  {
    hide Poll;
    if k == 0 {
      assert At(slots, polls, 0) == slots;
    } else {
      AtLater(slots, polls, k - 1);
      assert polls[1..][k - 1] == polls[k];
    }
  }

  /** Poll `k` sends the frame of slot `i`. */
  ghost predicate SentAt(slots: Slots, polls: seq<PollAt>, i: nat, k: nat)
    requires ValidSlots(slots) && i < MAX_STREAMS && k < |polls|
  {
    Poll(At(slots, polls, k), polls[k].now, polls[k].room).1 == Some(i)
  }

  lemma SentAtIff(slots: Slots, polls: seq<PollAt>, i: nat, k: nat)
    requires ValidSlots(slots) && i < MAX_STREAMS && k < |polls|
    ensures SentAt(slots, polls, i, k) <==>
            ReachedAt(slots, polls, i, k) && FrameLen(At(slots, polls, k)[i].value) <= polls[k].room
  {
    hide Poll, At;
    SentIff(At(slots, polls, k), polls[k].now, polls[k].room, i);
  }

  lemma SentLater(slots: Slots, polls: seq<PollAt>, i: nat, k: nat)
    requires ValidSlots(slots) && i < MAX_STREAMS && polls != [] && k < |polls[1..]|
    ensures SentAt(slots, polls, i, k + 1) <==> SentAt(Poll(slots, polls[0].now, polls[0].room).0, polls[1..], i, k)
  {
    hide Poll;
    AtLater(slots, polls, k);
    assert polls[1..][k] == polls[k + 1];
  }

  lemma SentFirst(slots: Slots, polls: seq<PollAt>, i: nat)
    requires ValidSlots(slots) && i < MAX_STREAMS && polls != []
    ensures SentAt(slots, polls, i, 0) <==> Poll(slots, polls[0].now, polls[0].room).1 == Some(i)
  {
    assert At(slots, polls, 0) == slots;
  }

  lemma EmittedStep(slots: Slots, polls: seq<PollAt>, i: nat)
    requires ValidSlots(slots) && i < MAX_STREAMS && polls != []
    ensures var (next, written) := Poll(slots, polls[0].now, polls[0].room);
      |Emitted(slots, polls, i)| == (if written == Some(i) then 1 else 0) + |Emitted(next, polls[1..], i)|
  {
    hide Poll;
  }

  lemma NoPolls(slots: Slots, i: nat)
    requires ValidSlots(slots) && i < MAX_STREAMS
    ensures Emitted(slots, [], i) == []
  {
  }

  /** The frames of a slot over a run are those of the polls that send it: none exactly if none does. */
  lemma {:induction false} NeverSentIff(slots: Slots, polls: seq<PollAt>, i: nat)
    requires ValidSlots(slots) && i < MAX_STREAMS
    ensures Emitted(slots, polls, i) == [] <==> forall k | 0 <= k < |polls| :: !SentAt(slots, polls, i, k)
    decreases |polls|
  {
    hide Poll, SentAt, Emitted;
    if polls == [] {
      NoPolls(slots, i);
    } else {
      var next := Poll(slots, polls[0].now, polls[0].room).0;
      EmittedStep(slots, polls, i);
      SentFirst(slots, polls, i);
      NeverSentIff(next, polls[1..], i);
      forall k | 0 <= k < |polls[1..]| ensures SentAt(next, polls[1..], i, k) <==> SentAt(slots, polls, i, k + 1) {
        SentLater(slots, polls, i, k);
      }
      if forall k | 0 <= k < |polls[1..]| :: !SentAt(next, polls[1..], i, k) {
        forall k | 0 < k < |polls| ensures !SentAt(slots, polls, i, k) {
          assert !SentAt(next, polls[1..], i, k - 1);
          assert (k - 1) + 1 == k;
        }
      }
    }
  }

  lemma AtStart(slots: Slots, polls: seq<PollAt>)
    requires ValidSlots(slots)
    ensures At(slots, polls, 0) == slots
  {
  }

  /** As long as no poll has reached it, a slot is as it was. */
  lemma {:induction false} UnreachedSoFar(slots: Slots, polls: seq<PollAt>, i: nat, k: nat)
    requires ValidSlots(slots) && i < MAX_STREAMS && k <= |polls|
    requires forall m | 0 <= m < k :: !ReachedAt(slots, polls, i, m)
    ensures At(slots, polls, k)[i] == slots[i]
  {
    hide Poll, Reaches;
    if k == 0 {
    } else {
      UnreachedSoFar(slots, polls, i, k - 1);
      assert !ReachedAt(slots, polls, i, k - 1);
      UnreachedStays(At(slots, polls, k - 1), polls[k - 1].now, polls[k - 1].room, i);
    }
  }

  ghost predicate Roomy(polls: seq<PollAt>) { forall k | 0 <= k < |polls| :: polls[k].room >= ROOM }

  // ── Starvation ───────────────────────────────────────────────────────────

  lemma ReachedIsSent(slots: Slots, polls: seq<PollAt>, i: nat, k: nat)
    requires ValidSlots(slots) && i < MAX_STREAMS && k < |polls| && polls[k].room >= ROOM
    ensures SentAt(slots, polls, i, k) <==> ReachedAt(slots, polls, i, k)
  {
    hide FrameLen, SentAt, At;
    SentAtIff(slots, polls, i, k);
    if ReachedAt(slots, polls, i, k) {
      FrameFits(At(slots, polls, k)[i].value);
    }
  }

  lemma UnreachedIfLowerDue(slots: Slots, polls: seq<PollAt>, i: nat, k: nat)
    requires ValidSlots(slots) && i < MAX_STREAMS && k < |polls| && LowerDueAt(slots, polls, i, k)
    ensures !ReachedAt(slots, polls, i, k)
  {
    hide At, LowerDue;
  }

  /** A slot still as at the first poll, where it was due, is due: only a lower one keeps a poll from it. */
  lemma UnreachedThough(slots: Slots, polls: seq<PollAt>, i: nat, k: nat)
    requires ValidSlots(slots) && i < MAX_STREAMS && k < |polls| && At(slots, polls, k)[i] == slots[i]
    requires Due(slots[i], polls[0].now) && polls[0].now <= polls[k].now && !ReachedAt(slots, polls, i, k)
    ensures LowerDueAt(slots, polls, i, k)
  {
    hide At, LowerDue;
  }

  /**
   * A stream that is due is sent nothing over a whole run, with room at every poll, exactly if
   * every poll finds a lower slot due.
   */
  lemma {:induction false} StarvedIffLowerAlwaysDue(slots: Slots, polls: seq<PollAt>, i: nat)
    requires ValidSlots(slots) && i < MAX_STREAMS && slots[i].Some? && NonDecreasing(polls) && Roomy(polls)
    requires polls != [] ==> Due(slots[i], polls[0].now)
    ensures Emitted(slots, polls, i) == [] <==> forall k | 0 <= k < |polls| :: LowerDueAt(slots, polls, i, k)
  {
    hide ReachedAt, SentAt, LowerDueAt, At, Emitted, Due;
    NeverSentIff(slots, polls, i);
    forall k | 0 <= k < |polls| ensures SentAt(slots, polls, i, k) <==> ReachedAt(slots, polls, i, k) {
      assert polls[k].room >= ROOM;
      ReachedIsSent(slots, polls, i, k);
    }
    forall k | 0 <= k < |polls| && LowerDueAt(slots, polls, i, k) ensures !ReachedAt(slots, polls, i, k) {
      UnreachedIfLowerDue(slots, polls, i, k);
    }
    if forall k | 0 <= k < |polls| :: !ReachedAt(slots, polls, i, k) {
      forall k | 0 <= k < |polls| ensures LowerDueAt(slots, polls, i, k) {
        UnreachedSoFar(slots, polls, i, k);
        assert polls[0].now <= polls[k].now;
        UnreachedThough(slots, polls, i, k);
      }
    }
  }

  /** Every gap between polls is at least the interval. */
  ghost predicate SlowPolls(polls: seq<PollAt>, interval: nat) {
    forall k | 0 <= k < |polls| - 1 :: polls[k].now + interval <= polls[k + 1].now
  }

  /** Below slot `i` only slot `j` is in use. */
  ghost predicate OnlyLower(slots: Slots, i: nat, j: nat)
    requires i < |slots|
  {
    j < i && slots[j].Some? && forall m | 0 <= m < i && m != j :: slots[m].None?
  }

  /** One poll that finds the only lower slot due serves it. */
  lemma OnlyLowerServed(slots: Slots, now: u32, room: nat, i: nat, j: nat)
    requires ValidSlots(slots) && i < MAX_STREAMS && OnlyLower(slots, i, j) && Due(slots[j], now) && room >= ROOM
    requires now + slots[j].value.interval < 0x1_0000_0000
    ensures var next := Poll(slots, now, room).0;
      && OnlyLower(next, i, j) && next[j].value.interval == slots[j].value.interval
      && next[j].value.nextDue == now + slots[j].value.interval
  {
    ReachesFirstDue(slots, j, now);
    PollStep(slots, now, room);
  }

  lemma {:induction false} OnlyLowerDueWhile(slots: Slots, polls: seq<PollAt>, i: nat, j: nat, k: nat)
    requires ValidSlots(slots) && i < MAX_STREAMS && OnlyLower(slots, i, j) && Roomy(polls) && k < |polls|
    requires NoWrap(polls, slots[j].value.interval) && Due(slots[j], polls[0].now)
    requires forall m | 0 <= m < k :: polls[m].now + slots[j].value.interval <= polls[m + 1].now
    ensures var now := At(slots, polls, k);
      OnlyLower(now, i, j) && Due(now[j], polls[k].now) && now[j].value.interval == slots[j].value.interval
  {
    hide Poll;
    if k == 0 {
    } else {
      OnlyLowerDueWhile(slots, polls, i, j, k - 1);
      OnlyLowerServed(At(slots, polls, k - 1), polls[k - 1].now, polls[k - 1].room, i, j);
      assert polls[k - 1].now + slots[j].value.interval <= polls[k - 1 + 1].now;
    }
  }

  lemma {:induction false} FirstQuickGap(polls: seq<PollAt>, interval: nat) returns (k: nat)
    requires !SlowPolls(polls, interval)
    ensures k < |polls| - 1 && polls[k].now + interval > polls[k + 1].now
    ensures forall m | 0 <= m < k :: polls[m].now + interval <= polls[m + 1].now
  {
    k := 0;
    while polls[k].now + interval <= polls[k + 1].now
      invariant k < |polls| - 1
      invariant forall m | 0 <= m < k :: polls[m].now + interval <= polls[m + 1].now
      decreases |polls| - k
    {
      k := k + 1;
      if k == |polls| - 1 {
        assert SlowPolls(polls, interval);
      }
    }
  }

  lemma QuickGapReaches(slots: Slots, polls: seq<PollAt>, i: nat, j: nat, k: nat)
    requires ValidSlots(slots) && i < MAX_STREAMS && OnlyLower(slots, i, j) && Roomy(polls)
    requires polls != [] && NoWrap(polls, slots[j].value.interval) && Due(slots[j], polls[0].now)
    requires k < |polls| - 1 && polls[k].now + slots[j].value.interval > polls[k + 1].now
    requires forall m | 0 <= m < k :: polls[m].now + slots[j].value.interval <= polls[m + 1].now
    ensures !LowerDueAt(slots, polls, i, k + 1)
  {
    hide Poll;
    OnlyLowerDueWhile(slots, polls, i, j, k);
    OnlyLowerServed(At(slots, polls, k), polls[k].now, polls[k].room, i, j);
    assert At(slots, polls, k + 1) == Poll(At(slots, polls, k), polls[k].now, polls[k].room).0;
  }

  /**
   * With a single stream in a lower slot, both due at the first poll, the higher stream is sent
   * nothing exactly if every gap between polls is at least the lower stream's interval.
   */
  lemma {:induction false} StarvedByOneIffSlowPolls(slots: Slots, polls: seq<PollAt>, i: nat, j: nat)
    requires ValidSlots(slots) && i < MAX_STREAMS && slots[i].Some? && OnlyLower(slots, i, j)
    requires polls != [] && NonDecreasing(polls) && Roomy(polls) && NoWrap(polls, slots[j].value.interval)
    requires Due(slots[i], polls[0].now) && Due(slots[j], polls[0].now)
    ensures Emitted(slots, polls, i) == [] <==> SlowPolls(polls, slots[j].value.interval)
  {
    hide Due, At, NoWrap;
    var interval := slots[j].value.interval;
    StarvedIffLowerAlwaysDue(slots, polls, i);
    if SlowPolls(polls, interval) {
      forall k | 0 <= k < |polls| ensures LowerDueAt(slots, polls, i, k) {
        OnlyLowerDueWhile(slots, polls, i, j, k);
      }
    } else {
      var k := FirstQuickGap(polls, interval);
      QuickGapReaches(slots, polls, i, j, k);
    }
  }

  function TenMilliseconds(n: nat): (polls: seq<PollAt>)
    requires 100 + 10 * n < 0x1_0000_0000
    ensures |polls| == n && forall k | 0 <= k < n :: polls[k] == PollAt(100 + 10 * k, 1000)
  {
    seq(n, k requires 0 <= k < n => PollAt(100 + 10 * k, 1000))
  }

  /** Two streams at 100 Hz, polled every 10 ms as the firmware does: the second is never sent. */
  lemma SecondStreamStarves(channels: seq<u16>, n: nat)
    requires Known(channels) && |channels| <= MAX_STREAM_CHANNELS && 0 < n && 100 + 10 * n < 0x1_0000_0000
    ensures var s := Some(Advanced(Stream(channels, 10, 90, 0), 90));
      ValidSlots([s, s, None, None]) && Emitted([s, s, None, None], TenMilliseconds(n), 1) == []
  {
    var s := Some(Advanced(Stream(channels, 10, 90, 0), 90));
    var slots, polls: seq<PollAt> := [s, s, None, None], TenMilliseconds(n);
    assert s.value == Stream(channels, 10, 100, 1);
    StarvedByOneIffSlowPolls(slots, polls, 1, 0);
  }

  // ── Enough polls ─────────────────────────────────────────────────────────

  /** Frames of the slots below `i` over a run. */
  ghost function LowerFrames(slots: Slots, polls: seq<PollAt>, i: nat): nat
    requires ValidSlots(slots) && i <= MAX_STREAMS
  {
    if i == 0 then 0 else LowerFrames(slots, polls, i - 1) + |Emitted(slots, polls, i - 1)|
  }

  /** Frames that the streams below `i` can have over a span of time. */
  function Budget(slots: Slots, i: nat, span: nat): nat
    requires i <= |slots| && forall j | 0 <= j < i && slots[j].Some? :: slots[j].value.interval > 0
  {
    if i == 0 then 0
    else Budget(slots, i - 1, span) + (if slots[i - 1].Some? then 1 + span / slots[i - 1].value.interval else 0)
  }

  lemma {:induction false} FirstPollCounts(slots: Slots, polls: seq<PollAt>, i: nat, j: nat)
    requires ValidSlots(slots) && i <= MAX_STREAMS && polls != []
    requires Poll(slots, polls[0].now, polls[0].room).1 == Some(j)
    ensures LowerFrames(slots, polls, i) ==
            (if j < i then 1 else 0) + LowerFrames(Poll(slots, polls[0].now, polls[0].room).0, polls[1..], i)
  {
    hide Poll, Emitted;
    if i == 0 {
    } else {
      EmittedStep(slots, polls, i - 1);
      FirstPollCounts(slots, polls, i - 1, j);
    }
  }

  lemma {:induction false} NoFrames(slots: Slots, i: nat)
    requires ValidSlots(slots) && i <= MAX_STREAMS
    ensures LowerFrames(slots, [], i) == 0
  {
    if i == 0 {
    } else {
      NoFrames(slots, i - 1);
    }
  }

  /** If every poll finds a slot below `i` due, each of them sends one frame of these slots. */
  lemma {:induction false} LowerTakeEveryPoll(slots: Slots, polls: seq<PollAt>, i: nat)
    requires ValidSlots(slots) && i < MAX_STREAMS && Roomy(polls)
    requires forall k | 0 <= k < |polls| :: LowerDueAt(slots, polls, i, k)
    ensures LowerFrames(slots, polls, i) == |polls|
    decreases |polls|
  {
    hide Poll, LowerDue;
    if polls == [] {
      NoFrames(slots, i);
    } else {
      AtStart(slots, polls);
      assert LowerDueAt(slots, polls, i, 0);
      PollStep(slots, polls[0].now, polls[0].room);
      ReachesFirstDue(slots, i, polls[0].now);
      var next := Poll(slots, polls[0].now, polls[0].room).0;
      forall k | 0 <= k < |polls[1..]| ensures LowerDueAt(next, polls[1..], i, k) {
        AtLater(slots, polls, k);
        assert LowerDueAt(slots, polls, i, k + 1);
      }
      LowerTakeEveryPoll(next, polls[1..], i);
      FirstPollCounts(slots, polls, i, FirstDue(slots, polls[0].now));
    }
  }

  lemma {:induction false} EmptySlotSendsNothing(slots: Slots, polls: seq<PollAt>, j: nat)
    requires ValidSlots(slots) && j < MAX_STREAMS && slots[j].None?
    ensures Emitted(slots, polls, j) == []
    decreases |polls|
  {
    if polls == [] {
    } else {
      EmptySlotSendsNothing(Poll(slots, polls[0].now, polls[0].room).0, polls[1..], j);
    }
  }

  lemma {:induction false} PacedFrom(frames: seq<Emission>, number: nat, interval: nat, earliest: nat, k: nat)
    requires Paced(frames, number, interval, earliest) && k < |frames|
    ensures frames[0].time + k * interval <= frames[k].time
  {
    if k == 0 {
    } else {
      PacedFrom(frames, number, interval, earliest, k - 1);
      assert frames[k - 1].time + interval <= frames[k - 1 + 1].time;
      assert k * interval == (k - 1) * interval + interval;
    }
  }

  lemma {:induction false} SentDuringRun(slots: Slots, polls: seq<PollAt>, j: nat, k: nat)
    requires ValidSlots(slots) && j < MAX_STREAMS && NonDecreasing(polls) && k < |Emitted(slots, polls, j)|
    ensures polls != [] && polls[0].now <= Emitted(slots, polls, j)[k].time <= polls[|polls| - 1].now
    decreases |polls|
  {
    hide Poll;
    if polls == [] {
    } else {
      var (next, written) := Poll(slots, polls[0].now, polls[0].room);
      var later := Emitted(next, polls[1..], j);
      assert forall a, b | 0 <= a < b < |polls[1..]| :: polls[1..][a].now <= polls[1..][b].now;
      if written == Some(j) {
        assert Emitted(slots, polls, j) == [Emission(slots[j].value.number, polls[0].now)] + later;
        if k > 0 {
          SentDuringRun(next, polls[1..], j, k - 1);
        }
      } else {
        assert Emitted(slots, polls, j) == [] + later == later;
        SentDuringRun(next, polls[1..], j, k);
      }
    }
  }

  lemma FitsSpan(n: nat, interval: nat, span: nat)
    requires interval > 0 && n * interval <= span
    ensures n <= span / interval
  {
    var q := span / interval;
    assert span == q * interval + span % interval;
    if n > q {
      ProductMonotone(q + 1, n, interval);
    }
  }

  lemma FewFrames(slots: Slots, polls: seq<PollAt>, j: nat)
    requires ValidSlots(slots) && j < MAX_STREAMS && polls != [] && NonDecreasing(polls) && NoWrap(polls, 1000)
    ensures |Emitted(slots, polls, j)| <=
            if slots[j].Some? then 1 + (polls[|polls| - 1].now - polls[0].now) / slots[j].value.interval else 0
  {
    hide Emitted, Paced;
    if slots[j].None? {
      EmptySlotSendsNothing(slots, polls, j);
    } else {
      var s, frames := slots[j].value, Emitted(slots, polls, j);
      var span := polls[|polls| - 1].now - polls[0].now;
      if frames != [] {
        StreamIsPaced(slots, polls, j);
        var n := |frames| - 1;
        PacedFrom(frames, s.number, s.interval, s.nextDue, n);
        SentDuringRun(slots, polls, j, 0);
        SentDuringRun(slots, polls, j, n);
        FitsSpan(n, s.interval, span);
      }
    }
  }

  lemma {:induction false} LowerWithinBudget(slots: Slots, polls: seq<PollAt>, i: nat)
    requires ValidSlots(slots) && i <= MAX_STREAMS && polls != [] && NonDecreasing(polls) && NoWrap(polls, 1000)
    ensures LowerFrames(slots, polls, i) <= Budget(slots, i, polls[|polls| - 1].now - polls[0].now)
  {
    hide Emitted;
    if i == 0 {
    } else {
      LowerWithinBudget(slots, polls, i - 1);
      FewFrames(slots, polls, i - 1);
    }
  }

  /**
   * A stream that is due is sent as soon as there are more polls, with room, than the streams in
   * lower slots can have frames in the time between the first and the last of them.
   */
  lemma SentIfPollsOutnumberLower(slots: Slots, polls: seq<PollAt>, i: nat)
    requires ValidSlots(slots) && i < MAX_STREAMS && polls != [] && Due(slots[i], polls[0].now)
    requires NonDecreasing(polls) && Roomy(polls) && NoWrap(polls, 1000)
    requires |polls| > Budget(slots, i, polls[|polls| - 1].now - polls[0].now)
    ensures Emitted(slots, polls, i) != []
  {
    hide Emitted, LowerDueAt, Budget, LowerFrames;
    StarvedIffLowerAlwaysDue(slots, polls, i);
    if forall k | 0 <= k < |polls| :: LowerDueAt(slots, polls, i, k) {
      LowerTakeEveryPoll(slots, polls, i);
      LowerWithinBudget(slots, polls, i);
    }
  }

  // ── Lower slots, room and the wrap of the clock together ─────────────────

  /** Polls at true times, which the device sees modulo the clock. */
  datatype TruePoll = TruePoll(time: nat, room: nat)

  function Seen(polls: seq<TruePoll>): (r: seq<PollAt>)
    ensures |r| == |polls| && forall k | 0 <= k < |polls| :: r[k] == PollAt(polls[k].time % CLOCK, polls[k].room)
  {
    seq(|polls|, k requires 0 <= k < |polls| => PollAt(polls[k].time % CLOCK, polls[k].room))
  }

  function Times(polls: seq<TruePoll>): (r: seq<nat>)
    ensures |r| == |polls| && forall k | 0 <= k < |polls| :: r[k] == polls[k].time
  {
    seq(|polls|, k requires 0 <= k < |polls| => polls[k].time)
  }

  datatype TrueEmission = TrueEmission(number: u16, time: nat)

  /** The frames of slot `i` over a run, with their true times. */
  ghost function SentTrue(slots: Slots, polls: seq<TruePoll>, i: nat): seq<TrueEmission>
    requires ValidSlots(slots) && i < MAX_STREAMS
    decreases |polls|
  {
    if polls == [] then [] else
    var (next, written) := Poll(slots, polls[0].time % CLOCK, polls[0].room);
    (if written == Some(i) then [TrueEmission(slots[i].value.number, polls[0].time)] else []) + SentTrue(next, polls[1..], i)
  }

  /** Not before `end`, or in an earlier turn of the clock than `end`. */
  predicate OnTimeOrWrapped(end: nat, t: nat) { t >= end || t / CLOCK < end / CLOCK }

  /** Frames numbered without a gap, each at least `interval` after the one before unless a wrap lies between. */
  ghost predicate PacedOrWrapped(frames: seq<TrueEmission>, number: nat, interval: nat, due: nat) {
    && (forall k | 0 <= k < |frames| :: frames[k].number == (number + k) % 0x1_0000)
    && (forall k | 0 <= k < |frames| - 1 :: OnTimeOrWrapped(frames[k].time + interval, frames[k + 1].time))
    && (frames != [] ==> OnTimeOrWrapped(due, frames[0].time))
  }

  lemma FoundDue(due: nat, t: nat)
    requires due % CLOCK <= t % CLOCK
    ensures OnTimeOrWrapped(due, t)
  {
    TurnsAndRemainders(t, due);
  }

  /** A frame that was skipped at `t` for want of room does not bring the next one nearer. */
  lemma SkippedThenSent(due: nat, t: nat, interval: nat, sent: nat)
    requires interval <= 1000 && due <= t + interval && t <= sent
    requires OnTimeOrWrapped(due, t) && OnTimeOrWrapped(t + interval, sent)
    ensures OnTimeOrWrapped(due, sent)
  {
    TurnsAndRemainders(t, t + interval);
    TurnsAndRemainders(due, t + interval);
    TurnsAndRemainders(t, sent);
  }

  lemma SentThenPaced(t: nat, later: seq<TrueEmission>, number: u16, interval: nat, due: nat)
    requires PacedOrWrapped(later, Streams.NextNumber(number), interval, t + interval) && OnTimeOrWrapped(due, t)
    ensures PacedOrWrapped([TrueEmission(number, t)] + later, number, interval, due)
  {
    hide OnTimeOrWrapped;
    var frames := [TrueEmission(number, t)] + later;
    forall k | 0 <= k < |frames| ensures frames[k].number == (number + k) % 0x1_0000 {
      if k > 0 {
        assert frames[k] == later[k - 1];
        assert (Streams.NextNumber(number) + (k - 1)) % 0x1_0000 == (number + k) % 0x1_0000;
      }
    }
    forall k | 0 <= k < |frames| - 1 ensures OnTimeOrWrapped(frames[k].time + interval, frames[k + 1].time) {
      assert frames[k + 1] == later[k];
      if k > 0 {
        assert frames[k] == later[k - 1];
      }
    }
  }

  /** What a poll at a true time does to one stream: it sends or skips it, or leaves it alone. */
  lemma PollAtTrueTime(slots: Slots, t: nat, room: nat, i: nat)
    requires ValidSlots(slots) && i < MAX_STREAMS && slots[i].Some?
    ensures var (next, written) := Poll(slots, t % CLOCK, room);
      var s := slots[i].value;
      && next[i].Some? && next[i].value.interval == s.interval
      && (if written == Some(i) then next[i].value == Advanced(s, t % CLOCK) && s.nextDue <= t % CLOCK
          else next[i].value.number == s.number &&
               (next[i] == slots[i] || (next[i].value.nextDue == WrapAdd(t % CLOCK, s.interval) && s.nextDue <= t % CLOCK)))
  {
  }

  lemma SentTrueStep(slots: Slots, polls: seq<TruePoll>, i: nat)
    requires ValidSlots(slots) && i < MAX_STREAMS && polls != []
    ensures var (next, written) := Poll(slots, polls[0].time % CLOCK, polls[0].room);
      var later := SentTrue(next, polls[1..], i);
      SentTrue(slots, polls, i) ==
      if written == Some(i) then [TrueEmission(slots[i].value.number, polls[0].time)] + later else later
  {
    hide Poll;
    NothingInFront(SentTrue(Poll(slots, polls[0].time % CLOCK, polls[0].room).0, polls[1..], i));
  }

  lemma {:induction false} SentFromRun(slots: Slots, polls: seq<TruePoll>, i: nat)
    requires ValidSlots(slots) && i < MAX_STREAMS && SentTrue(slots, polls, i) != []
    requires forall j, k | 0 <= j < k < |polls| :: polls[j].time <= polls[k].time
    ensures polls != [] && polls[0].time <= SentTrue(slots, polls, i)[0].time
    decreases |polls|
  {
    hide Poll;
    if polls == [] {
    } else {
      var (next, written) := Poll(slots, polls[0].time % CLOCK, polls[0].room);
      if written == Some(i) {
      } else {
        NothingInFront(SentTrue(next, polls[1..], i));
        SentFromRun(next, polls[1..], i);
        assert polls[1..][0] == polls[1];
      }
    }
  }

  lemma NothingSent(slots: Slots, i: nat, number: nat, interval: nat, due: nat)
    requires ValidSlots(slots) && i < MAX_STREAMS
    ensures PacedOrWrapped(SentTrue(slots, [], i), number, interval, due)
  {
  }

  lemma PacedSince(slots: Slots, next: Slots, polls: seq<TruePoll>, i: nat, due: nat, later: seq<TrueEmission>)
    requires ValidSlots(next) && i < MAX_STREAMS && i < |slots| && slots[i].Some? && slots[i].value.interval <= 1000
    requires polls != [] && later == SentTrue(next, polls[1..], i) && due <= polls[0].time + slots[i].value.interval
    requires forall j, k | 0 <= j < k < |polls| :: polls[j].time <= polls[k].time
    requires OnTimeOrWrapped(due, polls[0].time)
    requires PacedOrWrapped(later, slots[i].value.number, slots[i].value.interval, polls[0].time + slots[i].value.interval)
    ensures PacedOrWrapped(later, slots[i].value.number, slots[i].value.interval, due)
  {
    hide OnTimeOrWrapped, SentTrue;
    if later != [] {
      SentFromRun(next, polls[1..], i);
      assert polls[1..][0] == polls[1];
      SkippedThenSent(due, polls[0].time, slots[i].value.interval, later[0].time);
    }
  }

  /**
   * Over true time and across any number of wraps, whatever room the polls have: frames of a stream are
   * numbered without a gap, and each follows the one before by at least the interval unless the time it
   * was due lies behind a wrap that the poll is still in front of.
   */
  lemma {:induction false} StreamPacedUnlessWrapped(slots: Slots, polls: seq<TruePoll>, i: nat, due: nat)
    requires ValidSlots(slots) && i < MAX_STREAMS && slots[i].Some? && slots[i].value.nextDue == due % CLOCK
    requires forall k | 0 <= k < |polls| :: due <= polls[k].time + slots[i].value.interval
    requires forall j, k | 0 <= j < k < |polls| :: polls[j].time <= polls[k].time
    ensures PacedOrWrapped(SentTrue(slots, polls, i), slots[i].value.number, slots[i].value.interval, due)
    decreases |polls|
  {
    hide Poll, PacedOrWrapped, OnTimeOrWrapped, SentTrue;
    var s := slots[i].value;
    if polls == [] {
      NothingSent(slots, i, s.number, s.interval, due);
    } else {
      var t := polls[0].time;
      var (next, written) := Poll(slots, t % CLOCK, polls[0].room);
      PollAtTrueTime(slots, t, polls[0].room, i);
      RemainderAdds(t, s.interval);
      var later := SentTrue(next, polls[1..], i);
      assert forall k | 0 <= k < |polls[1..]| :: polls[1..][k] == polls[k + 1];
      SentTrueStep(slots, polls, i);
      if s.nextDue <= t % CLOCK {
        FoundDue(due, t);
      }
      if next[i] == slots[i] && written != Some(i) {
        StreamPacedUnlessWrapped(next, polls[1..], i, due);
      } else {
        StreamPacedUnlessWrapped(next, polls[1..], i, t + s.interval);
        if written == Some(i) {
          SentThenPaced(t, later, s.number, s.interval, due);
        } else {
          PacedSince(slots, next, polls, i, due, later);
        }
      }
    }
  }

  /** The first poll that reaches the slot, or the number of polls, among those from `k` on. */
  ghost function FirstReached(slots: Slots, polls: seq<PollAt>, i: nat, k: nat): (f: nat)
    requires ValidSlots(slots) && i < MAX_STREAMS && k <= |polls|
    ensures k <= f <= |polls|
    decreases |polls| - k
  {
    if k == |polls| || ReachedAt(slots, polls, i, k) then k else FirstReached(slots, polls, i, k + 1)
  }

  lemma {:induction false} FirstReachedIs(slots: Slots, polls: seq<PollAt>, i: nat, k: nat)
    requires ValidSlots(slots) && i < MAX_STREAMS && k <= |polls|
    ensures var f := FirstReached(slots, polls, i, k);
      && (forall m | k <= m < f :: !ReachedAt(slots, polls, i, m))
      && (f < |polls| ==> ReachedAt(slots, polls, i, f))
    decreases |polls| - k
  {
    hide ReachedAt;
    if k == |polls| || ReachedAt(slots, polls, i, k) {
    } else {
      FirstReachedIs(slots, polls, i, k + 1);
    }
  }

  /** Until it is first reached, a stream is reached exactly when the clock says due and no lower slot is. */
  lemma ReachedIff(slots: Slots, polls: seq<TruePoll>, i: nat, s: Stream, sent: nat, k: nat)
    requires ValidSlots(slots) && i < MAX_STREAMS && slots[i] == Some(Advanced(s, sent % CLOCK)) && k < |polls|
    requires k <= FirstReached(slots, Seen(polls), i, 0)
    ensures ReachedAt(slots, Seen(polls), i, k) <==>
            DueAt(sent + s.interval, polls[k].time) && !LowerDueAt(slots, Seen(polls), i, k)
  {
    hide DueAt, LowerDue, FirstReached, At;
    FirstReachedIs(slots, Seen(polls), i, 0);
    UnreachedSoFar(slots, Seen(polls), i, k);
    DueByTrueTime(s, sent, polls[k].time);
  }

  /** The first poll that reaches a slot sends its frame exactly if there is room. */
  lemma FirstReachedSends(slots: Slots, polls: seq<PollAt>, i: nat)
    requires ValidSlots(slots) && i < MAX_STREAMS && slots[i].Some? && FirstReached(slots, polls, i, 0) < |polls|
    ensures var f := FirstReached(slots, polls, i, 0);
      Poll(At(slots, polls, f), polls[f].now, polls[f].room).1 == Some(i) <==> FrameLen(slots[i].value) <= polls[f].room
  {
    hide FirstReached, ReachedAt, At, FrameLen, Poll;
    FirstReachedIs(slots, polls, i, 0);
    var f := FirstReached(slots, polls, i, 0);
    UnreachedSoFar(slots, polls, i, f);
    SentAtIff(slots, polls, i, f);
  }

  /**
   * The poll that first comes to a stream is the first one at or after the end of its interval exactly
   * if that poll sees the clock at or past that end and no lower slot due, and every earlier poll
   * lies in the turn of the clock of that end or finds a lower slot due. It then sends the
   * frame exactly if there is room, and otherwise skips it.
   */
  lemma SentOnTimeIff(slots: Slots, polls: seq<TruePoll>, i: nat, s: Stream, sent: nat)
    requires ValidSlots(slots) && i < MAX_STREAMS && slots[i] == Some(Advanced(s, sent % CLOCK))
    requires forall k | 0 <= k < |polls| :: sent <= polls[k].time
    requires forall j, k | 0 <= j < k < |polls| :: polls[j].time <= polls[k].time
    ensures var end, seen := sent + s.interval, Seen(polls);
      var on, first := FirstAtOrAfter(end, Times(polls)), FirstReached(slots, seen, i, 0);
      && (first == on <==>
            && (forall k | 0 <= k < on :: polls[k].time / CLOCK == end / CLOCK || LowerDueAt(slots, seen, i, k))
            && (on < |polls| ==> polls[on].time % CLOCK >= end % CLOCK && !LowerDueAt(slots, seen, i, on)))
      && (first < |polls| ==>
            (Poll(At(slots, seen, first), seen[first].now, seen[first].room).1 == Some(i) <==>
             FrameLen(slots[i].value) <= polls[first].room))
  {
    hide DueAt, LowerDueAt, ReachedAt, At, FrameLen, Poll, FirstReached;
    var end, seen := sent + s.interval, Seen(polls);
    FirstReachedIs(slots, seen, i, 0);
    var on, first := FirstAtOrAfter(end, Times(polls)), FirstReached(slots, seen, i, 0);
    assert ValidStream(slots[i].value);
    forall k | 0 <= k < on ensures DueAt(end, polls[k].time) <==> polls[k].time / CLOCK != end / CLOCK {
      assert Times(polls)[k] < end;
      EarlyPoll(sent, s.interval, polls[k].time);
    }
    forall k | 0 <= k < |polls| && k <= first
      ensures ReachedAt(slots, seen, i, k) <==> DueAt(end, polls[k].time) && !LowerDueAt(slots, seen, i, k)
    {
      ReachedIff(slots, polls, i, s, sent, k);
    }
    if on < |polls| {
      DueAtIs(end, polls[on].time);
    }
    if first < |polls| {
      FirstReachedSends(slots, seen, i);
    }
  }

  lemma SameLowerDue(a: Slots, b: Slots, i: nat, now: u32)
    requires i <= |a| && i <= |b| && a[..i] == b[..i]
    ensures LowerDue(a, i, now) <==> LowerDue(b, i, now)
  {
    assert forall j | 0 <= j < i :: a[j] == a[..i][j] && b[j] == b[..i][j];
  }

  lemma SameLowerAfterPoll(a: Slots, b: Slots, now: u32, room: nat, i: nat)
    requires ValidSlots(a) && ValidSlots(b) && i < MAX_STREAMS && a[..i] == b[..i]
    ensures Poll(a, now, room).0[..i] == Poll(b, now, room).0[..i]
  {
    assert forall j | 0 <= j < i :: a[j] == a[..i][j] && b[j] == b[..i][j];
    SameLowerDue(a, b, i, now);
    ReachesFirstDue(a, i, now);
    ReachesFirstDue(b, i, now);
    if FirstDue(a, now) < i {
      ReachesFirstDue(b, FirstDue(a, now), now);
      SameLowerDue(a, b, FirstDue(a, now), now);
      ReachesFirstDue(a, FirstDue(a, now), now);
      assert a[..FirstDue(a, now)] == a[..i][..FirstDue(a, now)];
    }
  }

  /** The schedule of the lower slots, and so the condition, does not depend on the higher ones. */
  lemma {:induction false} LowerSlotsAlone(slots: Slots, other: Slots, polls: seq<PollAt>, i: nat, k: nat)
    requires ValidSlots(slots) && ValidSlots(other) && i < MAX_STREAMS && k <= |polls| && slots[..i] == other[..i]
    ensures At(slots, polls, k)[..i] == At(other, polls, k)[..i]
    ensures k < |polls| ==> (LowerDueAt(slots, polls, i, k) <==> LowerDueAt(other, polls, i, k))
  {
    hide Poll;
    if k == 0 {
    } else {
      LowerSlotsAlone(slots, other, polls, i, k - 1);
      SameLowerAfterPoll(At(slots, polls, k - 1), At(other, polls, k - 1), polls[k - 1].now, polls[k - 1].room, i);
    }
    if k < |polls| {
      SameLowerDue(At(slots, polls, k), At(other, polls, k), i, polls[k].now);
    }
  }
}
