/**
 * Control overrides with automatic expiry (engine-core/src/comms/control.rs). The clock counts
 * milliseconds modulo 2^32; true time below does not wrap.
 */
module Control {
  import opened Bytes

  const TARGETS := 6
  const MAX_TIMEOUT := 30000
  const HALF := 0x7FFF_FFFF

  datatype Slot = Slot(value: u32, expires: u32)

  function Timeout(ms: u16): u16 { if ms < 1 then 1 else if ms > MAX_TIMEOUT then MAX_TIMEOUT else ms }

  function SlotFor(value: u32, ms: u16, now: u32): Slot { Slot(value, (now + Timeout(ms)) % CLOCK) }

  /** `now.wrapping_sub(expires) < u32::MAX / 2` */
  predicate Expired(s: Slot, now: u32) { (now - s.expires) % CLOCK < HALF }

  /** The slot once it has been asked at `now`. */
  function Asked(slot: Option<Slot>, now: u32): Option<Slot> {
    if slot.Some? && Expired(slot.value, now) then None else slot
  }

  function ValueOf(slot: Option<Slot>): Option<u32> { match slot case None => None case Some(s) => Some(s.value) }

  class Overrides {
    const slots: array<Option<Slot>>

    ghost predicate Valid()
    {
      slots.Length == 6
    }

    constructor ()
      ensures Valid() && fresh(slots) && forall i | 0 <= i < TARGETS :: slots[i] == None
    {
      slots := new Option<Slot>[TARGETS](_ => None);
    }

    method Set(target: nat, value: u32, timeout: u16, now: u32)
      requires Valid() && target < TARGETS
      modifies slots
      ensures slots[..] == old(slots[..])[target := Some(SlotFor(value, timeout, now))]
    {
      var ms := if timeout < 1 then 1 else if timeout > 30000 then 30000 else timeout;
      slots[target] := Some(Slot(value, (now + ms) % CLOCK));
    }

    method Clear(target: nat) returns (wasActive: bool)
      requires Valid() && target < TARGETS
      modifies slots
      ensures slots[..] == old(slots[..])[target := None] && wasActive == old(slots[target]).Some?
    {
      wasActive := slots[target].Some?;
      slots[target] := None;
    }

    method ClearAll()
      requires Valid()
      modifies slots
      ensures forall i | 0 <= i < TARGETS :: slots[i] == None
    {
      forall i | 0 <= i < TARGETS {
        slots[i] := None;
      }
    }

    method Get(target: nat, now: u32) returns (value: Option<u32>)
      requires Valid() && target < TARGETS
      modifies slots
      ensures slots[..] == old(slots[..])[target := Asked(old(slots[target]), now)]
      ensures value == ValueOf(Asked(old(slots[target]), now))
    {
      if slots[target].None? {
        return None;
      }
      var slot := slots[target].value;
      if (now - slot.expires) % CLOCK < HALF {
        slots[target] := None;
        return None;
      }
      return Some(slot.value);
    }
  }

  // ── What a series of polls sees ──────────────────────────────────────────

  /** Answers to polls at true times `times`. */
  function Answers(slot: Option<Slot>, times: seq<nat>): (answers: seq<Option<u32>>)
    ensures |answers| == |times|
    decreases |times|
  {
    if times == [] then [] else
    var next := Asked(slot, times[0] % CLOCK);
    [ValueOf(next)] + Answers(next, times[1..])
  }

  /** First poll at or after the end of the override, or the number of polls. */
  function FirstLate(times: seq<nat>, end: nat): (i: nat)
    ensures i <= |times| && forall j | 0 <= j < i :: times[j] < end
    ensures i < |times| ==> times[i] >= end
  {
    if times == [] || times[0] >= end then 0 else 1 + FirstLate(times[1..], end)
  }

  /** Active before `end` and never afterwards. */
  ghost predicate EndsOnTime(answers: seq<Option<u32>>, times: seq<nat>, value: u32, end: nat)
    requires |answers| == |times|
  {
    forall i | 0 <= i < |times| :: answers[i] == if times[i] < end then Some(value) else None
  }

  lemma Multiple(a: int, k: int)
    ensures (a + k * CLOCK) % CLOCK == a % CLOCK
  {
    var q := a / CLOCK;
    assert a + k * CLOCK == (q + k) * CLOCK + a % CLOCK;
  }

  lemma Difference(t: nat, end: nat)
    ensures (t % CLOCK - end % CLOCK) % CLOCK == (t - end) % CLOCK
  {
    Multiple(t % CLOCK - end % CLOCK, t / CLOCK - end / CLOCK);
  }

  /** Less than half a turn of the clock after `end`, modulo the clock. */
  predicate SoonAfter(t: nat, end: nat) { (t - end) % CLOCK < HALF }

  /** Age modulo the clock decides, whatever the time of setting. */
  lemma ExpiredByAge(value: u32, ms: u16, start: nat, t: nat)
    requires start <= t
    ensures var end := start + Timeout(ms);
      Expired(SlotFor(value, ms, start % CLOCK), t % CLOCK) <==> t >= end && SoonAfter(t, end)
  {
    var end := start + Timeout(ms);
    RemainderAdds(start, Timeout(ms));
    Difference(t, end);
    if t < end {
      assert (t - end) % CLOCK == t - end + CLOCK;
    }
  }

  lemma NothingEnds(value: u32, end: nat)
    ensures EndsOnTime([], [], value, end)
  {
  }

  lemma HoldsValue(value: u32, ms: u16, now: u32)
    ensures SlotFor(value, ms, now).value == value
  {
  }

  lemma OneAnswerMore(head: Option<u32>, tail: seq<Option<u32>>, times: seq<nat>, value: u32, end: nat)
    requires |tail| + 1 == |times|
    ensures EndsOnTime([head] + tail, times, value, end) <==>
            head == (if times[0] < end then Some(value) else None) && EndsOnTime(tail, times[1..], value, end)
  {
    var all := [head] + tail;
    if EndsOnTime(all, times, value, end) {
      assert all[0] == head;
      forall i | 0 <= i < |tail| ensures tail[i] == if times[1..][i] < end then Some(value) else None {
        assert all[i + 1] == tail[i] && times[i + 1] == times[1..][i];
      }
    }
    if EndsOnTime(tail, times[1..], value, end) {
      assert forall i | 0 < i < |all| :: all[i] == tail[i - 1] && times[i] == times[1..][i - 1];
    }
  }

  lemma {:induction false} NothingStaysNothing(times: seq<nat>, value: u32, end: nat)
    requires forall i | 0 <= i < |times| :: times[i] >= end
    ensures EndsOnTime(Answers(None, times), times, value, end)
    decreases |times|
  {
    if times == [] {
    } else {
      NothingStaysNothing(times[1..], value, end);
      OneAnswerMore(None, Answers(None, times[1..]), times, value, end);
    }
  }

  lemma {:induction false} EndsOnTimeIffSoon(value: u32, ms: u16, start: nat, times: seq<nat>)
    requires forall i | 0 <= i < |times| :: start <= times[i]
    requires forall i, j | 0 <= i < j < |times| :: times[i] <= times[j]
    ensures var end := start + Timeout(ms);
      var late := FirstLate(times, end);
      EndsOnTime(Answers(Some(SlotFor(value, ms, start % CLOCK)), times), times, value, end) <==>
      (late < |times| ==> SoonAfter(times[late], end))
    decreases |times|
  {
    hide Expired, SlotFor, Timeout, EndsOnTime, SoonAfter;
    var slot, end := SlotFor(value, ms, start % CLOCK), start + Timeout(ms);
    if times == [] {
      NothingEnds(value, end);
    } else {
      ExpiredByAge(value, ms, start, times[0]);
      HoldsValue(value, ms, start % CLOCK);
      var next := Asked(Some(slot), times[0] % CLOCK);
      OneAnswerMore(ValueOf(next), Answers(next, times[1..]), times, value, end);
      if times[0] < end {
        EndsOnTimeIffSoon(value, ms, start, times[1..]);
      } else if next.None? {
        NothingStaysNothing(times[1..], value, end);
      }
    }
  }

  lemma TimeoutHeld(ms: u16)
    ensures Timeout(ms) == if ms == 0 then 1 else if ms > 30000 then 30000 else ms
  {
  }

  lemma SoonMeans(t: nat, end: nat)
    ensures SoonAfter(t, end) <==> (t - end) % 0x1_0000_0000 < 0x7FFF_FFFF
  {
  }

  /**
   * An override set for 1 to 30000 ms, longer and shorter requests being held to that, ends on time and stays
   * ended exactly if the first poll after its end comes less than 2^31 - 1 ms after it, modulo 2^32; polls
   * before the end are always right.
   */
  lemma EndsOnTimeIffPolledInTime(value: u32, ms: u16, start: nat, times: seq<nat>)
    requires forall i | 0 <= i < |times| :: start <= times[i]
    requires forall i, j | 0 <= i < j < |times| :: times[i] <= times[j]
    ensures var end := start + (if ms == 0 then 1 else if ms > 30000 then 30000 else ms);
      var late := FirstLate(times, end);
      EndsOnTime(Answers(Some(SlotFor(value, ms, start % 0x1_0000_0000)), times), times, value, end) <==>
      (late < |times| ==> (times[late] - end) % 0x1_0000_0000 < 0x7FFF_FFFF)
  {
    hide Timeout, SlotFor, SoonAfter, FirstLate, Answers, EndsOnTime;
    EndsOnTimeIffSoon(value, ms, start, times);
    TimeoutHeld(ms);
    var end := start + Timeout(ms);
    if FirstLate(times, end) < |times| {
      SoonMeans(times[FirstLate(times, end)], end);
    }
  }

  /** Set at time 0 for a second and first asked half a turn of the clock after its end: still active. */
  lemma LatePollFindsOverrideActive(value: u32)
    ensures var late := 1000 + 0x7FFF_FFFF;
      && Answers(Some(SlotFor(value, 1000, 0)), [late]) == [Some(value)]
      && !EndsOnTime([Some(value)], [late], value, 1000)
  {
    var late := 1000 + HALF;
    assert [late][1..] == [] && late % CLOCK == late;
    assert !Expired(SlotFor(value, 1000, 0), late);
    assert [Some(value)][0] != None;
  }
}
