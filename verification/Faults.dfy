/**
 * Fault records and the queue of push events (engine-core/src/comms/faults.rs), and the calls of
 * the control loop that keep them together (engine-core/src/comms/rdp.rs).
 */
module Faults {
  import opened Bytes

  const MAX_FAULTS := 16
  const MAX_EVENTS := 8

  datatype Severity = Info | Warn | Critical

  datatype FaultRecord = FaultRecord(code: u16, severity: Severity, active: bool, count: u16,
                                     first: u32, last: u32, detail: u16)

  datatype EventKind = FaultSet | FaultCleared | Knock | ProtectionCut | LimpMode | SyncState | ConfigChanged

  datatype Event = Event(kind: EventKind, time: u32, a: int, b: int)

  // ── Records ──────────────────────────────────────────────────────────────

  ghost predicate UniqueCodes(records: seq<FaultRecord>) {
    forall i, j | 0 <= i < j < |records| :: records[i].code != records[j].code
  }

  ghost predicate ValidRecords(records: seq<FaultRecord>) { |records| <= MAX_FAULTS && UniqueCodes(records) }

  /** Position of the record of a code, or the number of records. */
  function Find(records: seq<FaultRecord>, code: u16): (i: nat)
    ensures i <= |records| && forall j | 0 <= j < i :: records[j].code != code
    ensures i < |records| ==> records[i].code == code
  {
    if records == [] || records[0].code == code then 0 else 1 + Find(records[1..], code)
  }

  predicate IsActive(records: seq<FaultRecord>, code: u16) {
    var i := Find(records, code);
    i < |records| && records[i].active
  }

  function Seen(r: FaultRecord, severity: Severity, detail: u16, now: u32): FaultRecord {
    r.(active := true, severity := severity, count := if r.count == 0xFFFF then r.count else r.count + 1, last := now,
       detail := detail)
  }

  function Raised(records: seq<FaultRecord>, code: u16, severity: Severity, detail: u16, now: u32): seq<FaultRecord> {
    var i := Find(records, code);
    if i < |records| then records[i := Seen(records[i], severity, detail, now)]
    else if |records| < MAX_FAULTS then records + [FaultRecord(code, severity, true, 1, now, now, detail)]
    else records
  }

  function Resolved(records: seq<FaultRecord>, code: u16): seq<FaultRecord> {
    var i := Find(records, code);
    if i < |records| then records[i := records[i].(active := false)] else records
  }

  /** Bit `min(index, 31)` of the mask. */
  predicate Selected(mask: u32, index: nat) { BitAt(mask, if index < 31 then index else 31) }

  /** The records from `index` on that a clear leaves. */
  function Kept(records: seq<FaultRecord>, mask: u32, index: nat): seq<FaultRecord>
    requires index <= |records|
    decreases |records| - index
  {
    if index == |records| then []
    else if records[index].active || !Selected(mask, index) then [records[index]] + Kept(records, mask, index + 1)
    else Kept(records, mask, index + 1)
  }

  lemma {:induction false} KeptIsValid(records: seq<FaultRecord>, mask: u32, index: nat)
    requires ValidRecords(records) && index <= |records|
    ensures |Kept(records, mask, index)| <= |records| - index && UniqueCodes(Kept(records, mask, index))
    ensures forall r | r in Kept(records, mask, index) :: exists i | index <= i < |records| :: records[i] == r
    decreases |records| - index
  {
    if index == |records| {
    } else {
      KeptIsValid(records, mask, index + 1);
      var rest := Kept(records, mask, index + 1);
      forall j | 0 <= j < |rest| ensures rest[j].code != records[index].code {
        assert rest[j] in rest;
      }
    }
  }

  lemma {:induction false} FindIs(records: seq<FaultRecord>, code: u16, i: nat)
    requires UniqueCodes(records) && i < |records| && records[i].code == code
    ensures Find(records, code) == i
  {
  }

  /** Raising a fault touches no other code. */
  lemma RaisedKeeps(records: seq<FaultRecord>, code: u16, severity: Severity, detail: u16, now: u32, other: u16)
    requires ValidRecords(records)
    ensures var after := Raised(records, code, severity, detail, now);
      && ValidRecords(after)
      && IsActive(after, other) ==
         if other == code then Find(records, code) < |records| || |records| < MAX_FAULTS else IsActive(records, other)
  {
    var after := Raised(records, code, severity, detail, now);
    var i, j := Find(records, code), Find(records, other);
    if j < |records| {
      FindIs(after, other, j);
    } else if i == |records| < MAX_FAULTS && other == code {
      FindIs(after, other, i);
    }
  }

  lemma ResolvedKeeps(records: seq<FaultRecord>, code: u16, other: u16)
    requires ValidRecords(records)
    ensures var after := Resolved(records, code);
      && ValidRecords(after) && IsActive(after, other) == (IsActive(records, other) && other != code)
  {
    var after, j := Resolved(records, code), Find(records, other);
    if j < |records| {
      FindIs(after, other, j);
    }
  }

  class FaultStore {
    var records: seq<FaultRecord>

    ghost predicate Valid()
      reads this
    {
      ValidRecords(records)
    }

    constructor ()
      ensures Valid() && records == []
    {
      records := [];
    }

    method Raise(code: u16, severity: Severity, detail: u16, now: u32) returns (newlyActive: bool)
      requires Valid()
      modifies this
      ensures Valid() && records == Raised(old(records), code, severity, detail, now)
      ensures newlyActive == (!IsActive(old(records), code) && IsActive(records, code))
    {
      RaisedKeeps(records, code, severity, detail, now, code);
      for i := 0 to |records|
        invariant forall j | 0 <= j < i :: records[j].code != code
        invariant records == old(records)
      {
        if records[i].code == code {
          var r := records[i];
          records := records[i := r.(active := true, severity := severity, last := now, detail := detail,
                                     count := if r.count == 0xFFFF then r.count else r.count + 1)];
          return !r.active;
        }
      }
      if |records| == MAX_FAULTS {
        return false;
      }
      records := records + [FaultRecord(code, severity, true, 1, now, now, detail)];
      return true;
    }

    method Resolve(code: u16) returns (wasActive: bool)
      requires Valid()
      modifies this
      ensures Valid() && records == Resolved(old(records), code)
      ensures wasActive == IsActive(old(records), code)
    {
      ResolvedKeeps(records, code, code);
      for i := 0 to |records|
        invariant forall j | 0 <= j < i :: !(records[j].code == code && records[j].active)
        invariant records == old(records)
      {
        if records[i].code == code && records[i].active {
          assert i == Find(records, code);
          records := records[i := records[i].(active := false)];
          return true;
        }
      }
      return false;
    }

    method ClearMask(mask: u32) returns (cleared: nat)
      requires Valid()
      modifies this
      ensures Valid() && records == Kept(old(records), mask, 0)
      ensures cleared == |old(records)| - |records|
    {
      cleared := 0;
      var kept: seq<FaultRecord> := [];
      for index := 0 to |records|
        invariant kept + Kept(records, mask, index) == Kept(records, mask, 0)
        invariant cleared + |kept| == index && records == old(records)
      {
        var r := records[index];
        if r.active || !Selected(mask, index) {
          assert kept + ([r] + Kept(records, mask, index + 1)) == kept + [r] + Kept(records, mask, index + 1);
          kept := kept + [r];
        } else {
          cleared := cleared + 1;
        }
      }
      assert kept + [] == kept;
      KeptIsValid(records, mask, 0);
      records := kept;
    }
  }

  lemma {:induction false} KeptFrom(records: seq<FaultRecord>, mask: u32, r: FaultRecord, index: nat)
    requires index <= |records|
    ensures r in Kept(records, mask, index) <==>
            exists i | index <= i < |records| :: records[i] == r && (r.active || !Selected(mask, i))
    decreases |records| - index
  {
    hide Selected;
    if index == |records| {
    } else {
      KeptFrom(records, mask, r, index + 1);
    }
  }

  lemma SelectedIsBit(mask: u32, i: nat)
    requires i < 16
    ensures Selected(mask, i) <==> mask / Power(i) % 2 == 1
  {
    BitByDivision(mask, i);
  }

  /**
   * A clear removes exactly the inactive records whose bit is set in the mask, counted from the lowest
   * bit for the first record, and leaves nothing that was not there.
   */
  lemma {:induction false} ClearRemovesExactlySelected(records: seq<FaultRecord>, mask: u32)
    requires ValidRecords(records)
    ensures var kept := Kept(records, mask, 0);
      && ValidRecords(kept) && (forall r | r in kept :: r in records)
      && forall i | 0 <= i < |records| :: records[i] in kept <==> records[i].active || mask / Power(i) % 2 == 0
  {
    hide Kept, Selected, Power;
    KeptIsValid(records, mask, 0);
    forall i | 0 <= i < |records|
      ensures records[i] in Kept(records, mask, 0) <==> records[i].active || mask / Power(i) % 2 == 0
    {
      KeptFrom(records, mask, records[i], 0);
      SelectedIsBit(mask, i);
    }
  }

  lemma {:induction false} NothingSelected(records: seq<FaultRecord>, mask: u32, index: nat)
    requires index <= |records| && forall i | index <= i < |records| :: records[i].active || !Selected(mask, i)
    ensures Kept(records, mask, index) == records[index..]
    decreases |records| - index
  {
    hide Selected;
    if index == |records| {
    } else {
      NothingSelected(records, mask, index + 1);
      assert records[index..] == [records[index]] + records[index + 1..];
    }
  }

  lemma {:induction false} OneSelected(records: seq<FaultRecord>, mask: u32, index: nat, i: nat)
    requires index <= i < |records| && !records[i].active && Selected(mask, i)
    requires forall j | index <= j < |records| && j != i :: records[j].active || !Selected(mask, j)
    ensures Kept(records, mask, index) == records[index..i] + records[i + 1..]
    decreases |records| - index
  {
    hide Selected;
    if index == i {
      NothingSelected(records, mask, index + 1);
      assert records[i..i] == [] && [] + records[i + 1..] == records[i + 1..];
    } else {
      OneSelected(records, mask, index + 1, i);
      assert records[index..i] == [records[index]] + records[index + 1..i];
      Regrouped([records[index]], records[index + 1..i], records[i + 1..]);
    }
  }

  lemma PowersFit(i: nat)
    requires i < 16
    ensures Power(i) < 0x1_0000
  {
    PowerMonotone(i, 15);
    assert Power(15) == 128 * Power(8) by {
      assert Power(11) == 8 * Power(8);
      assert Power(15) == 16 * Power(11);
    }
  }

  /** Clearing with the bit of one record alone takes that record out, unless it is active. */
  lemma OneBitClearsOneRecord(records: seq<FaultRecord>, i: nat)
    requires ValidRecords(records) && i < |records|
    ensures Power(i) < 0x1_0000
    ensures Kept(records, Power(i), 0) == if records[i].active then records else records[..i] + records[i + 1..]
  {
    hide Kept, Power;
    PowersFit(i);
    var mask: u32 := Power(i);
    forall j | 0 <= j < |records| ensures Selected(mask, j) <==> j == i {
      BitOfPower(i, j);
    }
    if records[i].active {
      NothingSelected(records, mask, 0);
      assert records[0..] == records;
    } else {
      OneSelected(records, mask, 0, i);
      assert records[0..i] == records[..i];
    }
  }

  /** `kept` are the records at the increasing places `at`, from `index` on. */
  ghost predicate StandAt(records: seq<FaultRecord>, kept: seq<FaultRecord>, at: seq<nat>, index: nat) {
    && |at| == |kept|
    && (forall k | 0 <= k < |at| :: index <= at[k] < |records| && records[at[k]] == kept[k])
    && (forall j, k | 0 <= j < k < |at| :: at[j] < at[k])
  }

  lemma OneMoreStands(records: seq<FaultRecord>, kept: seq<FaultRecord>, at: seq<nat>, index: nat)
    requires index < |records| && StandAt(records, kept, at, index + 1)
    ensures StandAt(records, kept, at, index) && StandAt(records, [records[index]] + kept, [index] + at, index)
  {
    var longer, places := [records[index]] + kept, [index] + at;
    assert forall k | 0 < k < |places| :: places[k] == at[k - 1] && longer[k] == kept[k - 1];
  }

  lemma {:induction false} KeptInOrder(records: seq<FaultRecord>, mask: u32, index: nat) returns (at: seq<nat>)
    requires index <= |records|
    ensures StandAt(records, Kept(records, mask, index), at, index)
    decreases |records| - index
  {
    hide Selected;
    if index == |records| {
      at := [];
    } else {
      at := KeptInOrder(records, mask, index + 1);
      OneMoreStands(records, Kept(records, mask, index + 1), at, index);
      if records[index].active || !Selected(mask, index) {
        at := [index] + at;
      }
    }
  }

  /** A clear never removes or adds an active fault. */
  lemma ClearKeepsActive(records: seq<FaultRecord>, mask: u32, code: u16)
    requires ValidRecords(records)
    ensures ValidRecords(Kept(records, mask, 0)) && IsActive(Kept(records, mask, 0), code) == IsActive(records, code)
  {
    hide Selected;
    KeptIsValid(records, mask, 0);
    var after, i := Kept(records, mask, 0), Find(records, code);
    var j := Find(after, code);
    if i < |records| {
      KeptFrom(records, mask, records[i], 0);
    }
    if j < |after| {
      assert after[j] in after;
      KeptFrom(records, mask, after[j], 0);
      var k :| 0 <= k < |records| && records[k] == after[j];
      FindIs(records, code, k);
    }
  }

  // ── Events ───────────────────────────────────────────────────────────────

  function Queued(queue: seq<Event>, e: Event): seq<Event> {
    if |queue| < MAX_EVENTS then queue + [e] else queue[1..] + [e]
  }

  /** Eight events wait; the next one takes the place of the oldest. */
  lemma EightEventsWait(queue: seq<Event>, e: Event)
    requires |queue| <= 8
    ensures Queued(queue, e) == if |queue| == 8 then queue[1..] + [e] else queue + [e]
  {
  }

  class EventQueue {
    var queue: seq<Event>

    ghost predicate Valid()
      reads this
    {
      |queue| <= MAX_EVENTS
    }

    constructor ()
      ensures Valid() && queue == []
    {
      queue := [];
    }

    method Push(kind: EventKind, time: u32, a: int, b: int)
      requires Valid()
      modifies this
      ensures Valid() && queue == Queued(old(queue), Event(kind, time, a, b))
    {
      var e := Event(kind, time, a, b);
      if |queue| == MAX_EVENTS {
        queue := queue[1..];
      }
      queue := queue + [e];
    }

    method Pop() returns (e: Option<Event>)
      requires Valid()
      modifies this
      ensures Valid()
      ensures if old(queue) == [] then e == None && queue == [] else e == Some(old(queue)[0]) && queue == old(queue)[1..]
    {
      if queue == [] {
        return None;
      }
      e := Some(queue[0]);
      queue := queue[1..];
    }
  }

  // ── Both together ────────────────────────────────────────────────────────

  datatype Op =
    | NoteFault(code: u16, severity: Severity, detail: u16, now: u32)
    | NoteFaultCleared(code: u16, now: u32)
    | NoteOther(event: Event)
    | ClearFaults(mask: u32)
    | PollEvent(room: nat, size: nat)

  predicate ValidOp(op: Op) { op.NoteOther? ==> op.event.kind != FaultSet && op.event.kind != FaultCleared }

  datatype Diagnostics = Diagnostics(records: seq<FaultRecord>, queue: seq<Event>)

  ghost predicate ValidDiagnostics(d: Diagnostics) { ValidRecords(d.records) && |d.queue| <= MAX_EVENTS }

  function RecordsAfter(records: seq<FaultRecord>, op: Op): seq<FaultRecord> {
    match op
    case NoteFault(code, severity, detail, now) => Raised(records, code, severity, detail, now)
    case NoteFaultCleared(code, _) => Resolved(records, code)
    case ClearFaults(mask) => Kept(records, mask, 0)
    case _ => records
  }

  /** The event an operation pushes, if any. */
  function Pushed(records: seq<FaultRecord>, op: Op): Option<Event> {
    match op
    case NoteFault(code, severity, detail, now) =>
      if !IsActive(records, code) && IsActive(Raised(records, code, severity, detail, now), code)
      then Some(Event(FaultSet, now, code, detail)) else None
    case NoteFaultCleared(code, now) => if IsActive(records, code) then Some(Event(FaultCleared, now, code, 0)) else None
    case NoteOther(event) => Some(event)
    case _ => None
  }

  /** Whether a poll takes an event off the queue; the room behind the header is looked at later. */
  predicate Takes(d: Diagnostics, op: Op) { op.PollEvent? && d.queue != [] && op.room >= MESSAGE_HEADER_LEN }

  /** The event a poll hands out: the one it takes, if the encoded body fits as well. */
  function Popped(d: Diagnostics, op: Op): Option<Event> {
    if Takes(d, op) && MESSAGE_HEADER_LEN + op.size <= op.room then Some(d.queue[0]) else None
  }

  function Step(d: Diagnostics, op: Op): Diagnostics {
    Diagnostics(
      RecordsAfter(d.records, op),
      if op.PollEvent? then (if Takes(d, op) then d.queue[1..] else d.queue)
      else match Pushed(d.records, op) case None => d.queue case Some(e) => Queued(d.queue, e))
  }

  /** An event of another kind is queued as it is and touches no record; a clear of records touches no event. */
  lemma OthersKeepApart(d: Diagnostics, e: Event, mask: u32)
    requires ValidDiagnostics(d)
    ensures Step(d, NoteOther(e)) ==
      Diagnostics(d.records, if |d.queue| == 8 then d.queue[1..] + [e] else d.queue + [e])
    ensures Step(d, ClearFaults(mask)).queue == d.queue
  {
    EightEventsWait(d.queue, e);
  }

  /** A poll with room for a header of three bytes takes the oldest event, and hands it out exactly if its body fits too. */
  lemma PollTakesOldest(d: Diagnostics, room: nat, size: nat)
    ensures var op, taken := Op.PollEvent(room, size), d.queue != [] && room >= 3;
      && Step(d, op) == Diagnostics(d.records, if taken then d.queue[1..] else d.queue)
      && Popped(d, op) == if taken && 3 + size <= room then Some(d.queue[0]) else None
  {
  }

  /** The calls of the control loop and the two requests that concern faults. */
  class Notifier {
    const faults: FaultStore
    const events: EventQueue

    ghost predicate Valid()
      reads this, faults, events
    {
      faults.Valid() && events.Valid()
    }

    ghost function Abstract(): Diagnostics
      reads faults, events
    {
      Diagnostics(faults.records, events.queue)
    }

    constructor ()
      ensures Valid() && fresh(faults) && fresh(events) && Abstract() == Diagnostics([], [])
    {
      faults := new FaultStore();
      events := new EventQueue();
    }

    method NoteFault(code: u16, severity: Severity, detail: u16, now: u32)
      requires Valid()
      modifies faults, events
      ensures Valid() && Abstract() == Step(old(Abstract()), Op.NoteFault(code, severity, detail, now))
    {
      hide Raised;
      var newlyActive := faults.Raise(code, severity, detail, now);
      if newlyActive {
        events.Push(FaultSet, now, code, detail);
      }
    }

    method NoteFaultCleared(code: u16, now: u32)
      requires Valid()
      modifies faults, events
      ensures Valid() && Abstract() == Step(old(Abstract()), Op.NoteFaultCleared(code, now))
    {
      hide Resolved;
      var wasActive := faults.Resolve(code);
      if wasActive {
        events.Push(FaultCleared, now, code, 0);
      }
    }

    /** Knock, synchronisation, protection and limp-mode events. */
    method Note(kind: EventKind, now: u32, a: int, b: int)
      requires Valid() && kind != FaultSet && kind != FaultCleared
      modifies events
      ensures Valid() && Abstract() == Step(old(Abstract()), NoteOther(Event(kind, now, a, b)))
    {
      events.Push(kind, now, a, b);
    }

    method ClearFaults(mask: u32) returns (cleared: nat)
      requires Valid()
      modifies faults
      ensures Valid() && Abstract() == Step(old(Abstract()), Op.ClearFaults(mask))
      ensures cleared == |old(faults.records)| - |faults.records|
    {
      cleared := faults.ClearMask(mask);
    }

    /** `size` is the length of the encoded body of the event at the front. */
    method PollEvent(room: nat, size: nat) returns (e: Option<Event>)
      requires Valid()
      modifies events
      ensures Valid()
      ensures Abstract() == Step(old(Abstract()), Op.PollEvent(room, size))
      ensures e == Popped(old(Abstract()), Op.PollEvent(room, size))
    {
      if events.queue == [] || room < MESSAGE_HEADER_LEN {
        return None;
      }
      e := events.Pop();
      if MESSAGE_HEADER_LEN + size > room {
        return None;
      }
    }
  }
}
