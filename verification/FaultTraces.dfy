/** Faults and their events over whole runs. */
module FaultTraces {
  import opened Bytes
  import opened Faults

  /** What a run has pushed, handed out, dropped when the queue was full and taken without room to send it. */
  datatype Trace = Trace(pushed: seq<Event>, popped: seq<Event>, dropped: nat, unsent: nat)

  function Drops(d: Diagnostics, op: Op): nat {
    if Pushed(d.records, op).Some? && |d.queue| >= MAX_EVENTS then 1 else 0
  }

  function Unsent(d: Diagnostics, op: Op): nat { if Takes(d, op) && Popped(d, op).None? then 1 else 0 }

  /** What one operation adds to the trace. */
  function Extended(t: Trace, d: Diagnostics, op: Op): Trace {
    Trace(t.pushed + AsList(Pushed(d.records, op)), t.popped + AsList(Popped(d, op)), t.dropped + Drops(d, op),
          t.unsent + Unsent(d, op))
  }

  function Run(d: Diagnostics, ops: seq<Op>): (r: (Diagnostics, Trace))
    decreases |ops|
  {
    if ops == [] then (d, Trace([], [], 0, 0)) else
    var n := |ops| - 1;
    var (mid, t) := Run(d, ops[..n]);
    (Step(mid, ops[n]), Extended(t, mid, ops[n]))
  }

  ghost predicate ValidOps(ops: seq<Op>) { forall i | 0 <= i < |ops| :: ValidOp(ops[i]) }

  lemma StepValid(d: Diagnostics, op: Op)
    requires ValidDiagnostics(d)
    ensures ValidDiagnostics(Step(d, op))
  {
    match op
    case NoteFault(code, severity, detail, now) => RaisedKeeps(d.records, code, severity, detail, now, code);
    case NoteFaultCleared(code, now) => ResolvedKeeps(d.records, code, code);
    case ClearFaults(mask) => KeptIsValid(d.records, mask, 0);
    case _ =>
  }

  // ── One code ─────────────────────────────────────────────────────────────

  predicate About(e: Event, code: u16) { (e.kind == FaultSet || e.kind == FaultCleared) && e.a == code }

  /** The fault events of one code. */
  function OfCode(events: seq<Event>, code: u16): seq<EventKind> {
    if events == [] then [] else
    var n := |events| - 1;
    OfCode(events[..n], code) + (if About(events[n], code) then [events[n].kind] else [])
  }

  ghost predicate Alternates(kinds: seq<EventKind>) {
    forall i | 0 <= i < |kinds| :: kinds[i] == if i % 2 == 0 then FaultSet else FaultCleared
  }

  lemma OfCodeExtended(events: seq<Event>, more: Option<Event>, code: u16)
    ensures OfCode(events + AsList(more), code) ==
            OfCode(events, code) + (if more.Some? && About(more.value, code) then [more.value.kind] else [])
  {
    if more.None? {
      assert events + AsList(more) == events;
      assert OfCode(events, code) + [] == OfCode(events, code);
    } else {
      assert (events + AsList(more))[..|events|] == events;
    }
  }

  lemma FindsActive(records: seq<FaultRecord>, code: u16)
    ensures IsActive(records, code) ==> Find(records, code) < |records|
  {
  }

  /**
   * One operation announces a change of a code exactly when it changes whether the code is active; the
   * event has the time of the operation, the code, and the detail of the fault, or 0 when it is gone.
   */
  lemma StepAnnouncesChange(d: Diagnostics, op: Op, code: u16)
    requires ValidDiagnostics(d) && ValidOp(op)
    ensures var before, after, e := IsActive(d.records, code), IsActive(Step(d, op).records, code), Pushed(d.records, op);
      && (before != after <==> e.Some? && About(e.value, code))
      && (before != after ==>
            if after then op.NoteFault? && e == Some(Event(FaultSet, op.now, code, op.detail))
            else op.NoteFaultCleared? && e == Some(Event(FaultCleared, op.now, code, 0)))
  {
    hide IsActive, Raised, Resolved, Kept;
    match op
    case NoteFault(c, severity, detail, now) =>
      RaisedKeeps(d.records, c, severity, detail, now, code);
      RaisedKeeps(d.records, c, severity, detail, now, c);
      FindsActive(d.records, c);
    case NoteFaultCleared(c, now) =>
      ResolvedKeeps(d.records, c, code);
    case ClearFaults(mask) =>
      ClearKeepsActive(d.records, mask, code);
    case _ =>
  }

  /** The events of a code alternate and it is active exactly if the last one was "set". */
  ghost predicate Settled(kinds: seq<EventKind>, active: bool) {
    Alternates(kinds) && (active <==> kinds != [] && kinds[|kinds| - 1] == FaultSet)
  }

  lemma SettledStep(kinds: seq<EventKind>, before: bool, after: bool)
    requires Settled(kinds, before)
    ensures Settled(kinds + (if before != after then [if after then FaultSet else FaultCleared] else []), after)
  {
    assert before == after ==> kinds + [] == kinds;
    assert kinds != [] ==> kinds[|kinds| - 1] == if (|kinds| - 1) % 2 == 0 then FaultSet else FaultCleared;
  }

  lemma NothingYet(code: u16)
    ensures ValidDiagnostics(Diagnostics([], [])) && Settled(OfCode([], code), IsActive([], code))
  {
  }

  /** Over every run from an empty store, the fault events of each code are settled in this sense. */
  lemma {:induction false} FaultEventsAlternate(ops: seq<Op>, code: u16)
    requires ValidOps(ops)
    ensures var (end, trace) := Run(Diagnostics([], []), ops);
      ValidDiagnostics(end) && Settled(OfCode(trace.pushed, code), IsActive(end.records, code))
    decreases |ops|
  {
    hide Step, Pushed, Popped, About, OfCode, Settled, IsActive, ValidDiagnostics, Drops;
    if ops == [] {
      NothingYet(code);
    } else {
      var n := |ops| - 1;
      FaultEventsAlternate(ops[..n], code);
      var (mid, t) := Run(Diagnostics([], []), ops[..n]);
      StepValid(mid, ops[n]);
      StepAnnouncesChange(mid, ops[n], code);
      OfCodeExtended(t.pushed, Pushed(mid.records, ops[n]), code);
      SettledStep(OfCode(t.pushed, code), IsActive(mid.records, code), IsActive(Step(mid, ops[n]).records, code));
    }
  }

  // ── What a record remembers ──────────────────────────────────────────────

  function RecordOf(records: seq<FaultRecord>, code: u16): Option<FaultRecord> {
    var i := Find(records, code);
    if i < |records| then Some(records[i]) else None
  }

  /** The times a code was raised. */
  function RaisesOf(ops: seq<Op>, code: u16): (raises: seq<Op>)
    ensures forall i | 0 <= i < |raises| :: raises[i].NoteFault?
  {
    if ops == [] then [] else
    var n := |ops| - 1;
    RaisesOf(ops[..n], code) + (if ops[n].NoteFault? && ops[n].code == code then [ops[n]] else [])
  }

  lemma RecordAfterRaise(records: seq<FaultRecord>, code: u16, severity: Severity, detail: u16, now: u32, other: u16)
    requires ValidRecords(records)
    ensures RecordOf(Raised(records, code, severity, detail, now), other) ==
            if other != code then RecordOf(records, other)
            else match RecordOf(records, code)
                 case Some(r) => Some(Seen(r, severity, detail, now))
                 case None => if |records| < MAX_FAULTS then Some(FaultRecord(code, severity, true, 1, now, now, detail)) else None
  {
    hide Seen;
    RaisedKeeps(records, code, severity, detail, now, code);
    var after, i, j := Raised(records, code, severity, detail, now), Find(records, code), Find(records, other);
    if j < |records| {
      FindIs(after, other, j);
    } else if i == |records| < MAX_FAULTS && other == code {
      FindIs(after, other, i);
    }
  }

  lemma RecordAfterResolve(records: seq<FaultRecord>, code: u16, other: u16)
    requires ValidRecords(records)
    ensures RecordOf(Resolved(records, code), other) ==
            match RecordOf(records, other)
            case None => None
            case Some(r) => Some(if other == code then r.(active := false) else r)
  {
    ResolvedKeeps(records, code, code);
    var j := Find(records, other);
    if j < |records| {
      FindIs(Resolved(records, code), other, j);
    }
  }

  /** Count (saturating), first and last time, and the severity and detail of the last time. */
  ghost predicate Summarises(r: FaultRecord, raises: seq<Op>)
    requires forall i | 0 <= i < |raises| :: raises[i].NoteFault?
  {
    && raises != []
    && r.count == (if |raises| < 0xFFFF then |raises| else 0xFFFF)
    && r.first == raises[0].now
    && var last := raises[|raises| - 1];
       r.last == last.now && r.severity == last.severity && r.detail == last.detail
  }

  /** A record summarises all raises; a raised code without one met a full store. */
  ghost predicate Remembers(record: Option<FaultRecord>, raises: seq<Op>, size: nat)
    requires forall i | 0 <= i < |raises| :: raises[i].NoteFault?
  {
    match record case Some(r) => Summarises(r, raises) case None => raises == [] || size >= MAX_FAULTS
  }

  lemma RaisedSize(records: seq<FaultRecord>, code: u16, severity: Severity, detail: u16, now: u32)
    requires ValidRecords(records)
    ensures |records| >= MAX_FAULTS ==> |Raised(records, code, severity, detail, now)| == MAX_FAULTS
  {
  }

  lemma RaiseRemembered(records: seq<FaultRecord>, raises: seq<Op>, op: Op)
    requires ValidRecords(records) && op.NoteFault? && forall i | 0 <= i < |raises| :: raises[i].NoteFault?
    requires Remembers(RecordOf(records, op.code), raises, |records|)
    ensures var after := Raised(records, op.code, op.severity, op.detail, op.now);
      Remembers(RecordOf(after, op.code), raises + [op], |after|)
  {
    hide RecordOf, Raised;
    RecordAfterRaise(records, op.code, op.severity, op.detail, op.now, op.code);
    RaisedSize(records, op.code, op.severity, op.detail, op.now);
  }

  lemma ResolvedSize(records: seq<FaultRecord>, code: u16)
    ensures |Resolved(records, code)| == |records|
  {
  }

  lemma ResolveRemembered(records: seq<FaultRecord>, raises: seq<Op>, c: u16, code: u16)
    requires ValidRecords(records) && forall i | 0 <= i < |raises| :: raises[i].NoteFault?
    requires Remembers(RecordOf(records, code), raises, |records|)
    ensures ValidRecords(Resolved(records, c)) && Remembers(RecordOf(Resolved(records, c), code), raises, |Resolved(records, c)|)
  {
    hide RecordOf, Resolved;
    RecordAfterResolve(records, c, code);
    ResolvedKeeps(records, c, c);
    ResolvedSize(records, c);
  }

  lemma NoRecordYet(code: u16)
    ensures RecordOf([], code) == None && ValidRecords([])
  {
  }

  /**
   * Until records are cleared, the record of a code summarises every time the code was raised; a
   * code that was raised has a record unless the store is full.
   */
  lemma {:induction false} RecordSummarisesRaises(ops: seq<Op>, code: u16)
    requires forall i | 0 <= i < |ops| :: !ops[i].ClearFaults?
    ensures var records := Run(Diagnostics([], []), ops).0.records;
      ValidRecords(records) && Remembers(RecordOf(records, code), RaisesOf(ops, code), |records|)
    decreases |ops|
  {
    hide RecordOf, Raised, Resolved, Pushed, Popped, Queued, Drops, ValidRecords, Summarises;
    if ops == [] {
      NoRecordYet(code);
    } else {
      var n := |ops| - 1;
      RecordSummarisesRaises(ops[..n], code);
      var records, raises := Run(Diagnostics([], []), ops[..n]).0.records, RaisesOf(ops[..n], code);
      assert raises + [] == raises;
      match ops[n]
      case NoteFault(c, severity, detail, now) =>
        RaisedKeeps(records, c, severity, detail, now, c);
        RaisedSize(records, c, severity, detail, now);
        if c == code {
          RaiseRemembered(records, raises, ops[n]);
        } else {
          RecordAfterRaise(records, c, severity, detail, now, code);
        }
      case NoteFaultCleared(c, now) =>
        ResolveRemembered(records, raises, c, code);
      case _ =>
    }
  }

  // ── The queue ────────────────────────────────────────────────────────────

  /**
   * The queue holds the last events pushed, at most eight; every event is handed out, still waiting,
   * dropped or taken without room; what was handed out stood at the increasing places `at` in front of the queue.
   */
  ghost predicate InPushOrder(queue: seq<Event>, t: Trace, at: seq<nat>) {
    && |queue| <= 8 && |queue| <= |t.pushed|
    && t.pushed[|t.pushed| - |queue|..] == queue
    && |t.pushed| == |t.popped| + |queue| + t.dropped + t.unsent
    && |at| == |t.popped|
    && (forall k | 0 <= k < |at| :: at[k] < |t.pushed| - |queue| && t.pushed[at[k]] == t.popped[k])
    && (forall j, k | 0 <= j < k < |at| :: at[j] < at[k])
  }

  lemma PushKeepsOrder(queue: seq<Event>, t: Trace, at: seq<nat>, e: Event)
    requires InPushOrder(queue, t, at)
    ensures var dropped := t.dropped + (if |queue| >= MAX_EVENTS then 1 else 0);
      InPushOrder(Queued(queue, e), t.(pushed := t.pushed + [e], dropped := dropped), at)
  {
    var head, pushed := |t.pushed| - |queue|, t.pushed + [e];
    assert pushed[head..] == queue + [e];
    if |queue| >= MAX_EVENTS {
      assert pushed[head + 1..] == pushed[head..][1..] == queue[1..] + [e];
    }
  }

  lemma PopKeepsOrder(queue: seq<Event>, t: Trace, at: seq<nat>)
    requires InPushOrder(queue, t, at) && queue != []
    ensures |queue| <= |t.pushed|
    ensures InPushOrder(queue[1..], t.(popped := t.popped + [queue[0]]), at + [|t.pushed| - |queue|])
  {
    var head := |t.pushed| - |queue|;
    assert t.pushed[head..][0] == t.pushed[head] && t.pushed[head..][1..] == t.pushed[head + 1..];
  }

  lemma NothingPushed()
    ensures InPushOrder([], Trace([], [], 0, 0), [])
  {
  }

  lemma PollPushesNothing(records: seq<FaultRecord>, op: Op)
    requires op.PollEvent?
    ensures Pushed(records, op) == None
  {
  }

  lemma TakeKeepsOrder(queue: seq<Event>, t: Trace, at: seq<nat>)
    requires InPushOrder(queue, t, at) && queue != []
    ensures InPushOrder(queue[1..], t.(unsent := t.unsent + 1), at)
  {
    var head := |t.pushed| - |queue|;
    assert t.pushed[head..][1..] == t.pushed[head + 1..];
  }

  lemma StepKeepsOrder(d: Diagnostics, t: Trace, at: seq<nat>, op: Op) returns (next: seq<nat>)
    requires InPushOrder(d.queue, t, at)
    ensures InPushOrder(Step(d, op).queue, Extended(t, d, op), next)
  {
    hide RecordsAfter, Pushed, InPushOrder, Queued;
    next := at;
    assert t.popped + [] == t.popped && t.pushed + [] == t.pushed;
    if op.PollEvent? {
      PollPushesNothing(d.records, op);
      if Popped(d, op).Some? {
        PopKeepsOrder(d.queue, t, at);
        next := at + [|t.pushed| - |d.queue|];
      } else if Takes(d, op) {
        TakeKeepsOrder(d.queue, t, at);
      }
    } else if Pushed(d.records, op).Some? {
      PushKeepsOrder(d.queue, t, at, Pushed(d.records, op).value);
    }
  }

  /** This holds over every run. */
  lemma {:induction false} QueueIsSuffix(ops: seq<Op>) returns (at: seq<nat>)
    ensures var (end, trace) := Run(Diagnostics([], []), ops);
      InPushOrder(end.queue, trace, at)
    decreases |ops|
  {
    hide Step, Extended, InPushOrder;
    at := [];
    if ops == [] {
      NothingPushed();
    } else {
      var n := |ops| - 1;
      at := QueueIsSuffix(ops[..n]);
      var (mid, t) := Run(Diagnostics([], []), ops[..n]);
      at := StepKeepsOrder(mid, t, at, ops[n]);
    }
  }

  ghost predicate NothingLost(queue: seq<Event>, t: Trace) {
    t.dropped == 0 && t.unsent == 0 ==> t.popped + queue == t.pushed
  }

  lemma PushLosesNothing(queue: seq<Event>, t: Trace, e: Event)
    requires NothingLost(queue, t)
    ensures var dropped := t.dropped + (if |queue| >= MAX_EVENTS then 1 else 0);
      NothingLost(Queued(queue, e), t.(pushed := t.pushed + [e], dropped := dropped))
  {
    assert t.popped + (queue + [e]) == t.popped + queue + [e];
  }

  lemma PopLosesNothing(queue: seq<Event>, t: Trace)
    requires NothingLost(queue, t) && queue != []
    ensures NothingLost(queue[1..], t.(popped := t.popped + [queue[0]]))
  {
    assert t.popped + queue == t.popped + [queue[0]] + queue[1..];
  }

  lemma TakenCounts(queue: seq<Event>, t: Trace)
    ensures queue != [] ==> NothingLost(queue[1..], t.(unsent := t.unsent + 1))
  {
  }

  lemma NothingLostYet()
    ensures NothingLost([], Trace([], [], 0, 0))
  {
  }

  /** As long as the queue never overflows and polls have room, the host is given every event, in order. */
  lemma {:induction false} NothingLostWithoutOverflow(ops: seq<Op>)
    ensures var (end, trace) := Run(Diagnostics([], []), ops);
      NothingLost(end.queue, trace)
    decreases |ops|
  {
    hide RecordsAfter, Pushed, Queued, NothingLost;
    if ops == [] {
      NothingLostYet();
    } else {
      var n := |ops| - 1;
      NothingLostWithoutOverflow(ops[..n]);
      var (mid, t) := Run(Diagnostics([], []), ops[..n]);
      assert t.popped + [] == t.popped && t.pushed + [] == t.pushed;
      if ops[n].PollEvent? {
        PollPushesNothing(mid.records, ops[n]);
        if Popped(mid, ops[n]).Some? {
          PopLosesNothing(mid.queue, t);
        } else if Takes(mid, ops[n]) {
          TakenCounts(mid.queue, t);
        }
      } else if Pushed(mid.records, ops[n]).Some? {
        PushLosesNothing(mid.queue, t, Pushed(mid.records, ops[n]).value);
      }
    }
  }
}
