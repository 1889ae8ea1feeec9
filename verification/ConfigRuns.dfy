/** Configuration over whole runs of requests. */
module ConfigRuns {
  import opened Bytes
  import opened Floats
  import opened Params
  import opened ConfigChecksum
  import opened ConfigServer

  datatype Turn = Turn(req: Request, running: bool)

  lemma {:induction false} EntriesValid(c: EngineConfig, entries: seq<Entry>, running: bool)
    requires Valid(c)
    ensures Valid(ApplyEntries(c, entries, running))
    decreases |entries|
  {
    hide Decode, FloatOf;
    if entries == [] {
    } else {
      EntriesValid(ApplyEntry(c, entries[0], running), entries[1..], running);
    }
  }

  lemma NextValid(s: State, defaults: EngineConfig, t: Turn)
    requires ValidState(s) && Valid(defaults)
    ensures ValidState(Next(s, defaults, t.req, t.running))
  {
    hide ApplyEntries, WriteCell, WriteAxis, Valid, ConfigBytes, Fnv, AnyAccepted;
    match t.req
    case ParamSet(entries) => EntriesValid(s.ram, entries, t.running);
    case TableSetCell(table, ix, iy, value) =>
      if TableOf(table).Some? {
        WriteCellChangesOneEntry(s.ram, TableOf(table).value, ix, iy, value);
      }
    case TableSetAxis(table, axis, values) =>
      if TableOf(table).Some? {
        WriteAxisChangesOneAxis(s.ram, TableOf(table).value, if axis == 0 then X else Y, values);
      }
    case _ =>
  }

  ghost function Run(s: State, defaults: EngineConfig, turns: seq<Turn>): State
    requires ValidState(s) && Valid(defaults)
    decreases |turns|
  {
    if turns == [] then s else
    NextValid(s, defaults, turns[0]);
    Run(Next(s, defaults, turns[0].req, turns[0].running), defaults, turns[1..])
  }

  // ── The transaction ──────────────────────────────────────────────────────

  /** Nothing unsaved unless marked dirty; the stored checksum is the checksum of what is stored. */
  ghost predicate Consistent(s: State) {
    ValidState(s) && (!s.dirty ==> s.ram == s.flash) && s.flashCrc == Crc(s.flash)
  }

  /** Entries that are all refused leave the configuration alone. */
  lemma {:induction false} NoneAccepted(c: EngineConfig, entries: seq<Entry>, running: bool)
    requires !AnyAccepted(entries, running)
    ensures ApplyEntries(c, entries, running) == c
    decreases |entries|
  {
    hide EntryCode;
    if entries == [] {
    } else {
      assert !EntryCode(entries[0], running).Success?;
      assert forall i | 0 <= i < |entries[1..]| :: entries[1..][i] == entries[i + 1];
      NoneAccepted(c, entries[1..], running);
    }
  }

  lemma NextConsistent(s: State, defaults: EngineConfig, t: Turn)
    requires Consistent(s) && Valid(defaults)
    ensures Consistent(Next(s, defaults, t.req, t.running))
  {
    hide ApplyEntries, WriteCell, WriteAxis, Valid, ConfigBytes, Fnv, AnyAccepted;
    NextValid(s, defaults, t);
    if t.req.ParamSet? && !AnyAccepted(t.req.entries, t.running) {
      NoneAccepted(s.ram, t.req.entries, t.running);
    }
  }

  lemma ConsistentIsValid(s: State)
    ensures Consistent(s) ==> ValidState(s)
  {
  }

  /** Over every run: clean means RAM and flash agree, and the stored checksum is right. */
  lemma {:induction false} RunsStayConsistent(s: State, defaults: EngineConfig, turns: seq<Turn>)
    requires Consistent(s) && Valid(defaults)
    ensures Consistent(Run(s, defaults, turns))
    decreases |turns|
  {
    hide Next, Consistent;
    if turns == [] {
    } else {
      assert Consistent(s) ==> ValidState(s) by { ConsistentIsValid(s); }
      NextConsistent(s, defaults, turns[0]);
      NextValid(s, defaults, turns[0]);
      RunsStayConsistent(Next(s, defaults, turns[0].req, turns[0].running), defaults, turns[1..]);
    }
  }

  /** After any run, a status report that says "clean" shows equal checksums. */
  lemma CleanReportsAgree(s: State, defaults: EngineConfig, turns: seq<Turn>, running: bool)
    requires Consistent(s) && Valid(defaults)
    ensures var end := Run(s, defaults, turns);
      && ValidState(end) && Answer(end, ConfigStatus, running).Report?
      && var r := Answer(end, ConfigStatus, running);
         r.flashCrc == Crc(end.flash) && r.ramCrc == Crc(end.ram) && (!r.dirty ==> r.ramCrc == r.flashCrc)
  {
    hide Crc;
    RunsStayConsistent(s, defaults, turns);
  }

  /** Discarding undoes everything since the last save, whatever was written, reset or refused. */
  lemma {:induction false} DiscardRestoresLastSave(s: State, defaults: EngineConfig, turns: seq<Turn>, running: bool)
    requires Consistent(s) && Valid(defaults)
    requires forall i | 0 <= i < |turns| :: !turns[i].req.ConfigSave?
    ensures Run(s, defaults, turns).flash == s.flash && Run(s, defaults, turns).flashCrc == s.flashCrc
    ensures ValidState(Run(s, defaults, turns))
    ensures Next(Run(s, defaults, turns), defaults, ConfigDiscard, running) == State(s.flash, s.flash, false, s.flashCrc)
    decreases |turns|
  {
    hide ApplyEntries, WriteCell, WriteAxis, Crc, AnyAccepted;
    if turns == [] {
    } else {
      NextConsistent(s, defaults, turns[0]);
      NextValid(s, defaults, turns[0]);
      DiscardRestoresLastSave(Next(s, defaults, turns[0].req, turns[0].running), defaults, turns[1..], running);
    }
  }

  // ── Ranges ───────────────────────────────────────────────────────────────

  ghost predicate CellsAccepted(c: EngineConfig, id: TableId)
    requires Valid(c)
  {
    forall k | 0 <= k < |Table(c, id).cells| :: CellAccepts(id, Table(c, id).cells[k])
  }

  /** Every catalogued parameter and every cell is within its range. */
  ghost predicate InRanges(c: EngineConfig) {
    && Valid(c)
    && (forall id: ParamId :: ParamAccepts(id, GetParam(c, id)))
    && (forall id: TableId :: CellsAccepted(c, id))
  }

  lemma ParamKeepsRanges(c: EngineConfig, id: ParamId, value: f32)
    requires InRanges(c) && ParamAccepts(id, value)
    ensures InRanges(SetParam(c, id, value))
  {
    hide ParamAccepts, CellAccepts, SetParam, GetParam, Table;
    SetParamStoresAccepted(c, id, value);
    var d := SetParam(c, id, value);
    forall p: ParamId ensures ParamAccepts(p, GetParam(d, p)) {
      assert p != id ==> GetParam(c, p) == GetParam(d, p);
    }
    forall t: TableId ensures CellsAccepted(d, t) {
      assert Table(c, t) == Table(d, t) && CellsAccepted(c, t);
    }
  }

  lemma CellKeepsRanges(c: EngineConfig, id: TableId, ix: nat, iy: nat, value: f32)
    requires InRanges(c) && WriteCell(c, id, ix, iy, value).Ok?
    ensures InRanges(WriteCell(c, id, ix, iy, value).value)
  {
    hide ParamAccepts, CellAccepts, WriteCell, GetParam, Table;
    WriteCellChangesOneEntry(c, id, ix, iy, value);
    var d := WriteCell(c, id, ix, iy, value).value;
    forall p: ParamId ensures ParamAccepts(p, GetParam(d, p)) {
      assert GetParam(c, p) == GetParam(d, p);
    }
    forall t: TableId ensures CellsAccepted(d, t) {
      assert CellsAccepted(c, t) && (t != id ==> Table(c, t) == Table(d, t));
    }
  }

  lemma AxisKeepsRanges(c: EngineConfig, id: TableId, axis: Axis, values: seq<f32>)
    requires InRanges(c) && WriteAxis(c, id, axis, values).Ok?
    ensures InRanges(WriteAxis(c, id, axis, values).value)
  {
    hide ParamAccepts, CellAccepts, WriteAxis, GetParam, Table;
    WriteAxisChangesOneAxis(c, id, axis, values);
    var d := WriteAxis(c, id, axis, values).value;
    forall p: ParamId ensures ParamAccepts(p, GetParam(d, p)) {
      assert GetParam(c, p) == GetParam(d, p);
    }
    forall t: TableId ensures CellsAccepted(d, t) {
      assert CellsAccepted(c, t) && (t != id ==> Table(c, t) == Table(d, t));
    }
  }

  lemma {:induction false} EntriesKeepRanges(c: EngineConfig, entries: seq<Entry>, running: bool)
    requires InRanges(c)
    ensures InRanges(ApplyEntries(c, entries, running))
    decreases |entries|
  {
    hide InRanges, SetParam, ParamAccepts;
    if entries == [] {
    } else {
      var e := entries[0];
      if EntryCode(e, running).Success? {
        ParamKeepsRanges(c, ParamOf(e.id).value, EntryValue(e));
      }
      EntriesKeepRanges(ApplyEntry(c, e, running), entries[1..], running);
    }
  }

  lemma RangesValid(c: EngineConfig)
    requires InRanges(c)
    ensures Valid(c)
  {
  }

  /** Over every run, RAM and flash stay within the catalogue ranges, axes excepted. */
  lemma {:induction false} RunsStayInRange(s: State, defaults: EngineConfig, turns: seq<Turn>)
    requires InRanges(s.ram) && InRanges(s.flash) && InRanges(defaults)
    ensures InRanges(Run(s, defaults, turns).ram) && InRanges(Run(s, defaults, turns).flash)
    decreases |turns|
  {
    hide ApplyEntries, WriteCell, WriteAxis, Crc, AnyAccepted, InRanges;
    RangesValid(s.ram);
    RangesValid(s.flash);
    RangesValid(defaults);
    if turns == [] {
    } else {
      var t := turns[0];
      match t.req {
        case ParamSet(entries) => EntriesKeepRanges(s.ram, entries, t.running);
        case TableSetCell(table, ix, iy, value) =>
          if TableOf(table).Some? && WriteCell(s.ram, TableOf(table).value, ix, iy, value).Ok? {
            CellKeepsRanges(s.ram, TableOf(table).value, ix, iy, value);
          }
        case TableSetAxis(table, axis, values) =>
          if TableOf(table).Some? && WriteAxis(s.ram, TableOf(table).value, if axis == 0 then X else Y, values).Ok? {
            AxisKeepsRanges(s.ram, TableOf(table).value, if axis == 0 then X else Y, values);
          }
        case _ =>
      }
      NextValid(s, defaults, t);
      RunsStayInRange(Next(s, defaults, t.req, t.running), defaults, turns[1..]);
    }
  }

  // ── What one ParamSet does to one parameter ──────────────────────────────

  /** The value of the last accepted entry for a parameter. */
  function LastAccepted(entries: seq<Entry>, running: bool, id: ParamId): Option<f32>
    decreases |entries|
  {
    if entries == [] then None else
    var later := LastAccepted(entries[1..], running, id);
    if later.None? && Sets(entries[0], running, id) then Some(EntryValue(entries[0])) else later
  }

  /**
   * After a list of entries, each parameter reads as its last accepted entry, or as before if none
   * was accepted; tables and axes do not move.
   */
  lemma {:induction false} EachParamReadsLastAccepted(c: EngineConfig, entries: seq<Entry>, running: bool, id: ParamId)
    requires Valid(c)
    ensures var after := ApplyEntries(c, entries, running);
      && Valid(after) && SameTablesExcept(c, after, {})
      && GetParam(after, id) == match LastAccepted(entries, running, id) case None => GetParam(c, id) case Some(v) => ReadBack(id, v)
    decreases |entries|
  {
    hide SetParam, ParamAccepts, GetParam, Table, ReadBack, Valid;
    if entries == [] {
    } else {
      var e := entries[0];
      if EntryCode(e, running).Success? {
        SetParamStoresAccepted(c, ParamOf(e.id).value, EntryValue(e));
      }
      EachParamReadsLastAccepted(ApplyEntry(c, e, running), entries[1..], running, id);
    }
  }

  // ── While the engine runs ────────────────────────────────────────────────

  ghost predicate SameGeometry(a: EngineConfig, b: EngineConfig) {
    forall id: ParamId | StoppedOnly(id) :: GetParam(a, id) == GetParam(b, id)
  }

  /** The first request that moves data between RAM and flash is a discard. */
  ghost predicate DiscardFirst(turns: seq<Turn>) {
    turns != [] && !turns[0].req.ConfigSave? && (turns[0].req.ConfigDiscard? || DiscardFirst(turns[1..]))
  }

  lemma {:induction false} EntriesKeepGeometry(c: EngineConfig, entries: seq<Entry>)
    ensures SameGeometry(c, ApplyEntries(c, entries, true))
    decreases |entries|
  {
    hide ParamAccepts, Clamp, FloatOf, EntryValue;
    if entries == [] {
    } else {
      EntriesKeepGeometry(ApplyEntry(c, entries[0], true), entries[1..]);
    }
  }

  lemma RunningKeepsGeometry(s: State, defaults: EngineConfig, req: Request)
    requires ValidState(s) && Valid(defaults)
    ensures var next := Next(s, defaults, req, true);
      && SameGeometry(next.ram, if req.ConfigDiscard? then s.flash else s.ram)
      && SameGeometry(next.flash, if req.ConfigSave? then s.ram else s.flash)
  {
    hide ApplyEntries, WriteCell, WriteAxis, Crc, AnyAccepted, GetParam;
    match req
    case ParamSet(entries) => EntriesKeepGeometry(s.ram, entries);
    case TableSetCell(table, ix, iy, value) =>
      if TableOf(table).Some? {
        WriteCellChangesOneEntry(s.ram, TableOf(table).value, ix, iy, value);
      }
    case TableSetAxis(table, axis, values) =>
      if TableOf(table).Some? {
        WriteAxisChangesOneAxis(s.ram, TableOf(table).value, if axis == 0 then X else Y, values);
      }
    case _ =>
  }

  /**
   * Displacement and trigger wheel must not change while the engine runs. Discarding has no such
   * check: over a run with the engine turning they stay those of RAM, unless a discard comes before
   * the first save; then they become those of flash.
   */
  lemma {:induction false} GeometryWhileRunning(s: State, defaults: EngineConfig, turns: seq<Turn>)
    requires ValidState(s) && Valid(defaults) && forall i | 0 <= i < |turns| :: turns[i].running
    ensures SameGeometry(Run(s, defaults, turns).ram, if DiscardFirst(turns) then s.flash else s.ram)
    decreases |turns|
  {
    hide Next, GetParam;
    if turns == [] {
    } else {
      NextValid(s, defaults, turns[0]);
      RunningKeepsGeometry(s, defaults, turns[0].req);
      GeometryWhileRunning(Next(s, defaults, turns[0].req, true), defaults, turns[1..]);
    }
  }

  /** So a run can change them exactly if it discards first and RAM and flash differ in them. */
  lemma {:induction false} GeometryChangesIffDiscarded(s: State, defaults: EngineConfig, turns: seq<Turn>)
    requires ValidState(s) && Valid(defaults) && forall i | 0 <= i < |turns| :: turns[i].running
    ensures SameGeometry(Run(s, defaults, turns).ram, s.ram) <==> !DiscardFirst(turns) || SameGeometry(s.flash, s.ram)
  {
    hide GetParam, Run, DiscardFirst;
    GeometryWhileRunning(s, defaults, turns);
  }

  /**
   * From a device that has stored 375 cc: 400 cc are written with the engine stopped, it is started,
   * and a discard changes the displacement under the running engine.
   */
  lemma DiscardChangesRunningEngine(c: EngineConfig, defaults: EngineConfig)
    requires Valid(c) && Valid(defaults) && c.displacement == FloatOf(375)
    ensures var start := State(c, c, false, Crc(c));
      var write := Turn(ParamSet([Entry(0x0100, F32_TYPE, Le32(FloatOf(400)))]), false);
      var discard := Turn(ConfigDiscard, true);
      var before, after := Run(start, defaults, [write]).ram, Run(start, defaults, [write, discard]).ram;
      && before.displacement == FloatOf(400) && after.displacement == FloatOf(375)
      && !SameGeometry(before, after)
  {
    hide FloatOf, Decode, Crc, Le32, FromLe32;
    var e := Entry(0x0100, F32_TYPE, Le32(FloatOf(400)));
    var start, write, discard := State(c, c, false, Crc(c)), Turn(ParamSet([e]), false), Turn(ConfigDiscard, true);
    FloatOfExact(375);
    FloatOfExact(400);
    Split32(FloatOf(400));
    assert EntryCode(e, false).Success? && ApplyEntry(c, e, false).displacement == FloatOf(400);
    assert [e][1..] == [] && ApplyEntries(c, [e], false) == ApplyEntry(c, e, false);
    NextValid(start, defaults, write);
    var mid := Next(start, defaults, write.req, false);
    assert [write][1..] == [] && Run(start, defaults, [write]) == mid;
    assert [write, discard][1..] == [discard] && [discard][1..] == [];
    NextValid(mid, defaults, discard);
    assert Run(mid, defaults, [discard]) == Next(mid, defaults, ConfigDiscard, true);
    var before, after := mid.ram, Next(mid, defaults, ConfigDiscard, true).ram;
    assert StoppedOnly(Displacement) && GetParam(before, Displacement) != GetParam(after, Displacement);
  }
}
