/**
 * What a client of the configuration sees (engine-core/src/comms/rdp.rs): requests by their numbers on
 * the wire, the answers to them after any run, and the fields of the configuration behind them.
 */
module ConfigRequests {
  import opened Bytes
  import opened Floats
  import opened Params
  import opened ConfigChecksum
  import opened ConfigServer
  import opened ConfigRuns

  // ── Runs that end with a given request ───────────────────────────────────

  lemma {:induction false} RunOneMore(s: State, defaults: EngineConfig, turns: seq<Turn>, t: Turn)
    requires ValidState(s) && Valid(defaults)
    ensures ValidState(Run(s, defaults, turns))
    ensures Run(s, defaults, turns + [t]) == Next(Run(s, defaults, turns), defaults, t.req, t.running)
    decreases |turns|
  {
    hide Next, ValidState, Valid;
    if turns == [] {
      assert [] + [t] == [t] && [t][1..] == [];
      NextValid(s, defaults, t);
      assert Run(s, defaults, [t]) == Run(Next(s, defaults, t.req, t.running), defaults, []);
    } else {
      NextValid(s, defaults, turns[0]);
      assert (turns + [t])[0] == turns[0] && (turns + [t])[1..] == turns[1..] + [t];
      RunOneMore(Next(s, defaults, turns[0].req, turns[0].running), defaults, turns[1..], t);
    }
  }

  // ── Resetting ────────────────────────────────────────────────────────────

  /**
   * After any run, a reset with the right confirmation and the engine stopped makes RAM the build
   * defaults and marks it unsaved, and the stored copy and its checksum stay; any other reset changes
   * nothing. The answer says success exactly if the defaults were loaded.
   */
  lemma ResetLoadsDefaults(s: State, defaults: EngineConfig, turns: seq<Turn>, confirm: u32, running: bool)
    requires ValidState(s) && Valid(defaults)
    ensures var before, reset := Run(s, defaults, turns), ConfigResetDefaults(confirm);
      var after := Run(s, defaults, turns + [Turn(reset, running)]);
      && (confirm == 0xDEFA && !running ==>
            after.ram == defaults && after.dirty && after.flash == before.flash && after.flashCrc == before.flashCrc)
      && (confirm != 0xDEFA || running ==> after == before)
      && ValidState(before) && Answer(before, reset, running) ==
            if confirm != 0xDEFA then Status(BadRequest, 0) else if running then Status(Busy, 0) else Status(Success, 0)
  {
    hide Run, Valid;
    RunOneMore(s, defaults, turns, Turn(ConfigResetDefaults(confirm), running));
  }

  /** After any run, saving stores RAM as it is, with its checksum, and reports that checksum. */
  lemma SaveStoresRam(s: State, defaults: EngineConfig, turns: seq<Turn>, running: bool)
    requires ValidState(s) && Valid(defaults)
    ensures var before, after := Run(s, defaults, turns), Run(s, defaults, turns + [Turn(ConfigSave, running)]);
      && ValidState(before) && after == State(before.ram, before.ram, false, Crc(before.ram))
      && Answer(before, ConfigSave, running) == Saved(Crc(before.ram))
  {
    hide Run, Valid, Crc;
    RunOneMore(s, defaults, turns, Turn(ConfigSave, running));
  }

  /** A reset followed by a save makes the stored configuration the build defaults. */
  lemma ResetThenSave(s: State, defaults: EngineConfig, turns: seq<Turn>, running: bool)
    requires ValidState(s) && Valid(defaults)
    ensures var reset, save := Turn(ConfigResetDefaults(0xDEFA), false), Turn(ConfigSave, running);
      Run(s, defaults, turns + [reset] + [save]) == State(defaults, defaults, false, Crc(defaults))
  {
    hide Run, Valid, Crc, Next;
    ResetLoadsDefaults(s, defaults, turns, 0xDEFA, false);
    SaveStoresRam(s, defaults, turns + [Turn(ConfigResetDefaults(0xDEFA), false)], running);
  }

  /** After any run, a discard makes RAM the stored configuration again; a failed decoding or a read moves nothing. */
  lemma OthersKeepOrReturn(s: State, defaults: EngineConfig, turns: seq<Turn>, t: Turn)
    requires ValidState(s) && Valid(defaults)
    ensures var before, after := Run(s, defaults, turns), Run(s, defaults, turns + [t]);
      && ValidState(before)
      && (t.req == ConfigDiscard ==> after == State(before.flash, before.flash, false, before.flashCrc)
                                     && Answer(before, t.req, t.running) == Status(Success, 0))
      && (t.req == Undecodable ==> after == before && Answer(before, t.req, t.running) == Status(BadRequest, 0))
      && (t.req.ParamGet? || t.req.TableGet? || t.req.ConfigStatus? ==> after == before)
  {
    hide Run, Valid, Crc;
    RunOneMore(s, defaults, turns, t);
  }

  // ── Unsaved changes ──────────────────────────────────────────────────────

  /** The request is accepted and may change RAM. */
  predicate Changes(t: Turn) {
    match t.req
    case ParamSet(entries) => AnyAccepted(entries, t.running)
    case TableSetCell(table, ix, iy, value) =>
      TableOf(table).Some? && CellAccepts(TableOf(table).value, value) && InTable(TableOf(table).value, ix, iy)
    case TableSetAxis(table, axis, values) =>
      TableOf(table).Some? &&
      (if axis == 0 then |values| <= XSize(TableOf(table).value)
       else IsGrid(TableOf(table).value) && |values| <= YSize(TableOf(table).value))
    case ConfigResetDefaults(confirm) => confirm == 0xDEFA && !t.running
    case _ => false
  }

  predicate Transfers(t: Turn) { t.req.ConfigSave? || t.req.ConfigDiscard? }

  lemma DirtyAfter(s: State, defaults: EngineConfig, t: Turn)
    requires ValidState(s) && Valid(defaults)
    ensures Next(s, defaults, t.req, t.running).dirty <==> Changes(t) || (s.dirty && !Transfers(t))
  {
    hide ApplyEntries, WriteCell, WriteAxis, AnyAccepted, CellAccepts, InTable, Crc, Valid;
    match t.req
    case TableSetCell(table, ix, iy, value) =>
      if TableOf(table).Some? {
        WriteCellChangesOneEntry(s.ram, TableOf(table).value, ix, iy, value);
      }
    case TableSetAxis(table, axis, values) =>
      if TableOf(table).Some? {
        WriteAxisChangesOneAxis(s.ram, TableOf(table).value, if axis == 0 then X else Y, values);
      }
    case _ =>
  }

  ghost predicate NoTransfer(turns: seq<Turn>) { forall m | 0 <= m < |turns| :: !Transfers(turns[m]) }

  /** Some accepted change comes after every save and discard of the run. */
  ghost predicate ChangedSinceTransfer(turns: seq<Turn>) {
    exists k | 0 <= k < |turns| :: Changes(turns[k]) && NoTransfer(turns[k..])
  }

  lemma ChangesDoNotTransfer(t: Turn)
    ensures Changes(t) ==> !Transfers(t)
  {
  }

  lemma NoTransferMore(turns: seq<Turn>, t: Turn)
    ensures NoTransfer(turns + [t]) <==> NoTransfer(turns) && !Transfers(t)
  {
    hide Transfers;
    var all := turns + [t];
    if NoTransfer(all) {
      assert !Transfers(all[|turns|]);
      assert forall m | 0 <= m < |turns| :: turns[m] == all[m];
    }
  }

  lemma NothingTransfers()
    ensures NoTransfer([])
  {
  }

  lemma ChangedMore(turns: seq<Turn>, t: Turn)
    ensures ChangedSinceTransfer(turns + [t]) <==> Changes(t) || (ChangedSinceTransfer(turns) && !Transfers(t))
  {
    hide Changes, Transfers, NoTransfer;
    var all, n := turns + [t], |turns|;
    ChangesDoNotTransfer(t);
    assert all[n..] == [] + [t];
    NoTransferMore([], t);
    NothingTransfers();
    forall k | 0 <= k < n ensures all[k] == turns[k] && (NoTransfer(all[k..]) <==> NoTransfer(turns[k..]) && !Transfers(t)) {
      assert all[k..] == turns[k..] + [t];
      NoTransferMore(turns[k..], t);
    }
    if Changes(t) {
      assert Changes(all[n]) && NoTransfer(all[n..]);
    }
    if ChangedSinceTransfer(turns) && !Transfers(t) {
      var k :| 0 <= k < n && Changes(turns[k]) && NoTransfer(turns[k..]);
      assert Changes(all[k]) && NoTransfer(all[k..]);
    }
    if ChangedSinceTransfer(all) && !Changes(t) {
      var k :| 0 <= k < |all| && Changes(all[k]) && NoTransfer(all[k..]);
      assert k < n && Changes(turns[k]) && NoTransfer(turns[k..]);
    }
  }

  lemma NothingChanged(s: State, defaults: EngineConfig)
    requires ValidState(s) && Valid(defaults)
    ensures Run(s, defaults, []) == s && !ChangedSinceTransfer([])
  {
  }

  lemma {:induction false} DirtyIffChanged(s: State, defaults: EngineConfig, turns: seq<Turn>)
    requires ValidState(s) && Valid(defaults) && !s.dirty
    ensures Run(s, defaults, turns).dirty <==> ChangedSinceTransfer(turns)
    decreases |turns|
  {
    hide Next, Changes, Transfers, ValidState, Valid, Run, ChangedSinceTransfer;
    if turns == [] {
      NothingChanged(s, defaults);
    } else {
      var init, t := turns[..|turns| - 1], turns[|turns| - 1];
      assert turns == init + [t];
      DirtyIffChanged(s, defaults, init);
      RunOneMore(s, defaults, init, t);
      DirtyAfter(Run(s, defaults, init), defaults, t);
      ChangedMore(init, t);
    }
  }

  /**
   * Over every run from a clean device, the status says "unsaved" exactly if an accepted change came
   * after the last save or discard; the checksums in it are those of the present RAM and of the last save.
   */
  lemma StatusSaysWhatChanged(s: State, defaults: EngineConfig, turns: seq<Turn>, running: bool)
    requires Consistent(s) && Valid(defaults) && !s.dirty
    ensures var end := Run(s, defaults, turns);
      && ValidState(end)
      && Answer(end, ConfigStatus, running) == Report(ChangedSinceTransfer(turns), Crc(end.ram), Crc(end.flash))
  {
    hide ChangedSinceTransfer, Run, Crc, Valid;
    DirtyIffChanged(s, defaults, turns);
    RunsStayConsistent(s, defaults, turns);
  }

  // ── Parameters by number ─────────────────────────────────────────────────

  /** The field of a parameter number, as the client reads it. */
  function FieldOf(c: EngineConfig, id: u16): Option<f32> {
    if id == 0x0100 then Some(c.displacement)
    else if id == 0x0110 then Some(FloatOf(c.totalTeeth))
    else if id == 0x0111 then Some(FloatOf(c.missingTeeth))
    else if id == 0x0120 then Some(c.crankingRpm)
    else if id == 0x0121 then Some(c.crankingTiming)
    else if id == 0x0122 then Some(c.crankingDwell)
    else if id == 0x0130 then Some(c.stoichRatio)
    else if id == 0x0131 then Some(c.injectorFlow)
    else None
  }

  lemma FieldIsParam(c: EngineConfig, id: u16)
    ensures FieldOf(c, id) == match ParamOf(id) case None => None case Some(p) => Some(GetParam(c, p))
  {
    hide FloatOf;
  }

  /** Reading a list answers the fields of RAM in order, or names the first number that is no parameter. */
  lemma ParamGetReadsFields(s: State, ids: seq<u16>, running: bool)
    requires ValidState(s)
    ensures match Answer(s, ParamGet(ids), running)
      case Values(values) => |values| == |ids| && forall i | 0 <= i < |ids| :: FieldOf(s.ram, ids[i]) == Some(values[i])
      case Status(NotFound, id) => exists i | 0 <= i < |ids| ::
        ids[i] == id && FieldOf(s.ram, id) == None && forall j | 0 <= j < i :: FieldOf(s.ram, ids[j]).Some?
      case _ => false
  {
    hide GetParam, ParamOf, FieldOf;
    forall id: u16 ensures FieldOf(s.ram, id) == match ParamOf(id) case None => None case Some(p) => Some(GetParam(s.ram, p)) {
      FieldIsParam(s.ram, id);
    }
    var i := FirstUnknown(ids);
    if i < |ids| {
      assert ids[i] == ids[i] && FieldOf(s.ram, ids[i]) == None;
    }
  }

  /** The range of a parameter number. */
  predicate InBounds(id: u16, x: real) {
    if id == 0x0100 then 1.0 <= x <= 5000.0
    else if id == 0x0110 then 4.0 <= x <= 256.0
    else if id == 0x0111 then 1.0 <= x <= 4.0
    else if id == 0x0120 then 50.0 <= x <= 1000.0
    else if id == 0x0121 then -10.0 <= x <= 30.0
    else if id == 0x0122 then 1.0 <= x <= 15.0
    else if id == 0x0130 then 10.0 <= x <= 20.0
    else id == 0x0131 && 50.0 <= x <= 2000.0
  }

  lemma BoundsAreAccepted(id: u16, value: f32)
    ensures ParamOf(id).Some? ==>
      (ParamAccepts(ParamOf(id).value, value) <==> Decode(value).Finite? && InBounds(id, Decode(value).x))
    ensures ParamOf(id).Some? ==> (StoppedOnly(ParamOf(id).value) <==> id == 0x0100 || id == 0x0110 || id == 0x0111)
  {
    hide Decode;
  }

  /** The checks of a write in their order: number, engine, form of the value (type 6, four bytes), range. */
  lemma ParamSetCodes(e: Entry, c: EngineConfig, running: bool)
    ensures EntryCode(e, running) ==
      if FieldOf(c, e.id).None? then NotFound
      else if running && (e.id == 0x0100 || e.id == 0x0110 || e.id == 0x0111) then Busy
      else if e.vtype != 6 || |e.raw| != 4 then BadRequest
      else
        var b0: nat, b1: nat, b2: nat, b3: nat := e.raw[0], e.raw[1], e.raw[2], e.raw[3];
        match Decode(b0 + 0x100 * b1 + 0x1_0000 * b2 + 0x100_0000 * b3)
        case Finite(x) => if InBounds(e.id, x) then Success else ValueOutOfRange
        case _ => ValueOutOfRange
  {
    hide GetParam, ParamOf, FieldOf, ParamAccepts, InBounds, Decode, StoppedOnly;
    FieldIsParam(c, e.id);
    if |e.raw| == 4 {
      BoundsAreAccepted(e.id, EntryValue(e));
    } else {
      BoundsAreAccepted(e.id, 0);
    }
  }

  /** Every entry is answered at its own place, whatever becomes of the others. */
  lemma EachEntryAnswered(s: State, entries: seq<Entry>, running: bool)
    requires ValidState(s)
    ensures match Answer(s, ParamSet(entries), running)
      case SetResults(results) => |results| == |entries| &&
        forall i | 0 <= i < |entries| :: results[i] == (entries[i].id, EntryCode(entries[i], running))
      case _ => false
  {
    hide EntryCode;
  }

  /** The value of an entry: its four bytes, the lowest first. */
  predicate Carries(e: Entry, value: f32) {
    && |e.raw| == 4
    && var b0: nat, b1: nat, b2: nat, b3: nat := e.raw[0], e.raw[1], e.raw[2], e.raw[3];
       value == b0 + 0x100 * b1 + 0x1_0000 * b2 + 0x100_0000 * b3
  }

  lemma CarriesItsValue(e: Entry)
    ensures |e.raw| == 4 ==> Carries(e, EntryValue(e))
  {
  }

  predicate WholePart(n: nat, x: real) { n as real <= x < (n + 1) as real }

  /** The field reads as the whole part of `x`. */
  ghost predicate FieldHoldsWhole(c: EngineConfig, id: u16, x: real) {
    && FieldOf(c, id).Some? && Decode(FieldOf(c, id).value).Finite?
    && exists n: nat :: WholePart(n, x) && Decode(FieldOf(c, id).value).x == n as real
  }

  lemma WholeNumberHeld(c: EngineConfig, e: Entry, running: bool)
    requires EntryCode(e, running) == Success && (e.id == 0x0110 || e.id == 0x0111)
    requires FieldOf(c, e.id) == Some(FloatOf(ToU32(EntryValue(e))))
    ensures Decode(EntryValue(e)).Finite? && FieldHoldsWhole(c, e.id, Decode(EntryValue(e)).x)
  {
    hide Decode, FloatOf, EntryValue, FieldOf;
    var x := Decode(EntryValue(e)).x;
    assert 1.0 <= x <= 256.0;
    assert ToU32(EntryValue(e)) == x.Floor;
    FloatOfExact(x.Floor);
    assert WholePart(x.Floor, x);
  }

  lemma OneEntryMarks(s: State, defaults: EngineConfig, e: Entry, running: bool)
    requires ValidState(s) && Valid(defaults) && EntryCode(e, running) == Success
    ensures var after := Next(s, defaults, ParamSet([e]), running);
      after.dirty && after.flash == s.flash && after.flashCrc == s.flashCrc
  {
    hide EntryCode, ApplyEntries, Valid, Crc;
    assert EntryCode([e][0], running).Success?;
  }

  lemma OneEntryApplied(c: EngineConfig, e: Entry, running: bool)
    requires EntryCode(e, running) == Success
    ensures ParamOf(e.id).Some? && ParamAccepts(ParamOf(e.id).value, EntryValue(e)) && |e.raw| == 4
    ensures ApplyEntries(c, [e], running) == SetParam(c, ParamOf(e.id).value, EntryValue(e))
  {
    hide SetParam, ParamAccepts, ParamOf;
    assert [e][1..] == [];
    assert ApplyEntries(ApplyEntry(c, e, running), [], running) == ApplyEntry(c, e, running);
  }

  lemma NumbersApart(id: u16, other: u16)
    requires ParamOf(id).Some? && ParamOf(id) == ParamOf(other)
    ensures id == other
    ensures IsCount(ParamOf(id).value) <==> id == 0x0110 || id == 0x0111
  {
  }

  lemma ParamEntryStored(s: State, defaults: EngineConfig, e: Entry, running: bool)
    requires ValidState(s) && EntryCode(e, running) == Success
    ensures var after := Next(s, defaults, ParamSet([e]), running);
      && Decode(EntryValue(e)).Finite?
      && FieldOf(after.ram, e.id) ==
         Some(if e.id == 0x0110 || e.id == 0x0111 then FloatOf(ToU32(EntryValue(e))) else EntryValue(e))
      && (forall id: u16 | id != e.id :: FieldOf(after.ram, id) == FieldOf(s.ram, id))
      && Valid(after.ram) && SameTablesExcept(s.ram, after.ram, {})
  {
    hide GetParam, ParamOf, FieldOf, SetParam, Table, Decode, FloatOf, ToU32, Valid, EntryCode, ApplyEntries, EntryValue;
    OneEntryApplied(s.ram, e, running);
    var p, value := ParamOf(e.id).value, EntryValue(e);
    SetParamStoresAccepted(s.ram, p, value);
    var after := SetParam(s.ram, p, value);
    NumbersApart(e.id, e.id);
    FieldIsParam(after, e.id);
    forall id: u16 | id != e.id ensures FieldOf(after, id) == FieldOf(s.ram, id) {
      FieldIsParam(after, id);
      FieldIsParam(s.ram, id);
      if ParamOf(id) == Some(p) {
        NumbersApart(e.id, id);
      }
    }
  }

  /**
   * After any run, an accepted write is read back: the value as written, for tooth counts the whole
   * number below. No other parameter and no table moves, and nothing is stored before a save.
   */
  lemma ParamWrittenThenRead(s: State, defaults: EngineConfig, turns: seq<Turn>, e: Entry, running: bool, value: f32)
    requires ValidState(s) && Valid(defaults) && EntryCode(e, running) == Success && Carries(e, value)
    ensures var before, after := Run(s, defaults, turns), Run(s, defaults, turns + [Turn(ParamSet([e]), running)]);
      && Decode(value).Finite?
      && (if e.id == 0x0110 || e.id == 0x0111 then FieldHoldsWhole(after.ram, e.id, Decode(value).x)
          else FieldOf(after.ram, e.id) == Some(value))
      && (forall id: u16 | id != e.id :: FieldOf(after.ram, id) == FieldOf(before.ram, id))
      && Valid(before.ram) && Valid(after.ram) && SameTablesExcept(before.ram, after.ram, {})
      && after.dirty && after.flash == before.flash && after.flashCrc == before.flashCrc
  {
    hide Run, GetParam, ParamOf, FieldOf, SetParam, Table, Decode, FloatOf, ToU32, Valid, EntryValue;
    var before := Run(s, defaults, turns);
    RunOneMore(s, defaults, turns, Turn(ParamSet([e]), running));
    CarriesItsValue(e);
    ParamEntryStored(before, defaults, e, running);
    OneEntryMarks(before, defaults, e, running);
    if e.id == 0x0110 || e.id == 0x0111 {
      WholeNumberHeld(Run(s, defaults, turns + [Turn(ParamSet([e]), running)]).ram, e, running);
    }
  }

  // ── Tables by number ─────────────────────────────────────────────────────

  /** Axes and rows of a table; a curve has one row and no second axis. */
  datatype Fields = Fields(xAxis: Curve, yAxis: Curve, rows: Grid)

  function FieldsOf(c: EngineConfig, n: u16): Option<Fields> {
    if n == 1 then Some(Fields(c.ignitionRpm, c.ignitionLoad, c.ignition))
    else if n == 2 then Some(Fields(c.lambdaRpm, c.lambdaLoad, c.lambda))
    else if n == 3 then Some(Fields(c.veRpm, c.veLoad, c.ve))
    else if n == 4 then Some(Fields(c.deadtimeVoltage, c.deadtimePressure, c.deadtime))
    else if n == 10 then Some(Fields(c.dwellRpm, [], [c.dwellMs]))
    else if n == 11 then Some(Fields(c.dwellVoltage, [], [c.dwellVoltageCorr]))
    else if n == 12 then Some(Fields(c.iatFuelTemp, [], [c.iatFuelCorr]))
    else if n == 13 then Some(Fields(c.cltFuelTemp, [], [c.cltFuelCorr]))
    else if n == 14 then Some(Fields(c.cltTimingTemp, [], [c.cltTimingCorr]))
    else if n == 15 then Some(Fields(c.iatTimingTemp, [], [c.iatTimingCorr]))
    else None
  }

  /** Tables 1 to 3 have 16 by 16 cells, table 4 has 8 by 8, and the curves 8. */
  lemma TableShapes(c: EngineConfig, n: u16)
    requires Valid(c)
    ensures match FieldsOf(c, n)
      case None => n !in [1, 2, 3, 4, 10, 11, 12, 13, 14, 15]
      case Some(f) =>
        var size, rows := if n <= 3 then 16 else 8, if n <= 3 then 16 else if n == 4 then 8 else 1;
        && |f.xAxis| == size && |f.yAxis| == (if n <= 4 then size else 0)
        && |f.rows| == rows && forall r | 0 <= r < rows :: |f.rows[r]| == size
  {
  }

  /** The range of the cells of a table. */
  predicate CellInBounds(n: u16, x: real) {
    if n == 1 then -10.0 <= x <= 60.0
    else if n == 2 || n == 12 || n == 13 then 0.5 <= x <= 2.0
    else if n == 3 then 0.1 <= x <= 1.5
    else if n == 4 then 0.0 <= x <= 5.0
    else if n == 10 then 0.5 <= x <= 15.0
    else if n == 11 then 0.1 <= x <= 5.0
    else -20.0 <= x <= 20.0
  }

  /** Place of a cell when rows of `cols` cells follow each other. */
  function RowMajor(r: nat, k: nat, cols: nat): nat { r * cols + k }

  /** `data` is what a read of these fields returns: the axes, and the cells row by row. */
  ghost predicate ReadsAs(f: Fields, data: TableData) {
    && data.xAxis == f.xAxis && data.yAxis == f.yAxis
    && |data.cells| == |f.rows| * |f.xAxis|
    && forall r, k | 0 <= r < |f.rows| && 0 <= k < |f.rows[r]| ::
         RowMajor(r, k, |f.xAxis|) < |data.cells| && data.cells[RowMajor(r, k, |f.xAxis|)] == f.rows[r][k]
  }

  lemma {:induction false} CellsRowByRow(g: Grid, cols: nat, r: nat, k: nat)
    requires Shaped(g, |g|, cols) && r < |g| && k < cols
    ensures RowMajor(r, k, cols) < |Flatten(g)| && Flatten(g)[RowMajor(r, k, cols)] == g[r][k]
    decreases |g|
  {
    if r == 0 {
    } else {
      CellsRowByRow(g[1..], cols, r - 1, k);
      assert RowMajor(r, k, cols) == cols + RowMajor(r - 1, k, cols);
    }
  }

  lemma FieldsAreTable(c: EngineConfig, n: u16)
    requires Valid(c)
    ensures FieldsOf(c, n).Some? <==> TableOf(n).Some?
    ensures TableOf(n).Some? ==>
      var f, id := FieldsOf(c, n).value, TableOf(n).value;
      && f.xAxis == XAxis(c, id) && f.yAxis == YAxis(c, id)
      && f.rows == (if IsGrid(id) then GridOf(c, id) else [CurveOf(c, id)])
      && Shaped(f.rows, |f.rows|, XSize(id)) && (IsGrid(id) ==> |f.rows| == YSize(id))
  {
  }

  lemma RowsReadAs(f: Fields, data: TableData)
    requires data.xAxis == f.xAxis && data.yAxis == f.yAxis && data.cells == Flatten(f.rows)
    requires Shaped(f.rows, |f.rows|, |f.xAxis|)
    ensures ReadsAs(f, data)
  {
    hide Flatten, RowMajor;
    FlattenShape(f.rows, |f.xAxis|);
    forall r, k | 0 <= r < |f.rows| && 0 <= k < |f.rows[r]|
      ensures RowMajor(r, k, |f.xAxis|) < |data.cells| && data.cells[RowMajor(r, k, |f.xAxis|)] == f.rows[r][k]
    {
      CellsRowByRow(f.rows, |f.xAxis|, r, k);
    }
  }

  lemma TableReadsFields(c: EngineConfig, n: u16)
    requires Valid(c) && TableOf(n).Some?
    ensures FieldsOf(c, n).Some? && ReadsAs(FieldsOf(c, n).value, Table(c, TableOf(n).value))
  {
    hide Valid, FieldsOf, XAxis, YAxis, GridOf, CurveOf, Flatten, XSize, YSize, IsGrid, TableOf;
    FieldsAreTable(c, n);
    var f, id := FieldsOf(c, n).value, TableOf(n).value;
    if IsGrid(id) {
      RowsReadAs(f, Table(c, id));
    }
  }

  /** Reading a table answers its axes and rows from RAM, or that there is no such table. */
  lemma TableGetReadsFields(s: State, n: u16, running: bool)
    requires ValidState(s)
    ensures match Answer(s, TableGet(n), running)
      case Contents(data) => FieldsOf(s.ram, n).Some? && ReadsAs(FieldsOf(s.ram, n).value, data)
      case r => FieldsOf(s.ram, n) == None && r == Status(NotFound, n)
  {
    hide FieldsOf, ReadsAs, Table, TableOf, Valid;
    FieldsAreTable(s.ram, n);
    if TableOf(n).Some? {
      TableReadsFields(s.ram, n);
    }
  }

  lemma CellBoundsAreAccepted(n: u16, value: f32)
    requires TableOf(n).Some?
    ensures CellAccepts(TableOf(n).value, value) <==> Decode(value).Finite? && CellInBounds(n, Decode(value).x)
  {
    hide Decode;
  }

  /** Whether a place is inside a table; a curve has no rows to choose from. */
  predicate InsideFields(f: Fields, ix: nat, iy: nat) { ix < |f.xAxis| && (f.yAxis == [] || iy < |f.yAxis|) }

  lemma PlacesAgree(c: EngineConfig, n: u16, ix: nat, iy: nat)
    requires Valid(c) && TableOf(n).Some?
    ensures FieldsOf(c, n).Some? && (InTable(TableOf(n).value, ix, iy) <==> InsideFields(FieldsOf(c, n).value, ix, iy))
  {
  }

  /** The checks of a cell write in their order: table, range, place; each answer names what was wrong. */
  lemma CellWriteCodes(s: State, n: u16, ix: u16, iy: u16, value: f32, running: bool)
    requires ValidState(s)
    ensures Answer(s, TableSetCell(n, ix, iy, value), running) ==
      match FieldsOf(s.ram, n)
      case None => Status(NotFound, n)
      case Some(f) =>
        if !Decode(value).Finite? || !CellInBounds(n, Decode(value).x) then Status(ValueOutOfRange, n)
        else if !InsideFields(f, ix, iy) then Status(BadRequest, ix)
        else Status(Success, 0)
  {
    hide FieldsOf, TableOf, WriteCell, Valid, Decode, CellInBounds, InTable, InsideFields, CellAccepts;
    FieldsAreTable(s.ram, n);
    if TableOf(n).Some? {
      WriteCellChangesOneEntry(s.ram, TableOf(n).value, ix, iy, value);
      CellBoundsAreAccepted(n, value);
      PlacesAgree(s.ram, n, ix, iy);
    }
  }

  function RowOf(f: Fields, iy: nat): nat { if f.yAxis == [] then 0 else iy }

  predicate HasCell(f: Fields, ix: nat, iy: nat) { RowOf(f, iy) < |f.rows| && ix < |f.rows[RowOf(f, iy)]| }

  /** The table with one cell replaced. */
  function WithCell(f: Fields, ix: nat, iy: nat, value: f32): Fields
    requires HasCell(f, ix, iy)
  {
    f.(rows := f.rows[RowOf(f, iy) := Replaced(f.rows[RowOf(f, iy)], ix, value)])
  }

  lemma FieldsWithGrid(c: EngineConfig, n: u16, g: Grid)
    requires TableOf(n).Some? && IsGrid(TableOf(n).value)
    ensures var after := WithGrid(c, TableOf(n).value, g);
      && FieldsOf(c, n).Some? && FieldsOf(after, n) == Some(FieldsOf(c, n).value.(rows := g))
      && (forall m: u16 | m != n :: FieldsOf(after, m) == FieldsOf(c, m))
      && (forall id: u16 :: FieldOf(after, id) == FieldOf(c, id))
  {
    hide FloatOf;
  }

  lemma FieldsWithCurve(c: EngineConfig, n: u16, v: Curve)
    requires TableOf(n).Some? && !IsGrid(TableOf(n).value)
    ensures var after := WithCurve(c, TableOf(n).value, v);
      && FieldsOf(c, n).Some? && FieldsOf(after, n) == Some(FieldsOf(c, n).value.(rows := [v]))
      && (forall m: u16 | m != n :: FieldsOf(after, m) == FieldsOf(c, m))
      && (forall id: u16 :: FieldOf(after, id) == FieldOf(c, id))
  {
    hide FloatOf;
  }

  lemma YAxisIfGrid(c: EngineConfig, n: u16)
    requires Valid(c) && TableOf(n).Some?
    ensures FieldsOf(c, n).Some? && (FieldsOf(c, n).value.yAxis == [] <==> !IsGrid(TableOf(n).value))
  {
  }

  lemma CellStored(c: EngineConfig, n: u16, ix: nat, iy: nat, value: f32)
    requires Valid(c) && TableOf(n).Some? && WriteCell(c, TableOf(n).value, ix, iy, value).Ok?
    ensures var after := WriteCell(c, TableOf(n).value, ix, iy, value).value;
      && FieldsOf(c, n).Some? && HasCell(FieldsOf(c, n).value, ix, iy)
      && FieldsOf(after, n) == Some(WithCell(FieldsOf(c, n).value, ix, iy, value))
      && (forall m: u16 | m != n :: FieldsOf(after, m) == FieldsOf(c, m))
      && (forall id: u16 :: FieldOf(after, id) == FieldOf(c, id))
  {
    hide CellAccepts, FieldsOf, FieldOf, GridOf, CurveOf, WithGrid, WithCurve, XAxis, YAxis, Valid, TableOf;
    var id := TableOf(n).value;
    FieldsAreTable(c, n);
    YAxisIfGrid(c, n);
    if IsGrid(id) {
      FieldsWithGrid(c, n, GridOf(c, id)[iy := Replaced(GridOf(c, id)[iy], ix, value)]);
    } else {
      var v := Replaced(CurveOf(c, id), ix, value);
      FieldsWithCurve(c, n, v);
      assert [CurveOf(c, id)][0 := v] == [v];
    }
  }

  /**
   * After any run, a cell write that is answered with success replaces that one cell of that table: no
   * other cell, axis, table or parameter moves, and the change is unsaved.
   */
  lemma CellWrittenThenRead(s: State, defaults: EngineConfig, turns: seq<Turn>, n: u16, ix: u16, iy: u16, value: f32, running: bool)
    requires ValidState(s) && Valid(defaults) && ValidState(Run(s, defaults, turns))
    requires Answer(Run(s, defaults, turns), TableSetCell(n, ix, iy, value), running) == Status(Success, 0)
    ensures var before, after := Run(s, defaults, turns), Run(s, defaults, turns + [Turn(TableSetCell(n, ix, iy, value), running)]);
      && FieldsOf(before.ram, n).Some? && HasCell(FieldsOf(before.ram, n).value, ix, iy)
      && FieldsOf(after.ram, n) == Some(WithCell(FieldsOf(before.ram, n).value, ix, iy, value))
      && (forall m: u16 | m != n :: FieldsOf(after.ram, m) == FieldsOf(before.ram, m))
      && (forall id: u16 :: FieldOf(after.ram, id) == FieldOf(before.ram, id))
      && after.dirty && after.flash == before.flash && after.flashCrc == before.flashCrc
  {
    hide Run, WriteCell, FieldsOf, FieldOf, WithCell, HasCell, TableOf, Valid;
    RunOneMore(s, defaults, turns, Turn(TableSetCell(n, ix, iy, value), running));
    CellStored(Run(s, defaults, turns).ram, n, ix, iy, value);
  }

  // ── Axes ─────────────────────────────────────────────────────────────────

  /** The axis that a request names: 0 is the first one, every other number the second. */
  function AxisOf(f: Fields, axis: byte): Curve { if axis == 0 then f.xAxis else f.yAxis }

  function WithAxis(f: Fields, axis: byte, v: Curve): Fields { if axis == 0 then f.(xAxis := v) else f.(yAxis := v) }

  /** The checks of an axis write in their order: table, length; a curve has no second axis to write. */
  lemma AxisWriteCodes(s: State, n: u16, axis: byte, values: seq<f32>, running: bool)
    requires ValidState(s)
    ensures Answer(s, TableSetAxis(n, axis, values), running) ==
      match FieldsOf(s.ram, n)
      case None => Status(NotFound, n)
      case Some(f) =>
        if |values| > |AxisOf(f, axis)| || (axis != 0 && f.yAxis == []) then Status(BadRequest, axis) else Status(Success, 0)
  {
    hide FieldsOf, TableOf, WriteAxis, Valid, XAxis, YAxis;
    FieldsAreTable(s.ram, n);
    if TableOf(n).Some? {
      YAxisIfGrid(s.ram, n);
      WriteAxisChangesOneAxis(s.ram, TableOf(n).value, if axis == 0 then X else Y, values);
    }
  }

  lemma XAxisIsNoParam(c: EngineConfig, id: TableId, v: Curve)
    ensures forall n: u16 :: FieldOf(WithXAxis(c, id, v), n) == FieldOf(c, n)
  {
    hide FloatOf;
  }

  lemma TableNumbersApart(n: u16, m: u16)
    requires TableOf(n).Some? && m != n
    ensures TableOf(m) != TableOf(n)
  {
  }

  lemma OtherXAxisKept(c: EngineConfig, id: TableId, v: Curve, m: u16)
    requires TableOf(m) != Some(id)
    ensures FieldsOf(WithXAxis(c, id, v), m) == FieldsOf(c, m)
  {
  }

  lemma OwnXAxisSet(c: EngineConfig, n: u16, v: Curve)
    requires TableOf(n).Some?
    ensures FieldsOf(c, n).Some?
    ensures FieldsOf(WithXAxis(c, TableOf(n).value, v), n) == Some(FieldsOf(c, n).value.(xAxis := v))
  {
  }

  lemma FieldsWithXAxis(c: EngineConfig, n: u16, v: Curve)
    requires TableOf(n).Some?
    ensures var after := WithXAxis(c, TableOf(n).value, v);
      && FieldsOf(c, n).Some? && FieldsOf(after, n) == Some(FieldsOf(c, n).value.(xAxis := v))
      && (forall m: u16 | m != n :: FieldsOf(after, m) == FieldsOf(c, m))
      && (forall id: u16 :: FieldOf(after, id) == FieldOf(c, id))
  {
    hide FieldOf, FieldsOf, WithXAxis, TableOf;
    XAxisIsNoParam(c, TableOf(n).value, v);
    OwnXAxisSet(c, n, v);
    forall m: u16 | m != n ensures FieldsOf(WithXAxis(c, TableOf(n).value, v), m) == FieldsOf(c, m) {
      TableNumbersApart(n, m);
      OtherXAxisKept(c, TableOf(n).value, v, m);
    }
  }

  lemma FieldsWithYAxis(c: EngineConfig, n: u16, v: Curve)
    requires TableOf(n).Some? && IsGrid(TableOf(n).value)
    ensures var after := WithYAxis(c, TableOf(n).value, v);
      && FieldsOf(c, n).Some? && FieldsOf(after, n) == Some(FieldsOf(c, n).value.(yAxis := v))
      && (forall m: u16 | m != n :: FieldsOf(after, m) == FieldsOf(c, m))
      && (forall id: u16 :: FieldOf(after, id) == FieldOf(c, id))
  {
    hide FloatOf;
  }

  lemma AxisStored(c: EngineConfig, n: u16, axis: byte, values: seq<f32>)
    requires Valid(c) && TableOf(n).Some? && WriteAxis(c, TableOf(n).value, if axis == 0 then X else Y, values).Ok?
    ensures var after := WriteAxis(c, TableOf(n).value, if axis == 0 then X else Y, values).value;
      && FieldsOf(c, n).Some?
      && var f := FieldsOf(c, n).value;
      && |values| <= |AxisOf(f, axis)|
      && FieldsOf(after, n) == Some(WithAxis(f, axis, values + AxisOf(f, axis)[|values|..]))
      && (forall m: u16 | m != n :: FieldsOf(after, m) == FieldsOf(c, m))
      && (forall id: u16 :: FieldOf(after, id) == FieldOf(c, id))
  {
    hide FieldsOf, FieldOf, WithXAxis, WithYAxis, XAxis, YAxis, Valid, TableOf;
    var id := TableOf(n).value;
    FieldsAreTable(c, n);
    if axis == 0 {
      FieldsWithXAxis(c, n, values + XAxis(c, id)[|values|..]);
    } else {
      FieldsWithYAxis(c, n, values + YAxis(c, id)[|values|..]);
    }
  }

  /** After any run, an axis write answered with success replaces the leading entries of that axis and nothing else. */
  lemma AxisWrittenThenRead(s: State, defaults: EngineConfig, turns: seq<Turn>, n: u16, axis: byte, values: seq<f32>, running: bool)
    requires ValidState(s) && Valid(defaults) && ValidState(Run(s, defaults, turns))
    requires Answer(Run(s, defaults, turns), TableSetAxis(n, axis, values), running) == Status(Success, 0)
    ensures var before, after := Run(s, defaults, turns), Run(s, defaults, turns + [Turn(TableSetAxis(n, axis, values), running)]);
      && FieldsOf(before.ram, n).Some?
      && var f := FieldsOf(before.ram, n).value;
      && |values| <= |AxisOf(f, axis)|
      && FieldsOf(after.ram, n) == Some(WithAxis(f, axis, values + AxisOf(f, axis)[|values|..]))
      && (forall m: u16 | m != n :: FieldsOf(after.ram, m) == FieldsOf(before.ram, m))
      && (forall id: u16 :: FieldOf(after.ram, id) == FieldOf(before.ram, id))
      && after.dirty && after.flash == before.flash && after.flashCrc == before.flashCrc
  {
    hide Run, WriteAxis, FieldsOf, FieldOf, WithAxis, AxisOf, TableOf, Valid;
    RunOneMore(s, defaults, turns, Turn(TableSetAxis(n, axis, values), running));
    AxisStored(Run(s, defaults, turns).ram, n, axis, values);
  }
}
