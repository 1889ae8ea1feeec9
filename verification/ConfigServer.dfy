/**
 * Configuration requests (engine-core/src/comms/rdp.rs) and the loop that stores the configuration
 * when the server asks for it (sim/src/serve.rs): live RAM copy, flash copy, build defaults.
 */
module ConfigServer {
  import opened Bytes
  import opened Floats
  import opened Params
  import opened ConfigChecksum

  const RESET_CONFIRM: u32 := 0xDEFA
  const F32_TYPE: byte := 6

  datatype ErrorCode = Success | BadRequest | NotFound | ValueOutOfRange | Busy

  datatype Entry = Entry(id: u16, vtype: byte, raw: seq<byte>)

  /** Bodies of requests, decoded; `Undecodable` is a body that is not one of its operation. */
  datatype Request =
    | ParamGet(ids: seq<u16>)
    | ParamSet(entries: seq<Entry>)
    | TableGet(table: u16)
    | TableSetCell(table: u16, ix: u16, iy: u16, value: f32)
    | TableSetAxis(table: u16, axis: byte, values: seq<f32>)
    | ConfigSave
    | ConfigDiscard
    | ConfigResetDefaults(confirm: u32)
    | ConfigStatus
    | Undecodable

  datatype Response =
    | Status(code: ErrorCode, detail: u16)
    | Values(values: seq<f32>)
    | SetResults(results: seq<(u16, ErrorCode)>)
    | Contents(data: TableData)
    | Saved(crc: u32)
    | Report(dirty: bool, ramCrc: u32, flashCrc: u32)

  datatype State = State(ram: EngineConfig, flash: EngineConfig, dirty: bool, flashCrc: u32)

  ghost predicate ValidState(s: State) { Valid(s.ram) && Valid(s.flash) }

  // ── Writing parameters ───────────────────────────────────────────────────

  function EntryValue(e: Entry): f32
    requires |e.raw| == 4
  {
    FromLe32(e.raw[0], e.raw[1], e.raw[2], e.raw[3])
  }

  /** The answer to one entry; it does not depend on the configuration. */
  function EntryCode(e: Entry, running: bool): ErrorCode {
    match ParamOf(e.id)
    case None => NotFound
    case Some(id) =>
      if StoppedOnly(id) && running then Busy
      else if e.vtype != F32_TYPE || |e.raw| != 4 then BadRequest
      else if !ParamAccepts(id, EntryValue(e)) then ValueOutOfRange
      else Success
  }

  predicate Sets(e: Entry, running: bool, id: ParamId) {
    ParamOf(e.id) == Some(id) && EntryCode(e, running).Success?
  }

  function ApplyEntry(c: EngineConfig, e: Entry, running: bool): EngineConfig {
    if EntryCode(e, running).Success? then SetParam(c, ParamOf(e.id).value, EntryValue(e)) else c
  }

  function ApplyEntries(c: EngineConfig, entries: seq<Entry>, running: bool): EngineConfig
    decreases |entries|
  {
    if entries == [] then c else ApplyEntries(ApplyEntry(c, entries[0], running), entries[1..], running)
  }

  function EntryResults(entries: seq<Entry>, running: bool): seq<(u16, ErrorCode)> {
    seq(|entries|, i requires 0 <= i < |entries| => (entries[i].id, EntryCode(entries[i], running)))
  }

  predicate AnyAccepted(entries: seq<Entry>, running: bool) {
    exists i | 0 <= i < |entries| :: EntryCode(entries[i], running).Success?
  }

  // ── One request ──────────────────────────────────────────────────────────

  function FirstUnknown(ids: seq<u16>): (i: nat)
    ensures i <= |ids| && forall j | 0 <= j < i :: ParamOf(ids[j]).Some?
    ensures i < |ids| ==> ParamOf(ids[i]).None?
  {
    if ids == [] || ParamOf(ids[0]).None? then 0 else 1 + FirstUnknown(ids[1..])
  }

  function AfterWrite(s: State, w: Write): State {
    match w case Ok(c) => s.(ram := c, dirty := true) case Err(_) => s
  }

  /** The state after a request has been handled and, if asked for, the RAM copy has been stored. */
  function Next(s: State, defaults: EngineConfig, req: Request, running: bool): State
    requires ValidState(s)
  {
    match req
    case ParamSet(entries) =>
      s.(ram := ApplyEntries(s.ram, entries, running), dirty := s.dirty || AnyAccepted(entries, running))
    case TableSetCell(table, ix, iy, value) =>
      if TableOf(table).None? then s else AfterWrite(s, WriteCell(s.ram, TableOf(table).value, ix, iy, value))
    case TableSetAxis(table, axis, values) =>
      if TableOf(table).None? then s
      else AfterWrite(s, WriteAxis(s.ram, TableOf(table).value, if axis == 0 then X else Y, values))
    case ConfigSave => State(s.ram, s.ram, false, Crc(s.ram))
    case ConfigDiscard => s.(ram := s.flash, dirty := false)
    case ConfigResetDefaults(confirm) =>
      if confirm == RESET_CONFIRM && !running then s.(ram := defaults, dirty := true) else s
    case _ => s
  }

  function WriteStatus(w: Write, range: u16, index: u16): Response {
    match w
    case Ok(_) => Status(Success, 0)
    case Err(OutOfRange) => Status(ValueOutOfRange, range)
    case Err(BadIndex) => Status(BadRequest, index)
  }

  function Answer(s: State, req: Request, running: bool): Response
    requires ValidState(s)
  {
    match req
    case ParamGet(ids) =>
      var i := FirstUnknown(ids);
      if i < |ids| then Status(NotFound, ids[i])
      else Values(seq(|ids|, j requires 0 <= j < |ids| => GetParam(s.ram, ParamOf(ids[j]).value)))
    case ParamSet(entries) => SetResults(EntryResults(entries, running))
    case TableGet(table) =>
      if TableOf(table).None? then Status(NotFound, table) else Contents(Table(s.ram, TableOf(table).value))
    case TableSetCell(table, ix, iy, value) =>
      if TableOf(table).None? then Status(NotFound, table)
      else WriteStatus(WriteCell(s.ram, TableOf(table).value, ix, iy, value), table, ix)
    case TableSetAxis(table, axis, values) =>
      if TableOf(table).None? then Status(NotFound, table)
      else WriteStatus(WriteAxis(s.ram, TableOf(table).value, if axis == 0 then X else Y, values), axis, axis)
    case ConfigSave => Saved(Crc(s.ram))
    case ConfigDiscard => Status(Success, 0)
    case ConfigResetDefaults(confirm) =>
      if confirm != RESET_CONFIRM then Status(BadRequest, 0) else if running then Status(Busy, 0) else Status(Success, 0)
    case ConfigStatus => Report(s.dirty, Crc(s.ram), s.flashCrc)
    case Undecodable => Status(BadRequest, 0)
  }

  method BoundedSet2d(table: Grid, row: nat, col: nat, value: f32) returns (ok: bool, updated: Grid)
    requires forall r | 0 <= r < |table| :: |table[r]| == (if table == [] then 0 else |table[0]|)
    ensures ok == SetInGrid(table, row, col, value).Some?
    ensures updated == if ok then SetInGrid(table, row, col, value).value else table
  {
    if row < |table| && col < |table[row]| {
      return true, table[row := Replaced(table[row], col, value)];
    }
    return false, table;
  }

  method BoundedSet1d(curve: Curve, i: nat, value: f32) returns (ok: bool, updated: Curve)
    ensures ok == SetInCurve(curve, i, value).Some?
    ensures updated == if ok then SetInCurve(curve, i, value).value else curve
  {
    if i < |curve| {
      return true, Replaced(curve, i, value);
    }
    return false, curve;
  }

  method CopyIntoAxis(dst: Curve, src: seq<f32>) returns (r: Result<(), TableWriteError>, updated: Curve)
    ensures r == if CopyInto(dst, src).Some? then Ok(()) else Err(BadIndex)
    ensures updated == if r.Ok? then CopyInto(dst, src).value else dst
  {
    if |src| > |dst| {
      return Err(BadIndex), dst;
    }
    return Ok(()), src + dst[|src|..];
  }

  lemma AcceptedSoFar(entries: seq<Entry>, i: nat, running: bool)
    requires i < |entries|
    ensures AnyAccepted(entries[..i + 1], running) <==>
            AnyAccepted(entries[..i], running) || EntryCode(entries[i], running).Success?
  {
    hide EntryCode;
    var a, b := entries[..i], entries[..i + 1];
    if EntryCode(entries[i], running).Success? {
      assert b[i] == entries[i];
    }
    if AnyAccepted(a, running) {
      var j :| 0 <= j < |a| && EntryCode(a[j], running).Success?;
      assert b[j] == a[j];
    }
    if AnyAccepted(b, running) {
      var j :| 0 <= j < |b| && EntryCode(b[j], running).Success?;
      assert j < i ==> a[j] == b[j];
    }
  }

  class Device {
    var ram: EngineConfig
    var flash: EngineConfig
    var dirty: bool
    var flashCrc: u32
    const defaults: EngineConfig

    ghost predicate Valid()
      reads this
    {
      Params.Valid(ram) && Params.Valid(flash) && Params.Valid(defaults)
    }

    ghost function Abstract(): State
      reads this
    {
      State(ram, flash, dirty, flashCrc)
    }

    constructor (stored: EngineConfig, build: EngineConfig)
      requires Params.Valid(stored) && Params.Valid(build)
      ensures Valid() && defaults == build && Abstract() == State(stored, stored, false, Crc(stored))
    {
      ram, flash, defaults, dirty := stored, stored, build, false;
      new;
      flashCrc := ConfigCrc(stored);
    }

    /** One turn of the serving loop: handle the request, then store the configuration if asked to. */
    method Serve(req: Request, running: bool) returns (resp: Response)
      requires Valid()
      modifies this
      ensures Valid() && Abstract() == Next(old(Abstract()), defaults, req, running)
      ensures resp == Answer(old(Abstract()), req, running)
    {
      var save;
      resp, save := Handle(req, running);
      if save {
        flash := ram;
      }
    }

    method Handle(req: Request, running: bool) returns (resp: Response, save: bool)
      requires Valid()
      modifies this`ram, this`dirty, this`flashCrc
      ensures Params.Valid(ram) && save == req.ConfigSave?
      ensures resp == Answer(old(Abstract()), req, running)
      ensures var next := Next(old(Abstract()), defaults, req, running);
        ram == next.ram && dirty == next.dirty && flashCrc == next.flashCrc && (!save ==> flash == next.flash)
    {
      hide ApplyEntries, EntryCode, WriteCell, WriteAxis, Table, GetParam, ConfigBytes, Fnv;
      save := false;
      match req
      case ParamGet(ids) =>
        resp := OpParamGet(ids);
      case ParamSet(entries) =>
        resp := OpParamSet(entries, running);
      case TableGet(table) =>
        var id := TableOf(table);
        if id.None? {
          resp := Status(NotFound, table);
        } else {
          var data := Params.TableGet(ram, id.value);
          resp := Contents(data);
        }
      case TableSetCell(table, ix, iy, value) =>
        resp := OpTableSetCell(table, ix, iy, value);
      case TableSetAxis(table, axis, values) =>
        resp := OpTableSetAxis(table, axis, values);
      case ConfigSave =>
        var crc := ConfigCrc(ram);
        dirty := false;
        flashCrc := crc;
        save := true;
        resp := Saved(crc);
      case ConfigDiscard =>
        ram := flash;
        dirty := false;
        resp := Status(Success, 0);
      case ConfigResetDefaults(confirm) =>
        if confirm != RESET_CONFIRM {
          resp := Status(BadRequest, 0);
        } else if running {
          resp := Status(Busy, 0);
        } else {
          ram := defaults;
          dirty := true;
          resp := Status(Success, 0);
        }
      case ConfigStatus =>
        var crc := ConfigCrc(ram);
        resp := Report(dirty, crc, flashCrc);
      case Undecodable =>
        resp := Status(BadRequest, 0);
    }

    method OpParamGet(ids: seq<u16>) returns (resp: Response)
      requires Valid()
      ensures resp == Answer(Abstract(), ParamGet(ids), false)
    {
      hide GetParam, ParamOf;
      var values: seq<f32> := [];
      for i := 0 to |ids|
        invariant |values| == i && FirstUnknown(ids) >= i
        invariant forall j | 0 <= j < i :: ParamOf(ids[j]).Some? && values[j] == GetParam(ram, ParamOf(ids[j]).value)
      {
        var id := ParamOf(ids[i]);
        if id.None? {
          return Status(NotFound, ids[i]);
        }
        values := values + [GetParam(ram, id.value)];
      }
      return Values(values);
    }

    method OpParamSet(entries: seq<Entry>, running: bool) returns (resp: Response)
      requires Valid()
      modifies this`ram, this`dirty
      ensures Params.Valid(ram) && resp == SetResults(EntryResults(entries, running))
      ensures ram == ApplyEntries(old(ram), entries, running)
      ensures dirty == (old(dirty) || AnyAccepted(entries, running))
    {
      hide EntryCode, SetParam, Params.Valid;
      var results: seq<(u16, ErrorCode)> := [];
      for i := 0 to |entries|
        invariant Params.Valid(ram) && results == EntryResults(entries, running)[..i]
        invariant ApplyEntries(ram, entries[i..], running) == ApplyEntries(old(ram), entries, running)
        invariant dirty == (old(dirty) || AnyAccepted(entries[..i], running))
      {
        assert entries[i..][1..] == entries[i + 1..];
        var code := ApplyParamSet(entries[i], running);
        if code == Success {
          dirty := true;
        }
        AcceptedSoFar(entries, i, running);
        results := results + [(entries[i].id, code)];
      }
      assert entries[..|entries|] == entries;
      return SetResults(results);
    }

    method ApplyParamSet(e: Entry, running: bool) returns (code: ErrorCode)
      requires Params.Valid(ram)
      modifies this`ram
      ensures Params.Valid(ram) && code == EntryCode(e, running) && ram == ApplyEntry(old(ram), e, running)
    {
      hide InRange, FloatOf, Clamp, AtLeastOne, CountOf;
      var id := ParamOf(e.id);
      if id.None? {
        return NotFound;
      }
      if StoppedOnly(id.value) && running {
        return Busy;
      }
      if e.vtype != F32_TYPE || |e.raw| != 4 {
        return BadRequest;
      }
      var value := FromLe32(e.raw[0], e.raw[1], e.raw[2], e.raw[3]);
      if !InRange(value, ParamMin(id.value) as real, ParamMax(id.value) as real) {
        return ValueOutOfRange;
      }
      match id.value {
        case Displacement => ram := ram.(displacement := AtLeastOne(value));
        case TotalTeeth => ram := ram.(totalTeeth := CountOf(value));
        case MissingTeeth => ram := ram.(missingTeeth := CountOf(value));
        case CrankingRpm => ram := ram.(crankingRpm := Clamp(value, 50, 1000));
        case CrankingTiming => ram := ram.(crankingTiming := Clamp(value, -10, 30));
        case CrankingDwell => ram := ram.(crankingDwell := Clamp(value, 1, 15));
        case StoichRatio => ram := ram.(stoichRatio := Clamp(value, 10, 20));
        case InjectorFlow => ram := ram.(injectorFlow := Clamp(value, 50, 2000));
      }
      return Success;
    }

    method OpTableSetCell(table: u16, ix: u16, iy: u16, value: f32) returns (resp: Response)
      requires Valid()
      modifies this`ram, this`dirty
      ensures Params.Valid(ram) && resp == Answer(old(Abstract()), TableSetCell(table, ix, iy, value), false)
      ensures Abstract() == Next(old(Abstract()), defaults, TableSetCell(table, ix, iy, value), false)
    {
      hide WriteCell, Params.Valid;
      var id := TableOf(table);
      if id.None? {
        return Status(NotFound, table);
      }
      WriteCellChangesOneEntry(ram, id.value, ix, iy, value);
      var written := TableWriteCell(id.value, ix, iy, value);
      match written
      case Ok(_) =>
        dirty := true;
        return Status(Success, 0);
      case Err(OutOfRange) =>
        return Status(ValueOutOfRange, table);
      case Err(BadIndex) =>
        return Status(BadRequest, ix);
    }

    method OpTableSetAxis(table: u16, axis: byte, values: seq<f32>) returns (resp: Response)
      requires Valid()
      modifies this`ram, this`dirty
      ensures Params.Valid(ram) && resp == Answer(old(Abstract()), TableSetAxis(table, axis, values), false)
      ensures Abstract() == Next(old(Abstract()), defaults, TableSetAxis(table, axis, values), false)
    {
      hide WriteAxis, Params.Valid;
      var id := TableOf(table);
      if id.None? {
        return Status(NotFound, table);
      }
      var which := if axis == 0 then X else Y;
      WriteAxisChangesOneAxis(ram, id.value, which, values);
      var written := TableWriteAxis(id.value, which, values);
      match written
      case Ok(_) =>
        dirty := true;
        return Status(Success, 0);
      case Err(_) =>
        return Status(BadRequest, axis);
    }

    method TableWriteCell(id: TableId, ix: nat, iy: nat, value: f32) returns (r: Result<(), TableWriteError>)
      requires Params.Valid(ram)
      modifies this`ram
      ensures match WriteCell(old(ram), id, ix, iy, value)
              case Ok(c) => r.Ok? && ram == c
              case Err(e) => r == Err(e) && ram == old(ram)
    {
      hide InRange;
      if !InRange(value, CellMin(id), CellMax(id)) {
        return Err(OutOfRange);
      }
      var ok, grid, curve := false, [], [];
      match id {
        case Ignition =>
          ok, grid := BoundedSet2d(ram.ignition, iy, ix, value);
          ram := ram.(ignition := grid);
        case Lambda =>
          ok, grid := BoundedSet2d(ram.lambda, iy, ix, value);
          ram := ram.(lambda := grid);
        case Ve =>
          ok, grid := BoundedSet2d(ram.ve, iy, ix, value);
          ram := ram.(ve := grid);
        case InjectorDeadtime =>
          ok, grid := BoundedSet2d(ram.deadtime, iy, ix, value);
          ram := ram.(deadtime := grid);
        case DwellMs =>
          ok, curve := BoundedSet1d(ram.dwellMs, ix, value);
          ram := ram.(dwellMs := curve);
        case DwellVoltageCorr =>
          ok, curve := BoundedSet1d(ram.dwellVoltageCorr, ix, value);
          ram := ram.(dwellVoltageCorr := curve);
        case IatFuelCorr =>
          ok, curve := BoundedSet1d(ram.iatFuelCorr, ix, value);
          ram := ram.(iatFuelCorr := curve);
        case CltFuelCorr =>
          ok, curve := BoundedSet1d(ram.cltFuelCorr, ix, value);
          ram := ram.(cltFuelCorr := curve);
        case CltTimingCorr =>
          ok, curve := BoundedSet1d(ram.cltTimingCorr, ix, value);
          ram := ram.(cltTimingCorr := curve);
        case IatTimingCorr =>
          ok, curve := BoundedSet1d(ram.iatTimingCorr, ix, value);
          ram := ram.(iatTimingCorr := curve);
      }
      return if ok then Ok(()) else Err(BadIndex);
    }

    method TableWriteAxis(id: TableId, axis: Axis, values: seq<f32>) returns (r: Result<(), TableWriteError>)
      requires Params.Valid(ram)
      modifies this`ram
      ensures match WriteAxis(old(ram), id, axis, values)
              case Ok(c) => r.Ok? && ram == c
              case Err(e) => r == Err(e) && ram == old(ram)
    {
      hide CopyInto;
      var v;
      match (id, axis) {
        case (Ignition, X) =>
          r, v := CopyIntoAxis(ram.ignitionRpm, values);
          ram := ram.(ignitionRpm := v);
        case (Lambda, X) =>
          r, v := CopyIntoAxis(ram.lambdaRpm, values);
          ram := ram.(lambdaRpm := v);
        case (Ve, X) =>
          r, v := CopyIntoAxis(ram.veRpm, values);
          ram := ram.(veRpm := v);
        case (InjectorDeadtime, X) =>
          r, v := CopyIntoAxis(ram.deadtimeVoltage, values);
          ram := ram.(deadtimeVoltage := v);
        case (DwellMs, X) =>
          r, v := CopyIntoAxis(ram.dwellRpm, values);
          ram := ram.(dwellRpm := v);
        case (DwellVoltageCorr, X) =>
          r, v := CopyIntoAxis(ram.dwellVoltage, values);
          ram := ram.(dwellVoltage := v);
        case (IatFuelCorr, X) =>
          r, v := CopyIntoAxis(ram.iatFuelTemp, values);
          ram := ram.(iatFuelTemp := v);
        case (CltFuelCorr, X) =>
          r, v := CopyIntoAxis(ram.cltFuelTemp, values);
          ram := ram.(cltFuelTemp := v);
        case (CltTimingCorr, X) =>
          r, v := CopyIntoAxis(ram.cltTimingTemp, values);
          ram := ram.(cltTimingTemp := v);
        case (IatTimingCorr, X) =>
          r, v := CopyIntoAxis(ram.iatTimingTemp, values);
          ram := ram.(iatTimingTemp := v);
        case (Ignition, Y) =>
          r, v := CopyIntoAxis(ram.ignitionLoad, values);
          ram := ram.(ignitionLoad := v);
        case (Lambda, Y) =>
          r, v := CopyIntoAxis(ram.lambdaLoad, values);
          ram := ram.(lambdaLoad := v);
        case (Ve, Y) =>
          r, v := CopyIntoAxis(ram.veLoad, values);
          ram := ram.(veLoad := v);
        case (InjectorDeadtime, Y) =>
          r, v := CopyIntoAxis(ram.deadtimePressure, values);
          ram := ram.(deadtimePressure := v);
        case _ =>
          r := Err(BadIndex);
      }
    }
  }
}
