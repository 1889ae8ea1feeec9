/**
 * The tunable configuration (engine-core/src/params.rs, engine-core/src/config.rs): scalar
 * parameters with their catalogue ranges, tables and curves with their axes.
 */
module Params {
  import opened Bytes
  import opened Floats

  const BINS := 16
  const CURVE := 8

  type Curve = seq<f32>
  type Grid = seq<seq<f32>>

  datatype EngineConfig = EngineConfig(
    displacement: f32, firingOrder: seq<byte>, totalTeeth: u32, missingTeeth: u32,
    ignitionRpm: Curve, ignitionLoad: Curve, ignition: Grid,
    crankingRpm: f32, crankingTiming: f32, crankingDwell: f32,
    dwellRpm: Curve, dwellMs: Curve, dwellVoltage: Curve, dwellVoltageCorr: Curve,
    stoichRatio: f32, injectorFlow: f32,
    lambdaRpm: Curve, lambdaLoad: Curve, lambda: Grid,
    deadtimePressure: Curve, deadtimeVoltage: Curve, deadtime: Grid,
    veRpm: Curve, veLoad: Curve, ve: Grid,
    iatFuelTemp: Curve, iatFuelCorr: Curve, cltFuelTemp: Curve, cltFuelCorr: Curve,
    cltTimingTemp: Curve, cltTimingCorr: Curve, iatTimingTemp: Curve, iatTimingCorr: Curve)

  predicate Shaped(g: Grid, rows: nat, cols: nat) {
    |g| == rows && forall r | 0 <= r < rows :: |g[r]| == cols
  }

  /** The array sizes of the source. */
  predicate Valid(c: EngineConfig) {
    && |c.ignitionRpm| == |c.ignitionLoad| == |c.lambdaRpm| == |c.lambdaLoad| == |c.veRpm| == |c.veLoad| == BINS
    && Shaped(c.ignition, BINS, BINS) && Shaped(c.lambda, BINS, BINS) && Shaped(c.ve, BINS, BINS)
    && |c.deadtimePressure| == |c.deadtimeVoltage| == CURVE && Shaped(c.deadtime, CURVE, CURVE)
    && |c.dwellRpm| == |c.dwellMs| == |c.dwellVoltage| == |c.dwellVoltageCorr| == CURVE
    && |c.iatFuelTemp| == |c.iatFuelCorr| == |c.cltFuelTemp| == |c.cltFuelCorr| == CURVE
    && |c.cltTimingTemp| == |c.cltTimingCorr| == |c.iatTimingTemp| == |c.iatTimingCorr| == CURVE
  }

  // ── Scalar parameters ────────────────────────────────────────────────────

  datatype ParamId = Displacement | TotalTeeth | MissingTeeth | CrankingRpm | CrankingTiming | CrankingDwell
                   | StoichRatio | InjectorFlow

  /** Identifiers with a catalogue entry; the others answer "not found", whether they exist or not. */
  function ParamOf(id: u16): Option<ParamId> {
    match id
    case 0x0100 => Some(Displacement)
    case 0x0110 => Some(TotalTeeth)
    case 0x0111 => Some(MissingTeeth)
    case 0x0120 => Some(CrankingRpm)
    case 0x0121 => Some(CrankingTiming)
    case 0x0122 => Some(CrankingDwell)
    case 0x0130 => Some(StoichRatio)
    case 0x0131 => Some(InjectorFlow)
    case _ => None
  }

  function ParamMin(id: ParamId): int {
    match id
    case Displacement => 1 case TotalTeeth => 4 case MissingTeeth => 1 case CrankingRpm => 50
    case CrankingTiming => -10 case CrankingDwell => 1 case StoichRatio => 10 case InjectorFlow => 50
  }

  function ParamMax(id: ParamId): int {
    match id
    case Displacement => 5000 case TotalTeeth => 256 case MissingTeeth => 4 case CrankingRpm => 1000
    case CrankingTiming => 30 case CrankingDwell => 15 case StoichRatio => 20 case InjectorFlow => 2000
  }

  predicate StoppedOnly(id: ParamId) { id.Displacement? || id.TotalTeeth? || id.MissingTeeth? }

  predicate IsCount(id: ParamId) { id.TotalTeeth? || id.MissingTeeth? }

  predicate ParamAccepts(id: ParamId, value: f32) { InRange(value, ParamMin(id) as real, ParamMax(id) as real) }

  function GetParam(c: EngineConfig, id: ParamId): f32 {
    match id
    case Displacement => c.displacement
    case TotalTeeth => FloatOf(c.totalTeeth)
    case MissingTeeth => FloatOf(c.missingTeeth)
    case CrankingRpm => c.crankingRpm
    case CrankingTiming => c.crankingTiming
    case CrankingDwell => c.crankingDwell
    case StoichRatio => c.stoichRatio
    case InjectorFlow => c.injectorFlow
  }

  function Constant(n: int): f32
    requires -0x1_0000_0000 < n < 0x1_0000_0000
  {
    if n < 0 then Negated(FloatOf(-n)) else FloatOf(n)
  }

  /** `value.clamp(lo, hi)`; what is not a number stays. */
  function Clamp(value: f32, lo: int, hi: int): f32
    requires -0x1_0000_0000 < lo <= hi < 0x1_0000_0000
  {
    if LessThan(value, lo as real) then Constant(lo) else if GreaterThan(value, hi as real) then Constant(hi) else value
  }

  /** `value.max(1.0)`; what is not a number becomes 1. */
  function AtLeastOne(value: f32): f32 {
    if Decode(value).NaN? || LessThan(value, 1.0) then Constant(1) else value
  }

  function CountOf(value: f32): u32 { if ToU32(value) < 1 then 1 else ToU32(value) }

  function SetParam(c: EngineConfig, id: ParamId, value: f32): EngineConfig {
    match id
    case Displacement => c.(displacement := AtLeastOne(value))
    case TotalTeeth => c.(totalTeeth := CountOf(value))
    case MissingTeeth => c.(missingTeeth := CountOf(value))
    case CrankingRpm => c.(crankingRpm := Clamp(value, 50, 1000))
    case CrankingTiming => c.(crankingTiming := Clamp(value, -10, 30))
    case CrankingDwell => c.(crankingDwell := Clamp(value, 1, 15))
    case StoichRatio => c.(stoichRatio := Clamp(value, 10, 20))
    case InjectorFlow => c.(injectorFlow := Clamp(value, 50, 2000))
  }

  // ── Tables ───────────────────────────────────────────────────────────────

  datatype TableId = Ignition | Lambda | Ve | InjectorDeadtime | DwellMs | DwellVoltageCorr
                   | IatFuelCorr | CltFuelCorr | CltTimingCorr | IatTimingCorr

  function TableOf(id: u16): Option<TableId> {
    match id
    case 1 => Some(Ignition) case 2 => Some(Lambda) case 3 => Some(Ve) case 4 => Some(InjectorDeadtime)
    case 10 => Some(DwellMs) case 11 => Some(DwellVoltageCorr) case 12 => Some(IatFuelCorr)
    case 13 => Some(CltFuelCorr) case 14 => Some(CltTimingCorr) case 15 => Some(IatTimingCorr)
    case _ => None
  }

  predicate IsGrid(id: TableId) { id.Ignition? || id.Lambda? || id.Ve? || id.InjectorDeadtime? }

  function XSize(id: TableId): nat { if id.Ignition? || id.Lambda? || id.Ve? then BINS else CURVE }

  /** Rows of a grid; a curve has none. */
  function YSize(id: TableId): nat { if !IsGrid(id) then 0 else XSize(id) }

  function CellMin(id: TableId): real {
    match id
    case Ignition => -10.0 case Lambda => 0.5 case Ve => 0.1 case InjectorDeadtime => 0.0
    case DwellMs => 0.5 case DwellVoltageCorr => 0.1 case IatFuelCorr => 0.5 case CltFuelCorr => 0.5
    case CltTimingCorr => -20.0 case IatTimingCorr => -20.0
  }

  function CellMax(id: TableId): real {
    match id
    case Ignition => 60.0 case Lambda => 2.0 case Ve => 1.5 case InjectorDeadtime => 5.0
    case DwellMs => 15.0 case DwellVoltageCorr => 5.0 case IatFuelCorr => 2.0 case CltFuelCorr => 2.0
    case CltTimingCorr => 20.0 case IatTimingCorr => 20.0
  }

  predicate CellAccepts(id: TableId, value: f32) { InRange(value, CellMin(id), CellMax(id)) }

  function GridOf(c: EngineConfig, id: TableId): (g: Grid)
    requires Valid(c) && IsGrid(id)
    ensures Shaped(g, YSize(id), XSize(id))
  {
    match id
    case Ignition => c.ignition case Lambda => c.lambda case Ve => c.ve case InjectorDeadtime => c.deadtime
  }

  function CurveOf(c: EngineConfig, id: TableId): (v: Curve)
    requires Valid(c) && !IsGrid(id)
    ensures |v| == XSize(id)
  {
    match id
    case DwellMs => c.dwellMs case DwellVoltageCorr => c.dwellVoltageCorr case IatFuelCorr => c.iatFuelCorr
    case CltFuelCorr => c.cltFuelCorr case CltTimingCorr => c.cltTimingCorr case IatTimingCorr => c.iatTimingCorr
  }

  function XAxis(c: EngineConfig, id: TableId): (v: Curve)
    requires Valid(c)
    ensures |v| == XSize(id)
  {
    match id
    case Ignition => c.ignitionRpm case Lambda => c.lambdaRpm case Ve => c.veRpm
    case InjectorDeadtime => c.deadtimeVoltage case DwellMs => c.dwellRpm case DwellVoltageCorr => c.dwellVoltage
    case IatFuelCorr => c.iatFuelTemp case CltFuelCorr => c.cltFuelTemp
    case CltTimingCorr => c.cltTimingTemp case IatTimingCorr => c.iatTimingTemp
  }

  function YAxis(c: EngineConfig, id: TableId): (v: Curve)
    requires Valid(c)
    ensures |v| == YSize(id)
  {
    match id
    case Ignition => c.ignitionLoad case Lambda => c.lambdaLoad case Ve => c.veLoad
    case InjectorDeadtime => c.deadtimePressure case _ => []
  }

  datatype TableData = TableData(xAxis: Curve, yAxis: Curve, cells: seq<f32>)

  /** A table as the protocol shows it: cells row by row. */
  function Table(c: EngineConfig, id: TableId): TableData
    requires Valid(c)
  {
    TableData(XAxis(c, id), YAxis(c, id), if IsGrid(id) then Flatten(GridOf(c, id)) else CurveOf(c, id))
  }

  lemma {:induction false} FlattenShape(g: Grid, cols: nat)
    requires Shaped(g, |g|, cols)
    ensures |Flatten(g)| == |g| * cols
  {
    if g == [] {
    } else {
      FlattenShape(g[1..], cols);
    }
  }

  const MAX_CELLS := 256

  method PushCells(g: Grid, ghost cols: nat) returns (cells: seq<f32>)
    requires Shaped(g, |g|, cols) && |g| * cols <= MAX_CELLS
    ensures cells == Flatten(g)
  {
    cells := [];
    FlattenShape(g, cols);
    for r := 0 to |g|
      invariant cells + Flatten(g[r..]) == Flatten(g)
    {
      ghost var before := cells;
      assert g[r..][1..] == g[r + 1..];
      assert before + (g[r] + Flatten(g[r + 1..])) == before + g[r] + Flatten(g[r + 1..]);
      for k := 0 to |g[r]|
        invariant cells == before + g[r][..k]
      {
        assert before + g[r][..k] + [g[r][k]] == before + g[r][..k + 1];
        if |cells| < MAX_CELLS {
          cells := cells + [g[r][k]];
        }
      }
      assert g[r][..|g[r]|] == g[r];
    }
    assert cells + [] == cells;
  }

  /** Axes and cells are pushed one by one into vectors of fixed capacity; nothing is dropped. */
  method TableGet(c: EngineConfig, id: TableId) returns (data: TableData)
    requires Valid(c)
    ensures data == Table(c, id)
  {
    hide Flatten;
    var cells;
    if IsGrid(id) {
      cells := PushCells(GridOf(c, id), XSize(id));
    } else {
      cells := CurveOf(c, id);
    }
    return TableData(XAxis(c, id), YAxis(c, id), cells);
  }

  datatype TableWriteError = BadIndex | OutOfRange

  type Write = Result<EngineConfig, TableWriteError>

  function Replaced(v: Curve, i: nat, value: f32): (r: Curve)
    requires i < |v|
    ensures |r| == |v|
  {
    v[i := value]
  }

  function SetInGrid(g: Grid, row: nat, col: nat, value: f32): Option<Grid>
    requires forall r | 0 <= r < |g| :: |g[r]| == (if g == [] then 0 else |g[0]|)
  {
    if row < |g| && col < |g[row]| then Some(g[row := Replaced(g[row], col, value)]) else None
  }

  function SetInCurve(v: Curve, i: nat, value: f32): Option<Curve> {
    if i < |v| then Some(Replaced(v, i, value)) else None
  }

  function WithGrid(c: EngineConfig, id: TableId, g: Grid): EngineConfig
    requires IsGrid(id)
  {
    match id
    case Ignition => c.(ignition := g) case Lambda => c.(lambda := g)
    case Ve => c.(ve := g) case InjectorDeadtime => c.(deadtime := g)
  }

  function WithCurve(c: EngineConfig, id: TableId, v: Curve): EngineConfig
    requires !IsGrid(id)
  {
    match id
    case DwellMs => c.(dwellMs := v) case DwellVoltageCorr => c.(dwellVoltageCorr := v)
    case IatFuelCorr => c.(iatFuelCorr := v) case CltFuelCorr => c.(cltFuelCorr := v)
    case CltTimingCorr => c.(cltTimingCorr := v) case IatTimingCorr => c.(iatTimingCorr := v)
  }

  function WithXAxis(c: EngineConfig, id: TableId, v: Curve): EngineConfig {
    match id
    case Ignition => c.(ignitionRpm := v) case Lambda => c.(lambdaRpm := v) case Ve => c.(veRpm := v)
    case InjectorDeadtime => c.(deadtimeVoltage := v) case DwellMs => c.(dwellRpm := v)
    case DwellVoltageCorr => c.(dwellVoltage := v) case IatFuelCorr => c.(iatFuelTemp := v)
    case CltFuelCorr => c.(cltFuelTemp := v) case CltTimingCorr => c.(cltTimingTemp := v)
    case IatTimingCorr => c.(iatTimingTemp := v)
  }

  function WithYAxis(c: EngineConfig, id: TableId, v: Curve): EngineConfig
    requires IsGrid(id)
  {
    match id
    case Ignition => c.(ignitionLoad := v) case Lambda => c.(lambdaLoad := v)
    case Ve => c.(veLoad := v) case InjectorDeadtime => c.(deadtimePressure := v)
  }

  function WriteCell(c: EngineConfig, id: TableId, ix: nat, iy: nat, value: f32): (r: Write)
    requires Valid(c)
  {
    if !CellAccepts(id, value) then Err(OutOfRange)
    else if IsGrid(id) then
      match SetInGrid(GridOf(c, id), iy, ix, value)
      case None => Err(BadIndex)
      case Some(g) => Ok(WithGrid(c, id, g))
    else
      match SetInCurve(CurveOf(c, id), ix, value)
      case None => Err(BadIndex)
      case Some(v) => Ok(WithCurve(c, id, v))
  }

  /** `copy_into`: the leading entries are replaced. */
  function CopyInto(dst: Curve, src: seq<f32>): Option<Curve> {
    if |src| > |dst| then None else Some(src + dst[|src|..])
  }

  datatype Axis = X | Y

  function WriteAxis(c: EngineConfig, id: TableId, axis: Axis, values: seq<f32>): (r: Write)
    requires Valid(c)
  {
    if axis.X? then
      match CopyInto(XAxis(c, id), values)
      case None => Err(BadIndex)
      case Some(v) => Ok(WithXAxis(c, id, v))
    else if !IsGrid(id) then Err(BadIndex)
    else
      match CopyInto(YAxis(c, id), values)
      case None => Err(BadIndex)
      case Some(v) => Ok(WithYAxis(c, id, v))
  }

  // ── What a write does, seen through the reading side ─────────────────────

  ghost predicate SameParamsExcept(a: EngineConfig, b: EngineConfig, ids: set<ParamId>) {
    a.firingOrder == b.firingOrder && forall id: ParamId | id !in ids :: GetParam(a, id) == GetParam(b, id)
  }

  ghost predicate SameTablesExcept(a: EngineConfig, b: EngineConfig, ids: set<TableId>)
    requires Valid(a) && Valid(b)
  {
    forall id: TableId | id !in ids :: Table(a, id) == Table(b, id)
  }

  /** What is read back once `value` has been accepted for a parameter; tooth counts are whole. */
  function ReadBack(id: ParamId, value: f32): f32 { if IsCount(id) then FloatOf(ToU32(value)) else value }

  lemma CountInRange(id: ParamId, value: f32)
    requires IsCount(id) && ParamAccepts(id, value)
    ensures ParamMin(id) <= ToU32(value) <= ParamMax(id) && CountOf(value) == ToU32(value)
  {
    hide Decode;
  }

  /** An accepted value is held unchanged, stays in range, and nothing else moves. */
  lemma SetParamStoresAccepted(c: EngineConfig, id: ParamId, value: f32)
    requires Valid(c) && ParamAccepts(id, value)
    ensures var after := SetParam(c, id, value);
      && Valid(after) && SameParamsExcept(c, after, {id}) && SameTablesExcept(c, after, {})
      && GetParam(after, id) == ReadBack(id, value) && ParamAccepts(id, GetParam(after, id))
  {
    hide Decode, FloatOf, ToU32;
    if IsCount(id) {
      CountInRange(id, value);
      FloatOfExact(ToU32(value));
    }
  }

  /** What `set_param` on its own needs of a value to end up in range. */
  predicate EndsInRange(id: ParamId, value: f32) {
    match id
    case Displacement => !GreaterThan(value, 5000.0)
    case TotalTeeth => 4 <= ToU32(value) <= 256
    case MissingTeeth => ToU32(value) <= 4
    case _ => !Decode(value).NaN?
  }

  lemma ConstantsExact()
    ensures Decode(Constant(1)) == Finite(1.0) && Decode(Constant(50)) == Finite(50.0) && Decode(Constant(1000)) == Finite(1000.0)
    ensures Decode(Constant(-10)) == Finite(-10.0) && Decode(Constant(30)) == Finite(30.0) && Decode(Constant(15)) == Finite(15.0)
    ensures Decode(Constant(10)) == Finite(10.0) && Decode(Constant(20)) == Finite(20.0) && Decode(Constant(2000)) == Finite(2000.0)
  {
    hide Decode, FloatOf, Negated, ToU32;
    FloatOfExact(1);
    FloatOfExact(50);
    FloatOfExact(1000);
    NegatedExact(10);
    FloatOfExact(30);
    FloatOfExact(15);
    FloatOfExact(10);
    FloatOfExact(20);
    FloatOfExact(2000);
  }

  lemma CountReadsInRange(id: ParamId, n: u32)
    requires IsCount(id)
    ensures ParamAccepts(id, FloatOf(n)) <==> ParamMin(id) <= n <= ParamMax(id)
  {
    hide Decode, FloatOf, ToU32;
    if n < 0x100_0000 {
      FloatOfExact(n);
    } else {
      FloatOfLarge(n);
    }
  }

  /**
   * The documentation says that values are clamped to the catalogue range. Without the server's
   * check that holds of every number for the five clamped parameters; displacement and tooth
   * counts are only raised to one.
   */
  lemma UncheckedSetEndsInRangeIff(c: EngineConfig, id: ParamId, value: f32)
    ensures ParamAccepts(id, GetParam(SetParam(c, id, value), id)) <==> EndsInRange(id, value)
  {
    hide Decode, FloatOf, ToU32, Negated;
    if IsCount(id) {
      CountReadsInRange(id, CountOf(value));
    } else {
      ConstantsExact();
    }
  }

  /** The number nearest to `v` within `lo` to `hi`; what is not a number stays. */
  function Nearest(v: Number, lo: real, hi: real): Number
    requires lo <= hi
  {
    match v
    case NaN => NaN
    case Infinite(negative) => Finite(if negative then lo else hi)
    case Finite(x) => Finite(if x < lo then lo else if x > hi then hi else x)
  }

  /** Without the check a clamped parameter holds the nearest value in range, and displacement at least 1. */
  lemma UncheckedSetHoldsNearest(c: EngineConfig, id: ParamId, value: f32)
    ensures var v, got := Decode(value), Decode(GetParam(SetParam(c, id, value), id));
      && (id.CrankingRpm? ==> got == Nearest(v, 50.0, 1000.0)) && (id.CrankingTiming? ==> got == Nearest(v, -10.0, 30.0))
      && (id.CrankingDwell? ==> got == Nearest(v, 1.0, 15.0)) && (id.StoichRatio? ==> got == Nearest(v, 10.0, 20.0))
      && (id.InjectorFlow? ==> got == Nearest(v, 50.0, 2000.0))
      && (id.Displacement? ==> got == if v.NaN? || LessThan(value, 1.0) then Finite(1.0) else v)
  {
    hide Decode, FloatOf, ToU32, Negated;
    ConstantsExact();
  }

  /** Set without the check, 6000 cc stay 6000 cc, above the catalogue's 5000. */
  lemma UncheckedDisplacementStays(c: EngineConfig)
    ensures var after := SetParam(c, Displacement, FloatOf(6000));
      after.displacement == FloatOf(6000) && !ParamAccepts(Displacement, GetParam(after, Displacement))
  {
    hide Decode, FloatOf;
    FloatOfExact(6000);
  }

  function CellIndex(id: TableId, ix: nat, iy: nat): nat { if IsGrid(id) then iy * XSize(id) + ix else ix }

  predicate InTable(id: TableId, ix: nat, iy: nat) { ix < XSize(id) && (IsGrid(id) ==> iy < YSize(id)) }

  lemma UpdateFront<T>(a: seq<T>, b: seq<T>, i: nat, value: T)
    requires i < |a|
    ensures (a + b)[i := value] == a[i := value] + b
  {
  }

  lemma UpdateBack<T>(a: seq<T>, b: seq<T>, j: nat, value: T)
    requires j < |b|
    ensures (a + b)[|a| + j := value] == a + b[j := value]
  {
  }

  lemma FlattenStep(g: Grid, first: Curve, rest: Grid)
    requires g == [first] + rest
    ensures Flatten(g) == first + Flatten(rest)
  {
    assert g[1..] == rest;
  }

  lemma {:induction false} FlattenUpdate(g: Grid, cols: nat, row: nat, col: nat, value: f32)
    requires Shaped(g, |g|, cols) && row < |g| && col < cols
    ensures row * cols + col < |Flatten(g)|
    ensures Flatten(g[row := Replaced(g[row], col, value)]) == Flatten(g)[row * cols + col := value]
    decreases |g|
  {
    hide Flatten;
    var h, rest := g[row := Replaced(g[row], col, value)], g[1..];
    FlattenStep(g, g[0], rest);
    if row == 0 {
      FlattenStep(h, Replaced(g[0], col, value), rest);
      UpdateFront(g[0], Flatten(rest), col, value);
    } else {
      FlattenUpdate(rest, cols, row - 1, col, value);
      FlattenStep(h, g[0], rest[row - 1 := Replaced(g[row], col, value)]);
      UpdateBack(g[0], Flatten(rest), (row - 1) * cols + col, value);
      assert row * cols == cols + (row - 1) * cols;
    }
  }

  lemma WithGridChanges(c: EngineConfig, id: TableId, g: Grid)
    requires Valid(c) && IsGrid(id) && Shaped(g, YSize(id), XSize(id))
    ensures var after := WithGrid(c, id, g);
      && Valid(after) && SameParamsExcept(c, after, {}) && SameTablesExcept(c, after, {id})
      && Table(after, id) == Table(c, id).(cells := Flatten(g))
  {
    hide FloatOf, Flatten;
  }

  lemma WithCurveChanges(c: EngineConfig, id: TableId, v: Curve)
    requires Valid(c) && !IsGrid(id) && |v| == XSize(id)
    ensures var after := WithCurve(c, id, v);
      && Valid(after) && SameParamsExcept(c, after, {}) && SameTablesExcept(c, after, {id})
      && Table(after, id) == Table(c, id).(cells := v)
  {
    hide FloatOf, Flatten;
  }

  lemma WithXAxisChanges(c: EngineConfig, id: TableId, v: Curve)
    requires Valid(c) && |v| == XSize(id)
    ensures var after := WithXAxis(c, id, v);
      && Valid(after) && SameParamsExcept(c, after, {}) && SameTablesExcept(c, after, {id})
      && Table(after, id) == Table(c, id).(xAxis := v)
  {
    hide FloatOf, Flatten;
  }

  lemma WithYAxisChanges(c: EngineConfig, id: TableId, v: Curve)
    requires Valid(c) && IsGrid(id) && |v| == YSize(id)
    ensures var after := WithYAxis(c, id, v);
      && Valid(after) && SameParamsExcept(c, after, {}) && SameTablesExcept(c, after, {id})
      && Table(after, id) == Table(c, id).(yAxis := v)
  {
    hide FloatOf, Flatten;
  }

  /**
   * A cell write succeeds exactly for a value in range at a place inside the table; then that one
   * row-major entry holds the value and every other cell, axis and parameter is as before.
   */
  lemma WriteCellChangesOneEntry(c: EngineConfig, id: TableId, ix: nat, iy: nat, value: f32)
    requires Valid(c)
    ensures WriteCell(c, id, ix, iy, value).Ok? <==> CellAccepts(id, value) && InTable(id, ix, iy)
    ensures WriteCell(c, id, ix, iy, value) == Err(OutOfRange) <==> !CellAccepts(id, value)
    ensures WriteCell(c, id, ix, iy, value).Ok? ==>
              var after, k := WriteCell(c, id, ix, iy, value).value, CellIndex(id, ix, iy);
              && Valid(after) && SameParamsExcept(c, after, {}) && SameTablesExcept(c, after, {id})
              && k < |Table(c, id).cells|
              && Table(after, id) == Table(c, id).(cells := Table(c, id).cells[k := value])
  {
    hide InRange, Flatten, WithGrid, WithCurve, Valid, SameParamsExcept, SameTablesExcept;
    if IsGrid(id) {
      var g := GridOf(c, id);
      if InTable(id, ix, iy) {
        FlattenUpdate(g, XSize(id), iy, ix, value);
        WithGridChanges(c, id, g[iy := Replaced(g[iy], ix, value)]);
      }
    } else if InTable(id, ix, iy) {
      WithCurveChanges(c, id, Replaced(CurveOf(c, id), ix, value));
    }
  }

  /** An axis write that fits replaces the leading entries of that axis and nothing else. */
  lemma {:induction false} WriteAxisChangesOneAxis(c: EngineConfig, id: TableId, axis: Axis, values: seq<f32>)
    requires Valid(c)
    ensures WriteAxis(c, id, axis, values).Ok? <==>
            (if axis.X? then |values| <= XSize(id) else IsGrid(id) && |values| <= YSize(id))
    ensures WriteAxis(c, id, axis, values).Err? ==> WriteAxis(c, id, axis, values).error == BadIndex
    ensures WriteAxis(c, id, axis, values).Ok? ==>
              var after, n := WriteAxis(c, id, axis, values).value, |values|;
              && Valid(after) && SameParamsExcept(c, after, {}) && SameTablesExcept(c, after, {id})
              && Table(after, id) == if axis.X? then Table(c, id).(xAxis := values + XAxis(c, id)[n..])
                                     else Table(c, id).(yAxis := values + YAxis(c, id)[n..])
  {
    hide Flatten, WithXAxis, WithYAxis, Valid, SameParamsExcept, SameTablesExcept;
    if axis.X? {
      if |values| <= XSize(id) {
        WithXAxisChanges(c, id, values + XAxis(c, id)[|values|..]);
      }
    } else if IsGrid(id) && |values| <= YSize(id) {
      WithYAxisChanges(c, id, values + YAxis(c, id)[|values|..]);
    }
  }
}
