/**
 * The configuration checksum (engine-core/src/params.rs): 32-bit FNV-1a over every tunable value in
 * catalogue order.
 */
module ConfigChecksum {
  import opened Bytes
  import opened Floats
  import opened Params

  const OFFSET: u32 := 0x811C_9DC5

  function WithLow(h: u32, low: byte): u32 { h / 0x100 * 0x100 + low }

  function Xor(a: byte, b: byte): byte { ((a as bv8) ^ (b as bv8)) as int }

  /** `hash ^ byte`, which touches the low byte alone. */
  function Mix(h: u32, b: byte): u32 { WithLow(h, Xor(h % 0x100, b)) }

  function Times(v: u32): u32 { v * 0x0100_0193 % 0x1_0000_0000 }

  function Step(h: u32, b: byte): u32 { Times(Mix(h, b)) }

  function Fnv(h: u32, bytes: seq<byte>): u32
    decreases |bytes|
  {
    if bytes == [] then h else Fnv(Step(h, bytes[0]), bytes[1..])
  }

  lemma {:induction false} FnvAppend(h: u32, a: seq<byte>, b: seq<byte>)
    ensures Fnv(h, a + b) == Fnv(Fnv(h, a), b)
    decreases |a|
  {
    hide Step;
    if a == [] {
      assert a + b == b;
    } else {
      assert (a + b)[1..] == a[1..] + b;
      FnvAppend(Step(h, a[0]), a[1..], b);
    }
  }

  // ── What is covered ──────────────────────────────────────────────────────

  const PARAMS: seq<ParamId> := [
    Displacement, TotalTeeth, MissingTeeth, CrankingRpm, CrankingTiming, CrankingDwell, StoichRatio, InjectorFlow]

  const TABLES: seq<TableId> := [
    Ignition, Lambda, Ve, InjectorDeadtime, DwellMs, DwellVoltageCorr, IatFuelCorr, CltFuelCorr, CltTimingCorr,
    IatTimingCorr]

  function FloatBytes(values: seq<f32>): (bytes: seq<byte>)
    ensures |bytes| == 4 * |values|
  {
    if values == [] then [] else Le32(values[0]) + FloatBytes(values[1..])
  }

  function ParamValues(c: EngineConfig, ids: seq<ParamId>): (values: seq<f32>)
    ensures |values| == |ids| && forall i | 0 <= i < |ids| :: values[i] == GetParam(c, ids[i])
  {
    seq(|ids|, i requires 0 <= i < |ids| => GetParam(c, ids[i]))
  }

  function TableValues(c: EngineConfig, ids: seq<TableId>): seq<f32>
    requires Valid(c)
  {
    if ids == [] then [] else
    var data := Table(c, ids[0]);
    data.xAxis + data.yAxis + data.cells + TableValues(c, ids[1..])
  }

  function ConfigBytes(c: EngineConfig): seq<byte>
    requires Valid(c)
  {
    FloatBytes(ParamValues(c, PARAMS)) + FloatBytes(TableValues(c, TABLES)) + c.firingOrder
  }

  function Crc(c: EngineConfig): u32
    requires Valid(c)
  {
    Fnv(OFFSET, ConfigBytes(c))
  }

  method Fnv1a(start: u32, bytes: seq<byte>) returns (h: u32)
    ensures h == Fnv(start, bytes)
  {
    hide Step;
    h := start;
    for i := 0 to |bytes|
      invariant Fnv(h, bytes[i..]) == Fnv(start, bytes)
    {
      assert bytes[i..][1..] == bytes[i + 1..];
      h := Step(h, bytes[i]);
    }
  }

  lemma FnvEmpty(h: u32)
    ensures Fnv(h, []) == h
  {
  }

  lemma {:induction false} FloatBytesAppend(a: seq<f32>, b: seq<f32>)
    ensures FloatBytes(a + b) == FloatBytes(a) + FloatBytes(b)
  {
    hide Le32;
    if a == [] {
      assert a + b == b;
    } else {
      assert (a + b)[1..] == a[1..] + b;
      FloatBytesAppend(a[1..], b);
    }
  }

  method HashFloats(start: u32, values: seq<f32>) returns (h: u32)
    ensures h == Fnv(start, FloatBytes(values))
  {
    hide Fnv, Le32;
    h := start;
    FnvEmpty(h);
    for i := 0 to |values|
      invariant h == Fnv(start, FloatBytes(values[..i]))
    {
      FloatBytesAppend(values[..i], [values[i]]);
      assert values[..i + 1] == values[..i] + [values[i]];
      assert FloatBytes([values[i]]) == Le32(values[i]) + [] == Le32(values[i]);
      FnvAppend(start, FloatBytes(values[..i]), Le32(values[i]));
      h := Fnv1a(h, Le32(values[i]));
    }
    assert values[..|values|] == values;
  }

  lemma NoTables(c: EngineConfig, head: seq<byte>)
    requires Valid(c)
    ensures TableValues(c, TABLES[|TABLES|..]) == [] && head + FloatBytes([]) == head && TABLES[0..] == TABLES
    ensures [] + TableValues(c, TABLES) == TableValues(c, TABLES)
  {
  }

  lemma NextTable(c: EngineConfig, ids: seq<TableId>, done: seq<f32>, data: TableData)
    requires Valid(c) && ids != [] && data == Table(c, ids[0])
    ensures done + TableValues(c, ids) == done + (data.xAxis + data.yAxis + data.cells) + TableValues(c, ids[1..])
  {
    hide Table;
    var values, later := data.xAxis + data.yAxis + data.cells, TableValues(c, ids[1..]);
    assert done + (values + later) == done + values + later;
  }

  lemma NextValues(head: seq<byte>, done: seq<f32>, values: seq<f32>)
    ensures Fnv(Fnv(OFFSET, head + FloatBytes(done)), FloatBytes(values)) == Fnv(OFFSET, head + FloatBytes(done + values))
  {
    hide Fnv, FloatBytes;
    FnvAppend(OFFSET, head + FloatBytes(done), FloatBytes(values));
    FloatBytesAppend(done, values);
    assert head + FloatBytes(done) + FloatBytes(values) == head + FloatBytes(done + values);
  }

  method ConfigCrc(c: EngineConfig) returns (h: u32)
    requires Valid(c)
    ensures h == Crc(c)
  {
    hide Fnv, Table, FloatBytes, TableValues;
    h := HashFloats(OFFSET, ParamValues(c, PARAMS));
    ghost var head := FloatBytes(ParamValues(c, PARAMS));
    ghost var done: seq<f32> := [];
    NoTables(c, head);
    for i := 0 to |TABLES|
      invariant done + TableValues(c, TABLES[i..]) == TableValues(c, TABLES)
      invariant h == Fnv(OFFSET, head + FloatBytes(done))
    {
      var data := TableGet(c, TABLES[i]);
      NextTable(c, TABLES[i..], done, data);
      assert TABLES[i..][1..] == TABLES[i + 1..];
      NextValues(head, done, data.xAxis + data.yAxis + data.cells);
      h := HashFloats(h, data.xAxis + data.yAxis + data.cells);
      done := done + (data.xAxis + data.yAxis + data.cells);
    }
    NoTables(c, head);
    assert done + [] == done;
    FnvAppend(OFFSET, head + FloatBytes(done), c.firingOrder);
    h := Fnv1a(h, c.firingOrder);
  }

  // ── The same in literals ─────────────────────────────────────────────────

  /** One byte: it goes into the low byte first, the multiplication comes second. */
  lemma Hashed(h: u32, b: byte, low: byte, next: u32)
    requires Xor(h % 0x100, b) == low && (h - h % 0x100 + low) * 0x0100_0193 % 0x1_0000_0000 == next
    ensures Fnv(h, [b]) == next
  {
    hide Xor;
    assert Fnv(Step(h, b), []) == Step(h, b);
  }

  lemma LettersXored()
    ensures Xor(0xC5, 0x66) == 0xA3 && Xor(0x99, 0x6F) == 0xF6 && Xor(0x42, 0x6F) == 0x2D
    ensures Xor(0xD7, 0x62) == 0xB5 && Xor(0xEF, 0x61) == 0x8E && Xor(0x8A, 0x72) == 0xF8
  {
  }

  /** The published FNV-1a value of the text "foobar". */
  lemma KnownValue()
    ensures Fnv(0x811C_9DC5, [0x66, 0x6F, 0x6F, 0x62, 0x61, 0x72]) == 0xBF9C_F968
  {
    hide Fnv, Xor;
    LettersXored();
    Hashed(0x811C_9DC5, 0x66, 0xA3, 0xE30C_2799);
    Hashed(0xE30C_2799, 0x6F, 0xF6, 0x6222_E842);
    Hashed(0x6222_E842, 0x6F, 0x2D, 0xA9F3_7ED7);
    Hashed(0xA9F3_7ED7, 0x62, 0xB5, 0x3F50_76EF);
    Hashed(0x3F50_76EF, 0x61, 0x8E, 0x39AA_A18A);
    Hashed(0x39AA_A18A, 0x72, 0xF8, 0xBF9C_F968);
    FnvAppend(0x811C_9DC5, [0x66], [0x6F]);
    FnvAppend(0x811C_9DC5, [0x66] + [0x6F], [0x6F]);
    FnvAppend(0x811C_9DC5, [0x66] + [0x6F] + [0x6F], [0x62]);
    FnvAppend(0x811C_9DC5, [0x66] + [0x6F] + [0x6F] + [0x62], [0x61]);
    FnvAppend(0x811C_9DC5, [0x66] + [0x6F] + [0x6F] + [0x62] + [0x61], [0x72]);
    assert [0x66] + [0x6F] + [0x6F] + [0x62] + [0x61] + [0x72] == [0x66, 0x6F, 0x6F, 0x62, 0x61, 0x72];
  }

  /** Every value goes in as four bytes, the lowest first. */
  lemma {:induction false} FloatBytesAt(values: seq<f32>, i: nat)
    requires i < |values|
    ensures var v := values[i];
      FloatBytes(values)[4 * i..4 * i + 4] == [v % 0x100, v / 0x100 % 0x100, v / 0x1_0000 % 0x100, v / 0x100_0000]
    decreases i
  {
    if i == 0 {
    } else {
      FloatBytesAt(values[1..], i - 1);
    }
  }

  lemma {:induction false} TableValuesAppend(c: EngineConfig, ids: seq<TableId>, id: TableId)
    requires Valid(c)
    ensures TableValues(c, ids + [id]) == TableValues(c, ids) + (Table(c, id).xAxis + Table(c, id).yAxis + Table(c, id).cells)
  {
    hide Table, Valid;
    if ids == [] {
      assert [] + [id] == [id] && [id][1..] == [];
    } else {
      assert (ids + [id])[1..] == ids[1..] + [id];
      TableValuesAppend(c, ids[1..], id);
    }
  }

  lemma GridMore(c: EngineConfig, ids: seq<TableId>, id: TableId, done: seq<f32>)
    requires Valid(c) && IsGrid(id) && TableValues(c, ids) == done
    ensures TableValues(c, ids + [id]) == done + XAxis(c, id) + YAxis(c, id) + Flatten(GridOf(c, id))
  {
    hide TableValues, XAxis, YAxis, Flatten, GridOf, Valid;
    TableValuesAppend(c, ids, id);
  }

  lemma CurveMore(c: EngineConfig, ids: seq<TableId>, id: TableId, done: seq<f32>)
    requires Valid(c) && !IsGrid(id) && TableValues(c, ids) == done
    ensures TableValues(c, ids + [id]) == done + XAxis(c, id) + CurveOf(c, id)
  {
    hide TableValues, XAxis, CurveOf, Valid;
    TableValuesAppend(c, ids, id);
    assert YAxis(c, id) == [];
  }

  lemma NothingCovered(c: EngineConfig)
    requires Valid(c)
    ensures TableValues(c, []) == []
  {
  }

  lemma GridsInOrder(c: EngineConfig)
    requires Valid(c)
    ensures TableValues(c, [] + [Ignition] + [Lambda] + [Ve] + [InjectorDeadtime]) ==
      c.ignitionRpm + c.ignitionLoad + Flatten(c.ignition) + c.lambdaRpm + c.lambdaLoad + Flatten(c.lambda)
      + c.veRpm + c.veLoad + Flatten(c.ve) + c.deadtimeVoltage + c.deadtimePressure + Flatten(c.deadtime)
  {
    hide TableValues, Flatten, Valid;
    NothingCovered(c);
    GridMore(c, [], Ignition, []);
    assert [] + c.ignitionRpm == c.ignitionRpm;
    var one := [] + [Ignition];
    GridMore(c, one, Lambda, TableValues(c, one));
    GridMore(c, one + [Lambda], Ve, TableValues(c, one + [Lambda]));
    GridMore(c, one + [Lambda] + [Ve], InjectorDeadtime, TableValues(c, one + [Lambda] + [Ve]));
  }

  lemma TablesInOrder(c: EngineConfig)
    requires Valid(c)
    ensures TableValues(c, TABLES) ==
      c.ignitionRpm + c.ignitionLoad + Flatten(c.ignition) + c.lambdaRpm + c.lambdaLoad + Flatten(c.lambda)
      + c.veRpm + c.veLoad + Flatten(c.ve) + c.deadtimeVoltage + c.deadtimePressure + Flatten(c.deadtime)
      + c.dwellRpm + c.dwellMs + c.dwellVoltage + c.dwellVoltageCorr + c.iatFuelTemp + c.iatFuelCorr
      + c.cltFuelTemp + c.cltFuelCorr + c.cltTimingTemp + c.cltTimingCorr + c.iatTimingTemp + c.iatTimingCorr
  {
    hide TableValues, Flatten, Valid;
    GridsInOrder(c);
    var grids := [] + [Ignition] + [Lambda] + [Ve] + [InjectorDeadtime];
    CurveMore(c, grids, DwellMs, TableValues(c, grids));
    var timed := grids + [DwellMs];
    CurveMore(c, timed, DwellVoltageCorr, TableValues(c, timed));
    var dwelt := timed + [DwellVoltageCorr];
    CurveMore(c, dwelt, IatFuelCorr, TableValues(c, dwelt));
    CurveMore(c, dwelt + [IatFuelCorr], CltFuelCorr, TableValues(c, dwelt + [IatFuelCorr]));
    var fuelled := dwelt + [IatFuelCorr] + [CltFuelCorr];
    CurveMore(c, fuelled, CltTimingCorr, TableValues(c, fuelled));
    CurveMore(c, fuelled + [CltTimingCorr], IatTimingCorr, TableValues(c, fuelled + [CltTimingCorr]));
    assert TABLES == fuelled + [CltTimingCorr] + [IatTimingCorr];
  }

  /** The covered bytes: scalars, axes and cells of the tables, and the firing order, hashed from the standard start. */
  lemma CoveredInOrder(c: EngineConfig)
    requires Valid(c)
    ensures ConfigBytes(c) ==
      FloatBytes([c.displacement, FloatOf(c.totalTeeth), FloatOf(c.missingTeeth), c.crankingRpm, c.crankingTiming,
                  c.crankingDwell, c.stoichRatio, c.injectorFlow])
      + FloatBytes(
          c.ignitionRpm + c.ignitionLoad + Flatten(c.ignition) + c.lambdaRpm + c.lambdaLoad + Flatten(c.lambda)
          + c.veRpm + c.veLoad + Flatten(c.ve) + c.deadtimeVoltage + c.deadtimePressure + Flatten(c.deadtime)
          + c.dwellRpm + c.dwellMs + c.dwellVoltage + c.dwellVoltageCorr + c.iatFuelTemp + c.iatFuelCorr
          + c.cltFuelTemp + c.cltFuelCorr + c.cltTimingTemp + c.cltTimingCorr + c.iatTimingTemp + c.iatTimingCorr)
      + c.firingOrder
    ensures Crc(c) == Fnv(0x811C_9DC5, ConfigBytes(c))
  {
    hide FloatBytes, FloatOf, Flatten, TableValues, Valid, Fnv;
    TablesInOrder(c);
    assert ParamValues(c, PARAMS) ==
      [c.displacement, FloatOf(c.totalTeeth), FloatOf(c.missingTeeth), c.crankingRpm, c.crankingTiming,
       c.crankingDwell, c.stoichRatio, c.injectorFlow];
  }

  // ── What it detects ──────────────────────────────────────────────────────

  lemma ByInverse(d: int, q: int)
    requires d * 0x0100_0193 == q * 0x1_0000_0000
    ensures d == 0x1_0000_0000 * (q * 0x359C_449B - 3513497 * d)
  {
  }

  lemma SmallMultiple(d: int, t: int)
    requires d == 0x1_0000_0000 * t && -0x1_0000_0000 < d < 0x1_0000_0000
    ensures d == 0
  {
  }

  /** The multiplier has an inverse modulo 2^32. */
  lemma TimesInjective(v: u32, w: u32)
    requires Times(v) == Times(w)
    ensures v == w
  {
    var j, k := v * 0x0100_0193 / 0x1_0000_0000, w * 0x0100_0193 / 0x1_0000_0000;
    ByInverse(v - w, j - k);
    SmallMultiple(v - w, (j - k) * 0x359C_449B - 3513497 * (v - w));
  }

  lemma LowReplaced(h: u32, low: byte)
    ensures WithLow(h, low) % 0x100 == low && WithLow(h, low) / 0x100 == h / 0x100
  {
  }

  function Bits8(x: byte): bv8 { x as bv8 }

  function Byte8(v: bv8): byte { v as int }

  function BitwiseXor(u: bv8, v: bv8): bv8 { u ^ v }

  lemma XorTwice(u: bv8, v: bv8)
    ensures BitwiseXor(BitwiseXor(u, v), v) == u && BitwiseXor(u, v) == BitwiseXor(v, u)
  {
  }

  lemma Bits8Byte8(x: byte, v: bv8)
    ensures Byte8(Bits8(x)) == x && Bits8(Byte8(v)) == v
  {
    ByteToBits(x);
    BitsToByte(v);
  }

  lemma XorIs(x: byte, a: byte)
    ensures Xor(x, a) == Byte8(BitwiseXor(Bits8(x), Bits8(a)))
  {
  }

  lemma XorUndone(x: byte, a: byte)
    ensures Xor(Xor(x, a), a) == x && Xor(x, a) == Xor(a, x)
  {
    hide Xor, Bits8, Byte8, BitwiseXor;
    XorIs(x, a);
    XorIs(a, x);
    XorIs(Xor(x, a), a);
    Bits8Byte8(x, BitwiseXor(Bits8(x), Bits8(a)));
    XorTwice(Bits8(x), Bits8(a));
  }

  lemma MixInjective(g: u32, h: u32, a: byte, b: byte)
    ensures g != h ==> Mix(g, a) != Mix(h, a)
    ensures a != b ==> Mix(g, a) != Mix(g, b)
  {
    hide Xor;
    LowReplaced(g, Xor(g % 0x100, a));
    LowReplaced(h, Xor(h % 0x100, a));
    LowReplaced(g, Xor(g % 0x100, b));
    XorUndone(g % 0x100, a);
    XorUndone(h % 0x100, a);
    XorUndone(a, g % 0x100);
    XorUndone(b, g % 0x100);
  }

  lemma StepInjective(g: u32, h: u32, a: byte, b: byte)
    ensures g != h ==> Step(g, a) != Step(h, a)
    ensures a != b ==> Step(g, a) != Step(g, b)
  {
    hide Times, Mix;
    MixInjective(g, h, a, b);
    if Step(g, a) == Step(h, a) {
      TimesInjective(Mix(g, a), Mix(h, a));
    }
    if Step(g, a) == Step(g, b) {
      TimesInjective(Mix(g, a), Mix(g, b));
    }
  }

  lemma {:induction false} SuffixKeepsDifference(g: u32, h: u32, bytes: seq<byte>)
    requires g != h
    ensures Fnv(g, bytes) != Fnv(h, bytes)
    decreases |bytes|
  {
    hide Step;
    if bytes == [] {
    } else {
      StepInjective(g, h, bytes[0], 0);
      SuffixKeepsDifference(Step(g, bytes[0]), Step(h, bytes[0]), bytes[1..]);
    }
  }

  lemma OneMore(h: u32, b: byte, rest: seq<byte>)
    ensures Fnv(h, [b] + rest) == Fnv(Step(h, b), rest)
  {
    hide Step;
    assert ([b] + rest)[1..] == rest;
  }

  /** A change of one covered byte always changes the checksum. */
  lemma OneByteChangesCrc(a: EngineConfig, b: EngineConfig, i: nat, x: byte)
    requires Valid(a) && Valid(b) && i < |ConfigBytes(a)| && x != ConfigBytes(a)[i]
    requires ConfigBytes(b) == ConfigBytes(a)[i := x]
    ensures Crc(a) != Crc(b)
  {
    hide ConfigBytes, Fnv, Step;
    var s, t := ConfigBytes(a), ConfigBytes(b);
    assert s == s[..i] + ([s[i]] + s[i + 1..]) && t == s[..i] + ([x] + s[i + 1..]);
    var h := Fnv(OFFSET, s[..i]);
    FnvAppend(OFFSET, s[..i], [s[i]] + s[i + 1..]);
    FnvAppend(OFFSET, s[..i], [x] + s[i + 1..]);
    OneMore(h, s[i], s[i + 1..]);
    OneMore(h, x, s[i + 1..]);
    StepInjective(h, h, s[i], x);
    SuffixKeepsDifference(Step(h, s[i]), Step(h, x), s[i + 1..]);
  }

  // ── ... and that nothing escapes it ──────────────────────────────────────

  lemma SplitEqual<T>(a: seq<T>, b: seq<T>, c: seq<T>, d: seq<T>)
    requires a + b == c + d && |a| == |c|
    ensures a == c && b == d
  {
    assert a == (a + b)[..|a|] && c == (c + d)[..|c|];
    assert b == (a + b)[|a|..] && d == (c + d)[|c|..];
  }

  lemma {:induction false} FloatBytesInjective(a: seq<f32>, b: seq<f32>)
    requires |a| == |b| && FloatBytes(a) == FloatBytes(b)
    ensures a == b
  {
    hide Le32;
    if a == [] {
    } else {
      SplitEqual(Le32(a[0]), FloatBytes(a[1..]), Le32(b[0]), FloatBytes(b[1..]));
      Split32(a[0]);
      Split32(b[0]);
      FloatBytesInjective(a[1..], b[1..]);
      assert a == [a[0]] + a[1..] && b == [b[0]] + b[1..];
    }
  }

  lemma {:induction false} TableSizes(c: EngineConfig, d: EngineConfig, id: TableId)
    requires Valid(c) && Valid(d)
    ensures var a, b := Table(c, id), Table(d, id);
      |a.xAxis| == |b.xAxis| && |a.yAxis| == |b.yAxis| && |a.cells| == |b.cells|
  {
    if IsGrid(id) {
      FlattenShape(GridOf(c, id), XSize(id));
      FlattenShape(GridOf(d, id), XSize(id));
    }
  }

  lemma {:induction false} FlattenInjective(g: Grid, h: Grid, cols: nat)
    requires Shaped(g, |g|, cols) && Shaped(h, |g|, cols) && Flatten(g) == Flatten(h)
    ensures g == h
  {
    if g == [] {
    } else {
      SplitEqual(g[0], Flatten(g[1..]), h[0], Flatten(h[1..]));
      FlattenInjective(g[1..], h[1..], cols);
      assert g == [g[0]] + g[1..] && h == [h[0]] + h[1..];
    }
  }

  lemma {:induction false} TableValuesDetermine(c: EngineConfig, d: EngineConfig, ids: seq<TableId>)
    requires Valid(c) && Valid(d)
    ensures |TableValues(c, ids)| == |TableValues(d, ids)|
    ensures TableValues(c, ids) == TableValues(d, ids) ==> forall i | 0 <= i < |ids| :: Table(c, ids[i]) == Table(d, ids[i])
  {
    hide Table;
    if ids == [] {
    } else {
      var a, b := Table(c, ids[0]), Table(d, ids[0]);
      TableSizes(c, d, ids[0]);
      TableValuesDetermine(c, d, ids[1..]);
      if TableValues(c, ids) == TableValues(d, ids) {
        SplitEqual(a.xAxis + a.yAxis + a.cells, TableValues(c, ids[1..]), b.xAxis + b.yAxis + b.cells, TableValues(d, ids[1..]));
        SplitEqual(a.xAxis + a.yAxis, a.cells, b.xAxis + b.yAxis, b.cells);
        SplitEqual(a.xAxis, a.yAxis, b.xAxis, b.yAxis);
        assert forall i | 0 < i < |ids| :: ids[i] == ids[1..][i - 1];
      }
    }
  }

  lemma TablesDetermine(c: EngineConfig, d: EngineConfig)
    requires Valid(c) && Valid(d) && forall id: TableId :: Table(c, id) == Table(d, id)
    ensures forall id: TableId ::
              XAxis(c, id) == XAxis(d, id) && YAxis(c, id) == YAxis(d, id)
              && (if IsGrid(id) then GridOf(c, id) == GridOf(d, id) else CurveOf(c, id) == CurveOf(d, id))
  {
    hide GridOf, CurveOf, XAxis, YAxis;
    forall id: TableId
      ensures XAxis(c, id) == XAxis(d, id) && YAxis(c, id) == YAxis(d, id)
      ensures if IsGrid(id) then GridOf(c, id) == GridOf(d, id) else CurveOf(c, id) == CurveOf(d, id)
    {
      assert Table(c, id) == Table(d, id);
      if IsGrid(id) {
        FlattenInjective(GridOf(c, id), GridOf(d, id), XSize(id));
      }
    }
  }

  function Position(id: TableId): (i: nat)
    ensures i < |TABLES| && TABLES[i] == id
  {
    match id
    case Ignition => 0 case Lambda => 1 case Ve => 2 case InjectorDeadtime => 3 case DwellMs => 4
    case DwellVoltageCorr => 5 case IatFuelCorr => 6 case CltFuelCorr => 7 case CltTimingCorr => 8
    case IatTimingCorr => 9
  }

  lemma AllTablesEqual(c: EngineConfig, d: EngineConfig)
    requires Valid(c) && Valid(d) && c.firingOrder == d.firingOrder
    requires forall id: TableId :: Table(c, id) == Table(d, id)
    requires c.totalTeeth == d.totalTeeth && c.missingTeeth == d.missingTeeth && c.displacement == d.displacement
    requires c.crankingRpm == d.crankingRpm && c.crankingTiming == d.crankingTiming && c.crankingDwell == d.crankingDwell
    requires c.stoichRatio == d.stoichRatio && c.injectorFlow == d.injectorFlow
    ensures c == d
  {
    hide Table;
    TablesDetermine(c, d);
    assert GridOf(c, Ignition) == GridOf(d, Ignition) && GridOf(c, Lambda) == GridOf(d, Lambda);
    assert GridOf(c, Ve) == GridOf(d, Ve) && GridOf(c, InjectorDeadtime) == GridOf(d, InjectorDeadtime);
    assert CurveOf(c, DwellMs) == CurveOf(d, DwellMs) && CurveOf(c, DwellVoltageCorr) == CurveOf(d, DwellVoltageCorr);
    assert CurveOf(c, IatFuelCorr) == CurveOf(d, IatFuelCorr) && CurveOf(c, CltFuelCorr) == CurveOf(d, CltFuelCorr);
    assert CurveOf(c, CltTimingCorr) == CurveOf(d, CltTimingCorr) && CurveOf(c, IatTimingCorr) == CurveOf(d, IatTimingCorr);
  }

  lemma ParamsDetermine(c: EngineConfig, d: EngineConfig)
    requires ParamValues(c, PARAMS) == ParamValues(d, PARAMS)
    requires c.totalTeeth < 0x100_0000 && c.missingTeeth < 0x100_0000
    requires d.totalTeeth < 0x100_0000 && d.missingTeeth < 0x100_0000
    ensures c.totalTeeth == d.totalTeeth && c.missingTeeth == d.missingTeeth && c.displacement == d.displacement
    ensures c.crankingRpm == d.crankingRpm && c.crankingTiming == d.crankingTiming && c.crankingDwell == d.crankingDwell
    ensures c.stoichRatio == d.stoichRatio && c.injectorFlow == d.injectorFlow
  {
    hide FloatOf;
    forall i | 0 <= i < |PARAMS| ensures GetParam(c, PARAMS[i]) == GetParam(d, PARAMS[i]) {
      assert ParamValues(c, PARAMS)[i] == ParamValues(d, PARAMS)[i];
    }
    assert PARAMS[0] == Displacement && PARAMS[1] == TotalTeeth && PARAMS[2] == MissingTeeth && PARAMS[3] == CrankingRpm;
    assert PARAMS[4] == CrankingTiming && PARAMS[5] == CrankingDwell && PARAMS[6] == StoichRatio && PARAMS[7] == InjectorFlow;
    FloatOfExact(c.totalTeeth);
    FloatOfExact(d.totalTeeth);
    FloatOfExact(c.missingTeeth);
    FloatOfExact(d.missingTeeth);
  }

  /**
   * The checksum covers the whole configuration: as long as tooth counts are exact as floats,
   * configurations with the same covered bytes are the same.
   */
  lemma BytesDetermineConfig(c: EngineConfig, d: EngineConfig)
    requires Valid(c) && Valid(d) && ConfigBytes(c) == ConfigBytes(d)
    requires c.totalTeeth < 0x100_0000 && c.missingTeeth < 0x100_0000
    requires d.totalTeeth < 0x100_0000 && d.missingTeeth < 0x100_0000
    ensures c == d
  {
    hide FloatBytes, TableValues, Table, FloatOf;
    var pc, pd, tc, td := ParamValues(c, PARAMS), ParamValues(d, PARAMS), TableValues(c, TABLES), TableValues(d, TABLES);
    TableValuesDetermine(c, d, TABLES);
    SplitEqual(FloatBytes(pc) + FloatBytes(tc), c.firingOrder, FloatBytes(pd) + FloatBytes(td), d.firingOrder);
    SplitEqual(FloatBytes(pc), FloatBytes(tc), FloatBytes(pd), FloatBytes(td));
    FloatBytesInjective(pc, pd);
    FloatBytesInjective(tc, td);
    ParamsDetermine(c, d);
    forall id: TableId ensures Table(c, id) == Table(d, id) {
      assert TABLES[Position(id)] == id;
    }
    AllTablesEqual(c, d);
  }
}
