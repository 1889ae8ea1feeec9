/**
 * Telemetry frames: the device packs a layout in one pass (engine-core/src/comms/telemetry.rs), the
 * host unpacks it in two (client/src/rdp.rs). They agree exactly as long as the bit channels in
 * front of the last number do not fill a byte.
 */
module Telemetry {
  import opened Bytes

  // ── Channels ─────────────────────────────────────────────────────────────

  datatype WireType = U16 | I16 | Bit

  /** The catalogue: sixteen numbers, four of them signed, and six flags. */
  function ChannelWire(id: u16): Option<WireType> {
    if id == 2 || id == 3 || id == 9 || id == 12 then Some(I16)
    else if 1 <= id <= 16 then Some(U16)
    else if 32 <= id <= 37 then Some(Bit)
    else None
  }

  predicate Known(layout: seq<u16>) {
    forall i | 0 <= i < |layout| :: ChannelWire(layout[i]).Some?
  }

  function WiresOf(layout: seq<u16>): (wires: seq<WireType>)
    requires Known(layout)
    ensures |wires| == |layout|
    ensures forall i | 0 <= i < |layout| :: wires[i] == ChannelWire(layout[i]).value
  {
    seq(|layout|, i requires 0 <= i < |layout| => ChannelWire(layout[i]).value)
  }

  // ── Samples: quantised readings ──────────────────────────────────────────

  /** A reading divided by the scale of its channel. */
  datatype Reading = NotANumber | Value(x: real)

  datatype Snapshot = Snapshot(scaled: u16 -> Reading, flag: u16 -> bool)

  datatype Sample = Unsigned(u: u16) | Signed(s: int) | Flag(b: bool)

  function Truncate(x: real): int { if x >= 0.0 then x.Floor else -((-x).Floor) }

  /** `x.clamp(lo, hi) as integer`; a reading that is not a number becomes 0. */
  function Quantise(r: Reading, lo: int, hi: int): (n: int)
    requires lo <= 0 <= hi
    ensures lo <= n <= hi
  {
    match r
    case NotANumber => 0
    case Value(x) => if x < lo as real then lo else if x > hi as real then hi else Truncate(x)
  }

  predicate ValidSample(s: Sample) { s.Signed? ==> -0x8000 <= s.s < 0x8000 }

  function WireOf(s: Sample): WireType {
    match s case Unsigned(_) => U16 case Signed(_) => I16 case Flag(_) => Bit
  }

  function SampleOf(id: u16, snap: Snapshot): (s: Sample)
    requires ChannelWire(id).Some?
    ensures ValidSample(s) && WireOf(s) == ChannelWire(id).value
  {
    match ChannelWire(id).value
    case U16 => Unsigned(Quantise(snap.scaled(id), 0, 0xFFFF))
    case I16 => Signed(Quantise(snap.scaled(id), -0x8000, 0x7FFF))
    case Bit => Flag(snap.flag(id))
  }

  ghost predicate AllValid(samples: seq<Sample>) {
    forall i | 0 <= i < |samples| :: ValidSample(samples[i])
  }

  function SamplesOf(layout: seq<u16>, snap: Snapshot): (samples: seq<Sample>)
    requires Known(layout)
    ensures |samples| == |layout| && AllValid(samples)
    ensures forall i | 0 <= i < |layout| :: samples[i] == SampleOf(layout[i], snap)
  {
    seq(|layout|, i requires 0 <= i < |layout| => SampleOf(layout[i], snap))
  }

  /** The number the host should see; a flag reads 1 or 0. */
  function ValueOf(s: Sample): int {
    match s case Unsigned(u) => u case Signed(n) => n case Flag(b) => if b then 1 else 0
  }

  // ── Bits in a byte, least significant first ──────────────────────────────

  function Sum(bits: seq<bool>): (v: nat)
    ensures v < Power(|bits|)
  {
    if bits == [] then 0 else (if bits[0] then 1 else 0) + 2 * Sum(bits[1..])
  }

  function ByteOf(bits: seq<bool>): byte
    requires |bits| <= 8
  {
    PowerMonotone(|bits|, 8);
    Sum(bits)
  }

  lemma {:induction false} BitOfSum(bits: seq<bool>, k: nat)
    requires k < |bits|
    ensures BitAt(Sum(bits), k) == bits[k]
  {
    if k == 0 {
    } else {
      assert Sum(bits) / 2 == Sum(bits[1..]);
      BitOfSum(bits[1..], k - 1);
    }
  }

  lemma {:induction false} SumAppend(bits: seq<bool>, b: bool)
    ensures Sum(bits + [b]) == Sum(bits) + (if b then Power(|bits|) else 0)
  {
    if bits == [] {
      assert (bits + [b])[1..] == [];
    } else {
      assert (bits + [b])[1..] == bits[1..] + [b];
      SumAppend(bits[1..], b);
    }
  }

  // ── The device: one pass over the layout ─────────────────────────────────

  function Number(s: Sample): (v: u16)
    requires !s.Flag? && ValidSample(s)
  {
    match s case Unsigned(u) => u case Signed(n) => if n < 0 then n + 0x1_0000 else n
  }

  function NumberOf(s: Sample): (bytes: seq<byte>)
    requires !s.Flag? && ValidSample(s)
    ensures |bytes| == 2
  {
    [Lo(Number(s)), Hi(Number(s))]
  }

  /** The data section when the flags `pending` still wait for their byte. */
  function Packed(samples: seq<Sample>, pending: seq<bool>): seq<byte>
    requires AllValid(samples) && |pending| < 8
    decreases |samples|
  {
    if samples == [] then
      if pending == [] then [] else [ByteOf(pending)]
    else if !samples[0].Flag? then
      NumberOf(samples[0]) + Packed(samples[1..], pending)
    else
      var bits := pending + [samples[0].b];
      if |bits| == 8 then [ByteOf(bits)] + Packed(samples[1..], []) else Packed(samples[1..], bits)
  }

  lemma ThreeFlags()
    ensures ByteOf([true, false, true]) == 5
  {
    var bits := [true, false, true];
    assert bits[1..] == [false, true] && [false, true][1..] == [true] && [true][1..] == [];
    assert Sum([true]) == 1 + 2 * Sum([]);
  }

  /** Data byte for byte: numbers in their places with the low byte first, flags from the lowest bit. */
  lemma ExampleData()
    ensures Packed([Unsigned(3000), Flag(true), Signed(-2), Flag(false), Flag(true)], []) == [0xB8, 0x0B, 0xFE, 0xFF, 5]
  {
    hide ByteOf;
    ThreeFlags();
    var all := [Unsigned(3000), Flag(true), Signed(-2), Flag(false), Flag(true)];
    assert Packed(all[5..], [true, false, true]) == [5];
    assert Packed(all[4..], [true, false]) == [5] by {
      assert all[4..][1..] == all[5..] && [true, false] + [true] == [true, false, true];
    }
    assert Packed(all[3..], [true]) == [5] by {
      assert all[3..][1..] == all[4..] && [true] + [false] == [true, false];
    }
    assert Packed(all[2..], [true]) == [0xFE, 0xFF, 5] by {
      assert all[2..][1..] == all[3..];
    }
    assert Packed(all[1..], []) == [0xFE, 0xFF, 5] by {
      assert all[1..][1..] == all[2..] && [] + [true] == [true];
    }
    assert all[0..] == all;
  }

  function Numbers(wires: seq<WireType>): nat {
    if wires == [] then 0 else (if wires[0] == Bit then 0 else 1) + Numbers(wires[1..])
  }

  function Flags(wires: seq<WireType>): nat {
    if wires == [] then 0 else (if wires[0] == Bit then 1 else 0) + Flags(wires[1..])
  }

  function WiresIn(samples: seq<Sample>): (wires: seq<WireType>)
    ensures |wires| == |samples| && forall i | 0 <= i < |samples| :: wires[i] == WireOf(samples[i])
  {
    seq(|samples|, i requires 0 <= i < |samples| => WireOf(samples[i]))
  }

  function DataLen(wires: seq<WireType>): nat { 2 * Numbers(wires) + (Flags(wires) + 7) / 8 }

  lemma {:induction false} PackedLength(samples: seq<Sample>, pending: seq<bool>)
    requires AllValid(samples) && |pending| < 8
    ensures var wires := WiresIn(samples);
      |Packed(samples, pending)| == 2 * Numbers(wires) + (|pending| + Flags(wires) + 7) / 8
    decreases |samples|
  {
    if samples == [] {
    } else {
      assert WiresIn(samples)[1..] == WiresIn(samples[1..]);
      if !samples[0].Flag? {
        PackedLength(samples[1..], pending);
      } else if |pending| == 7 {
        PackedLength(samples[1..], []);
      } else {
        PackedLength(samples[1..], pending + [samples[0].b]);
      }
    }
  }

  lemma {:induction false} CountsAppend(x: seq<WireType>, w: WireType)
    ensures Numbers(x + [w]) == Numbers(x) + (if w == Bit then 0 else 1)
    ensures Flags(x + [w]) == Flags(x) + (if w == Bit then 1 else 0)
  {
    if x == [] {
      assert (x + [w])[1..] == [];
    } else {
      assert (x + [w])[1..] == x[1..] + [w];
      CountsAppend(x[1..], w);
    }
  }

  /** `packed_data_len`; identifiers that are not in the catalogue do not count. */
  method PackedDataLen(layout: seq<u16>) returns (n: nat)
    ensures Known(layout) ==> n == DataLen(WiresOf(layout))
  {
    var bytes, bits := 0, 0;
    for i := 0 to |layout|
      invariant Known(layout) ==> bytes == 2 * Numbers(WiresOf(layout)[..i]) && bits == Flags(WiresOf(layout)[..i])
    {
      ghost var before := if Known(layout) then WiresOf(layout)[..i] else [];
      match ChannelWire(layout[i])
      case None =>
      case Some(w) =>
        CountsAppend(before, w);
        assert Known(layout) ==> WiresOf(layout)[..i + 1] == before + [w];
        if w == Bit { bits := bits + 1; } else { bytes := bytes + 2; }
    }
    assert Known(layout) ==> WiresOf(layout)[..|layout|] == WiresOf(layout);
    return bytes + (bits + 7) / 8;
  }

  // ── The host: numbers first, then flags ──────────────────────────────────

  function ReadNumber(w: WireType, lo: byte, hi: byte): int {
    var v := From16(lo, hi);
    if w == I16 && v >= 0x8000 then v - 0x1_0000 else v
  }

  lemma {:induction false} CountsBefore(wires: seq<WireType>, i: nat)
    requires i < |wires|
    ensures Numbers(wires[..i]) + (if wires[i] == Bit then 0 else 1) <= Numbers(wires)
    ensures Flags(wires[..i]) + (if wires[i] == Bit then 1 else 0) <= Flags(wires)
  {
    if i == 0 {
    } else {
      assert wires[..i][1..] == wires[1..][..i - 1];
      CountsBefore(wires[1..], i - 1);
    }
  }

  function ReadAt(wires: seq<WireType>, data: seq<byte>, i: nat): int
    requires i < |wires| && |data| >= DataLen(wires)
  {
    CountsBefore(wires, i);
    if wires[i] == Bit then
      var n := Flags(wires[..i]);
      if BitAt(data[2 * Numbers(wires) + n / 8], n % 8) then 1 else 0
    else
      var k := Numbers(wires[..i]);
      ReadNumber(wires[i], data[2 * k], data[2 * k + 1])
  }

  /** What the host makes of a data section; nothing if it is too short. */
  function Unpacked(wires: seq<WireType>, data: seq<byte>): Option<seq<int>> {
    if |data| < DataLen(wires) then None
    else Some(seq(|wires|, i requires 0 <= i < |wires| => ReadAt(wires, data, i)))
  }

  // ── The round trip ───────────────────────────────────────────────────────

  /** Number of flags in front of the last number. */
  function FlagsBeforeLastNumber(wires: seq<WireType>): nat {
    if Numbers(wires) == 0 then 0
    else (if wires[0] == Bit then 1 else 0) + FlagsBeforeLastNumber(wires[1..])
  }

  function NumberBytes(samples: seq<Sample>): (bytes: seq<byte>)
    requires AllValid(samples)
    ensures |bytes| == 2 * Numbers(WiresIn(samples))
  {
    if samples == [] then [] else
    assert WiresIn(samples)[1..] == WiresIn(samples[1..]);
    (if samples[0].Flag? then [] else NumberOf(samples[0])) + NumberBytes(samples[1..])
  }

  function FlagsOf(samples: seq<Sample>): (bits: seq<bool>)
    ensures |bits| == Flags(WiresIn(samples))
  {
    if samples == [] then [] else
    assert WiresIn(samples)[1..] == WiresIn(samples[1..]);
    (if samples[0].Flag? then [samples[0].b] else []) + FlagsOf(samples[1..])
  }

  function FlagBytes(bits: seq<bool>): (bytes: seq<byte>)
    ensures |bytes| == (|bits| + 7) / 8
  {
    if bits == [] then []
    else if |bits| <= 8 then [ByteOf(bits)]
    else [ByteOf(bits[..8])] + FlagBytes(bits[8..])
  }

  lemma PendingPacked(pending: seq<bool>)
    requires |pending| < 8
    ensures Packed([], pending) == FlagBytes(pending + FlagsOf([]))
  {
    hide ByteOf;
    assert pending + FlagsOf([]) == pending;
  }

  lemma FlagFills(samples: seq<Sample>, pending: seq<bool>)
    requires AllValid(samples) && samples != [] && samples[0].Flag? && |pending| == 7
    ensures Packed(samples, pending) == [ByteOf(pending + [samples[0].b])] + Packed(samples[1..], [])
  {
    hide ByteOf;
  }

  lemma EightFlags(bits: seq<bool>, later: seq<bool>)
    requires |bits| == 8
    ensures FlagBytes(bits + later) == [ByteOf(bits)] + FlagBytes(later)
  {
    hide ByteOf;
    FrontOf(bits, later);
    if later == [] {
      assert bits + later == bits && FlagBytes(later) == [];
    }
  }

  lemma FlagPends(samples: seq<Sample>, pending: seq<bool>)
    requires AllValid(samples) && samples != [] && samples[0].Flag? && |pending| < 7
    ensures Packed(samples, pending) == Packed(samples[1..], pending + [samples[0].b])
  {
    hide ByteOf;
  }

  /** A flag adds to the flags and to nothing else. */
  lemma FlagAdds(samples: seq<Sample>)
    requires AllValid(samples) && samples != [] && samples[0].Flag?
    ensures NumberBytes(samples) == NumberBytes(samples[1..])
    ensures FlagsOf(samples) == [samples[0].b] + FlagsOf(samples[1..])
  {
    hide NumberOf;
    NothingInFront(NumberBytes(samples[1..]));
  }

  lemma {:induction false} OnlyFlagsPacked(samples: seq<Sample>, pending: seq<bool>)
    requires AllValid(samples) && |pending| < 8 && Numbers(WiresIn(samples)) == 0
    ensures Packed(samples, pending) == FlagBytes(pending + FlagsOf(samples))
    decreases |samples|
  {
    hide Packed, FlagBytes, FlagsOf, NumberBytes;
    if samples == [] {
      PendingPacked(pending);
    } else {
      assert WiresIn(samples)[1..] == WiresIn(samples[1..]);
      var bits, later := pending + [samples[0].b], FlagsOf(samples[1..]);
      FlagAdds(samples);
      Regrouped(pending, [samples[0].b], later);
      if |bits| == 8 {
        OnlyFlagsPacked(samples[1..], []);
        NothingInFront(later);
        FlagFills(samples, pending);
        EightFlags(bits, later);
      } else {
        OnlyFlagsPacked(samples[1..], bits);
        FlagPends(samples, pending);
      }
    }
  }

  lemma PackFlag(samples: seq<Sample>, pending: seq<bool>)
    requires AllValid(samples) && samples != [] && samples[0].Flag? && |pending| < 7
    requires var bits := pending + [samples[0].b];
      Packed(samples[1..], bits) == NumberBytes(samples[1..]) + FlagBytes(bits + FlagsOf(samples[1..]))
    ensures Packed(samples, pending) == NumberBytes(samples) + FlagBytes(pending + FlagsOf(samples))
  {
    hide Packed, NumberBytes, FlagsOf, FlagBytes;
    FlagPends(samples, pending);
    FlagAdds(samples);
    Regrouped(pending, [samples[0].b], FlagsOf(samples[1..]));
  }

  /** A number is written at once. */
  lemma NumberAdds(samples: seq<Sample>, pending: seq<bool>)
    requires AllValid(samples) && samples != [] && !samples[0].Flag? && |pending| < 8
    ensures Packed(samples, pending) == NumberOf(samples[0]) + Packed(samples[1..], pending)
    ensures NumberBytes(samples) == NumberOf(samples[0]) + NumberBytes(samples[1..])
    ensures FlagsOf(samples) == FlagsOf(samples[1..])
  {
    hide ByteOf, NumberOf;
    NothingInFront(FlagsOf(samples[1..]));
  }

  lemma PackNumber(samples: seq<Sample>, pending: seq<bool>)
    requires AllValid(samples) && samples != [] && !samples[0].Flag? && |pending| < 8
    requires Packed(samples[1..], pending) == NumberBytes(samples[1..]) + FlagBytes(pending + FlagsOf(samples[1..]))
    ensures Packed(samples, pending) == NumberBytes(samples) + FlagBytes(pending + FlagsOf(samples))
  {
    hide Packed, NumberBytes, FlagsOf, FlagBytes, NumberOf;
    NumberAdds(samples, pending);
    Regrouped(NumberOf(samples[0]), NumberBytes(samples[1..]), FlagBytes(pending + FlagsOf(samples)));
  }

  /** With few enough flags in front of it, every number stands where the host looks for it. */
  lemma {:induction false} NumbersThenFlags(samples: seq<Sample>, pending: seq<bool>)
    requires AllValid(samples) && |pending| + FlagsBeforeLastNumber(WiresIn(samples)) < 8
    ensures Packed(samples, pending) == NumberBytes(samples) + FlagBytes(pending + FlagsOf(samples))
    decreases |samples|
  {
    hide FlagBytes, ByteOf, Packed, NumberBytes, FlagsOf;
    var all := FlagBytes(pending + FlagsOf(samples));
    if Numbers(WiresIn(samples)) == 0 {
      OnlyFlagsPacked(samples, pending);
      assert NumberBytes(samples) == [] && [] + all == all;
    } else {
      assert WiresIn(samples)[1..] == WiresIn(samples[1..]);
      if samples[0].Flag? {
        NumbersThenFlags(samples[1..], pending + [samples[0].b]);
        PackFlag(samples, pending);
      } else {
        NumbersThenFlags(samples[1..], pending);
        PackNumber(samples, pending);
      }
    }
  }

  lemma CountsFromFirst(wires: seq<WireType>, i: nat)
    requires 0 < i <= |wires|
    ensures Numbers(wires[..i]) == (if wires[0] == Bit then 0 else 1) + Numbers(wires[1..][..i - 1])
    ensures Flags(wires[..i]) == (if wires[0] == Bit then 1 else 0) + Flags(wires[1..][..i - 1])
  {
    assert wires[..i][1..] == wires[1..][..i - 1];
  }

  lemma NoneBefore(wires: seq<WireType>)
    ensures Numbers(wires[..0]) == 0
  {
  }

  lemma {:induction false} NumberByteAt(samples: seq<Sample>, i: nat)
    requires AllValid(samples) && i < |samples| && !samples[i].Flag?
    ensures var k := Numbers(WiresIn(samples)[..i]);
      && 2 * k + 1 < |NumberBytes(samples)|
      && NumberBytes(samples)[2 * k] == Lo(Number(samples[i]))
      && NumberBytes(samples)[2 * k + 1] == Hi(Number(samples[i]))
  {
    hide Number, Lo, Hi, WiresIn, Numbers;
    var wires := WiresIn(samples);
    var head, tail := (if samples[0].Flag? then [] else NumberOf(samples[0])), NumberBytes(samples[1..]);
    assert NumberBytes(samples) == head + tail;
    if i == 0 {
      NoneBefore(wires);
    } else {
      NumberByteAt(samples[1..], i - 1);
      assert wires[1..] == WiresIn(samples[1..]);
      CountsFromFirst(wires, i);
      var k := Numbers(wires[1..][..i - 1]);
      assert (head + tail)[|head| + 2 * k] == tail[2 * k] && (head + tail)[|head| + 2 * k + 1] == tail[2 * k + 1];
    }
  }

  lemma {:induction false} FlagAt(samples: seq<Sample>, i: nat)
    requires i < |samples| && samples[i].Flag?
    ensures var n := Flags(WiresIn(samples)[..i]);
      n < |FlagsOf(samples)| && FlagsOf(samples)[n] == samples[i].b
  {
    var wires := WiresIn(samples);
    assert wires[1..] == WiresIn(samples[1..]);
    if i == 0 {
    } else {
      FlagAt(samples[1..], i - 1);
      CountsFromFirst(wires, i);
    }
  }

  lemma {:induction false} FlagByteAt(bits: seq<bool>, n: nat)
    requires n < |bits|
    ensures n / 8 < |FlagBytes(bits)| && BitAt(FlagBytes(bits)[n / 8], n % 8) == bits[n]
  {
    if |bits| <= 8 {
      BitOfSum(bits, n);
    } else if n < 8 {
      BitOfSum(bits[..8], n);
    } else {
      FlagByteAt(bits[8..], n - 8);
      assert n / 8 == 1 + (n - 8) / 8 && n % 8 == (n - 8) % 8;
    }
  }

  lemma SignedBytes(s: Sample)
    requires !s.Flag? && ValidSample(s)
    ensures ReadNumber(WireOf(s), Lo(Number(s)), Hi(Number(s))) == ValueOf(s)
  {
    Split16(Number(s), 0, 0);
  }

  function ValuesOf(samples: seq<Sample>): (values: seq<int>)
    ensures |values| == |samples| && forall i | 0 <= i < |samples| :: values[i] == ValueOf(samples[i])
  {
    seq(|samples|, i requires 0 <= i < |samples| => ValueOf(samples[i]))
  }

  lemma HostRecoversSample(samples: seq<Sample>, i: nat)
    requires AllValid(samples) && FlagsBeforeLastNumber(WiresIn(samples)) < 8 && i < |samples|
    ensures |Packed(samples, [])| == DataLen(WiresIn(samples))
    ensures ReadAt(WiresIn(samples), Packed(samples, []), i) == ValueOf(samples[i])
  {
    hide FlagBytes, NumberBytes, FlagsOf, Packed;
    var wires, bits := WiresIn(samples), FlagsOf(samples);
    PackedLength(samples, []);
    NumbersThenFlags(samples, []);
    assert [] + bits == bits;
    CountsBefore(wires, i);
    if samples[i].Flag? {
      FlagAt(samples, i);
      FlagByteAt(bits, Flags(wires[..i]));
    } else {
      NumberByteAt(samples, i);
      SignedBytes(samples[i]);
    }
  }

  /** Up to seven flags in front of the last number: the host recovers every sample in its place. */
  lemma HostRecoversSamples(samples: seq<Sample>)
    requires AllValid(samples) && FlagsBeforeLastNumber(WiresIn(samples)) < 8
    ensures Unpacked(WiresIn(samples), Packed(samples, [])) == Some(ValuesOf(samples))
  {
    var wires, data := WiresIn(samples), Packed(samples, []);
    PackedLength(samples, []);
    forall i | 0 <= i < |samples|
      ensures ReadAt(wires, data, i) == ValuesOf(samples)[i]
    {
      HostRecoversSample(samples, i);
    }
    assert Unpacked(wires, data).value == ValuesOf(samples);
  }

  // ── ... and with eight flags in front of the last number it does not ─────

  /** Numbers read zero, flags are set. */
  // ── What the values mean ─────────────────────────────────────────────────

  /** `v` is the reading without its fraction, held within `lo` to `hi`; what is not a number is 0. */
  ghost predicate Represents(r: Reading, lo: int, hi: int, v: int) {
    match r
    case NotANumber => v == 0
    case Value(x) =>
      && (x < lo as real ==> v == lo) && (x > hi as real ==> v == hi)
      && (0.0 <= x <= hi as real ==> v as real <= x < (v + 1) as real)
      && (lo as real <= x < 0.0 ==> (v - 1) as real < x <= v as real)
  }

  lemma QuantisedRepresents(r: Reading, lo: int, hi: int)
    requires lo <= 0 <= hi
    ensures Represents(r, lo, hi, Quantise(r, lo, hi))
  {
  }

  lemma RepresentsOne(r: Reading, lo: int, hi: int, v: int, w: int)
    requires lo <= 0 <= hi && Represents(r, lo, hi, v) && Represents(r, lo, hi, w)
    ensures v == w
  {
  }

  /** `v` is what the host is to be shown of a channel: flags as 0 or 1, four signed channels, the others unsigned. */
  ghost predicate Shows(id: u16, snap: Snapshot, v: int) {
    if 32 <= id <= 37 then v == (if snap.flag(id) then 1 else 0)
    else if id == 2 || id == 3 || id == 9 || id == 12 then Represents(snap.scaled(id), -32768, 32767, v)
    else Represents(snap.scaled(id), 0, 65535, v)
  }

  /** Every reading of a catalogued channel is shown by one value, and that is the one the device samples. */
  lemma ShownBySample(id: u16, snap: Snapshot, v: int)
    requires 1 <= id <= 16 || 32 <= id <= 37
    ensures ChannelWire(id).Some? && (Shows(id, snap, v) <==> v == ValueOf(SampleOf(id, snap)))
  {
    hide Quantise, Represents;
    var r := snap.scaled(id);
    QuantisedRepresents(r, 0, 65535);
    QuantisedRepresents(r, -32768, 32767);
    if Represents(r, 0, 65535, v) {
      RepresentsOne(r, 0, 65535, v, Quantise(r, 0, 65535));
    }
    if Represents(r, -32768, 32767, v) {
      RepresentsOne(r, -32768, 32767, v, Quantise(r, -32768, 32767));
    }
  }

  /** Every value shows the channel of its place. */
  ghost predicate AllShown(layout: seq<u16>, snap: Snapshot, values: seq<int>) {
    |values| == |layout| && forall i | 0 <= i < |layout| :: Shows(layout[i], snap, values[i])
  }

  lemma ChannelNumbers(id: u16)
    ensures ChannelWire(id).Some? <==> 1 <= id <= 16 || 32 <= id <= 37
  {
  }

  lemma AllShownIff(layout: seq<u16>, snap: Snapshot, values: seq<int>)
    requires Known(layout)
    ensures AllShown(layout, snap, values) <==> values == ValuesOf(SamplesOf(layout, snap))
  {
    hide Shows, ChannelWire;
    forall i | 0 <= i < |layout| && |values| == |layout|
      ensures Shows(layout[i], snap, values[i]) <==> values[i] == ValuesOf(SamplesOf(layout, snap))[i]
    {
      ChannelNumbers(layout[i]);
      ShownBySample(layout[i], snap, values[i]);
    }
  }

  ghost predicate Telltale(samples: seq<Sample>) {
    && AllValid(samples)
    && forall i | 0 <= i < |samples| :: if samples[i].Flag? then samples[i].b else Number(samples[i]) == 0
  }

  ghost predicate AllSet(bits: seq<bool>) { forall i | 0 <= i < |bits| :: bits[i] }

  lemma {:induction false} AllSetIsPowerMinusOne(bits: seq<bool>)
    requires AllSet(bits)
    ensures Sum(bits) == Power(|bits|) - 1
  {
    if bits == [] {
    } else {
      AllSetIsPowerMinusOne(bits[1..]);
    }
  }

  lemma {:induction false} FirstNumber(wires: seq<WireType>) returns (i: nat)
    requires Numbers(wires) > 0
    ensures i < |wires| && wires[i] != Bit && Numbers(wires[..i]) == 0
  {
    if wires[0] != Bit {
      i := 0;
    } else {
      var j := FirstNumber(wires[1..]);
      i := j + 1;
      assert wires[..i][1..] == wires[1..][..j];
    }
  }

  lemma FullByte(bits: seq<bool>)
    requires AllSet(bits) && |bits| == 8
    ensures ByteOf(bits) == 255
  {
    AllSetIsPowerMinusOne(bits);
    PowerMonotone(8, 8);
  }

  /** The byte that eight flags fill stands where the host looks for number `i`. */
  lemma {:induction false} FlagByteInFront(samples: seq<Sample>, pending: seq<bool>) returns (i: nat)
    requires Telltale(samples) && AllSet(pending) && |pending| < 8
    requires |pending| + FlagsBeforeLastNumber(WiresIn(samples)) >= 8
    ensures i < |samples| && !samples[i].Flag?
    ensures var k := Numbers(WiresIn(samples)[..i]);
      2 * k < |Packed(samples, pending)| && Packed(samples, pending)[2 * k] == 255
    decreases |samples|
  {
    hide ByteOf, Number, Power;
    var wires := WiresIn(samples);
    assert wires[1..] == WiresIn(samples[1..]);
    if !samples[0].Flag? {
      var j := FlagByteInFront(samples[1..], pending);
      i := j + 1;
      CountsFromFirst(wires, i);
    } else if |pending| < 7 {
      var j := FlagByteInFront(samples[1..], pending + [samples[0].b]);
      i := j + 1;
      CountsFromFirst(wires, i);
    } else {
      var j := FirstNumber(wires[1..]);
      i := j + 1;
      CountsFromFirst(wires, i);
      var bits := pending + [samples[0].b];
      FullByte(bits);
    }
  }

  lemma HostMisreadsTelltale(samples: seq<Sample>)
    requires Telltale(samples) && FlagsBeforeLastNumber(WiresIn(samples)) >= 8
    ensures Unpacked(WiresIn(samples), Packed(samples, [])) != Some(ValuesOf(samples))
  {
    hide Packed;
    var wires, data := WiresIn(samples), Packed(samples, []);
    PackedLength(samples, []);
    var i := FlagByteInFront(samples, []);
    CountsBefore(wires, i);
    assert ReadAt(wires, data, i) != 0;
    assert ValuesOf(samples)[i] == 0;
    assert Unpacked(wires, data).value[i] == ReadAt(wires, data, i);
  }

  ghost predicate RoundTrips(layout: seq<u16>, snap: Snapshot)
    requires Known(layout)
  {
    Unpacked(WiresOf(layout), Packed(SamplesOf(layout, snap), [])) == Some(ValuesOf(SamplesOf(layout, snap)))
  }

  /**
   * The frame format promises flags in trailing bytes. Every reading of a layout comes through
   * exactly when fewer than eight flags precede its last number.
   */
  lemma RoundTripIffFewFlagsFirst(layout: seq<u16>)
    requires Known(layout)
    ensures (forall snap :: RoundTrips(layout, snap)) <==> FlagsBeforeLastNumber(WiresOf(layout)) < 8
  {
    hide Packed, Unpacked;
    if FlagsBeforeLastNumber(WiresOf(layout)) < 8 {
      forall snap ensures RoundTrips(layout, snap) {
        assert WiresIn(SamplesOf(layout, snap)) == WiresOf(layout);
        HostRecoversSamples(SamplesOf(layout, snap));
      }
    } else {
      var snap := Snapshot(_ => Value(0.0), _ => true);
      var samples := SamplesOf(layout, snap);
      assert WiresIn(samples) == WiresOf(layout);
      assert Telltale(samples);
      HostMisreadsTelltale(samples);
      assert !RoundTrips(layout, snap);
    }
  }

  // ── Layouts without repetition are safe ──────────────────────────────────

  ghost predicate NoRepetition(layout: seq<u16>) {
    forall i, j | 0 <= i < j < |layout| :: layout[i] != layout[j]
  }

  lemma {:induction false} FlagsBounded(layout: seq<u16>, left: set<u16>)
    requires Known(layout) && NoRepetition(layout)
    requires forall i | 0 <= i < |layout| && 32 <= layout[i] :: layout[i] in left
    ensures Flags(WiresOf(layout)) <= |left|
    decreases |layout|
  {
    if layout == [] {
    } else {
      assert WiresOf(layout)[1..] == WiresOf(layout[1..]);
      assert forall i | 0 <= i < |layout[1..]| :: layout[1..][i] == layout[i + 1];
      if layout[0] >= 32 {
        FlagsBounded(layout[1..], left - {layout[0]});
      } else {
        FlagsBounded(layout[1..], left);
      }
    }
  }

  lemma {:induction false} FlagsBeforeLastBounded(wires: seq<WireType>)
    ensures FlagsBeforeLastNumber(wires) <= Flags(wires)
  {
    if wires == [] {
    } else {
      FlagsBeforeLastBounded(wires[1..]);
    }
  }

  /** There are only six flags, so a layout without repeated channels always comes through. */
  lemma LayoutsWithoutRepetitionRoundTrip(layout: seq<u16>, snap: Snapshot)
    requires Known(layout) && NoRepetition(layout)
    ensures RoundTrips(layout, snap)
  {
    var flags: set<u16> := {32, 33, 34, 35, 36, 37};
    FlagsBounded(layout, flags);
    assert |flags| == 6;
    FlagsBeforeLastBounded(WiresOf(layout));
    RoundTripIffFewFlagsFirst(layout);
  }
}
