/**
 * What the CRC-32 of the legacy protocol (engine-core/src/comms/mod.rs) detects: every change of a
 * payload within 32 consecutive bits, counted least significant first as the register takes them.
 */
module LegacyErrors {
  import opened Bytes
  import opened Legacy

  // ── The register takes bits one by one ───────────────────────────────────

  function BitWord(b: bool): bv32 { if b then 1 else 0 }

  function Sum(c: bv32, d: bv32): bv32 { c ^ d }

  function AbsorbBit(c: bv32, b: bool): bv32 { Shift32(Sum(c, BitWord(b))) }

  function Absorb(c: bv32, bits: seq<bool>): bv32
    decreases |bits|
  {
    if bits == [] then c else Absorb(AbsorbBit(c, bits[0]), bits[1..])
  }

  function BitsLeastFirst(b: byte): (bits: seq<bool>)
    ensures |bits| == 8
  {
    var v := b as bv8;
    [v & 1 != 0, v & 2 != 0, v & 4 != 0, v & 8 != 0, v & 16 != 0, v & 32 != 0, v & 64 != 0, v & 128 != 0]
  }

  function StreamBits(data: seq<byte>): (bits: seq<bool>)
    ensures |bits| == 8 * |data|
  {
    if data == [] then [] else StreamBits(data[..|data| - 1]) + BitsLeastFirst(data[|data| - 1])
  }

  lemma {:induction false} AbsorbAppend(c: bv32, u: seq<bool>, w: seq<bool>)
    ensures Absorb(c, u + w) == Absorb(Absorb(c, u), w)
    decreases |u|
  {
    hide AbsorbBit;
    if u == [] {
      assert u + w == w;
    } else {
      assert (u + w)[1..] == u[1..] + w;
      AbsorbAppend(AbsorbBit(c, u[0]), u[1..], w);
    }
  }

  // ── Up to 32 bits at once ────────────────────────────────────────────────

  function Longer(m: bv32): bv32 { (m << 1) | 1 }

  function LowMask(k: nat): bv32 { if k == 0 then 0 else Longer(LowMask(k - 1)) }

  function InFront(b: bool, v: bv32): bv32 { BitWord(b) | (v << 1) }

  /** The bits as a number, the first one least significant. */
  function WordOf(bits: seq<bool>): bv32 {
    if bits == [] then 0 else InFront(bits[0], WordOf(bits[1..]))
  }

  predicate Within(v: bv32, m: bv32) { v & m == v }

  predicate TopClear(v: bv32) { v & 0x8000_0000 == 0 }

  lemma MaskStepOf(d: bv32, v: bv32, m: bv32)
    requires v & m == v && (d == 0 || d == 1)
    ensures (d | (v << 1)) & ((m << 1) | 1) == d | (v << 1)
  {
  }

  lemma MaskStep(b: bool, v: bv32, m: bv32)
    requires Within(v, m)
    ensures Within(InFront(b, v), Longer(m))
  {
    MaskStepOf(BitWord(b), v, m);
  }

  lemma NothingWithin()
    ensures forall m: bv32 :: Within(0, m)
  {
  }

  lemma {:induction false} WordFits(bits: seq<bool>)
    ensures Within(WordOf(bits), LowMask(|bits|))
  {
    hide InFront, Within, Longer;
    if bits == [] {
      NothingWithin();
    } else {
      WordFits(bits[1..]);
      MaskStep(bits[0], WordOf(bits[1..]), LowMask(|bits| - 1));
    }
  }

  lemma MasksGrow(m: bv32, n: bv32)
    requires Within(m, n)
    ensures Within(Longer(m), Longer(n))
  {
  }

  lemma {:induction false} MaskWithin(j: nat, k: nat)
    requires j <= k
    ensures Within(LowMask(j), LowMask(k))
  {
    hide Within, Longer;
    if j == 0 {
      NothingWithin();
    } else {
      MaskWithin(j - 1, k - 1);
      MasksGrow(LowMask(j - 1), LowMask(k - 1));
    }
  }

  lemma MaskOf31()
    ensures LowMask(31) == 0x7FFF_FFFF
  {
    assert LowMask(4) == 0xF;
    assert LowMask(6) == 0x3F;
    assert LowMask(8) == 0xFF;
    assert LowMask(10) == 0x3FF;
    assert LowMask(12) == 0xFFF;
    assert LowMask(14) == 0x3FFF;
    assert LowMask(16) == 0xFFFF;
    assert LowMask(18) == 0x3_FFFF;
    assert LowMask(20) == 0xF_FFFF;
    assert LowMask(22) == 0x3F_FFFF;
    assert LowMask(24) == 0xFF_FFFF;
    assert LowMask(26) == 0x3FF_FFFF;
    assert LowMask(28) == 0xFFF_FFFF;
    assert LowMask(30) == 0x3FFF_FFFF;
  }

  lemma BelowTopBit(v: bv32, m: bv32)
    requires Within(v, m) && Within(m, 0x7FFF_FFFF)
    ensures TopClear(v)
  {
  }

  lemma ShortWordFits(bits: seq<bool>)
    requires |bits| <= 31
    ensures TopClear(WordOf(bits))
  {
    hide WordOf, LowMask, Within, TopClear;
    WordFits(bits);
    MaskWithin(|bits|, 31);
    MaskOf31();
    BelowTopBit(WordOf(bits), LowMask(|bits|));
  }

  function LowBit(c: bv32): bv32 { c & 1 }

  function Half(c: bv32): bv32 { c >> 1 }

  lemma LowBitOfSum(c: bv32, b: bv32, v: bv32)
    ensures (c ^ (b | (v << 1))) & 1 == (c ^ b) & 1
  {
  }

  lemma ShiftBack(v: bv32)
    requires v & 0x8000_0000 == 0
    ensures (v << 1) >> 1 == v
  {
  }

  lemma HalfOfJoin(b: bv32, w: bv32)
    requires b == 0 || b == 1
    ensures (b | w) >> 1 == w >> 1 && b >> 1 == 0
  {
  }

  lemma HalfOfSum(c: bv32, d: bv32)
    ensures (c ^ d) >> 1 == (c >> 1) ^ (d >> 1)
  {
  }

  lemma ZeroBetween(c: bv32, v: bv32)
    ensures (c ^ 0) ^ v == c ^ v
  {
  }

  lemma HalvesOf(c: bv32, b: bool, v: bv32)
    requires TopClear(v)
    ensures LowBit(Sum(c, InFront(b, v))) == LowBit(Sum(c, BitWord(b)))
    ensures Half(Sum(c, InFront(b, v))) == Sum(Half(Sum(c, BitWord(b))), v)
  {
    var d := BitWord(b);
    LowBitOfSum(c, d, v);
    HalfOfSum(c, d | (v << 1));
    HalfOfSum(c, d);
    HalfOfJoin(d, v << 1);
    ShiftBack(v);
    ZeroBetween(c >> 1, v);
  }

  lemma Swapped(a: bv32, v: bv32, p: bv32)
    ensures (a ^ v) ^ p == (a ^ p) ^ v
  {
  }

  lemma ShiftOf(x: bv32, y: bv32, v: bv32)
    requires LowBit(x) == LowBit(y) && Half(x) == Sum(Half(y), v)
    ensures Shift32(x) == Sum(Shift32(y), v)
  {
    Swapped(y >> 1, v, CRC32_POLY);
  }

  lemma ShiftTakesBit(c: bv32, b: bool, v: bv32)
    requires TopClear(v)
    ensures Shift32(Sum(c, InFront(b, v))) == Sum(AbsorbBit(c, b), v)
  {
    hide Shift32, Sum, InFront, BitWord, TopClear, LowBit, Half;
    HalvesOf(c, b, v);
    ShiftOf(Sum(c, InFront(b, v)), Sum(c, BitWord(b)), v);
  }

  lemma {:induction false} ShiftsFromFirst(c: bv32, n: nat)
    requires n > 0
    ensures Shifts32(c, n) == Shifts32(Shift32(c), n - 1)
  {
    hide Shift32;
    if n == 1 {
      assert Shifts32(c, 0) == c;
    } else {
      ShiftsFromFirst(c, n - 1);
    }
  }

  lemma NothingAdded(c: bv32)
    ensures Sum(c, 0) == c
  {
  }

  /** Feeding up to 32 bits is adding them to the register and shifting as often. */
  lemma {:induction false} AbsorbsWord(c: bv32, bits: seq<bool>)
    requires |bits| <= 32
    ensures Absorb(c, bits) == Shifts32(Sum(c, WordOf(bits)), |bits|)
    decreases |bits|
  {
    hide Shift32, AbsorbBit, InFront, Sum, TopClear;
    if bits == [] {
      NothingAdded(c);
    } else {
      var rest := bits[1..];
      AbsorbsWord(AbsorbBit(c, bits[0]), rest);
      ShortWordFits(rest);
      ShiftTakesBit(c, bits[0], WordOf(rest));
      ShiftsFromFirst(Sum(c, WordOf(bits)), |bits|);
    }
  }

  // ── Bytes are fed least significant bit first ────────────────────────────

  lemma NoBits()
    ensures WordOf([]) == 0
  {
  }

  lemma WordCons(bits: seq<bool>, i: nat)
    requires i < |bits|
    ensures WordOf(bits[i..]) == InFront(bits[i], WordOf(bits[i + 1..]))
  {
    hide InFront;
    assert bits[i..][1..] == bits[i + 1..];
  }

  lemma EightBits(v: bv8)
    ensures InFront(v & 1 != 0, InFront(v & 2 != 0, InFront(v & 4 != 0, InFront(v & 8 != 0,
            InFront(v & 16 != 0, InFront(v & 32 != 0, InFront(v & 64 != 0, InFront(v & 128 != 0, 0)))))))) == v as bv32
  {
  }

  lemma BitsMakeWord(bits: seq<bool>, v: bv8)
    requires |bits| == 8
    requires bits[0] == (v & 1 != 0) && bits[1] == (v & 2 != 0) && bits[2] == (v & 4 != 0) && bits[3] == (v & 8 != 0)
    requires bits[4] == (v & 16 != 0) && bits[5] == (v & 32 != 0) && bits[6] == (v & 64 != 0) && bits[7] == (v & 128 != 0)
    ensures WordOf(bits) == v as bv32
  {
    hide InFront, WordOf;
    NoBits();
    assert bits[8..] == [];
    WordCons(bits, 7);
    WordCons(bits, 6);
    WordCons(bits, 5);
    WordCons(bits, 4);
    WordCons(bits, 3);
    WordCons(bits, 2);
    WordCons(bits, 1);
    WordCons(bits, 0);
    assert bits[0..] == bits;
    EightBits(v);
  }

  lemma BitsLeastFirstAre(b: byte)
    ensures var v, bits := b as bv8, BitsLeastFirst(b);
      && bits[0] == (v & 1 != 0) && bits[1] == (v & 2 != 0) && bits[2] == (v & 4 != 0) && bits[3] == (v & 8 != 0)
      && bits[4] == (v & 16 != 0) && bits[5] == (v & 32 != 0) && bits[6] == (v & 64 != 0) && bits[7] == (v & 128 != 0)
  {
  }

  lemma ByteWord(b: byte)
    ensures WordOf(BitsLeastFirst(b)) == (b as bv8) as bv32
  {
    hide BitsLeastFirst, WordOf;
    BitsLeastFirstAre(b);
    BitsMakeWord(BitsLeastFirst(b), b as bv8);
  }

  lemma ByteStepAbsorbs(c: bv32, b: byte)
    ensures ByteStep32(c, b) == Absorb(c, BitsLeastFirst(b))
  {
    hide BitsLeastFirst, Shift32, WordOf, Absorb;
    ByteWord(b);
    AbsorbsWord(c, BitsLeastFirst(b));
  }

  lemma {:induction false} RegisterAbsorbs(data: seq<byte>)
    ensures Register32(data) == Absorb(0xFFFF_FFFF, StreamBits(data))
    decreases |data|
  {
    hide BitsLeastFirst, ByteStep32, AbsorbBit;
    if data == [] {
    } else {
      var init, last := data[..|data| - 1], data[|data| - 1];
      RegisterAbsorbs(init);
      AbsorbAppend(0xFFFF_FFFF, StreamBits(init), BitsLeastFirst(last));
      ByteStepAbsorbs(Register32(init), last);
    }
  }

  lemma SameWidened(a: bv8, b: bv8)
    requires a as bv32 == b as bv32
    ensures a == b
  {
  }

  lemma BitsDetermineByte(a: byte, b: byte)
    requires BitsLeastFirst(a) == BitsLeastFirst(b)
    ensures a == b
  {
    hide BitsLeastFirst;
    ByteWord(a);
    ByteWord(b);
    ByteToBits(a);
    ByteToBits(b);
    SameWidened(a as bv8, b as bv8);
  }

  lemma {:induction false} BitsDetermineData(a: seq<byte>, b: seq<byte>)
    requires |a| == |b| && StreamBits(a) == StreamBits(b)
    ensures a == b
    decreases |a|
  {
    hide BitsLeastFirst;
    if a == [] {
    } else {
      var n := |a| - 1;
      assert StreamBits(a[..n]) == StreamBits(a)[..8 * n] && StreamBits(b[..n]) == StreamBits(b)[..8 * n];
      assert BitsLeastFirst(a[n]) == StreamBits(a)[8 * n..] && BitsLeastFirst(b[n]) == StreamBits(b)[8 * n..];
      BitsDetermineData(a[..n], b[..n]);
      BitsDetermineByte(a[n], b[n]);
      assert a == a[..n] + [a[n]] && b == b[..n] + [b[n]];
    }
  }

  // ── Nothing is lost in shifting ──────────────────────────────────────────

  lemma ShiftInjective(x: bv32, y: bv32)
    requires Shift32(x) == Shift32(y)
    ensures x == y
  {
  }

  lemma {:induction false} ShiftsInjective(x: bv32, y: bv32, n: nat)
    requires Shifts32(x, n) == Shifts32(y, n)
    ensures x == y
  {
    hide Shift32;
    if n == 0 {
    } else {
      ShiftInjective(Shifts32(x, n - 1), Shifts32(y, n - 1));
      ShiftsInjective(x, y, n - 1);
    }
  }

  lemma SameSum(c: bv32, v: bv32, w: bv32)
    ensures Sum(c, v) == Sum(c, w) ==> v == w
    ensures Sum(v, c) == Sum(w, c) ==> v == w
  {
  }

  lemma WordStepInjective(a: bool, b: bool, v: bv32, w: bv32)
    requires TopClear(v) && TopClear(w) && InFront(a, v) == InFront(b, w)
    ensures a == b && v == w
  {
  }

  lemma {:induction false} WordInjective(u: seq<bool>, w: seq<bool>)
    requires |u| == |w| <= 32 && WordOf(u) == WordOf(w)
    ensures u == w
    decreases |u|
  {
    hide InFront, TopClear;
    if u == [] {
    } else {
      ShortWordFits(u[1..]);
      ShortWordFits(w[1..]);
      WordStepInjective(u[0], w[0], WordOf(u[1..]), WordOf(w[1..]));
      WordInjective(u[1..], w[1..]);
      assert u == [u[0]] + u[1..] && w == [w[0]] + w[1..];
    }
  }

  lemma {:induction false} SuffixKeepsDifference(c: bv32, d: bv32, bits: seq<bool>)
    requires c != d
    ensures Absorb(c, bits) != Absorb(d, bits)
    decreases |bits|
  {
    hide Shift32, BitWord, Sum;
    if bits == [] {
    } else {
      var b := BitWord(bits[0]);
      if AbsorbBit(c, bits[0]) == AbsorbBit(d, bits[0]) {
        ShiftInjective(Sum(c, b), Sum(d, b));
        SameSum(b, c, d);
      }
      SuffixKeepsDifference(AbsorbBit(c, bits[0]), AbsorbBit(d, bits[0]), bits[1..]);
    }
  }

  // ── Bursts ───────────────────────────────────────────────────────────────

  /** The same outside the 32 bits from `start` on. */
  ghost predicate DifferIn32(u: seq<bool>, w: seq<bool>, start: nat) {
    && |u| == |w| && start <= |u| && u[..start] == w[..start]
    && var end := if start + 32 <= |u| then start + 32 else |u|;
       u[end..] == w[end..]
  }

  lemma {:induction false} BurstChangesRegister(c: bv32, u: seq<bool>, w: seq<bool>, start: nat)
    requires DifferIn32(u, w, start) && u != w
    ensures Absorb(c, u) != Absorb(c, w)
  {
    hide Absorb, Sum, WordOf, Shifts32;
    var end := if start + 32 <= |u| then start + 32 else |u|;
    var head, x, y, tail := u[..start], u[start..end], w[start..end], u[end..];
    assert u == head + (x + tail) && w == head + (y + tail);
    var d := Absorb(c, head);
    AbsorbAppend(c, head, x + tail);
    AbsorbAppend(c, head, y + tail);
    AbsorbAppend(d, x, tail);
    AbsorbAppend(d, y, tail);
    AbsorbsWord(d, x);
    AbsorbsWord(d, y);
    if Absorb(d, x) == Absorb(d, y) {
      ShiftsInjective(Sum(d, WordOf(x)), Sum(d, WordOf(y)), |x|);
      SameSum(d, WordOf(x), WordOf(y));
      WordInjective(x, y);
    }
    SuffixKeepsDifference(Absorb(d, x), Absorb(d, y), tail);
  }

  lemma Complements(v: bv32, w: bv32)
    requires v != w
    ensures !v != !w
  {
  }

  /** Different payloads that agree outside 32 consecutive bits have different checksums. */
  lemma BurstChangesCrc32(a: seq<byte>, b: seq<byte>, start: nat)
    requires |a| == |b| && a != b && DifferIn32(StreamBits(a), StreamBits(b), start)
    ensures Crc32(a) != Crc32(b)
  {
    hide Absorb, StreamBits, Register32, DifferIn32;
    if StreamBits(a) == StreamBits(b) {
      BitsDetermineData(a, b);
    }
    RegisterAbsorbs(a);
    RegisterAbsorbs(b);
    BurstChangesRegister(0xFFFF_FFFF, StreamBits(a), StreamBits(b), start);
    Complements(Register32(a), Register32(b));
  }

  /** A legacy frame whose payload has been changed within 32 consecutive bits is refused. */
  lemma LegacyBurstRejected(payload: seq<byte>, garbled: seq<byte>, start: nat, tail: seq<byte>)
    requires |payload| < 0x1_0000 && |garbled| == |payload| && garbled != payload
    requires DifferIn32(StreamBits(payload), StreamBits(garbled), start)
    ensures DecodeLegacy([Hi(|payload|), Lo(|payload|)] + garbled + Be32(Crc32(payload)) + tail) == Err(CrcMismatch)
  {
    hide StreamBits, DifferIn32, Crc32, Be32, FromBe32, DecodeLegacy;
    BurstChangesCrc32(payload, garbled, start);
    Be32RoundTrip(Crc32(payload));
    DecodeParts(garbled, Be32(Crc32(payload)), tail);
  }
}
