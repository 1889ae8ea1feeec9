/**
 * CRC-16/CCITT-FALSE (device-api/src/crc16.rs). The loop of the source works on a 16-bit word; it
 * is proved to be polynomial division, one message bit at a time, and the division is proved to
 * catch every burst of at most 16 bits and every odd number of flipped bits.
 */
module Crc16 {
  import opened Bytes

  const POLY: bv16 := 0x1021
  const INIT: bv16 := 0xFFFF

  // ── The checksum as the source computes it ───────────────────────────────

  function Shift(c: bv16): bv16 {
    if c & 0x8000 != 0 then (c << 1) ^ POLY else c << 1
  }

  function Shifts(c: bv16, n: nat): bv16 {
    if n == 0 then c else Shift(Shifts(c, n - 1))
  }

  function ByteStep(c: bv16, b: byte): bv16 {
    Shifts(c ^ (Word(b) << 8), 8)
  }

  function ChecksumFrom(c: bv16, data: seq<byte>): bv16
    decreases |data|
  {
    if data == [] then c else ByteStep(ChecksumFrom(c, data[..|data| - 1]), data[|data| - 1])
  }

  function Checksum(data: seq<byte>): bv16 {
    ChecksumFrom(INIT, data)
  }

  method Crc16Ccitt(data: seq<byte>) returns (crc: bv16)
    ensures crc == Checksum(data)
  {
    crc := INIT;
    for i := 0 to |data|
      invariant crc == Checksum(data[..i])
    {
      assert data[..i + 1][..i] == data[..i];
      crc := crc ^ (Word(data[i]) << 8);
      ghost var start := crc;
      var bit := 0;
      while bit < 8
        invariant 0 <= bit <= 8
        invariant crc == Shifts(start, bit)
      {
        crc := if crc & 0x8000 != 0 then (crc << 1) ^ POLY else crc << 1;
        bit := bit + 1;
      }
    }
    assert data[..|data|] == data;
  }

  // ── Bits, most significant first ─────────────────────────────────────────

  /** Remainder of degree below 16, leading coefficient first. */
  type Register = r: seq<bool> | |r| == 16 witness seq(16, _ => false)

  function Mask(i: nat): bv16 {
    if i == 0 then 0x8000 else Mask(i - 1) >> 1
  }

  function Bit(c: bv16, i: nat): bool {
    c & Mask(i) != 0
  }

  function WordBits(c: bv16): (r: Register)
    ensures forall i | 0 <= i < 16 :: r[i] == Bit(c, i)
  {
    seq(16, i requires 0 <= i < 16 => Bit(c, i))
  }

  function ByteBits(b: byte): (bits: seq<bool>)
    ensures |bits| == 8
  {
    [b / 0x80 % 2 == 1, b / 0x40 % 2 == 1, b / 0x20 % 2 == 1, b / 0x10 % 2 == 1,
     b / 0x08 % 2 == 1, b / 0x04 % 2 == 1, b / 0x02 % 2 == 1, b % 2 == 1]
  }

  function BitsOf(data: seq<byte>): (bits: seq<bool>)
    ensures |bits| == 8 * |data|
  {
    if data == [] then [] else ByteBits(data[0]) + BitsOf(data[1..])
  }

  lemma BitsOfAppend(a: seq<byte>, b: seq<byte>)
    ensures BitsOf(a + b) == BitsOf(a) + BitsOf(b)
  {
    if a == [] {
      assert a + b == b;
    } else {
      assert (a + b)[1..] == a[1..] + b;
      BitsOfAppend(a[1..], b);
    }
  }

  lemma MaskValues()
    ensures Mask(0) == 0x8000 && Mask(1) == 0x4000 && Mask(2) == 0x2000 && Mask(3) == 0x1000
    ensures Mask(4) == 0x0800 && Mask(5) == 0x0400 && Mask(6) == 0x0200 && Mask(7) == 0x0100
    ensures Mask(8) == 0x0080 && Mask(9) == 0x0040 && Mask(10) == 0x0020 && Mask(11) == 0x0010
    ensures Mask(12) == 0x0008 && Mask(13) == 0x0004 && Mask(14) == 0x0002 && Mask(15) == 0x0001
  {
    assert Mask(3) == 0x1000;
    assert Mask(6) == 0x0200;
    assert Mask(9) == 0x0040;
    assert Mask(12) == 0x0008;
  }

  lemma HalfOneHot(m: bv16)
    requires m & (m - 1) == 0
    ensures (m >> 1) & ((m >> 1) - 1) == 0
  {
  }

  lemma {:induction false} MaskOneHot(i: nat)
    ensures Mask(i) & (Mask(i) - 1) == 0
  {
    if i == 0 {
    } else {
      MaskOneHot(i - 1);
      HalfOneHot(Mask(i - 1));
    }
  }

  lemma FromLastBit(x: nat, y: nat)
    requires x / 2 == y / 2 && x % 2 == y % 2
    ensures x == y
  {
  }

  lemma HalfOfHalf(x: byte)
    ensures x / 0x40 / 2 == x / 0x80 && x / 0x20 / 2 == x / 0x40 && x / 0x10 / 2 == x / 0x20
    ensures x / 0x08 / 2 == x / 0x10 && x / 0x04 / 2 == x / 0x08 && x / 0x02 / 2 == x / 0x04
    ensures x / 0x80 / 2 == 0
  {
  }

  lemma SameHighBits(x: byte, y: byte)
    requires x / 0x80 % 2 == y / 0x80 % 2 && x / 0x40 % 2 == y / 0x40 % 2
    requires x / 0x20 % 2 == y / 0x20 % 2 && x / 0x10 % 2 == y / 0x10 % 2
    ensures x / 0x10 == y / 0x10
  {
    HalfOfHalf(x);
    HalfOfHalf(y);
    FromLastBit(x / 0x80, y / 0x80);
    FromLastBit(x / 0x40, y / 0x40);
    FromLastBit(x / 0x20, y / 0x20);
    FromLastBit(x / 0x10, y / 0x10);
  }

  lemma ByteFromBits(x: byte, y: byte)
    requires x / 0x80 % 2 == y / 0x80 % 2 && x / 0x40 % 2 == y / 0x40 % 2
    requires x / 0x20 % 2 == y / 0x20 % 2 && x / 0x10 % 2 == y / 0x10 % 2
    requires x / 0x08 % 2 == y / 0x08 % 2 && x / 0x04 % 2 == y / 0x04 % 2
    requires x / 0x02 % 2 == y / 0x02 % 2 && x % 2 == y % 2
    ensures x == y
  {
    SameHighBits(x, y);
    HalfOfHalf(x);
    HalfOfHalf(y);
    FromLastBit(x / 0x08, y / 0x08);
    FromLastBit(x / 0x04, y / 0x04);
    FromLastBit(x / 0x02, y / 0x02);
    FromLastBit(x, y);
  }

  lemma ByteBitsInjective(x: byte, y: byte)
    requires ByteBits(x) == ByteBits(y)
    ensures x == y
  {
    var s, t := ByteBits(x), ByteBits(y);
    assert s[0] == t[0] && s[1] == t[1] && s[2] == t[2] && s[3] == t[3];
    assert s[4] == t[4] && s[5] == t[5] && s[6] == t[6] && s[7] == t[7];
    ByteFromBits(x, y);
  }

  /** Distinct byte strings of one length have distinct bits. */
  lemma {:induction false} BitsOfInjective(a: seq<byte>, b: seq<byte>)
    requires |a| == |b| && BitsOf(a) == BitsOf(b)
    ensures a == b
  {
    if a == [] {
    } else {
      var s, t := BitsOf(a), BitsOf(b);
      assert ByteBits(a[0]) == s[..8] && ByteBits(b[0]) == t[..8];
      ByteBitsInjective(a[0], b[0]);
      assert BitsOf(a[1..]) == s[8..] && BitsOf(b[1..]) == t[8..];
      BitsOfInjective(a[1..], b[1..]);
    }
  }

  // ── Polynomial division, one message bit at a time ───────────────────────

  function Xor(a: seq<bool>, b: seq<bool>): (d: seq<bool>)
    requires |a| == |b|
    ensures |d| == |a| && forall i | 0 <= i < |d| :: d[i] == (a[i] != b[i])
  {
    seq(|a|, i requires 0 <= i < |a| => a[i] != b[i])
  }

  /** The leading bits of the register with `w` added to them. */
  function XorInto(r: Register, w: seq<bool>): (d: Register)
    requires |w| <= 16
  {
    Xor(r[..|w|], w) + r[|w|..]
  }

  /** The coefficients of x^12 + x^5 + 1, which the word 0x1021 holds. */
  function PolyRegister(): (p: Register)
    ensures forall i | 0 <= i < 16 :: p[i] == (i == 3 || i == 10 || i == 15)
  {
    seq(16, i => i == 3 || i == 10 || i == 15)
  }

  /** Multiplies the remainder by x and reduces it by x^16 + x^12 + x^5 + 1. */
  function Divide(r: Register): (d: Register) {
    var doubled := r[1..] + [false];
    if r[0] then Xor(doubled, PolyRegister()) else doubled
  }

  function DivideTimes(r: Register, n: nat): Register {
    if n == 0 then r else Divide(DivideTimes(r, n - 1))
  }

  function FeedBits(r: Register, bits: seq<bool>): Register
    decreases bits
  {
    if bits == [] then r else FeedBits(Divide(XorInto(r, [bits[0]])), bits[1..])
  }

  lemma FeedBitsAppend(r: Register, a: seq<bool>, b: seq<bool>)
    ensures FeedBits(r, a + b) == FeedBits(FeedBits(r, a), b)
    decreases a
  {
    if a == [] {
      assert a + b == b;
    } else {
      assert (a + b)[1..] == a[1..] + b;
      FeedBitsAppend(Divide(XorInto(r, [a[0]])), a[1..], b);
    }
  }

  lemma {:induction false} DivideTimesFirst(r: Register, n: nat)
    ensures DivideTimes(Divide(r), n) == DivideTimes(r, n + 1)
  {
    if n == 0 {
    } else {
      DivideTimesFirst(r, n - 1);
    }
  }

  lemma BitOfXorInto(r: Register, w: seq<bool>, i: nat)
    requires |w| <= 16 && i < 16
    ensures XorInto(r, w)[i] == (if i < |w| then r[i] != w[i] else r[i])
  {
  }

  /** Adding the first bit alone, shifting and adding the others is adding all and shifting. */
  lemma ShiftedSame(r: Register, w: seq<bool>)
    requires 0 < |w| <= 16
    ensures var x, y := XorInto(r, [w[0]]), XorInto(r, w);
      x[0] == y[0] && XorInto(x[1..] + [false], w[1..]) == y[1..] + [false]
  {
    hide XorInto;
    var x, y := XorInto(r, [w[0]]), XorInto(r, w);
    BitOfXorInto(r, [w[0]], 0);
    BitOfXorInto(r, w, 0);
    forall i | 0 <= i < 16 ensures XorInto(x[1..] + [false], w[1..])[i] == (y[1..] + [false])[i] {
      BitOfXorInto(x[1..] + [false], w[1..], i);
      if i < 15 {
        BitOfXorInto(r, [w[0]], i + 1);
        BitOfXorInto(r, w, i + 1);
      }
    }
  }

  lemma AddAround(a: Register, p: Register, w: seq<bool>)
    requires |w| <= 16
    ensures XorInto(Xor(a, p), w) == Xor(XorInto(a, w), p)
  {
    hide XorInto;
    forall i | 0 <= i < 16 ensures XorInto(Xor(a, p), w)[i] == Xor(XorInto(a, w), p)[i] {
      BitOfXorInto(Xor(a, p), w, i);
      BitOfXorInto(a, w, i);
    }
  }

  /** A message bit may be added before or after the bits in front of it have been divided out. */
  lemma DivideThenAdd(r: Register, w: seq<bool>)
    requires 0 < |w| <= 16
    ensures XorInto(Divide(XorInto(r, [w[0]])), w[1..]) == Divide(XorInto(r, w))
  {
    hide XorInto, Xor, PolyRegister;
    ShiftedSame(r, w);
    var a := XorInto(r, [w[0]])[1..] + [false];
    AddAround(a, PolyRegister(), w[1..]);
  }

  /** At most 16 message bits may all be added first and divided out afterwards. */
  lemma {:induction false} WindowIsOneXor(r: Register, w: seq<bool>)
    requires |w| <= 16
    ensures FeedBits(r, w) == DivideTimes(XorInto(r, w), |w|)
    decreases w
  {
    if w == [] {
      assert XorInto(r, w) == r;
    } else {
      WindowIsOneXor(Divide(XorInto(r, [w[0]])), w[1..]);
      DivideThenAdd(r, w);
      DivideTimesFirst(XorInto(r, w), |w| - 1);
    }
  }

  // ── The word of the source is the register of the division ───────────────

  lemma XorDistributes(c: bv16, d: bv16, m: bv16)
    ensures (c ^ d) & m == (c & m) ^ (d & m)
  {
  }

  lemma OneHotCases(c: bv16, m: bv16)
    requires m & (m - 1) == 0
    ensures c & m == 0 || c & m == m
  {
  }

  lemma XorSmall(a: bv16, b: bv16)
    ensures 0 ^ b == b && a ^ 0 == a && a ^ a == 0
  {
  }

  lemma XorUnderMask(c: bv16, d: bv16, m: bv16)
    requires m & (m - 1) == 0
    ensures ((c ^ d) & m != 0) == ((c & m != 0) != (d & m != 0))
  {
    var a, b := c & m, d & m;
    XorDistributes(c, d, m);
    OneHotCases(c, m);
    OneHotCases(d, m);
    XorSmall(a, b);
    if a == 0 {
      assert (c ^ d) & m == b;
    } else if b == 0 {
      assert (c ^ d) & m == a;
    } else {
      assert a == m && b == m;
      assert (c ^ d) & m == 0;
    }
  }

  lemma WordBitsXor(c: bv16, d: bv16)
    ensures WordBits(c ^ d) == Xor(WordBits(c), WordBits(d))
  {
    forall i | 0 <= i < 16
      ensures WordBits(c ^ d)[i] == Xor(WordBits(c), WordBits(d))[i]
    {
      MaskOneHot(i);
      XorUnderMask(c, d, Mask(i));
    }
  }

  lemma DoubledUnderMask(c: bv16, m: bv16)
    requires m & (m - 1) == 0
    ensures (c << 1) & m != 0 <==> c & (m >> 1) != 0
  {
  }

  lemma WordBitsDoubled(c: bv16, i: nat)
    ensures Bit(c << 1, i) == Bit(c, i + 1)
  {
    MaskOneHot(i);
    DoubledUnderMask(c, Mask(i));
  }

  lemma PolyBits(i: nat)
    requires i < 16
    ensures Bit(POLY, i) == PolyRegister()[i]
  {
    MaskValues();
  }

  lemma NoBitBelow(c: bv16)
    ensures !Bit(c, 16)
  {
    MaskValues();
    assert Mask(16) == 0;
  }

  lemma WordBitsOfDoubled(c: bv16)
    ensures WordBits(c << 1) == WordBits(c)[1..] + [false]
  {
    var d: bv16 := c << 1;
    var doubled := WordBits(c)[1..] + [false];
    NoBitBelow(c);
    forall i | 0 <= i < 16
      ensures WordBits(d)[i] == doubled[i]
    {
      WordBitsDoubled(c, i);
    }
  }

  lemma WordBitsOfPoly()
    ensures WordBits(POLY) == PolyRegister()
  {
    forall i | 0 <= i < 16
      ensures WordBits(POLY)[i] == PolyRegister()[i]
    {
      PolyBits(i);
    }
  }

  lemma WordBitsOfShift(c: bv16)
    ensures WordBits(Shift(c)) == Divide(WordBits(c))
  {
    assert WordBits(c)[0] == (c & 0x8000 != 0);
    WordBitsOfDoubled(c);
    WordBitsXor(c << 1, POLY);
    WordBitsOfPoly();
  }

  lemma {:induction false} WordBitsOfShifts(c: bv16, n: nat)
    ensures WordBits(Shifts(c, n)) == DivideTimes(WordBits(c), n)
  {
    if n == 0 {
    } else {
      WordBitsOfShifts(c, n - 1);
      WordBitsOfShift(Shifts(c, n - 1));
    }
  }

  lemma BitsOfNumber(b: byte)
    ensures (Word(b) << 8) & 0x8000 != 0 <==> b / 0x80 % 2 == 1
    ensures (Word(b) << 8) & 0x4000 != 0 <==> b / 0x40 % 2 == 1
    ensures (Word(b) << 8) & 0x2000 != 0 <==> b / 0x20 % 2 == 1
    ensures (Word(b) << 8) & 0x1000 != 0 <==> b / 0x10 % 2 == 1
    ensures (Word(b) << 8) & 0x0800 != 0 <==> b / 0x08 % 2 == 1
    ensures (Word(b) << 8) & 0x0400 != 0 <==> b / 0x04 % 2 == 1
    ensures (Word(b) << 8) & 0x0200 != 0 <==> b / 0x02 % 2 == 1
    ensures (Word(b) << 8) & 0x0100 != 0 <==> b % 2 == 1
  {
  }

  lemma DisjointMasks(c: bv16, m: bv16)
    requires m & 0x00FF == m
    ensures (c << 8) & m == 0
  {
  }

  lemma MaskInLowByte(i: nat)
    requires 8 <= i < 16
    ensures Mask(i) & 0x00FF == Mask(i)
  {
    MaskValues();
  }

  lemma LowByteClear(c: bv16, i: nat)
    requires 8 <= i < 16
    ensures !Bit(c << 8, i)
  {
    hide Mask;
    MaskInLowByte(i);
    DisjointMasks(c, Mask(i));
  }

  lemma HighByteBits(b: byte, i: nat)
    requires i < 16
    ensures Bit(Word(b) << 8, i) <==> i < 8 && ByteBits(b)[i]
  {
    hide Word;
    if i < 8 {
      MaskValues();
      BitsOfNumber(b);
    } else {
      LowByteClear(Word(b), i);
    }
  }

  lemma WordBitsOfHighByte(b: byte)
    ensures WordBits(Word(b) << 8) == ByteBits(b) + seq(8, _ => false)
  {
    var high: bv16 := Word(b) << 8;
    var bits := ByteBits(b) + seq(8, _ => false);
    forall i | 0 <= i < 16
      ensures WordBits(high)[i] == bits[i]
    {
      HighByteBits(b, i);
    }
  }

  lemma PaddedXor(r: Register, bits: seq<bool>)
    requires |bits| == 8
    ensures Xor(r, bits + seq(8, _ => false)) == XorInto(r, bits)
  {
  }

  /** One byte of the source's loop feeds the eight bits of that byte. */
  lemma ByteStepFeedsBits(c: bv16, b: byte)
    ensures WordBits(ByteStep(c, b)) == FeedBits(WordBits(c), ByteBits(b))
  {
    var start: bv16 := c ^ (Word(b) << 8);
    WordBitsXor(c, Word(b) << 8);
    WordBitsOfHighByte(b);
    PaddedXor(WordBits(c), ByteBits(b));
    WindowIsOneXor(WordBits(c), ByteBits(b));
    WordBitsOfShifts(start, 8);
  }

  lemma NothingFed(r: Register)
    ensures FeedBits(r, BitsOf([])) == r
  {
  }

  lemma BitsOfOne(b: byte)
    ensures BitsOf([b]) == ByteBits(b)
  {
    assert [b][1..] == [] && BitsOf([]) == [];
    assert ByteBits(b) + [] == ByteBits(b);
  }

  /** The source's table-free loop is polynomial division of the message by x^16 + x^12 + x^5 + 1. */
  lemma {:induction false} ChecksumIsRemainder(c: bv16, data: seq<byte>)
    ensures WordBits(ChecksumFrom(c, data)) == FeedBits(WordBits(c), BitsOf(data))
    decreases |data|
  {
    hide ByteStep, FeedBits, ByteBits;
    if data == [] {
      NothingFed(WordBits(c));
    } else {
      var init, last := data[..|data| - 1], data[|data| - 1];
      ChecksumIsRemainder(c, init);
      ByteStepFeedsBits(ChecksumFrom(c, init), last);
      assert data == init + [last];
      BitsOfAppend(init, [last]);
      BitsOfOne(last);
      FeedBitsAppend(WordBits(c), BitsOf(init), ByteBits(last));
    }
  }

  // ── Two messages: the difference of the remainders is the remainder of the difference ──

  lemma DivideLinear(r: Register, s: Register)
    ensures Divide(Xor(r, s)) == Xor(Divide(r), Divide(s))
  {
    var a, b := r[1..] + [false], s[1..] + [false];
    assert Xor(r, s)[1..] + [false] == Xor(a, b);
    var p := PolyRegister();
    assert Xor(Xor(a, b), p) == Xor(Xor(a, p), b) == Xor(a, Xor(b, p));
    assert Xor(a, b) == Xor(Xor(a, p), Xor(b, p));
  }

  lemma FirstBitLinear(r: Register, s: Register, b: bool, c: bool)
    ensures Xor(XorInto(r, [b]), XorInto(s, [c])) == XorInto(Xor(r, s), [b != c])
  {
    hide XorInto;
    forall i | 0 <= i < 16 ensures Xor(XorInto(r, [b]), XorInto(s, [c]))[i] == XorInto(Xor(r, s), [b != c])[i] {
      BitOfXorInto(r, [b], i);
      BitOfXorInto(s, [c], i);
      BitOfXorInto(Xor(r, s), [b != c], i);
    }
  }

  lemma {:induction false} FeedBitsLinear(r: Register, a: seq<bool>, s: Register, b: seq<bool>)
    requires |a| == |b|
    ensures Xor(FeedBits(r, a), FeedBits(s, b)) == FeedBits(Xor(r, s), Xor(a, b))
    decreases a
  {
    if a == [] {
    } else {
      hide Divide, XorInto;
      var x, y := XorInto(r, [a[0]]), XorInto(s, [b[0]]);
      DivideLinear(x, y);
      FirstBitLinear(r, s, a[0], b[0]);
      FeedBitsLinear(Divide(x), a[1..], Divide(y), b[1..]);
      assert Xor(a, b)[1..] == Xor(a[1..], b[1..]);
    }
  }

  ghost predicate NoneSet(bits: seq<bool>) {
    forall i | 0 <= i < |bits| :: !bits[i]
  }

  lemma DivideZero(r: Register)
    ensures NoneSet(Divide(r)) <==> NoneSet(r)
  {
    var doubled := r[1..] + [false];
    if r[0] {
      assert Divide(r)[15] == (doubled[15] != PolyRegister()[15]);
    } else {
      assert forall i | 1 <= i < 16 :: r[i] == doubled[i - 1];
      assert forall i | 0 <= i < 15 :: doubled[i] == r[i + 1];
    }
  }

  lemma {:induction false} DivideTimesZero(r: Register, n: nat)
    ensures NoneSet(DivideTimes(r, n)) <==> NoneSet(r)
  {
    if n == 0 {
    } else {
      DivideTimesZero(r, n - 1);
      DivideZero(DivideTimes(r, n - 1));
    }
  }

  lemma {:induction false} ZerosKeepZeroness(r: Register, bits: seq<bool>)
    requires NoneSet(bits)
    ensures NoneSet(FeedBits(r, bits)) <==> NoneSet(r)
    decreases bits
  {
    if bits == [] {
    } else {
      assert XorInto(r, [bits[0]]) == r;
      DivideZero(r);
      ZerosKeepZeroness(Divide(r), bits[1..]);
    }
  }

  // ── Burst errors ─────────────────────────────────────────────────────────

  /** The two byte strings differ, and only inside 16 consecutive bits from bit `start`. */
  ghost predicate DifferInBurst(a: seq<byte>, b: seq<byte>, start: nat) {
    && |a| == |b|
    && a != b
    && forall i | 0 <= i < 8 * |a| && !(start <= i < start + 16) :: BitsOf(a)[i] == BitsOf(b)[i]
  }

  lemma WindowFromZero(r: Register, w: seq<bool>)
    requires NoneSet(r) && |w| <= 16 && !NoneSet(w)
    ensures !NoneSet(FeedBits(r, w))
  {
    WindowIsOneXor(r, w);
    var i :| 0 <= i < |w| && w[i];
    assert XorInto(r, w)[i];
    DivideTimesZero(XorInto(r, w), |w|);
  }

  lemma PaddedWindowFromZero(r: Register, before: seq<bool>, window: seq<bool>, after: seq<bool>)
    requires NoneSet(r) && NoneSet(before) && NoneSet(after)
    requires |window| <= 16 && !NoneSet(window)
    ensures !NoneSet(FeedBits(r, before + (window + after)))
  {
    var x := FeedBits(r, before);
    FeedBitsAppend(r, before, window + after);
    ZerosKeepZeroness(r, before);
    FeedBitsAppend(x, window, after);
    WindowFromZero(x, window);
    ZerosKeepZeroness(FeedBits(x, window), after);
  }

  lemma SliceSet(d: seq<bool>, s: nat, e: nat, i: nat)
    requires s <= i < e <= |d| && d[i]
    ensures !NoneSet(d[s..e])
  {
    assert d[s..e][i - s];
  }

  lemma SliceClear(d: seq<bool>, s: nat, e: nat)
    requires s <= e <= |d| && forall i | s <= i < e :: !d[i]
    ensures NoneSet(d[s..e])
  {
  }

  lemma SomeSet(d: seq<bool>) returns (i: nat)
    requires !NoneSet(d)
    ensures i < |d| && d[i]
  {
    i :| 0 <= i < |d| && d[i];
  }

  lemma ThreeParts(d: seq<bool>, s: nat, e: nat)
    requires s <= e <= |d|
    ensures d == d[0..s] + (d[s..e] + d[e..|d|])
  {
  }

  lemma BurstFromZero(r: Register, d: seq<bool>, start: nat)
    requires NoneSet(r) && !NoneSet(d)
    requires forall i | 0 <= i < |d| && !(start <= i < start + 16) :: !d[i]
    ensures !NoneSet(FeedBits(r, d))
  {
    hide NoneSet, FeedBits;
    var s := if start < |d| then start else |d|;
    var e := if start + 16 < |d| then start + 16 else |d|;
    var i := SomeSet(d);
    SliceClear(d, 0, s);
    SliceClear(d, e, |d|);
    SliceSet(d, s, e, i);
    PaddedWindowFromZero(r, d[0..s], d[s..e], d[e..|d|]);
    ThreeParts(d, s, e);
  }

  /** No burst of up to 16 bits leaves the checksum as it was. */
  lemma BurstChangesChecksum(a: seq<byte>, b: seq<byte>, start: nat)
    requires DifferInBurst(a, b, start)
    ensures Checksum(a) != Checksum(b)
  {
    var d := Xor(BitsOf(a), BitsOf(b));
    if NoneSet(d) {
      assert BitsOf(a) == BitsOf(b);
      BitsOfInjective(a, b);
      assert false;
    }
    var r := WordBits(INIT);
    BurstFromZero(Xor(r, r), d, start);
    FeedBitsLinear(r, BitsOf(a), r, BitsOf(b));
    ChecksumIsRemainder(INIT, a);
    ChecksumIsRemainder(INIT, b);
  }

  // ── Parity ───────────────────────────────────────────────────────────────

  /** True when an odd number of bits is set. */
  function Odd(bits: seq<bool>): bool {
    if bits == [] then false else bits[0] != Odd(bits[1..])
  }

  lemma OddAppend(a: seq<bool>, b: seq<bool>)
    ensures Odd(a + b) == (Odd(a) != Odd(b))
  {
    if a == [] {
      assert a + b == b;
    } else {
      assert (a + b)[1..] == a[1..] + b;
      OddAppend(a[1..], b);
    }
  }

  lemma {:induction false} OddXor(a: seq<bool>, b: seq<bool>)
    requires |a| == |b|
    ensures Odd(Xor(a, b)) == (Odd(a) != Odd(b))
  {
    if a == [] {
    } else {
      assert Xor(a, b)[1..] == Xor(a[1..], b[1..]);
      OddXor(a[1..], b[1..]);
    }
  }

  lemma {:induction false} OddOfNone(bits: seq<bool>)
    requires NoneSet(bits)
    ensures !Odd(bits)
  {
    if bits == [] {
    } else {
      OddOfNone(bits[1..]);
    }
  }

  lemma {:induction false} OddOfOneBit(bits: seq<bool>, k: nat)
    requires k < |bits| && bits[k] && forall i | 0 <= i < |bits| && i != k :: !bits[i]
    ensures Odd(bits)
  {
    if k == 0 {
      OddOfNone(bits[1..]);
    } else {
      OddOfOneBit(bits[1..], k - 1);
    }
  }

  function OneBit(k: nat): (r: Register)
    requires k < 16
    ensures forall i | 0 <= i < 16 :: r[i] == (i == k)
    ensures Odd(r)
  {
    var r := seq(16, i => i == k);
    OddOfOneBit(r, k);
    r
  }

  lemma PolyTerms()
    ensures PolyRegister() == Xor(OneBit(3), Xor(OneBit(10), OneBit(15)))
  {
    var p, q := PolyRegister(), Xor(OneBit(3), Xor(OneBit(10), OneBit(15)));
    assert |p| == |q| && forall i | 0 <= i < 16 :: p[i] == q[i];
  }

  lemma PolyIsOdd()
    ensures Odd(PolyRegister())
  {
    hide Odd, Xor, OneBit, PolyRegister;
    OddXor(OneBit(10), OneBit(15));
    OddXor(OneBit(3), Xor(OneBit(10), OneBit(15)));
    PolyTerms();
  }

  /** The division polynomial has an even number of terms, so dividing keeps the parity. */
  lemma DivideKeepsParity(r: Register)
    ensures Odd(Divide(r)) == Odd(r)
  {
    OddAppend(r[1..], [false]);
    OddOfNone([false]);
    if r[0] {
      OddXor(r[1..] + [false], PolyRegister());
      PolyIsOdd();
    }
  }

  lemma {:induction false} FeedBitsParity(r: Register, bits: seq<bool>)
    ensures Odd(FeedBits(r, bits)) == (Odd(r) != Odd(bits))
    decreases bits
  {
    if bits == [] {
    } else {
      var x := XorInto(r, [bits[0]]);
      DivideKeepsParity(x);
      assert x[1..] == r[1..];
      FeedBitsParity(Divide(x), bits[1..]);
    }
  }

  lemma MaskHalves(i: nat)
    requires i < 8
    ensures Mask(i) & 0x00FF == 0 && Mask(i + 8) == Mask(i) >> 8
  {
    MaskValues();
  }

  lemma HighHalfUnderMask(c: bv16, m: bv16)
    requires m & 0x00FF == 0
    ensures c & m == ((c >> 8) << 8) & m
  {
  }

  lemma HighHalfBits(c: bv16, i: nat)
    requires i < 8
    ensures Bit(c, i) == Bit((c >> 8) << 8, i)
  {
    MaskHalves(i);
    HighHalfUnderMask(c, Mask(i));
  }

  lemma LowHalfUnderMask(c: bv16, m: bv16)
    requires m & 0x00FF == 0
    ensures c & (m >> 8) != 0 <==> ((c & 0xFF) << 8) & m != 0
  {
    assert c & (m >> 8) == (((c & 0xFF) << 8) & m) >> 8;
  }

  lemma LowHalfBits(c: bv16, i: nat)
    requires i < 8
    ensures Bit(c, i + 8) == Bit((c & 0xFF) << 8, i)
  {
    MaskHalves(i);
    LowHalfUnderMask(c, Mask(i));
  }

  lemma BytesHoldBits(c: bv16, hi: bv16, lo: bv16, b: byte, d: byte, i: nat)
    requires i < 8 && hi == (c >> 8) << 8 && lo == (c & 0xFF) << 8
    requires hi == Word(b) << 8 && lo == Word(d) << 8
    ensures Bit(c, i) <==> ByteBits(b)[i]
    ensures Bit(c, i + 8) <==> ByteBits(d)[i]
  {
    HighHalfBits(c, i);
    LowHalfBits(c, i);
    HighByteBits(b, i);
    HighByteBits(d, i);
  }

  lemma BitFromBytes(c: bv16, i: nat)
    requires i < 16
    ensures Bit(c, i) <==> (ByteBits(WordHi(c)) + ByteBits(WordLo(c)))[i]
  {
    hide Bit, ByteBits, Word, WordHi, WordLo;
    WordHalves(c);
    BytesHoldBits(c, (c >> 8) << 8, (c & 0xFF) << 8, WordHi(c), WordLo(c), if i < 8 then i else i - 8);
  }

  lemma WordBitsFromBytes(c: bv16)
    ensures WordBits(c) == ByteBits(WordHi(c)) + ByteBits(WordLo(c))
  {
    hide Bit, ByteBits, WordHi, WordLo;
    forall i | 0 <= i < 16
      ensures WordBits(c)[i] == (ByteBits(WordHi(c)) + ByteBits(WordLo(c)))[i]
    {
      BitFromBytes(c, i);
    }
  }

  lemma {:induction false} EvenRun(r: seq<bool>)
    requires |r| % 2 == 0 && forall i | 0 <= i < |r| :: r[i]
    ensures !Odd(r)
  {
    if r == [] {
    } else {
      assert r[1..][1..] == r[2..];
      EvenRun(r[2..]);
    }
  }

  lemma InitIsEven()
    ensures !Odd(WordBits(INIT))
  {
    var r := WordBits(INIT);
    MaskValues();
    assert forall i | 0 <= i < 16 :: r[i];
    EvenRun(r);
  }

  /** The checksum has the parity of what it covers, so data and checksum together are even. */
  lemma CoveredAndChecksumAreEven(data: seq<byte>)
    ensures Odd(WordBits(Checksum(data))) == Odd(BitsOf(data))
    ensures !Odd(BitsOf(data + [WordLo(Checksum(data)), WordHi(Checksum(data))]))
  {
    var c := Checksum(data);
    var lo, hi := WordLo(c), WordHi(c);
    ChecksumIsRemainder(INIT, data);
    FeedBitsParity(WordBits(INIT), BitsOf(data));
    InitIsEven();
    WordBitsFromBytes(c);
    OddAppend(ByteBits(hi), ByteBits(lo));
    BitsOfAppend(data, [lo, hi]);
    assert [lo, hi][1..] == [hi] && [hi][1..] == [];
    assert BitsOf([hi]) == ByteBits(hi);
    OddAppend(ByteBits(lo), ByteBits(hi));
    OddAppend(BitsOf(data), BitsOf([lo, hi]));
  }

  /** Number of bit positions in which the two strings differ. */
  function Flips(a: seq<bool>, b: seq<bool>): nat
    requires |a| == |b|
  {
    if a == [] then 0 else (if a[0] != b[0] then 1 else 0) + Flips(a[1..], b[1..])
  }

  lemma {:induction false} FlipsParity(a: seq<bool>, b: seq<bool>)
    requires |a| == |b|
    ensures (Odd(a) != Odd(b)) <==> Flips(a, b) % 2 == 1
  {
    if a == [] {
    } else {
      FlipsParity(a[1..], b[1..]);
    }
  }

  // ── The start value ──────────────────────────────────────────────────────

  lemma SixteenOnes()
    ensures WordBits(INIT) == seq(16, _ => true) && INIT == 0xFFFF
  {
    MaskValues();
    var r := WordBits(INIT);
    assert forall i | 0 <= i < 16 :: r[i];
  }

  /** The division starts with sixteen ones. */
  lemma ChecksumStartsWithOnes(data: seq<byte>)
    ensures WordBits(Checksum(data)) == FeedBits(seq(16, _ => true), BitsOf(data))
  {
    hide FeedBits, WordBits, BitsOf;
    SixteenOnes();
    ChecksumIsRemainder(INIT, data);
  }

  lemma XorWithItself(b: seq<bool>)
    ensures NoneSet(Xor(b, b))
  {
  }

  lemma SameIfNoDifference(r: Register, s: Register)
    ensures NoneSet(Xor(r, s)) <==> r == s
  {
    if NoneSet(Xor(r, s)) {
      assert forall i | 0 <= i < 16 :: !Xor(r, s)[i];
    }
  }

  lemma SameBitsSameWord(c: bv16, d: bv16)
    ensures WordBits(c) == WordBits(d) <==> c == d
  {
    hide WordBits, ByteBits, WordHi, WordLo, FromWordBytes;
    if WordBits(c) == WordBits(d) {
      WordBitsFromBytes(c);
      WordBitsFromBytes(d);
      FrontOf(ByteBits(WordHi(c)), ByteBits(WordLo(c)));
      FrontOf(ByteBits(WordHi(d)), ByteBits(WordLo(d)));
      ByteBitsInjective(WordHi(c), WordHi(d));
      ByteBitsInjective(WordLo(c), WordLo(d));
      WordBytes(c);
      WordBytes(d);
    }
  }

  lemma ChecksumFromInit(data: seq<byte>)
    ensures WordBits(Checksum(data)) == FeedBits(WordBits(INIT), BitsOf(data))
  {
    hide FeedBits, WordBits, BitsOf;
    ChecksumIsRemainder(INIT, data);
  }

  /** Bytes in front are missed exactly if they lead the register back to its start value. */
  lemma LeadingBytesMissedIff(head: seq<byte>, data: seq<byte>)
    ensures Checksum(head + data) == Checksum(data) <==> Checksum(head) == 0xFFFF
  {
    hide FeedBits, WordBits, BitsOf, Checksum, Xor, NoneSet;
    var ones, b := WordBits(INIT), BitsOf(data);
    var r := FeedBits(ones, BitsOf(head));
    ChecksumFromInit(head);
    ChecksumFromInit(data);
    ChecksumFromInit(head + data);
    BitsOfAppend(head, data);
    FeedBitsAppend(ones, BitsOf(head), b);
    FeedBitsLinear(r, b, ones, b);
    XorWithItself(b);
    ZerosKeepZeroness(Xor(r, ones), Xor(b, b));
    SameIfNoDifference(FeedBits(r, b), FeedBits(ones, b));
    SameIfNoDifference(r, ones);
    SameBitsSameWord(Checksum(head + data), Checksum(data));
    SameBitsSameWord(Checksum(head), INIT);
    SixteenOnes();
  }

  lemma Stepped(c: bv16, b: byte, w: bv16, x: bv16, d: bv16)
    requires Word(b) == w && c ^ (w << 8) == x && Shifts(x, 8) == d
    ensures ByteStep(c, b) == d
  {
  }

  lemma OneByteMore(data: seq<byte>, b: byte)
    ensures Checksum(data + [b]) == ByteStep(Checksum(data), b)
  {
    assert (data + [b])[..|data|] == data;
  }

  lemma EmptyChecksum()
    ensures Checksum([]) == 0xFFFF
  {
  }

  /** A zero byte in front, which a start value of zero would miss, is always noticed. */
  lemma LeadingZeroNoticed(data: seq<byte>)
    ensures Checksum([0] + data) != Checksum(data)
  {
    hide Checksum;
    EmptyChecksum();
    OneByteMore([], 0);
    Stepped(0xFFFF, 0, 0, 0xFFFF, 0xE1F0);
    assert [] + [0] == [0];
    LeadingBytesMissedIff([0], data);
  }

  // The digits from 1 to 9, three at a time.
  lemma FirstDigits()
    ensures Checksum([0x31, 0x32, 0x33]) == 0x5BCE
  {
    hide Checksum, ByteStep;
    EmptyChecksum();
    OneByteMore([], 0x31);
    OneByteMore([0x31], 0x32);
    OneByteMore([0x31, 0x32], 0x33);
    assert [] + [0x31] == [0x31] && [0x31] + [0x32] == [0x31, 0x32] && [0x31, 0x32] + [0x33] == [0x31, 0x32, 0x33];
    Stepped(0xFFFF, 0x31, 0x31, 0xCEFF, 0xC782);
    Stepped(0xC782, 0x32, 0x32, 0xF582, 0x3DBA);
    Stepped(0x3DBA, 0x33, 0x33, 0x0EBA, 0x5BCE);
  }

  lemma MiddleDigits()
    ensures Checksum([0x31, 0x32, 0x33, 0x34, 0x35, 0x36]) == 0x2EF4
  {
    hide Checksum, ByteStep;
    FirstDigits();
    var digits := [0x31, 0x32, 0x33];
    OneByteMore(digits, 0x34);
    OneByteMore(digits + [0x34], 0x35);
    OneByteMore(digits + [0x34] + [0x35], 0x36);
    assert digits + [0x34] + [0x35] + [0x36] == [0x31, 0x32, 0x33, 0x34, 0x35, 0x36];
    Stepped(0x5BCE, 0x34, 0x34, 0x6FCE, 0x5349);
    Stepped(0x5349, 0x35, 0x35, 0x6649, 0x4560);
    Stepped(0x4560, 0x36, 0x36, 0x7360, 0x2EF4);
  }

  /** The documented check value: the checksum of the text "123456789". */
  lemma CheckValue()
    ensures Checksum([0x31, 0x32, 0x33, 0x34, 0x35, 0x36, 0x37, 0x38, 0x39]) == 0x29B1
  {
    hide Checksum, ByteStep;
    MiddleDigits();
    var digits := [0x31, 0x32, 0x33, 0x34, 0x35, 0x36];
    OneByteMore(digits, 0x37);
    OneByteMore(digits + [0x37], 0x38);
    OneByteMore(digits + [0x37] + [0x38], 0x39);
    assert digits + [0x37] + [0x38] + [0x39] == [0x31, 0x32, 0x33, 0x34, 0x35, 0x36, 0x37, 0x38, 0x39];
    Stepped(0x2EF4, 0x37, 0x37, 0x19F4, 0x7718);
    Stepped(0x7718, 0x38, 0x38, 0x4F18, 0xA12B);
    Stepped(0xA12B, 0x39, 0x39, 0x982B, 0x29B1);
  }
}
