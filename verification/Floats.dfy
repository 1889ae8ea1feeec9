/**
 * Single-precision values as their 32 bits (binary32 of IEEE 754). Configuration values are only
 * compared, clamped, truncated and copied, so no rounding of arithmetic is involved.
 */
module Floats {
  import opened Bytes

  type f32 = u32

  datatype Number = NaN | Infinite(negative: bool) | Finite(x: real)

  function Exp2(k: int): (r: real)
    ensures r > 0.0
    decreases if k < 0 then -k else k
  {
    if k == 0 then 1.0 else if k > 0 then 2.0 * Exp2(k - 1) else Exp2(k + 1) / 2.0
  }

  function Decode(bits: f32): Number {
    var negative, exponent, fraction := bits >= 0x8000_0000, bits / 0x80_0000 % 0x100, bits % 0x80_0000;
    if exponent == 255 then
      if fraction == 0 then Infinite(negative) else NaN
    else
      var magnitude := if exponent == 0 then fraction as real * Exp2(-149)
                       else (0x80_0000 + fraction) as real * Exp2(exponent - 150);
      Finite(if negative then -magnitude else magnitude)
  }

  predicate LessThan(a: f32, x: real) {
    match Decode(a) case NaN => false case Infinite(negative) => negative case Finite(v) => v < x
  }

  predicate GreaterThan(a: f32, x: real) {
    match Decode(a) case NaN => false case Infinite(negative) => !negative case Finite(v) => v > x
  }

  /** `(lo..=hi).contains(&a)` */
  predicate InRange(a: f32, lo: real, hi: real) {
    Decode(a).Finite? && lo <= Decode(a).x <= hi
  }

  /** `value as u32`: towards zero, saturating; what is not a number becomes 0. */
  function ToU32(a: f32): u32 {
    match Decode(a)
    case NaN => 0
    case Infinite(negative) => if negative then 0 else 0xFFFF_FFFF
    case Finite(x) => if x <= 0.0 then 0 else if x >= 4294967295.0 then 0xFFFF_FFFF else x.Floor
  }

  // ── From integers ────────────────────────────────────────────────────────

  function Log2(n: nat): (k: nat)
    requires n > 0
    ensures Power(k) <= n < 2 * Power(k)
  {
    if n == 1 then 0 else 1 + Log2(n / 2)
  }

  function RoundHalfEven(n: nat, unit: nat): nat
    requires unit > 0
  {
    var q, r := n / unit, n % unit;
    if 2 * r > unit || (2 * r == unit && q % 2 == 1) then q + 1 else q
  }

  lemma PowerAdds(j: nat, k: nat)
    ensures Power(j + k) == Power(j) * Power(k)
  {
    if j == 0 {
    } else {
      PowerAdds(j - 1, k);
    }
  }

  lemma Powers()
    ensures Power(8) == 0x100 && Power(16) == 0x1_0000 && Power(23) == 0x80_0000 && Power(24) == 0x100_0000
    ensures Power(32) == 0x1_0000_0000
  {
    assert Power(4) == 16;
    PowerAdds(4, 4);
    PowerAdds(8, 8);
    PowerAdds(16, 8);
    PowerAdds(16, 16);
    assert Power(24) == 2 * Power(23);
  }

  lemma LogBounded(n: u32)
    requires n > 0
    ensures Log2(n) <= 31
    ensures n < 0x100_0000 ==> Log2(n) <= 23
  {
    Powers();
    if Log2(n) > 31 {
      PowerMonotone(32, Log2(n));
    }
    if Log2(n) > 23 {
      PowerMonotone(24, Log2(n));
    }
  }

  lemma Scaled(low: nat, n: nat, unit: nat)
    requires low <= n < 2 * low && unit > 0
    ensures low * unit <= n * unit < 2 * (low * unit)
  {
  }

  lemma Larger(a: nat, b: nat, unit: nat)
    requires a * unit > b * unit
    ensures a > b
  {
    if a <= b {
      ProductMonotone(a, b, unit);
    }
  }

  lemma Quotient(n: nat, unit: nat)
    requires unit > 0 && unit * 0x80_0000 <= n < 2 * (unit * 0x80_0000)
    ensures 0x80_0000 <= n / unit < 0x100_0000
  {
    var q := n / unit;
    assert n == q * unit + n % unit;
    Larger(q + 1, 0x80_0000, unit);
    Larger(0x100_0000, q, unit);
  }

  lemma Packs(n: u32, k: nat, significand: nat)
    requires n > 0 && k == Log2(n) <= 31
    requires significand == if k <= 23 then n * Power(23 - k) else RoundHalfEven(n, Power(k - 23))
    ensures 0x80_0000 <= significand <= 0x100_0000
    ensures k <= 23 ==> significand < 0x100_0000
  {
    Powers();
    if k <= 23 {
      PowerAdds(k, 23 - k);
      Scaled(Power(k), n, Power(23 - k));
    } else {
      PowerAdds(k - 23, 23);
      Quotient(n, Power(k - 23));
    }
  }

  /** `n as f32`: the nearest value, ties to even. */
  function FloatOf(n: u32): (r: f32)
    ensures r < 0x8000_0000
  {
    if n == 0 then 0 else
    var k := Log2(n);
    LogBounded(n);
    var significand := if k <= 23 then n * Power(23 - k) else RoundHalfEven(n, Power(k - 23));
    Packs(n, k, significand);
    (k + 126) * 0x80_0000 + significand
  }

  function Negated(a: f32): f32 { (a + 0x8000_0000) % 0x1_0000_0000 }

  lemma Halved(p: real, e: real)
    requires p * e == 1.0
    ensures (2.0 * p) * (e / 2.0) == 1.0
  {
  }

  lemma {:induction false} Exp2Inverse(k: nat)
    ensures Power(k) as real * Exp2(0 - k) == 1.0
  {
    if k == 0 {
    } else {
      Exp2Inverse(k - 1);
      assert 0 - k + 1 == 0 - (k - 1);
      Halved(Power(k - 1) as real, Exp2(0 - (k - 1)));
    }
  }

  lemma ZeroExact()
    ensures Decode(FloatOf(0)) == Finite(0.0)
  {
    assert 0.0 * Exp2(-149) == 0.0;
  }

  lemma ProductsRegrouped(n: nat, p: nat, e: real)
    requires p as real * e == 1.0
    ensures (n * p) as real * e == n as real
  {
    assert (n * p) as real == n as real * p as real;
    assert (n as real * p as real) * e == n as real * (p as real * e);
  }

  lemma Fields(k: nat, s: nat)
    requires k <= 23 && 0x80_0000 <= s < 0x100_0000
    ensures var bits := (k + 126) * 0x80_0000 + s;
      bits < 0x8000_0000 && bits / 0x80_0000 % 0x100 == k + 127 && bits % 0x80_0000 == s - 0x80_0000
  {
  }

  lemma {:induction false} PositiveExact(n: u32)
    requires 0 < n < 0x100_0000
    ensures Decode(FloatOf(n)) == Finite(n as real)
  {
    hide Exp2, Power, Log2;
    var k: int := Log2(n);
    LogBounded(n);
    var s := n * Power(23 - k);
    Packs(n, k, s);
    Fields(k, s);
    Exp2Inverse(23 - k);
    ProductsRegrouped(n, Power(23 - k), Exp2(k - 23));
  }

  /** Integers below 2^24 are represented exactly. */
  lemma FloatOfExact(n: u32)
    requires n < 0x100_0000
    ensures Decode(FloatOf(n)) == Finite(n as real) && ToU32(FloatOf(n)) == n
  {
    hide Exp2, Power, FloatOf, Decode;
    if n == 0 {
      ZeroExact();
    } else {
      PositiveExact(n);
    }
  }

  lemma {:induction false} Exp2AtLeastOne(k: nat)
    ensures Exp2(k) >= 1.0
  {
    if k == 0 {
    } else {
      Exp2AtLeastOne(k - 1);
    }
  }

  lemma Exp2Twice()
    ensures forall k: nat :: Exp2(k + 1) == 2.0 * Exp2(k)
  {
  }

  lemma LargeLog(n: u32)
    requires n >= 0x100_0000
    ensures Log2(n) >= 24
  {
    Powers();
    if Log2(n) < 24 {
      PowerMonotone(Log2(n) + 1, 24);
    }
  }

  lemma LargeFields(k: nat, s: nat)
    requires 24 <= k <= 31 && 0x80_0000 <= s <= 0x100_0000
    ensures var bits := (k + 126) * 0x80_0000 + s;
      && bits < 0x8000_0000
      && (s < 0x100_0000 ==> bits / 0x80_0000 % 0x100 == k + 127 && bits % 0x80_0000 == s - 0x80_0000)
      && (s == 0x100_0000 ==> bits / 0x80_0000 % 0x100 == k + 128 && bits % 0x80_0000 == 0)
  {
  }

  lemma ProductAtLeast(a: real, b: real)
    requires a >= 8388608.0 && b >= 2.0
    ensures a * b >= 16777216.0
  {
    assert a * b >= 8388608.0 * b;
  }

  lemma LargeDecoded(k: int, s: nat)
    requires 24 <= k <= 31 && 0x80_0000 <= s <= 0x100_0000
    requires Exp2(k - 23) == 2.0 * Exp2(k - 24) && Exp2(k - 22) == 2.0 * Exp2(k - 23) && Exp2(k - 24) >= 1.0
    requires (k + 126) * 0x80_0000 + s < 0x8000_0000
    ensures var d := Decode((k + 126) * 0x80_0000 + s); d.Finite? && d.x >= 16777216.0
  {
    hide Exp2;
    LargeFields(k, s);
    if s < 0x100_0000 {
      ProductAtLeast(s as real, Exp2(k - 23));
    } else {
      ProductAtLeast(8388608.0, Exp2(k - 22));
    }
  }

  /** Larger integers stay at or above 2^24. */
  lemma {:induction false} FloatOfLarge(n: u32)
    requires n >= 0x100_0000
    ensures Decode(FloatOf(n)).Finite? && Decode(FloatOf(n)).x >= 16777216.0
  {
    hide Exp2, Power, Log2;
    var k := Log2(n);
    LogBounded(n);
    LargeLog(n);
    var s := RoundHalfEven(n, Power(k - 23));
    Packs(n, k, s);
    LargeFields(k, s);
    Exp2Twice();
    Exp2AtLeastOne(k - 23);
    Exp2AtLeastOne(k - 22);
    Exp2AtLeastOne(k - 24);
    LargeDecoded(k, s);
  }

  lemma NegatedFields(a: f32)
    requires a < 0x8000_0000
    ensures Negated(a) == a + 0x8000_0000
    ensures Negated(a) / 0x80_0000 % 0x100 == a / 0x80_0000 % 0x100 && Negated(a) % 0x80_0000 == a % 0x80_0000
  {
  }

  lemma NegatedExact(n: u32)
    requires n < 0x100_0000
    ensures Decode(Negated(FloatOf(n))) == Finite(-(n as real))
  {
    hide Exp2, FloatOf, Negated;
    FloatOfExact(n);
    NegatedFields(FloatOf(n));
  }

  lemma KnownPowers()
    ensures Exp2(-23) == 1.0 / 8388608.0 && Exp2(-20) == 8.0 * Exp2(-23) && Exp2(-24) == Exp2(-23) / 2.0
  {
    Powers();
    Exp2Inverse(23);
    assert Exp2(-22) == 2.0 * Exp2(-23) && Exp2(-21) == 2.0 * Exp2(-22) && Exp2(-20) == 2.0 * Exp2(-21);
  }

  /** Familiar values: sign, eight bits of exponent, 23 bits of fraction. */
  lemma KnownValues()
    ensures Decode(0x3F80_0000) == Finite(1.0) && Decode(0x3F00_0000) == Finite(0.5)
    ensures Decode(0xC120_0000) == Finite(-10.0)
    ensures Decode(0x7F80_0000) == Infinite(false) && Decode(0xFF80_0000) == Infinite(true)
    ensures Decode(0x7FC0_0000) == NaN && Decode(0x8000_0000) == Finite(0.0)
    ensures Decode(1).Finite? && Decode(0x80_0000) == Finite(8388608.0 * Decode(1).x)
  {
    hide Exp2;
    KnownPowers();
  }

  lemma LogIs24(n: u32)
    requires 0x100_0000 <= n < 0x200_0000
    ensures Log2(n) == 24
  {
    hide Log2;
    Powers();
    LargeLog(n);
    assert Power(25) == 2 * Power(24);
    if Log2(n) > 24 {
      PowerMonotone(25, Log2(n));
    }
  }

  lemma SmallPowers()
    ensures Power(0) == 1 && Power(1) == 2
  {
  }

  /** Halfway between two values the even one is taken. */
  lemma TiesToEven()
    ensures FloatOf(0x100_0001) == 0x4B80_0000 && FloatOf(0x100_0003) == 0x4B80_0002
  {
    hide Log2, Power;
    Powers();
    LogIs24(0x100_0001);
    LogIs24(0x100_0003);
    SmallPowers();
  }
}
