/** Bytes, the values they are cut into on the wire, and the two result types used throughout. */
module Bytes {
  type byte = n: int | 0 <= n < 0x100

  datatype Option<+T> = None | Some(value: T)

  function AsList<T>(o: Option<T>): seq<T> { if o.Some? then [o.value] else [] }

  datatype Result<+T, +E> = Ok(value: T) | Err(error: E)

  lemma Regrouped<T>(x: seq<T>, y: seq<T>, z: seq<T>)
    ensures x + y + z == x + (y + z)
  {
  }

  lemma NothingInFront<T>(x: seq<T>)
    ensures [] + x == x
  {
  }

  lemma FrontOf<T>(x: seq<T>, y: seq<T>)
    ensures (x + y)[..|x|] == x && (x + y)[|x|..] == y
  {
  }

  // ── 16-bit numbers, which the sources hold in a u16 ──────────────────────

  type u16 = n: int | 0 <= n < 0x1_0000
  type u32 = n: int | 0 <= n < 0x1_0000_0000

  function Lo(v: u16): byte { v % 0x100 }

  function Hi(v: u16): byte { v / 0x100 }

  function From16(lo: byte, hi: byte): u16 { lo + 0x100 * hi }

  /** Splitting a 16-bit number and putting it together again loses nothing, in either order. */
  lemma Split16(v: u16, lo: byte, hi: byte)
    ensures From16(Lo(v), Hi(v)) == v
    ensures Lo(From16(lo, hi)) == lo && Hi(From16(lo, hi)) == hi
  {
  }

  function Le32(v: u32): (bytes: seq<byte>)
    ensures |bytes| == 4
  {
    [v % 0x100, v / 0x100 % 0x100, v / 0x1_0000 % 0x100, v / 0x100_0000]
  }

  function FromLe32(b0: byte, b1: byte, b2: byte, b3: byte): u32 {
    b0 + 0x100 * b1 + 0x1_0000 * b2 + 0x100_0000 * b3
  }

  lemma Split32(v: u32)
    ensures var s := Le32(v); FromLe32(s[0], s[1], s[2], s[3]) == v
  {
    assert v / 0x100 / 0x100 == v / 0x1_0000 && v / 0x1_0000 / 0x100 == v / 0x100_0000;
  }

  /** Kind and operation in front of the body of a message. */
  const MESSAGE_HEADER_LEN := 3

  // ── A clock of milliseconds that wraps ───────────────────────────────────

  const CLOCK := 0x1_0000_0000

  lemma RemainderAdds(t: nat, ms: nat)
    ensures (t % CLOCK + ms) % CLOCK == (t + ms) % CLOCK
  {
    var k := t / CLOCK;
    assert t + ms == k * CLOCK + (t % CLOCK + ms);
  }

  lemma ProductMonotone(a: nat, b: nat, unit: nat)
    requires a <= b
    ensures a * unit <= b * unit
  {
  }

  lemma RemainderIs(q: nat, n: nat, r: nat)
    requires r < n
    ensures (q * n + r) % n == r
  {
    var v := q * n + r;
    var d := v / n;
    assert v == d * n + v % n;
    if d < q {
      ProductMonotone(d + 1, q, n);
    } else if d > q {
      ProductMonotone(q + 1, d, n);
    }
  }

  lemma QuotientsOrdered(j: nat, k: nat, n: nat)
    requires j <= k && n > 0
    ensures j / n <= k / n
  {
    if j / n > k / n {
      ProductMonotone(k / n + 1, j / n, n);
    }
  }

  lemma QuotientAndRemainder(v: nat, n: nat)
    requires n > 0
    ensures v == v / n * n + v % n && v % n < n
  {
  }

  lemma Distribute(p: int, q: int, n: int)
    ensures (p - q) * n == p * n - q * n && (p + q) * n == p * n + q * n
  {
  }

  lemma ApartByMultiple(j: nat, k: nat, n: nat)
    requires j <= k && n > 0 && j % n == k % n
    ensures (k - j) % n == 0
  {
    QuotientAndRemainder(j, n);
    QuotientAndRemainder(k, n);
    QuotientsOrdered(j, k, n);
    Distribute(k / n, j / n, n);
    RemainderIs(k / n - j / n, n, 0);
  }

  lemma MultipleApart(j: nat, k: nat, n: nat)
    requires j <= k && n > 0 && (k - j) % n == 0
    ensures j % n == k % n
  {
    QuotientAndRemainder(j, n);
    QuotientAndRemainder(k - j, n);
    Distribute(j / n, (k - j) / n, n);
    RemainderIs(j / n + (k - j) / n, n, j % n);
  }

  lemma SameRemainder(j: nat, k: nat, n: nat)
    requires j <= k && n > 0
    ensures j % n == k % n <==> (k - j) % n == 0
  {
    if j % n == k % n {
      ApartByMultiple(j, k, n);
    }
    if (k - j) % n == 0 {
      MultipleApart(j, k, n);
    }
  }

  // ── Powers of two and bits ───────────────────────────────────────────────

  function Power(k: nat): (p: nat)
    ensures p > 0
  {
    if k == 0 then 1 else 2 * Power(k - 1)
  }

  lemma {:induction false} PowerMonotone(j: nat, k: nat)
    requires j <= k
    ensures Power(j) <= Power(k) && Power(8) == 256
  {
    assert Power(4) == 16;
    if j == k {
    } else {
      PowerMonotone(j, k - 1);
    }
  }

  /** `(v >> k) & 1 == 1` */
  function BitAt(v: nat, k: nat): bool {
    if k == 0 then v % 2 == 1 else BitAt(v / 2, k - 1)
  }

  lemma QuotientIs(a: nat, chunk: nat, k: nat)
    requires chunk > 0 && k * chunk <= a < k * chunk + chunk
    ensures a / chunk == k
  {
    var q := a / chunk;
    QuotientAndRemainder(a, chunk);
    if q < k {
      ProductMonotone(q + 1, k, chunk);
    } else if q > k {
      ProductMonotone(k + 1, q, chunk);
    }
  }

  lemma HalfFirst(v: nat, p: nat)
    requires p > 0
    ensures v / 2 / p == v / (2 * p)
  {
    var q := v / (2 * p);
    QuotientAndRemainder(v, 2 * p);
    var r := v % (2 * p);
    assert v == 2 * (q * p) + r;
    assert v / 2 == q * p + r / 2 && r / 2 < p;
    QuotientIs(v / 2, p, q);
  }

  lemma {:induction false} BitByDivision(v: nat, k: nat)
    ensures BitAt(v, k) <==> v / Power(k) % 2 == 1
  {
    if k == 0 {
      assert v / 1 == v;
    } else {
      BitByDivision(v / 2, k - 1);
      HalfFirst(v, Power(k - 1));
    }
  }

  lemma {:induction false} NoBits(k: nat)
    ensures !BitAt(0, k)
  {
    if k == 0 {
    } else {
      NoBits(k - 1);
    }
  }

  lemma {:induction false} BitOfPower(i: nat, k: nat)
    ensures BitAt(Power(i), k) <==> i == k
  {
    if k == 0 {
    } else if i == 0 {
      NoBits(k - 1);
    } else {
      assert Power(i) / 2 == Power(i - 1);
      BitOfPower(i - 1, k - 1);
    }
  }

  // ── Machine words of the checksums ───────────────────────────────────────

  function Word(b: byte): bv16 { (b as bv8) as bv16 }

  function WordLo(v: bv16): byte { ((v & 0xFF) as bv8) as int }

  function WordHi(v: bv16): byte { ((v >> 8) as bv8) as int }

  function FromWordBytes(lo: byte, hi: byte): bv16 { Word(lo) | (Word(hi) << 8) }

  lemma BitsToByte(v: bv8)
    ensures (v as int) as bv8 == v
  {
  }

  lemma Halves(v: bv16)
    ensures ((v & 0xFF) as bv8) as bv16 == v & 0xFF && ((v >> 8) as bv8) as bv16 == v >> 8
  {
  }

  lemma HalvesJoined(v: bv16)
    ensures (v & 0xFF) | ((v >> 8) << 8) == v
  {
  }

  lemma WordHalves(v: bv16)
    ensures Word(WordLo(v)) == v & 0xFF && Word(WordHi(v)) == v >> 8
  {
    BitsToByte((v & 0xFF) as bv8);
    BitsToByte((v >> 8) as bv8);
    Halves(v);
  }

  /** Splitting a register into two bytes and reading it back loses nothing. */
  lemma WordBytes(v: bv16)
    ensures FromWordBytes(WordLo(v), WordHi(v)) == v
  {
    WordHalves(v);
    HalvesJoined(v);
  }

  lemma JoinedHalves(a: bv16, b: bv16)
    requires a & 0xFF00 == 0 && b & 0xFF00 == 0
    ensures (a | (b << 8)) & 0xFF == a && (a | (b << 8)) >> 8 == b
  {
  }

  lemma WordSmall(x: byte)
    ensures Word(x) & 0xFF00 == 0 && Word(x) as bv8 == x as bv8
  {
  }

  lemma ByteToBits(x: byte)
    ensures (x as bv8) as int == x
  {
    assert x % 0x100 == x;
  }

  /** Reading two bytes into a register and splitting it again loses nothing either. */
  lemma BytesFromWord(lo: byte, hi: byte)
    ensures WordLo(FromWordBytes(lo, hi)) == lo && WordHi(FromWordBytes(lo, hi)) == hi
  {
    WordSmall(lo);
    WordSmall(hi);
    JoinedHalves(Word(lo), Word(hi));
    ByteToBits(lo);
    ByteToBits(hi);
  }

  // ── Sequences of pieces ──────────────────────────────────────────────────

  function Flatten<T>(parts: seq<seq<T>>): seq<T> {
    if parts == [] then [] else parts[0] + Flatten(parts[1..])
  }

  lemma FlattenAppend<T>(a: seq<seq<T>>, b: seq<seq<T>>)
    ensures Flatten(a + b) == Flatten(a) + Flatten(b)
  {
    if a == [] {
      assert a + b == b;
    } else {
      assert (a + b)[1..] == a[1..] + b;
      FlattenAppend(a[1..], b);
    }
  }
}
