/**
 Division of 32-bit numbers by an invariant divisor, with one multiplication and two shifts
 (T. Granlund and P. L. Montgomery, "Division by Invariant Integers Using Multiplication", PLDI 1994).
 */
module FastDiv {

  const TWO32: nat := 0x1_0000_0000
  const TWO64: nat := 0x1_0000_0000_0000_0000

  function Pow2(n: nat): (p: nat)
    ensures p >= 1
  {
    if n == 0 then 1 else 2 * Pow2(n - 1)
  }

  /** x >> s */
  function Shr(x: nat, s: nat): nat {
    if s == 0 then x else Shr(x / 2, s - 1)
  }

  /** Integer division; QuotientIsDivision relates it to the built-in operator. */
  function Quotient(a: nat, b: nat): nat
    requires b > 0
  {
    if a < b then 0 else 1 + Quotient(a - b, b)
  }

  /** Position of the highest set bit of x, counted from 1; 0 for 0. */
  function Fls(x: nat): (l: nat)
    ensures x < Pow2(l)
    ensures x > 0 ==> l > 0 && Pow2(l - 1) <= x
  {
    if x == 0 then 0 else 1 + Fls(x / 2)
  }

  /** The multiplier before it is packed. */
  function Multiplier(div: nat): nat
    requires 1 <= div < TWO32
  {
    Quotient(TWO32 * (Pow2(Fls(div - 1)) - div), div) + 1
  }

  /** fast_div32_init: multiplier in the upper half, the two shift amounts in the low bytes. */
  function Init(div: nat): nat
    requires 1 <= div < TWO32
  {
    var l := Fls(div - 1);
    var s1 := if l > 1 then 1 else l;
    var s2 := if l == 0 then 0 else l - 1;
    Multiplier(div) * TWO32 + s1 * 256 + s2
  }

  /** (uint32_t)(((uint64_t)v * m) >> 32) with m the upper half of divinfo. */
  function HighProduct(v: nat, divinfo: nat): nat {
    v * (divinfo / TWO32) / TWO32 % TWO32
  }

  /** fast_div32; every 32-bit operation is reduced modulo 2^32. */
  function Div(v: nat, divinfo: nat): nat {
    var s1 := divinfo % 65536 / 256;
    var s2 := divinfo % 256;
    var t := HighProduct(v, divinfo);
    Shr((t + Shr((v - t) % TWO32, s1)) % TWO32, s2)
  }

  /** fast_rem32, with the 32-bit wrap-around of the product and the difference. */
  function Rem(v: nat, div: nat, divinfo: nat): nat {
    (v - div * Div(v, divinfo)) % TWO32
  }

  // ---- arithmetic

  lemma MulMono(x: nat, y: nat, b: nat)
    requires x <= y
    ensures x * b <= y * b
  {}

  lemma MulStrict(x: nat, y: nat, b: nat)
    requires x < y && b > 0
    ensures x * b < y * b
  {}

  lemma Distribute(x: int, y: int, z: int)
    ensures (x + y) * z == x * z + y * z
    ensures z * (x + y) == z * x + z * y
  {}

  lemma Associate(x: int, y: int, z: int)
    ensures x * y * z == x * (y * z)
    ensures x * y * z == x * z * y
  {}

  lemma CommuteMul(x: int, y: int)
    ensures x * y == y * x
  {}

  lemma {:induction false} FlsBound(x: nat, k: nat)
    requires x < Pow2(k)
    ensures Fls(x) <= k
  {
    if x > 0 {
      FlsBound(x / 2, k - 1);
    }
  }

  /** The remainder that goes with Quotient. */
  lemma {:induction false} QuotRem(a: nat, b: nat) returns (r: nat)
    requires b > 0
    ensures a == Quotient(a, b) * b + r && r < b
    decreases a
  {
    if a < b {
      r := a;
    } else {
      r := QuotRem(a - b, b);
      Distribute(1, Quotient(a - b, b), b);
    }
  }

  /** a == q * b + r with r < b determines q. */
  lemma {:induction false} QuotientUnique(a: nat, b: nat, q: nat, r: nat)
    requires a == q * b + r && r < b
    ensures Quotient(a, b) == q
    decreases q
  {
    if q > 0 {
      Distribute(1, q - 1, b);
      QuotientUnique(a - b, b, q - 1, r);
    }
  }

  lemma QuotientIsDivision(a: nat, b: nat)
    requires b > 0
    ensures Quotient(a, b) == a / b
  {
    QuotientUnique(a, b, a / b, a % b);
  }

  /** a == q * b + r with r < b fixes the built-in quotient and remainder. */
  lemma DivModUnique(a: nat, b: nat, q: nat, r: nat)
    requires a == q * b + r && r < b
    ensures a / b == q && a % b == r
  {
    QuotientUnique(a, b, q, r);
    QuotientIsDivision(a, b);
  }

  lemma QuotientBetween(a: nat, b: nat, q: nat)
    requires b > 0 && q * b <= a < (q + 1) * b
    ensures Quotient(a, b) == q
  {
    Distribute(q, 1, b);
    QuotientUnique(a, b, q, a - q * b);
  }

  lemma {:induction false} ShrIsQuotient(x: nat, s: nat)
    ensures Shr(x, s) == Quotient(x, Pow2(s))
  {
    if s == 0 {
      QuotientUnique(x, 1, x, 0);
    } else {
      ShrIsQuotient(x / 2, s - 1);
      QuotQuot(x, 2, x / 2, x % 2, Pow2(s - 1));
    }
  }

  /** Dividing by b and then by c divides by b * c. */
  lemma QuotQuot(a: nat, b: nat, h: nat, r: nat, c: nat)
    requires a == h * b + r && r < b && c > 0
    ensures b * c > 0 && Quotient(h, c) == Quotient(a, b * c)
  {
    var s := QuotRem(h, c);
    var q := Quotient(h, c);
    MulStrict(0, b, c);
    Distribute(q * c, s, b);
    Associate(q, c, b);
    CommuteMul(c, b);
    MulMono(s, c - 1, b);
    Distribute(c, -1, b);
    QuotientUnique(a, b * c, q, s * b + r);
  }

  // ---- the packed multiplier

  /** Power-of-two facts about the shift amount l = Fls(div - 1). */
  lemma {:induction false} ShiftFacts(div: nat)
    requires 1 <= div < TWO32
    ensures Fls(div - 1) <= 32
    ensures div <= Pow2(Fls(div - 1)) < 2 * div
  {
    assert Pow2(8) == 256;
    assert Pow2(16) == 65536;
    assert Pow2(24) == 0x100_0000;
    assert Pow2(32) == TWO32;
    FlsBound(div - 1, 32);
  }

  lemma ScaledFractionFits(c: nat, div: nat)
    requires c < div < TWO32
    ensures Quotient(TWO32 * c, div) < TWO32 - 1
  {
    var q := Quotient(TWO32 * c, div);
    var r := QuotRem(TWO32 * c, div);
    if q >= TWO32 - 1 {
      MulMono(TWO32 - 1, q, div);
      assert false;
    }
  }

  /** The packed multiplier fits in 32 bits, and the 64-bit product it is built from does not overflow. */
  lemma MultiplierFits(div: nat)
    requires 1 <= div < TWO32
    ensures TWO32 * (Pow2(Fls(div - 1)) - div) < TWO64
    ensures 1 <= Multiplier(div) < TWO32
  {
    ShiftFacts(div);
    ScaledFractionFits(Pow2(Fls(div - 1)) - div, div);
  }

  /** The multiplier exceeds 2^32 * p / div by less than what could change a 32-bit quotient. */
  lemma MultiplierError(p: nat, div: nat, m: nat) returns (e: nat)
    requires 1 <= div <= p
    requires m == Quotient(TWO32 * (p - div), div) + 1
    ensures (TWO32 + m) * div == TWO32 * p + e
    ensures 1 <= e <= p
  {
    var q := m - 1;
    var r := QuotRem(TWO32 * (p - div), div);
    e := div - r;
    Distribute(TWO32 + 1, q, div);
    Distribute(TWO32, 1, div);
  }

  lemma UnpackFields(m: nat, s1: nat, s2: nat)
    requires m < TWO32 && s1 <= 1 && s2 < 256
    ensures m * TWO32 + s1 * 256 + s2 < TWO64
    ensures (m * TWO32 + s1 * 256 + s2) / TWO32 == m
    ensures (m * TWO32 + s1 * 256 + s2) % 65536 / 256 == s1
    ensures (m * TWO32 + s1 * 256 + s2) % 256 == s2
  {
    var a, low := m * TWO32 + s1 * 256 + s2, s1 * 256 + s2;
    DivModUnique(a, TWO32, m, low);
    DivModUnique(a, 65536, m * 65536, low);
    DivModUnique(a, 256, m * 0x100_0000 + s1, s2);
    DivModUnique(low, 256, s1, s2);
  }

  /** What fast_div32 reads back from divinfo. */
  lemma Unpack(div: nat)
    requires 1 <= div < TWO32
    ensures Init(div) < TWO64 && Fls(div - 1) <= 32 && div <= Pow2(Fls(div - 1)) && Multiplier(div) < TWO32
    ensures Init(div) / TWO32 == Multiplier(div)
    ensures Init(div) % 65536 / 256 == if Fls(div - 1) == 0 then 0 else 1
    ensures Init(div) % 256 == if Fls(div - 1) == 0 then 0 else Fls(div - 1) - 1
  {
    ShiftFacts(div);
    MultiplierFits(div);
    var l := Fls(div - 1);
    UnpackFields(Multiplier(div), if l > 1 then 1 else l, if l == 0 then 0 else l - 1);
  }

  // ---- the quotient

  /** d * (v * m) lies between v * n and (v + 1) * n, where m * d == n + e. */
  lemma ScaledProduct(v: nat, d: nat, m: nat, n: nat, e: nat)
    requires m * d == n + e && v * e < n
    ensures v * n <= v * m * d < (v + 1) * n
  {
    Associate(v, m, d);
    Distribute(n, e, v);
    Distribute(v, 1, n);
  }

  /** a / n is q as soon as a * d is squeezed between q * d * n and (q + 1) * d * n. */
  lemma QuotientBySqueeze(a: nat, d: nat, n: nat, q: nat)
    requires d > 0 && n > 0
    requires q * d * n <= a * d < (q + 1) * d * n
    ensures Quotient(a, n) == q
  {
    Associate(q, d, n);
    Associate(q + 1, d, n);
    if q * n > a {
      MulStrict(a, q * n, d);
      assert false;
    }
    if a >= (q + 1) * n {
      MulMono((q + 1) * n, a, d);
      assert false;
    }
    QuotientBetween(a, n, q);
  }

  /** Rounding up the reciprocal: v * m / (2^32 * p) is the exact quotient. */
  lemma ReciprocalQuotient(v: nat, div: nat, m: nat, p: nat, e: nat)
    requires 1 <= div && v < TWO32 && p >= 1
    requires m * div == TWO32 * p + e && e <= p
    ensures Quotient(v * m, TWO32 * p) == Quotient(v, div)
  {
    var n := TWO32 * p;
    var q := Quotient(v, div);
    var r := QuotRem(v, div);
    assert v * e < n by {
      MulMono(v, TWO32 - 1, e);
    }
    ScaledProduct(v, div, m, n, e);
    Distribute(q, 1, div);
    MulMono(q * div, v, n);
    MulMono(v + 1, (q + 1) * div, n);
    QuotientBySqueeze(v * m, div, n, q);
  }

  /** Half of a 33-bit sum, computed without leaving 32 bits. */
  lemma HighSum(v: nat, m: nat) returns (t: nat, r: nat)
    requires v < TWO32 && m < TWO32
    ensures t == v * m / TWO32 && t <= v
    ensures v * (TWO32 + m) == (v + t) * TWO32 + r && r < TWO32
  {
    var a := v * m;
    t, r := a / TWO32, a % TWO32;
    MulMono(m, TWO32 - 1, v);
    CommuteMul(v, m);
    Distribute(TWO32, m, v);
  }

  /** Shifting v + t right by l in two steps divides v * (2^32 + m) by 2^(32+l). */
  lemma TwoShifts(v: nat, m: nat, l: nat, t: nat, r: nat)
    requires v < TWO32 && l >= 1 && t <= v
    requires v * (TWO32 + m) == (v + t) * TWO32 + r && r < TWO32
    ensures Shr(t + (v - t) / 2, l - 1) == Quotient(v * (TWO32 + m), TWO32 * Pow2(l))
  {
    assert t + (v - t) / 2 == (v + t) / 2;
    assert Shr(v + t, l) == Shr((v + t) / 2, l - 1);
    ShrIsQuotient(v + t, l);
    QuotQuot(v * (TWO32 + m), TWO32, v + t, r, Pow2(l));
  }

  /** No 32-bit step of fast_div32 wraps around. */
  lemma ReadFields(v: nat, divinfo: nat, m: nat, l: nat, t: nat)
    requires v < TWO32 && 1 <= l <= 32 && t <= v && t == v * m / TWO32
    requires divinfo / TWO32 == m && divinfo % 65536 / 256 == 1 && divinfo % 256 == l - 1
    ensures Div(v, divinfo) == Shr(t + (v - t) / 2, l - 1)
  {
    assert HighProduct(v, divinfo) == t % TWO32 == t;
    assert (v - t) % TWO32 == v - t;
    assert Shr(v - t, 1) == (v - t) / 2;
    assert (t + (v - t) / 2) % TWO32 == t + (v - t) / 2;
  }

  lemma UnitDivisor(v: nat, divinfo: nat)
    requires v < TWO32
    requires divinfo / TWO32 == 1 && divinfo % 65536 / 256 == 0 && divinfo % 256 == 0
    ensures Div(v, divinfo) == v
  {
    assert HighProduct(v, divinfo) == 0;
  }

  lemma LargeDivisor(v: nat, div: nat, divinfo: nat, m: nat, l: nat)
    requires v < TWO32 && m < TWO32 && 1 <= l <= 32 && 1 <= div <= Pow2(l)
    requires m == Quotient(TWO32 * (Pow2(l) - div), div) + 1
    requires divinfo / TWO32 == m && divinfo % 65536 / 256 == 1 && divinfo % 256 == l - 1
    ensures Div(v, divinfo) == Quotient(v, div)
  {
    var e := MultiplierError(Pow2(l), div, m);
    var t, r := HighSum(v, m);
    ReadFields(v, divinfo, m, l, t);
    TwoShifts(v, m, l, t, r);
    ReciprocalQuotient(v, div, TWO32 + m, Pow2(l), e);
  }

  lemma AnyDivisor(v: nat, div: nat, divinfo: nat, m: nat, l: nat)
    requires v < TWO32 && m < TWO32 && l <= 32 && 1 <= div <= Pow2(l)
    requires m == Quotient(TWO32 * (Pow2(l) - div), div) + 1
    requires divinfo / TWO32 == m && divinfo % 65536 / 256 == (if l == 0 then 0 else 1)
    requires divinfo % 256 == if l == 0 then 0 else l - 1
    ensures Div(v, divinfo) == Quotient(v, div)
  {
    if l == 0 {
      UnitDivisor(v, divinfo);
      QuotientUnique(v, 1, v, 0);
    } else {
      LargeDivisor(v, div, divinfo, m, l);
    }
  }

  lemma DivIsQuotient(v: nat, div: nat)
    requires v < TWO32 && 1 <= div < TWO32
    ensures Div(v, Init(div)) == Quotient(v, div)
  {
    Unpack(div);
    AnyDivisor(v, div, Init(div), Multiplier(div), Fls(div - 1));
  }

  /** fast_div32(v, div, fast_div32_init(div)) is the quotient. */
  lemma QuotientCorrect(v: nat, div: nat)
    requires v < TWO32 && 1 <= div < TWO32
    ensures Div(v, Init(div)) == v / div
  {
    DivIsQuotient(v, div);
    QuotientIsDivision(v, div);
  }

  lemma WrapsBack(v: nat, div: nat, q: nat, r: nat)
    requires v < TWO32 && v == q * div + r && r < div
    ensures (v - div * q) % TWO32 == r && v % div == r
  {
    CommuteMul(q, div);
    MulMono(0, q, div);
    DivModUnique(v, div, q, r);
  }

  lemma RemainderOf(v: nat, div: nat) returns (r: nat)
    requires v < TWO32 && 1 <= div < TWO32
    ensures v == Quotient(v, div) * div + r && r < div
    ensures Rem(v, div, Init(div)) == r == v % div
  {
    DivIsQuotient(v, div);
    r := QuotRem(v, div);
    WrapsBack(v, div, Quotient(v, div), r);
  }

  /** fast_rem32(v, div, fast_div32_init(div)) is the remainder, hence below div. */
  lemma RemainderCorrect(v: nat, div: nat)
    requires v < TWO32 && 1 <= div < TWO32
    ensures Rem(v, div, Init(div)) == v % div < div
  {
    var r := RemainderOf(v, div);
  }
}
