/** 64-bit division built from the 32-bit divide instruction. */
module LongDivision {
  import opened Common

  type U64 = x: int | 0 <= x < 0x1_0000_0000_0000_0000
  type S64 = x: int | -0x8000_0000_0000_0000 <= x < 0x8000_0000_0000_0000

  const S64_MIN: S64 := -0x8000_0000_0000_0000

  /** Conversion to an unsigned type, and two's-complement conversion to a signed one. */
  function ToU32(x: int): U32 { x % 0x1_0000_0000 }
  function ToU64(x: int): U64 { x % 0x1_0000_0000_0000_0000 }
  function ToS32(x: int): Int32 {
    var u := x % 0x1_0000_0000;
    if u < 0x8000_0000 then u else u - 0x1_0000_0000
  }
  function ToS64(x: int): S64 {
    var u := x % 0x1_0000_0000_0000_0000;
    if u < 0x8000_0000_0000_0000 then u else u - 0x1_0000_0000_0000_0000
  }

  function Pow2(n: nat): (r: nat)
    ensures r > 0
  {
    if n == 0 then 1 else 2 * Pow2(n - 1)
  }

  function Abs(x: int): nat { if x < 0 then -x else x }

  /** Quotient and remainder of division truncated toward zero. */
  function TruncDiv(n: int, d: int): int
    requires d != 0
  {
    if (n < 0) == (d < 0) then Abs(n) / Abs(d) else -(Abs(n) / Abs(d))
  }

  function TruncMod(n: int, d: int): int
    requires d != 0
  {
    n - d * TruncDiv(n, d)
  }

  // ---------- arithmetic ----------

  lemma MulAssoc(a: int, b: int, c: int)
    ensures a * (b * c) == a * b * c
  {
  }

  lemma {:induction false} Pow2Add(m: nat, n: nat)
    ensures Pow2(m + n) == Pow2(m) * Pow2(n)
  {
    if n > 0 {
      Pow2Add(m, n - 1);
      assert Pow2(m + n) == 2 * Pow2(m + (n - 1));
    }
  }

  lemma Pow2Values()
    ensures Pow2(1) == 2 && Pow2(2) == 4 && Pow2(4) == 0x10 && Pow2(8) == 0x100 && Pow2(16) == 0x1_0000
    ensures Pow2(31) == 0x8000_0000 && Pow2(32) == 0x1_0000_0000
  {
    assert Pow2(0) == 1 && Pow2(1) == 2;
    Pow2Add(1, 1);
    Pow2Add(2, 2);
    Pow2Add(4, 4);
    Pow2Add(8, 8);
    Pow2Add(16, 16);
    assert Pow2(32) == 2 * Pow2(31);
  }

  /** q is at least k as soon as k * d fits, and below k as soon as it does not. */
  lemma DivBounds(n: int, d: int, k: int)
    requires d > 0
    ensures k * d <= n <==> k <= n / d
  {
    var q := n / d;
    assert n == q * d + n % d;
    if k <= q {
      MulLe(k, q, d);
    } else {
      MulLe(q + 1, k, d);
      assert (q + 1) * d == q * d + d;
    }
  }

  lemma DivUnique(a: int, m: int, y: int, r: int)
    requires m > 0 && a == y * m + r && 0 <= r < m
    ensures a / m == y && a % m == r
  {
    DivBounds(a, m, y);
    DivBounds(a, m, y + 1);
    assert (y + 1) * m == y * m + m;
  }

  lemma DivDiv(a: nat, b: nat, c: nat)
    requires b > 0 && c > 0
    ensures b * c > 0 && (a / b) / c == a / (b * c)
  {
    assert b * c > 0;
    var q := (a / b) / c;
    DivBounds(a / b, c, q);
    DivBounds(a / b, c, q + 1);
    DivBounds(a, b, q * c);
    DivBounds(a, b, (q + 1) * c);
    DivBounds(a, b * c, q);
    DivBounds(a, b * c, q + 1);
    MulAssoc(q, c, b);
    MulAssoc(q + 1, c, b);
    assert c * b == b * c;
  }

  // ---------- the instruction and nlz ----------

  /** DIVL, which traps unless the quotient fits in 32 bits. */
  function Divl(n: U64, d: U32): U32
    requires d != 0 && n / d < 0x1_0000_0000
  {
    n / d
  }

  /** `x` is `x0` shifted left by `n` bits, none of them lost. */
  ghost predicate IsShift(x0: int, n: nat, x: int) {
    x == x0 * Pow2(n)
  }

  lemma Shift(x0: int, x: int, n: nat, k: nat, factor: nat)
    requires IsShift(x0, n, x) && factor == Pow2(k)
    ensures IsShift(x0, n + k, x * factor)
  {
    Pow2Add(n, k);
    MulAssoc(x0, Pow2(n), Pow2(k));
  }

  /** Counts the leading zero bits: shifting by `n` sets the top bit and loses none. */
  method Nlz(x0: U32) returns (n: int)
    requires x0 != 0
    ensures 0 <= n <= 31
    ensures 0x8000_0000 <= x0 * Pow2(n) < 0x1_0000_0000
  {
    hide IsShift, Pow2, ToU32;
    var x := x0;
    n := 0;
    ShiftZero(x0);
    Pow2Values();
    if x <= 0x0000_FFFF {
      Shift(x0, x, n, 16, 0x1_0000);
      n := n + 16;
      U32Id(x * 0x1_0000);
      x := ToU32(x * 0x1_0000);
    }
    assert IsShift(x0, n, x) && x < 0x1_0000_0000 && n <= 16 && x > 0xFFFF;
    if x <= 0x00FF_FFFF {
      Shift(x0, x, n, 8, 0x100);
      n := n + 8;
      U32Id(x * 0x100);
      x := ToU32(x * 0x100);
    }
    assert IsShift(x0, n, x) && x < 0x1_0000_0000 && n <= 24 && x > 0xFF_FFFF;
    if x <= 0x0FFF_FFFF {
      Shift(x0, x, n, 4, 0x10);
      n := n + 4;
      U32Id(x * 0x10);
      x := ToU32(x * 0x10);
    }
    assert IsShift(x0, n, x) && x < 0x1_0000_0000 && n <= 28 && x > 0xFFF_FFFF;
    if x <= 0x3FFF_FFFF {
      Shift(x0, x, n, 2, 4);
      n := n + 2;
      U32Id(x * 4);
      x := ToU32(x * 4);
    }
    assert IsShift(x0, n, x) && x < 0x1_0000_0000 && n <= 30 && x > 0x3FFF_FFFF;
    if x <= 0x7FFF_FFFF {
      Shift(x0, x, n, 1, 2);
      n := n + 1;
      ShiftDone(x0, x * 2, n);
    } else {
      ShiftDone(x0, x, n);
    }
  }

  lemma U32Id(x: int)
    requires 0 <= x < 0x1_0000_0000
    ensures ToU32(x) == x
  {
  }

  lemma ShiftZero(x0: int)
    ensures IsShift(x0, 0, x0)
  {
  }

  lemma ShiftDone(x0: int, x: int, n: nat)
    requires IsShift(x0, n, x) && 0x8000_0000 <= x < 0x1_0000_0000
    ensures 0x8000_0000 <= x0 * Pow2(n) < 0x1_0000_0000
  {
  }

  // ---------- the large-divisor estimate ----------

  /** The scaling 2^s * 2^(31 - s) of the shifts by `s` and by `31 - s`. */
  lemma Scaling(s: nat)
    requires s <= 31
    ensures Pow2(s) * Pow2(31 - s) == 0x8000_0000
  {
    Pow2Add(s, 31 - s);
    Pow2Values();
  }

  /** The normalised divisor `v` satisfies 0 <= d - 2vR < 2R. */
  lemma Normalise(d: nat, P: nat, R: nat, v: int)
    requires P > 0 && R > 0 && P * R == 0x8000_0000 && v == d * P / 0x1_0000_0000
    ensures 0 <= d - 2 * (v * R) < 2 * R
  {
    var e := d - 2 * (v * R);
    assert e * P == d * P - v * 0x1_0000_0000 by {
      assert v * R * P == v * (P * R) by { MulAssoc(v, R, P); assert R * P == P * R; }
      assert (d - 2 * (v * R)) * P == d * P - 2 * (v * R * P);
    }
    assert 0 <= e * P < 0x1_0000_0000;
    assert 2 * R * P == 0x1_0000_0000;
    if e <= -1 {
      MulLe(e, -1, P);
    } else if e >= 2 * R {
      MulLe(2 * R, e, P);
    }
  }

  lemma {:induction false} LowerBound(n: int, d: int, D: int)
    requires 0 < D <= d && n >= 0
    ensures n / D >= n / d
  {
    var k := n / d;
    DivBounds(n, d, k);
    DivBounds(n, d, 0);
    MulLe(D, d, k);
    assert D * k == k * D && d * k == k * d;
    DivBounds(n, D, k);
  }

  lemma UpperBound(n: int, d: int, D: int)
    requires 0 < D && 0 < d && (n / d + 1) * (d - D) <= D
    ensures n / D <= n / d + 1
  {
    var k := n / d;
    DivBounds(n, d, k + 1);
    assert (k + 1) * d == (k + 1) * D + (k + 1) * (d - D);
    assert (k + 2) * D == (k + 1) * D + D;
    DivBounds(n, D, k + 2);
  }

  lemma SmallQuotient(n: nat, d: nat, P: nat)
    requires n < 0x1_0000_0000_0000_0000 && d > 0 && d * P >= 0x8000_0000_0000_0000
    ensures n / d + 1 <= 2 * P
  {
    assert 2 * P * d == 2 * (d * P);
    DivBounds(n, d, 2 * P);
  }

  lemma CorrectionFits(k: nat, e: nat, v: nat, P: nat, R: nat)
    requires P > 0 && R > 0 && P * R == 0x8000_0000 && v >= 0x8000_0000 && k + 1 <= 2 * P
    requires e < 2 * R
    ensures (k + 1) * e <= 2 * (v * R)
  {
    MulLe(k + 1, 2 * P, e);
    MulLe(0x8000_0000, v, R);
    if R == 1 {
      MulLe(e, 1, 2 * P);
      assert 2 * P * e == e * (2 * P);
    } else {
      MulLe(e, 2 * R, 2 * P);
      assert 2 * P * e == e * (2 * P);
      assert 2 * R * (2 * P) == 4 * (P * R);
    }
  }

  /** The Hacker's Delight bound: the estimate is the quotient or one more. */
  lemma Estimate(n: U64, d: U64, s: nat, v: int)
    requires 0 < d <= n && s <= 31 && v == d * Pow2(s) / 0x1_0000_0000 && v >= 0x8000_0000
    ensures n / d <= n / 2 / v / Pow2(31 - s) <= n / d + 1
  {
    hide Pow2;
    var P, R := Pow2(s), Pow2(31 - s);
    Scaling(s);
    EstimateScaled(n, d, P, R, v);
  }

  lemma EstimateScaled(n: U64, d: U64, P: nat, R: nat, v: int)
    requires P > 0 && R > 0 && P * R == 0x8000_0000
    requires 0 < d <= n && v == d * P / 0x1_0000_0000 && v >= 0x8000_0000
    ensures n / d <= n / 2 / v / R <= n / d + 1
  {
    var D := 2 * (v * R);
    MulLe(0x8000_0000, v, R);
    Normalise(d, P, R, v);
    DivDiv(n, 2, v);
    DivDiv(n, 2 * v, R);
    assert 2 * v * R == D;
    LowerBound(n, d, D);
    DivBounds(d * P, 0x1_0000_0000, v);
    SmallQuotient(n, d, P);
    DivBounds(n, d, 0);
    CorrectionFits(n / d, d - D, v, P, R);
    UpperBound(n, d, D);
  }

  // ---------- the routines ----------

  lemma SchoolDivision(n: nat, d: nat, n1: nat, n0: nat)
    requires 0 < d < 0x1_0000_0000 && n == 0x1_0000_0000 * n1 + n0 && n0 < 0x1_0000_0000
    ensures var m := 0x1_0000_0000 * (n1 % d) + n0;
      m / d < 0x1_0000_0000 && n / d == m / d + 0x1_0000_0000 * (n1 / d)
  {
    var t, u := n1 % d, n1 / d;
    var m := 0x1_0000_0000 * t + n0;
    assert n1 == u * d + t;
    assert n == 0x1_0000_0000 * (u * d) + m;
    assert 0x1_0000_0000 * u * d == 0x1_0000_0000 * (u * d);
    var y := m / d;
    assert m == y * d + m % d;
    assert (y + 0x1_0000_0000 * u) * d == y * d + 0x1_0000_0000 * u * d;
    DivUnique(n, d, y + 0x1_0000_0000 * u, m % d);
    DivBounds(m, d, 0x1_0000_0000);
  }

  lemma PowDivides(s: nat, d1: int)
    requires s <= 31 && 0 < d1 && d1 * Pow2(s) < 0x1_0000_0000
    ensures (d1 + 1) * Pow2(s) <= 0x1_0000_0000
  {
    hide Pow2;
    var P, Q := Pow2(s), Pow2(32 - s);
    Pow2Add(s, 32 - s);
    Pow2Values();
    assert Q * P == P * Q == 0x1_0000_0000;
    if d1 >= Q {
      MulLe(Q, d1, P);
    }
    MulLe(d1 + 1, Q, P);
  }

  /** Shifting by the leading zeros of the high word loses no bit and sets the top one. */
  lemma ShiftedDivisor(d: U64, d1: int, s: nat)
    requires s <= 31 && d1 == d / 0x1_0000_0000 && 0x8000_0000 <= d1 * Pow2(s) < 0x1_0000_0000 && d1 > 0
    ensures d * Pow2(s) < 0x1_0000_0000_0000_0000 && 0x8000_0000 <= d * Pow2(s) / 0x1_0000_0000 < 0x1_0000_0000
  {
    hide Pow2;
    var P := Pow2(s);
    PowDivides(s, d1);
    MulLe(d, 0x1_0000_0000 * (d1 + 1) - 1, P);
    assert (0x1_0000_0000 * (d1 + 1) - 1) * P == 0x1_0000_0000 * ((d1 + 1) * P) - P;
    MulLe(0x1_0000_0000 * d1, d, P);
    assert 0x1_0000_0000 * d1 * P == 0x1_0000_0000 * (d1 * P);
  }

  /** The final comparison turns the estimate into the quotient, without wrapping. */
  lemma Correct(n: U64, d: U64, e: int)
    requires 0 < d <= n && n / d <= e <= n / d + 1
    ensures e >= 1 && 0 <= (e - 1) * d <= n
    ensures n - (e - 1) * d < d <==> e == n / d + 1
  {
    var k := n / d;
    DivBounds(n, d, 1);
    DivBounds(n, d, e - 1);
    DivBounds(n, d, e);
    assert e * d == (e - 1) * d + d;
    MulLe(0, e - 1, d);
  }

  method Udiv64(n: U64, d: U64) returns (q: U64)
    requires d != 0
    ensures q == n / d
  {
    hide Pow2;
    if d / 0x1_0000_0000 == 0 {
      var n1: U32, n0: U32, d0: U32 := n / 0x1_0000_0000, n % 0x1_0000_0000, d;
      SchoolDivision(n, d0, n1, n0);
      QuotientRange(n, d);
      q := ToU64(Divl(0x1_0000_0000 * (n1 % d0) + n0, d0) + 0x1_0000_0000 * (n1 / d0));
    } else if n < d {
      DivUnique(n, d, 0, n);
      q := 0;
    } else {
      q := Udiv64Large(n, d);
    }
  }

  /** The branch for a divisor of more than 32 bits. */
  method Udiv64Large(n: U64, d: U64) returns (q: U64)
    requires 0x1_0000_0000 <= d <= n
    ensures q == n / d
  {
    hide Pow2, ToU64;
    var d1: U32 := d / 0x1_0000_0000;
    var s := Nlz(d1);
    ShiftedDivisor(d, d1, s);
    U64Id(d * Pow2(s));
    var v: U32 := ToU64(d * Pow2(s)) / 0x1_0000_0000;
    DivBounds(n / 2, v, 0x1_0000_0000);
    var t := Divl(n / 2, v);
    LargeQuotient(n, d, s, v);
    var e := t / Pow2(31 - s);
    q := if ToU64(n - ToU64((e - 1) * d)) < d then e - 1 else e;
  }

  lemma LargeQuotient(n: U64, d: U64, s: nat, v: int)
    requires 0 < d <= n && s <= 31 && v == d * Pow2(s) / 0x1_0000_0000 && v >= 0x8000_0000
    ensures var e := n / 2 / v / Pow2(31 - s);
      (if ToU64(n - ToU64((e - 1) * d)) < d then e - 1 else e) == n / d
  {
    hide Pow2, ToU64;
    var e := n / 2 / v / Pow2(31 - s);
    Estimate(n, d, s, v);
    Correct(n, d, e);
    U64Id((e - 1) * d);
    U64Id(n - (e - 1) * d);
  }

  lemma QuotientRange(n: nat, d: nat)
    requires d > 0
    ensures 0 <= n / d <= n && (d >= 2 && n > 0 ==> n / d < n) && (d == 1 ==> n / d == n)
  {
    DivBounds(n, d, 0);
    DivBounds(n, d, n);
    DivBounds(n, d, n + 1);
    MulLe(1, d, n + 1);
    assert d * (n + 1) == (n + 1) * d;
    if d >= 2 {
      MulLe(2, d, n);
      assert d * n == n * d;
    }
  }

  lemma U64Id(x: int)
    requires 0 <= x < 0x1_0000_0000_0000_0000
    ensures ToU64(x) == x
  {
  }

  lemma S64Id(x: int)
    requires -0x8000_0000_0000_0000 <= x < 0x8000_0000_0000_0000
    ensures ToS64(x) == x && ToS64(ToU64(x)) == x
  {
  }

  lemma Remainder(n: nat, d: nat)
    requires d > 0
    ensures 0 <= d * (n / d) <= n && n - d * (n / d) == n % d < d
  {
    DivBounds(n, d, n / d);
    DivBounds(n, d, 0);
    MulLe(0, n / d, d);
    assert d * (n / d) == n / d * d;
  }

  /** The negations in sdiv64 take the absolute value, also of the minimum. */
  lemma Magnitude(n: S64)
    ensures n < 0 ==> ToU64(-(ToU64(n) as int)) == -(n as int)
    ensures n >= 0 ==> ToU64(n) == n
  {
  }

  /** Every remainder fits the 32-bit return type exactly when the divisor is at most 2^32. */
  lemma UnsignedModBoundIsExact(d: U64)
    requires d != 0
    ensures (forall n: U64 :: n % d < 0x1_0000_0000) <==> d <= 0x1_0000_0000
  {
    if d > 0x1_0000_0000 {
      var n: U64 := d - 1;
      DivUnique(n, d, 0, n);
      assert n % d >= 0x1_0000_0000;
    }
  }

  /** The result is the remainder exactly when the remainder fits the 32-bit return type. */
  method Umod64(n: U64, d: U64) returns (r: U32)
    requires d != 0
    ensures r == (n % d) % 0x1_0000_0000
    ensures r == n % d <==> n % d < 0x1_0000_0000
    ensures d <= 0x1_0000_0000 ==> r == n % d
    ensures (forall m: U64 :: m % d < 0x1_0000_0000) <==> d <= 0x1_0000_0000
  {
    hide ToU64;
    UnsignedModBoundIsExact(d);
    var q := Udiv64(n, d);
    Remainder(n, d);
    U64Id(d * q);
    U64Id(n % d);
    r := ToU32(ToU64(n - ToU64(d * q)));
  }

  /** Truncating division, except that the minimum divided by -1 wraps around to itself. */
  method Sdiv64(n: S64, d: S64) returns (q: S64)
    requires d != 0
    ensures q == ToS64(TruncDiv(n, d))
    ensures q == TruncDiv(n, d) <==> !(n == S64_MIN && d == -1)
    ensures n == S64_MIN && d == -1 ==> q == S64_MIN
  {
    hide ToU64, ToS64;
    Magnitude(n);
    Magnitude(d);
    var nAbs := if n >= 0 then ToU64(n) else ToU64(-(ToU64(n) as int));
    var dAbs := if d >= 0 then ToU64(d) else ToU64(-(ToU64(d) as int));
    var qAbs := Udiv64(nAbs, dAbs);
    QuotientRange(nAbs, dAbs);
    SignedQuotient(n, d, qAbs);
    q := if (n < 0) == (d < 0) then ToS64(qAbs) else ToS64(-(ToS64(qAbs) as int));
  }

  lemma SignedQuotient(n: S64, d: S64, q: int)
    requires d != 0 && q == Abs(n) / Abs(d)
    ensures (if (n < 0) == (d < 0) then ToS64(q) else ToS64(-(ToS64(q) as int))) == ToS64(TruncDiv(n, d))
    ensures ToS64(TruncDiv(n, d)) == TruncDiv(n, d) <==> !(n == S64_MIN && d == -1)
    ensures n == S64_MIN && d == -1 ==> ToS64(TruncDiv(n, d)) == S64_MIN
  {
    hide ToS64;
    QuotientRange(Abs(n), Abs(d));
    NegateWord(q);
    assert TruncDiv(n, d) == if (n < 0) == (d < 0) then q else -q;
    if n == S64_MIN && d == -1 {
      MinWord();
    } else {
      S64Id(TruncDiv(n, d));
    }
  }

  lemma NegateWord(q: int)
    requires 0 <= q <= 0x8000_0000_0000_0000
    ensures ToS64(-(ToS64(q) as int)) == ToS64(-q)
  {
  }

  lemma MinWord()
    ensures ToS64(0x8000_0000_0000_0000) == S64_MIN
  {
  }

  /** The remainder is smaller than the divisor and has the sign of the dividend. */
  lemma RemainderRange(n: int, d: int)
    requires d != 0
    ensures Abs(TruncMod(n, d)) == Abs(n) % Abs(d) < Abs(d)
    ensures TruncMod(n, d) == 0 || (TruncMod(n, d) < 0 <==> n < 0)
    ensures Abs(d * TruncDiv(n, d)) <= Abs(n)
    ensures d * TruncDiv(n, d) == 0 || (d * TruncDiv(n, d) < 0 <==> n < 0)
  {
    var a, b := Abs(n), Abs(d);
    Remainder(a, b);
    SignedProduct(n, d, a / b);
  }

  lemma SignedProduct(n: int, d: int, q: int)
    requires d != 0 && q >= 0
    ensures d * (if (n < 0) == (d < 0) then q else -q) == if n < 0 then -(Abs(d) * q) else Abs(d) * q
  {
    assert (-d) * q == -(d * q) && d * (-q) == -(d * q);
  }

  /** C's remainder, as long as it fits the 32-bit return type. */
  method Smod64(n: S64, d: S64) returns (r: Int32)
    requires d != 0
    ensures r == ToS32(TruncMod(n, d))
    ensures r == TruncMod(n, d) <==> -0x8000_0000 <= TruncMod(n, d) < 0x8000_0000
    ensures Abs(d) <= 0x8000_0000 ==> r == TruncMod(n, d)
  {
    hide ToS64;
    var q := Sdiv64(n, d);
    RemainderRange(n, d);
    WrappedRemainder(n, d, q);
    r := ToS32(ToS64(n - ToS64(d * q)));
  }

  /** The 64-bit remainder is right even in the one case in which the quotient is not. */
  lemma WrappedRemainder(n: S64, d: S64, q: S64)
    requires d != 0 && q == ToS64(TruncDiv(n, d))
    requires q == TruncDiv(n, d) <==> !(n == S64_MIN && d == -1)
    requires n == S64_MIN && d == -1 ==> q == S64_MIN
    ensures ToS64(n - ToS64(d * q)) == TruncMod(n, d)
  {
    RemainderRange(n, d);
    if n == S64_MIN && d == -1 {
      QuotientRange(Abs(n), 1);
    } else {
      S64Id(d * TruncDiv(n, d));
      S64Id(TruncMod(n, d));
    }
  }

  /** The bounds on the divisor are exact: any larger one has a dividend that does not fit. */
  lemma ModBoundsAreExact(d: S64)
    requires d != 0
    ensures (forall n: S64 :: -0x8000_0000 <= TruncMod(n, d) < 0x8000_0000) <==> Abs(d) <= 0x8000_0000
  {
    forall n: S64 | Abs(d) <= 0x8000_0000 ensures -0x8000_0000 <= TruncMod(n, d) < 0x8000_0000 {
      RemainderRange(n, d);
    }
    if Abs(d) > 0x8000_0000 {
      var n: S64 := Abs(d) - 1;
      RemainderRange(n, d);
      DivUnique(n, Abs(d), 0, n);
      assert TruncMod(n, d) >= 0x8000_0000;
    }
  }
}
