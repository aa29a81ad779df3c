/** 64-bit division built from the processor's division of 64 bits by 32 bits.

    Machine words are integers in their range; every C operation that can wrap is written with
    the modulus it wraps at. */
module Arithmetic {
  const B31 := 0x8000_0000
  const B32 := 0x1_0000_0000
  const B63 := 0x8000_0000_0000_0000
  const B64 := 0x1_0000_0000_0000_0000

  type Word32 = x: int | 0 <= x < 0x1_0000_0000
  type Word64 = x: int | 0 <= x < 0x1_0000_0000_0000_0000
  type Int64 = x: int | -0x8000_0000_0000_0000 <= x < 0x8000_0000_0000_0000

  function Pow2(k: nat): (p: nat)
    ensures p > 0
  {
    if k == 0 then 1 else 2 * Pow2(k - 1)
  }

  /** The divl instruction traps unless the quotient fits 32 bits. */
  predicate NoTrap(n: Word64, d: int) {
    0 < d < B32 && n / d < B32
  }

  function Divl(n: Word64, d: int): (q: Word32)
    requires NoTrap(n, d)
  {
    n / d
  }

  /** The number of zero bits above the highest one bit of a 32-bit word. */
  function LeadingZeros(x: Word32): (s: nat)
    requires x != 0
    decreases B31 - x
  {
    if x >= B31 then 0 else 1 + LeadingZeros(2 * x)
  }

  lemma {:induction false} LeadingZerosNormalize(x: Word32)
    requires x != 0
    ensures B31 <= x * Pow2(LeadingZeros(x)) < B32
    decreases B31 - x
  {
    if x < B31 {
      LeadingZerosNormalize(2 * x);
      assert x * (2 * Pow2(LeadingZeros(2 * x))) == 2 * x * Pow2(LeadingZeros(2 * x));
    }
  }

  lemma {:induction false} LeadingZerosShift(x: Word32, k: nat)
    requires x != 0 && x * Pow2(k) < B32
    ensures x * Pow2(k) != 0 && LeadingZeros(x) == k + LeadingZeros(x * Pow2(k))
    decreases k
  {
    if k > 0 {
      var y := x * Pow2(k - 1);
      MulAssoc(x, 2, Pow2(k - 1));
      LeadingZerosShift(x, k - 1);
    }
  }

  lemma MulAssoc(a: int, b: int, c: int)
    ensures a * (b * c) == b * (a * c) == a * b * c
  {
  }

  lemma ShiftStep(x: Word32, k: nat, m: nat)
    requires x != 0 && m == Pow2(k) && x <= (B32 - 1) / m
    ensures 0 < x * m < B32 && x * m % B32 == x * m
    ensures LeadingZeros(x) == k + LeadingZeros(x * m % B32)
  {
    MulLe(x, (B32 - 1) / m, m);
    QuotientBound(B32 - 1, m);
    LeadingZerosShift(x, k);
  }

  lemma SmallPowers()
    ensures Pow2(1) == 2 && Pow2(2) == 4 && Pow2(4) == 16 && Pow2(8) == 0x100 && Pow2(16) == 0x10000
  {
    assert Pow2(6) == 64 && Pow2(10) == 4 * Pow2(8) && Pow2(12) == 4 * Pow2(10) && Pow2(14) == 4 * Pow2(12);
  }

  /** Halving the range of the unknown bits: 16, 8, 4, 2 and 1. */
  method Nlz(x0: Word32) returns (n: nat)
    requires x0 != 0
    ensures n == LeadingZeros(x0)
  {
    SmallPowers();
    hide Pow2;
    hide LeadingZeros;
    var x: Word32 := x0;
    n := 0;
    if x <= 0x0000FFFF {
      ShiftStep(x, 16, 0x10000);
      n, x := n + 16, x * 0x10000 % B32;
    }
    assert x != 0 && LeadingZeros(x0) == n + LeadingZeros(x);
    if x <= 0x00FFFFFF {
      ShiftStep(x, 8, 0x100);
      n, x := n + 8, x * 0x100 % B32;
    }
    assert x != 0 && LeadingZeros(x0) == n + LeadingZeros(x);
    if x <= 0x0FFFFFFF {
      ShiftStep(x, 4, 16);
      n, x := n + 4, x * 16 % B32;
    }
    assert x != 0 && LeadingZeros(x0) == n + LeadingZeros(x);
    if x <= 0x3FFFFFFF {
      ShiftStep(x, 2, 4);
      n, x := n + 2, x * 4 % B32;
    }
    assert x != 0 && LeadingZeros(x0) == n + LeadingZeros(x);
    if x <= 0x7FFFFFFF {
      ShiftStep(x, 1, 2);
      n := n + 1;
      TopBit(2 * x);
    } else {
      TopBit(x);
    }
  }

  lemma TopBit(x: Word32)
    requires x >= B31
    ensures LeadingZeros(x) == 0
  {
  }

  // ---------------------------------------------------------------- facts about division

  lemma QuotientUnique(n: int, d: int, q: int)
    requires d > 0 && q * d <= n < (q + 1) * d
    ensures n / d == q
  {
    var r := n - q * d;
    assert n == q * d + r && 0 <= r < d;
    if n / d < q {
      MulLe(n / d + 1, q, d);
    } else if n / d > q {
      MulLe(q + 1, n / d, d);
    }
  }

  lemma MulLe(a: int, b: int, k: int)
    requires a <= b && k >= 0
    ensures a * k <= b * k
  {
  }

  lemma QuotientBound(n: int, d: int)
    requires d > 0
    ensures n / d * d <= n < (n / d + 1) * d
  {
    assert n == n / d * d + n % d;
  }

  lemma QuotientBelow(n: int, d: int, k: int)
    requires d > 0 && n < k * d
    ensures n / d < k
  {
    QuotientBound(n, d);
    if n / d >= k {
      MulLe(k, n / d, d);
    }
  }

  /** Dividing twice is dividing by the product. */
  lemma DivDiv(n: int, a: int, b: int)
    requires n >= 0 && a > 0 && b > 0
    ensures a * b > 0 && n / a / b == n / (a * b)
  {
    var q := n / a / b;
    assert a * b > 0;
    QuotientBound(n, a);
    QuotientBound(n / a, b);
    assert q * (a * b) == q * b * a;
    MulLe(q * b, n / a, a);
    assert n / a + 1 <= (q + 1) * b;
    MulLe(n / a + 1, (q + 1) * b, a);
    assert (q + 1) * b * a == (q + 1) * (a * b);
    QuotientUnique(n, a * b, q);
  }

  // ---------------------------------------------------------------- unsigned division

  /** The divisor fits 32 bits: two long-division steps in base 2^32. */
  function DivSmall(n: Word64, d: Word64): (q: Word64)
    requires 0 < d < B32
  {
    var n1, n0 := n / B32, n % B32;
    SmallSteps(n, d);
    (Divl(B32 * (n1 % d) + n0, d) + B32 * (n1 / d)) % B64
  }

  /** The low digit of the dividend with what the high digit's division left over. */
  function LowDividend(n: Word64, d: Word64): (m: int)
    requires d != 0
  {
    B32 * (n / B32 % d) + n % B32
  }

  lemma SmallSteps(n: Word64, d: Word64)
    requires 0 < d < B32
    ensures 0 <= LowDividend(n, d) < B64 && NoTrap(LowDividend(n, d), d)
  {
    var m := LowDividend(n, d);
    assert 0 <= n / B32 % d <= d - 1;
    assert 0 <= m < B32 * d;
    QuotientBelow(m, d, B32);
  }

  lemma SmallExact(n: Word64, d: Word64)
    requires 0 < d < B32
    ensures DivSmall(n, d) == n / d
  {
    SmallSteps(n, d);
    var n1 := n / B32;
    var m, t := LowDividend(n, d), B32 * (n1 / d);
    QuotientBound(m, d);
    assert n == m + t * d by {
      assert n1 == n1 / d * d + n1 % d;
      MulAssoc(B32, n1 / d, d);
    }
    AddMultiple(m / d, t, d, m, n);
    QuotientSmaller(n, d);
  }

  lemma AddMultiple(q: int, t: int, d: int, m: int, n: int)
    requires d > 0 && q * d <= m < (q + 1) * d && n == m + t * d
    ensures n / d == q + t
  {
    assert (q + t) * d == q * d + t * d;
    assert (q + t + 1) * d == (q + 1) * d + t * d;
    QuotientUnique(n, d, q + t);
  }

  /** The divisor's upper half is not zero: normalize, estimate, correct by one. */
  function Estimate(n: Word64, d: Word64): (q: Word64)
    requires B32 <= d <= n
  {
    EstimateSafe(n, d);
    Divl(n / 2, TopHalf(d)) / Unshift(d)
  }

  /** The upper half of the divisor shifted up until its top bit is set. */
  function TopHalf(d: Word64): (v: int)
    requires B32 <= d
  {
    d * Pow2(LeadingZeros(d / B32)) % B64 / B32
  }

  /** The power of two the quotient is shifted back by. */
  function Unshift(d: Word64): (y: nat)
    requires B32 <= d
    ensures y > 0
  {
    LeadingZerosBelow32(d / B32);
    Pow2(31 - LeadingZeros(d / B32))
  }

  lemma {:induction false} LeadingZerosBelow32(x: Word32)
    requires x != 0
    ensures LeadingZeros(x) <= 31
  {
    LeadingZerosNormalize(x);
    if LeadingZeros(x) >= 32 {
      PowMonotone(32, LeadingZeros(x));
      Pow32();
      MulLe(1, x, Pow2(LeadingZeros(x)));
    }
  }

  lemma Pow32()
    ensures Pow2(31) == B31 && Pow2(32) == B32
  {
    assert Pow2(8) == 0x100 by { assert Pow2(4) == 16; }
    PowAdd(8, 8);
    PowAdd(16, 16);
  }

  lemma {:induction false} PowAdd(a: nat, b: nat)
    ensures Pow2(a + b) == Pow2(a) * Pow2(b)
    decreases a
  {
    if a > 0 {
      PowAdd(a - 1, b);
      MulAssoc(2, Pow2(a - 1), Pow2(b));
    }
  }

  lemma {:induction false} PowMonotone(a: nat, b: nat)
    requires a <= b
    ensures Pow2(a) <= Pow2(b)
    decreases b - a
  {
    if a < b {
      PowMonotone(a, b - 1);
    }
  }

  /** The normalized divisor: its upper half `v` is at least 2^31, and `v` shifted back is below
      `d` by less than 2^(32-s). */
  lemma Normalized(d: Word64)
    requires B32 <= d
    ensures var s := LeadingZeros(d / B32);
            && s <= 31 && 0 <= d * Pow2(s) < B64
            && var v := d * Pow2(s) / B32;
               var x := 2 * Pow2(31 - s);
               B31 <= v < B32 && v * x <= d < v * x + x
  {
    var d1 := d / B32;
    var s := LeadingZeros(d1);
    LeadingZerosNormalize(d1);
    LeadingZerosBelow32(d1);
    ShiftFactors(s);
    hide Pow2;
    hide LeadingZeros;
    WholeWord(d1, Pow2(s), s);
    Shifted(d, d1, Pow2(s));
    QuotientBound(d * Pow2(s), B32);
    ShiftBack(d, d * Pow2(s) / B32, 2 * Pow2(31 - s), Pow2(s));
  }

  lemma ShiftFactors(s: nat)
    requires s <= 31
    ensures 2 * Pow2(31 - s) * Pow2(s) == B32
  {
    PowAdd(31 - s, s);
    Pow32();
    hide Pow2;
    MulAssoc(2, Pow2(31 - s), Pow2(s));
  }

  lemma Shifted(d: Word64, d1: int, p: int)
    requires d1 == d / B32 && p > 0 && B31 <= d1 * p && (d1 + 1) * p <= B32
    ensures B31 * B32 <= d * p < B64
    ensures B31 <= d * p / B32 < B32
  {
    MulLe(d1 * B32, d, p);
    MulLe(d + 1, (d1 + 1) * B32, p);
    MulAssoc(d1, B32, p);
    MulAssoc(d1 + 1, B32, p);
    assert (d + 1) * p == d * p + p;
  }

  /** (d1 + 1) * 2^s is still at most 2^32. */
  lemma WholeWord(d1: int, p: int, s: nat)
    requires s <= 31 && p == Pow2(s) && 0 < d1 && d1 * p < B32
    ensures (d1 + 1) * p <= B32
  {
    PowAdd(32 - s, s);
    Pow32();
    var m := Pow2(32 - s);
    assert d1 * p < m * p;
    if d1 >= m {
      MulLe(m, d1, p);
    }
    MulLe(d1 + 1, m, p);
  }

  lemma ShiftBack(d: int, v: int, x: int, p: int)
    requires p > 0 && x > 0 && x * p == B32 && v * B32 <= d * p < (v + 1) * B32
    ensures v * x <= d < v * x + x
  {
    assert v * B32 == v * x * p;
    assert (v + 1) * B32 == (v * x + x) * p;
    assert (d + 1) * p == d * p + p;
    if d < v * x {
      MulLe(d + 1, v * x, p);
    }
    if d >= v * x + x {
      MulLe(v * x + x, d, p);
    }
  }

  lemma TopHalfIs(d: Word64)
    requires B32 <= d
    ensures B31 <= TopHalf(d) < B32
    ensures TopHalf(d) * (2 * Unshift(d)) <= d < TopHalf(d) * (2 * Unshift(d)) + 2 * Unshift(d)
  {
    hide Pow2;
    hide LeadingZeros;
    Normalized(d);
    BelowModulus(d * Pow2(LeadingZeros(d / B32)), B64);
  }

  lemma BelowModulus(x: int, n: int)
    requires 0 <= x < n
    ensures x % n == x
  {
  }

  lemma EstimateSafe(n: Word64, d: Word64)
    requires B32 <= d
    ensures NoTrap(n / 2, TopHalf(d))
  {
    hide TopHalf;
    hide Unshift;
    TopHalfIs(d);
    TopHalfSafe(n / 2, TopHalf(d));
  }

  lemma TopHalfSafe(n: Word64, v: int)
    requires n < B63 && B31 <= v < B32
    ensures NoTrap(n, v)
  {
    MulLe(B31, v, B32);
    QuotientBelow(n, v, B32);
  }

  lemma EstimateClose(n: Word64, d: Word64)
    requires B32 <= d <= n
    ensures n / d <= Estimate(n, d) <= n / d + 1
  {
    hide TopHalf;
    hide Unshift;
    var v, y := TopHalf(d), Unshift(d);
    EstimateSafe(n, d);
    TopHalfIs(d);
    EstimateQuotient(n, v, y);
    QuotientBound(n, d);
    QuotientBound(n, 2 * (v * y));
    CloseEstimate(n, d, v, y, n / d, n / (2 * (v * y)));
  }

  lemma CloseEstimate(n: Word64, d: int, v: int, y: int, q: int, t: int)
    requires v >= B31 && y > 0 && v * (2 * y) <= d < v * (2 * y) + 2 * y
    requires q * d <= n < (q + 1) * d && t * (2 * (v * y)) <= n < (t + 1) * (2 * (v * y)) && t >= 0
    ensures q <= t <= q + 1
  {
    MulAssoc(v, 2, y);
    MulLe(B31, v, 2 * y);
    CloseQuotients(n, d, v * (2 * y), 2 * y, q, t);
  }

  lemma EstimateQuotient(n: nat, v: nat, y: nat)
    requires v > 0 && y > 0
    ensures v * y > 0 && n / 2 / v / y == n / (2 * (v * y)) >= 0
  {
    DivDiv(n / 2, v, y);
    DivDiv(n, 2, v * y);
  }

  /** Dividing by a little less than `d` gives at most one more. */
  lemma CloseQuotients(n: Word64, d: int, e: int, x: int, q: int, t: int)
    requires 2 <= x && B31 * x <= e <= d < e + x
    requires q * d <= n < (q + 1) * d && t * e <= n < (t + 1) * e && 0 <= t
    ensures q <= t <= q + 1
  {
    LowerQuotient(n, d, e, q, t);
    if q + 2 <= t {
      SmallGap(n, d, e, x);
      UpperQuotient(n, d, e, q, t);
    }
  }

  lemma LowerQuotient(n: nat, d: int, e: int, q: int, t: int)
    requires 0 < e <= d && q * d <= n < (t + 1) * e && 0 <= t
    ensures q <= t
  {
    MulLe2(t + 1, e, d);
    if t + 1 <= q {
      MulLe(t + 1, q, d);
    }
  }

  lemma UpperQuotient(n: nat, d: int, e: int, q: int, t: int)
    requires 0 < e <= d && t * e <= n < (q + 1) * d && q + 2 <= t
    ensures n * (d - e) >= e * d
  {
    MulLe(q + 2, t, e);
    MulLe((q + 2) * e, n, d);
    MulLe(n, (q + 1) * d, e);
    Subtract(n, d, e, q);
  }

  lemma Subtract(n: int, d: int, e: int, q: int)
    requires (q + 2) * e * d <= n * d && n * e <= (q + 1) * d * e
    ensures n * (d - e) >= e * d
  {
    assert (q + 2) * e * d - (q + 1) * d * e == e * d;
  }

  lemma MulLe2(k: int, a: int, b: int)
    requires a <= b && k >= 0
    ensures k * a <= k * b
  {
  }

  /** n * (d - e) < e * d, because 4 * (x - 1) <= x * x. */
  lemma SmallGap(n: Word64, d: int, e: int, x: int)
    requires 2 <= x && B31 * x <= e <= d < e + x
    ensures n * (d - e) < e * d
  {
    assert e > 0 && d > 0;
    var g := d - e;
    MulLe2(n, g, x - 1);
    MulLe(n, B64, x - 1);
    assert n * g < B64 * (x - 1) by {
      assert B64 * (x - 1) - n * (x - 1) == (B64 - n) * (x - 1) >= 1 by {
        MulLe(1, B64 - n, x - 1);
      }
    }
    assert 4 * (x - 1) <= x * x by {
      assert (x - 2) * (x - 2) >= 0;
      assert (x - 2) * (x - 2) == x * x - 4 * x + 4;
    }
    assert B64 * (x - 1) <= B31 * B31 * (x * x);
    assert B31 * x * (B31 * x) == B31 * B31 * (x * x);
    MulLe(B31 * x, e, B31 * x);
    MulLe2(e, B31 * x, d);
  }

  /** Unsigned division. Every Divl inside meets its precondition, so no trap can occur. */
  function UDiv(n: Word64, d: Word64): (q: Word64)
    requires d != 0
  {
    if d / B32 == 0 then DivSmall(n, d)
    else if n < d then 0
    else
      var q := Estimate(n, d);
      if (n - (q - 1) % B64 * d) % B64 < d then (q - 1) % B64 else q
  }

  /** It is the floor of the exact quotient. */
  lemma UDivExact(n: Word64, d: Word64)
    requires d != 0
    ensures UDiv(n, d) == n / d
  {
    hide Estimate;
    hide DivSmall;
    if d / B32 == 0 {
      SmallExact(n, d);
    } else if n < d {
      QuotientUnique(n, d, 0);
    } else {
      EstimateClose(n, d);
      Corrected(n, d, Estimate(n, d));
    }
  }

  lemma Corrected(n: Word64, d: Word64, q: Word64)
    requires 0 < d <= n && n / d <= q <= n / d + 1
    ensures (if (n - (q - 1) % B64 * d) % B64 < d then (q - 1) % B64 else q) == n / d
  {
    Correction(n, d, q);
    assert (q - 1) % B64 == q - 1;
    assert (n - (q - 1) * d) % B64 == n - (q - 1) * d;
  }

  /** Testing the remainder of the smaller candidate decides between the two. */
  lemma Correction(n: Word64, d: Word64, q: int)
    requires 0 < d <= n && n / d <= q <= n / d + 1
    ensures 1 <= q && 0 <= n - (q - 1) * d < B64
    ensures n - (q - 1) * d < d <==> q == n / d + 1
  {
    QuotientBound(n, d);
    assert 1 <= n / d by {
      if n / d < 1 { MulLe(n / d + 1, 1, d); }
    }
    MulLe(q - 1, n / d, d);
    MulLe(0, q - 1, d);
    assert (q - 1) * d + d == q * d;
  }

  // ---------------------------------------------------------------- remainders and signs

  /** The remainder, returned through a 32-bit type. */
  function UMod(n: Word64, d: Word64): (r: Word32)
    requires d != 0
  {
    (n - d * UDiv(n, d)) % B64 % B32
  }

  lemma RemainderIs(n: int, d: int)
    requires d > 0
    ensures n - d * (n / d) == n % d && 0 <= n % d < d
  {
  }

  lemma UModWraps(n: Word64, d: Word64)
    requires d != 0
    ensures UMod(n, d) == n % d % B32
    ensures UMod(n, d) == n % d <==> n % d < B32
  {
    UDivExact(n, d);
    hide UDiv;
    RemainderIs(n, d);
    WrapTwice(n % d, d);
  }

  lemma WrapTwice(r: int, d: Word64)
    requires 0 <= r < d
    ensures r % B64 % B32 == r % B32 && (r % B32 == r <==> r < B32)
  {
  }

  /** Exact for every dividend exactly when the divisor is at most 2^32. */
  lemma UModExactIff(d: Word64)
    requires d != 0
    ensures (forall n: Word64 :: UMod(n, d) == n % d) <==> d <= B32
  {
    hide UMod;
    if d <= B32 {
      forall n: Word64 ensures UMod(n, d) == n % d {
        UModWraps(n, d);
        RemainderIs(n, d);
      }
    } else {
      UModTooWide(d);
    }
  }

  lemma UModTooWide(d: Word64)
    requires d > B32
    ensures UMod(B32, d) != B32 % d
  {
    QuotientUnique(B32, d, 0);
    RemainderIs(B32, d);
    UModWraps(B32, d);
  }

  function Abs(x: int): (a: nat) {
    if x < 0 then -x else x
  }

  /** C's division: rounds toward zero. */
  function TruncQuotient(n: int, d: int): (q: int)
    requires d != 0
  {
    if (n < 0) == (d < 0) then Abs(n) / Abs(d) else -(Abs(n) / Abs(d))
  }

  /** Conversion to a signed 64-bit type, in two's complement. */
  function ToInt64(x: int): (r: Int64) {
    (x + B63) % B64 - B63
  }

  function Magnitude(x: Int64): (a: Word64) {
    if x >= 0 then x else (-(x + B64)) % B64
  }

  function SDiv(n: Int64, d: Int64): (q: Int64)
    requires d != 0
  {
    MagnitudeAbs(n);
    MagnitudeAbs(d);
    var q: int := UDiv(Magnitude(n), Magnitude(d));
    if (n < 0) == (d < 0) then ToInt64(q) else ToInt64(-(ToInt64(q) as int))
  }

  lemma MagnitudeAbs(x: Int64)
    ensures Magnitude(x) == Abs(x)
  {
  }

  lemma QuotientSmaller(a: nat, d: nat)
    requires d > 0
    ensures 0 <= a / d <= a
  {
    QuotientBound(a, d);
    if a / d > a {
      MulLe(a + 1, a / d, d);
      MulLe2(a + 1, 1, d);
    }
  }

  lemma QuotientHalves(a: nat, d: nat)
    requires a > 0 && d >= 2
    ensures a / d < a
  {
    MulLe2(a, 2, d);
    QuotientBelow(a, d, a);
  }

  lemma SignedCases(n: Int64, d: Int64, q: int)
    requires d != 0 && 0 <= q <= B63 && (q == B63 ==> n == -B63 && Abs(d) == 1)
    requires n == -B63 && d == -1 ==> q == B63
    ensures var r := if (n < 0) == (d < 0) then ToInt64(q) else ToInt64(-(ToInt64(q) as int));
            var exact := if (n < 0) == (d < 0) then q else -q;
            r == exact <==> !(n == -B63 && d == -1)
  {
  }

  /** Truncating division for every pair but the one whose quotient has no 64-bit form. */
  lemma SDivTruncates(n: Int64, d: Int64)
    requires d != 0
    ensures SDiv(n, d) == TruncQuotient(n, d) <==> !(n == -B63 && d == -1)
    ensures Abs(TruncQuotient(n, d)) < B63 ==> SDiv(n, d) == TruncQuotient(n, d)
  {
    MagnitudeAbs(n);
    MagnitudeAbs(d);
    var q := Abs(n) / Abs(d);
    UDivExact(Abs(n), Abs(d));
    hide UDiv;
    QuotientSmaller(Abs(n), Abs(d));
    if n == -B63 && Abs(d) >= 2 {
      QuotientHalves(Abs(n), Abs(d));
    }
    SignedCases(n, d, q);
  }

  /** The signed remainder, returned through a 32-bit type. */
  function SMod(n: Int64, d: Int64): (r: int)
    requires d != 0
  {
    (n - d * SDiv(n, d) + B31) % B32 - B31
  }

  function TruncRemainder(n: int, d: int): (r: int)
    requires d != 0
  {
    n - d * TruncQuotient(n, d)
  }

  lemma SignedProduct(n: int, d: int, q: int)
    requires d != 0 && q * Abs(d) <= Abs(n) < (q + 1) * Abs(d)
    ensures var r := n - d * (if (n < 0) == (d < 0) then q else -q);
            Abs(r) < Abs(d) && (r != 0 ==> (r < 0) == (n < 0))
  {
    assert d * q == (if d < 0 then -(q * Abs(d)) else q * Abs(d));
    assert d * -q == -(d * q);
    assert (q + 1) * Abs(d) == q * Abs(d) + Abs(d);
  }

  /** The remainder has the dividend's sign and is smaller than the divisor. */
  lemma TruncRemainderRange(n: int, d: int)
    requires d != 0
    ensures Abs(TruncRemainder(n, d)) < Abs(d)
    ensures TruncRemainder(n, d) != 0 ==> (TruncRemainder(n, d) < 0) == (n < 0)
  {
    QuotientBound(Abs(n), Abs(d));
    SignedProduct(n, d, Abs(n) / Abs(d));
  }

  /** Exact for every dividend exactly when the divisor's magnitude is at most 2^31. */
  lemma SModExactIff(d: Int64)
    requires d != 0
    ensures (forall n: Int64 | !(n == -B63 && d == -1) :: SMod(n, d) == TruncRemainder(n, d)) <==> Abs(d) <= B31
  {
    hide SMod;
    hide TruncRemainder;
    if Abs(d) <= B31 {
      forall n: Int64 | !(n == -B63 && d == -1) ensures SMod(n, d) == TruncRemainder(n, d) {
        SModFits(n, d);
      }
    } else {
      SModTooWide(d);
    }
  }

  lemma SModFits(n: Int64, d: Int64)
    requires d != 0 && Abs(d) <= B31 && !(n == -B63 && d == -1)
    ensures SMod(n, d) == TruncRemainder(n, d)
  {
    hide SDiv;
    hide TruncQuotient;
    SDivTruncates(n, d);
    TruncRemainderRange(n, d);
    var r := TruncRemainder(n, d);
    assert n - d * SDiv(n, d) == r;
    WrapFits(r);
  }

  lemma WrapFits(r: int)
    requires -B31 <= r < B31
    ensures (r + B31) % B32 - B31 == r
  {
  }

  lemma SModTooWide(d: Int64)
    requires d != 0 && Abs(d) > B31
    ensures SMod(B31, d) != TruncRemainder(B31, d)
  {
    QuotientUnique(B31, Abs(d), 0);
    SDivTruncates(B31, d);
    hide SDiv;
    assert TruncQuotient(B31, d) == 0;
  }

  /** The `n` numbers from `a` on and the `m` from `b` on have none in common. */
  predicate Apart(a: int, n: int, b: int, m: int) {
    a + n <= b || b + m <= a
  }
}
