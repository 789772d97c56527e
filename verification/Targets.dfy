/**
 * Difficulty and target arithmetic.  A difficulty is a real; its product with 10^18 is rounded to double
 * precision, and truncating and saturating casts are kept.
 */
module Targets {
  import opened SeqFacts
  import opened Powers
  import opened Float64

  const SCALE: nat := 1_000_000_000_000_000_000
  const U128_MAX: nat := 0xFFFF_FFFF_FFFF_FFFF_FFFF_FFFF_FFFF_FFFF
  const U64_MAX: nat := 0xFFFF_FFFF_FFFF_FFFF
  const MAX_TARGET: nat := 0xFFFF_FFFF_FFFF_FFFF_FFFF_FFFF_FFFF_FFFF_FFFF_FFFF_FFFF_FFFF_FFFF_FFFF

  /** A float-to-u128 cast: truncates and saturates. */
  function AsU128(x: real): nat {
    if x < 0.0 then 0 else if x.Floor > U128_MAX then U128_MAX else x.Floor
  }

  function Scaled(diff: real): nat
    requires diff >= 0.0
  {
    AsU128(RoundF64(diff * SCALE as real))
  }

  function FloorDiv(a: nat, b: nat): nat
    requires b > 0
  {
    a / b
  }

  /** `None` is the division-by-zero panic. */
  function DiffToTarget(diff: real): Option<nat> {
    if diff <= 0.0 then Some(MAX_TARGET)
    else if Scaled(diff) == 0 then None
    else Some(FloorDiv(MAX_TARGET * SCALE, Scaled(diff)))
  }

  function StratumDifficultyToTarget(diff: nat): nat {
    if diff == 0 then U64_MAX * 1000
    else FloorDiv(U64_MAX * 1000, diff * 1000)
  }

  /** Compact bits to target.  The left shift is cut to 32 bits before it is applied. */
  function CalculateTarget(bits: nat): nat {
    var exponent := bits / 0x100_0000;
    var mantissa := bits % 0x100_0000;
    if exponent <= 3 then mantissa / Pow(2, 8 * (3 - exponent))
    else mantissa * Pow(2, 8 * (exponent - 3) % 0x1_0000_0000)
  }

  // ---------------------------------------------------------------------------------------
  // Division, multiplication, powers
  // ---------------------------------------------------------------------------------------

  /** `a / b` is the largest `q` with `q * b <= a`. */
  lemma Quotient(a: nat, b: nat, q: nat)
    requires b > 0
    ensures q <= a / b <==> q * b <= a
  {
    var d := a / b;
    if q <= d {
      ProductsOrder(q, d, b);
    } else {
      ProductsOrder(d + 1, q, b);
    }
  }

  lemma QuotientShrinks(a: nat, b: nat, c: nat)
    requires 0 < b <= c
    ensures a / c <= a / b
  {
    Quotient(a, c, a / c);
    assert a / c * b <= a / c * c by { ProductsOrder(b, c, a / c); }
    Quotient(a, b, a / c);
  }

  lemma QuotientIs(a: nat, b: nat, q: nat)
    requires b > 0 && q * b <= a < (q + 1) * b
    ensures a / b == q
  {
    Quotient(a, b, q);
    Quotient(a, b, q + 1);
  }

  /** A common factor of dividend and divisor cancels. */
  lemma ScaleCancels(a: nat, b: nat, s: nat)
    requires b > 0 && s > 0
    ensures b * s > 0
    ensures a * s / (b * s) == a / b
  {
    ProductsOrder(0, b, s);
    var q := a / b;
    Quotient(a, b, q);
    Quotient(a, b, q + 1);
    ProductsOrder(q * b, a, s);
    ProductsOrder(a, (q + 1) * b, s);
    QuotientIs(a * s, b * s, q);
  }

  lemma {:induction false} PowOf256(k: nat)
    ensures Pow(2, 8 * k) == Pow(256, k)
  {
    if k > 0 {
      PowOf256(k - 1);
      PowAdds(2, 8, 8 * (k - 1));
      TwoToThe8(8);
    }
  }

  // The exponent is a variable so that the literal is not unfolded.
  lemma TwoToThe224(n: nat)
    requires n == 224
    ensures Pow(2, n) == MAX_TARGET + 1
    ensures Pow(2, n - 156) * SCALE <= U128_MAX
  {
    var k := n - 216;
    TwoToThe8(k);
    Square(2, k, 0x100);
    Square(2, k + 8, 0x1_0000);
    Square(2, k + 24, 0x1_0000_0000);
    Square(2, k + 56, 0x1_0000_0000_0000_0000);
    PowAdds(2, k + 120, k + 56);
    PowAdds(2, k + 184, k + 24);
    Square(2, k - 8 + 2, 4);
    PowAdds(2, k + 56, k - 8 + 4);
  }

  // ---------------------------------------------------------------------------------------
  // The pool target
  // ---------------------------------------------------------------------------------------

  lemma OneIsKept()
    ensures RoundF64(1.0) == 1.0
  {
    SmallIntegerIsKept(1);
  }

  /** The scaled difficulty follows the order of its arguments, and is positive from 1e-18 up. */
  lemma ScaledFollowsOrder(x: real, y: real)
    requires 0.0 < x <= y
    ensures Scaled(x) <= Scaled(y)
    ensures x * SCALE as real >= 1.0 ==> Scaled(x) > 0
  {
    RoundingIsMonotone(x * SCALE as real, y * SCALE as real);
    if x * SCALE as real >= 1.0 {
      OneIsKept();
      RoundingIsMonotone(1.0, x * SCALE as real);
    }
  }

  /**
   * A higher difficulty never has a higher target, over all positive difficulties that have one,
   * saturated ones included; from 1e-18 up all have one.
   */
  lemma TargetFallsWithDifficulty(x: real, y: real)
    requires 0.0 < x <= y
    ensures x * SCALE as real >= 1.0 ==> DiffToTarget(x).Some?
    ensures DiffToTarget(x).Some? ==> DiffToTarget(y).Some? && DiffToTarget(y).value <= DiffToTarget(x).value
  {
    ScaledFollowsOrder(x, y);
    if Scaled(x) > 0 { QuotientShrinks(MAX_TARGET * SCALE, Scaled(x), Scaled(y)); }
  }

  /**
   * Every case: no positive difficulty gives the largest target, 2^224 - 1; a positive one has a target
   * exactly if it rounds to 1 or more when scaled; and that is the quotient of 10^18 (2^224 - 1) by the
   * rounded value, cut to an integer below 2^128.
   */
  lemma TargetByCases(diff: real, n: nat)
    requires n == 224
    ensures diff <= 0.0 ==> DiffToTarget(diff) == Some(Pow(2, n) - 1)
    ensures diff > 0.0
            ==> var x := RoundF64(diff * 1_000_000_000_000_000_000.0);
                && (DiffToTarget(diff) == None <==> x < 1.0)
                && (x >= 1.0 ==> var cut := if x.Floor < Pow(2, n - 96) then x.Floor else Pow(2, n - 96) - 1;
                                 DiffToTarget(diff) == Some((Pow(2, n) - 1) * 1_000_000_000_000_000_000 / cut))
  {
    TwoToThe224(n);
    TwoToThe64(n - 160);
    Square(2, n - 160, TWO64);
    hide Pow, RoundF64;
  }

  // Integer difficulties.

  /** Large dividends have different quotients by different divisors. */
  lemma DistinctQuotients(a: nat, x: nat, y: nat)
    requires 0 < x < y && y * y <= a
    ensures a / y < a / x
  {
    var q := a / y;
    Quotient(a, y, q);
    Quotient(a, y, y);
    ProductsOrder(x, y - 1, q + 1);
    assert (q + 1) * (y - 1) == q * y + y - q - 1;
    Quotient(a, x, q + 1);
  }

  lemma U128SquareFits(n: nat)
    requires n <= U128_MAX
    ensures n * n <= MAX_TARGET * SCALE
  {
    ProductsOrder(n, U128_MAX, n);
    ProductsOrder(n, U128_MAX, U128_MAX);
  }

  lemma OtherDivisorOtherTarget(x: nat, y: nat)
    requires 0 < x <= U128_MAX && 0 < y <= U128_MAX && x != y
    ensures FloorDiv(MAX_TARGET * SCALE, x) != FloorDiv(MAX_TARGET * SCALE, y)
  {
    U128SquareFits(x);
    U128SquareFits(y);
    if x < y { DistinctQuotients(MAX_TARGET * SCALE, x, y); } else { DistinctQuotients(MAX_TARGET * SCALE, y, x); }
  }

  /** A scaled integer is cast exactly if and only if it fits. */
  lemma ScaledInteger(d: nat)
    requires 0 < d && d * SCALE <= U128_MAX
    ensures 0 < Scaled(d as real) <= U128_MAX
    ensures Scaled(d as real) == d * SCALE <==> FitsF64(d * SCALE)
  {
    var n := d * SCALE;
    IntegerIsKeptIffFits(n);
    var m := RoundsToInteger(n as real);
    assert d as real * SCALE as real == n as real;
    assert n != U128_MAX;
  }

  lemma ScaledSaturates(d: nat)
    requires d * SCALE > U128_MAX
    ensures Scaled(d as real) == U128_MAX
  {
    var n := d * SCALE;
    assert d as real * SCALE as real == n as real;
    OddPartOfBound();
    IntegerIsKeptIffFits(U128_MAX + 1);
    RoundingIsMonotone((U128_MAX + 1) as real, n as real);
  }

  lemma OddPartOfBound()
    ensures FitsF64(U128_MAX + 1)
  {
    var k := 64;
    TwoToThe64(k);
    OddPartOfMultiple(k, TWO64);
    OddPartOfMultiple(k, 1);
  }

  /**
   * "For an integer difficulty the target is the exact floored quotient" holds, below saturation, if and
   * only if the difficulty times 10^18 has a significand of 53 bits.  Above saturation the target is
   * constant.
   */
  lemma IntegerTarget(d: nat)
    requires d > 0
    ensures d * SCALE <= U128_MAX ==> (DiffToTarget(d as real) == Some(MAX_TARGET / d) <==> FitsF64(d * SCALE))
    ensures d * SCALE > U128_MAX ==> DiffToTarget(d as real) == Some(MAX_TARGET * SCALE / U128_MAX)
  {
    hide Scaled, FitsF64;
    if d * SCALE <= U128_MAX {
      ScaledInteger(d);
      ScaleCancels(MAX_TARGET, d, SCALE);
      if Scaled(d as real) != d * SCALE { OtherDivisorOtherTarget(Scaled(d as real), d * SCALE); }
    } else {
      ScaledSaturates(d);
    }
  }

  const FIVE_TO_THE_18: nat := 3_814_697_265_625

  lemma OddPartOfScale(d: nat)
    requires d > 0
    ensures OddPart(d * SCALE) == OddPart(d * FIVE_TO_THE_18)
  {
    var k := 18;
    PowAdds(2, 8, k - 8);
    PowAdds(2, 8, k - 16);
    TwoToThe8(k - 10);
    assert Pow(2, k) == 262144;
    OddPartOfMultiple(k, d * FIVE_TO_THE_18);
  }

  lemma FitsUpTo2361(d: nat)
    requires 0 < d <= 2361
    ensures FitsF64(d * SCALE)
  {
    hide OddPart;
    OddPartOfScale(d);
    OddPartIsSmaller(d * FIVE_TO_THE_18);
  }

  /** 2362 is twice 1181. */
  lemma DoubleFits(d: nat)
    requires d > 0 && FitsF64(d * SCALE)
    ensures FitsF64(2 * d * SCALE)
  {
    hide OddPart;
    OddPartOfDouble(d * SCALE);
    TwiceTimes(d, SCALE);
  }

  lemma TheFirstThatDoesNotFit()
    ensures !FitsF64(2363 * SCALE)
  {
    OddPartOfScale(2363);
  }

  /** Every integer difficulty below 2363 has the exact target, and 2363 does not. */
  lemma ExactTargetsEndAt2363(d: nat)
    requires 0 < d <= 2363
    ensures DiffToTarget(d as real) == Some(MAX_TARGET / d) <==> d < 2363
  {
    hide DiffToTarget, FitsF64;
    IntegerTarget(d);
    if d <= 2361 {
      FitsUpTo2361(d);
    } else if d == 2362 {
      FitsUpTo2361(1181);
      DoubleFits(1181);
    } else {
      TheFirstThatDoesNotFit();
    }
  }

  // Real difficulties.

  /**
   * `t` is the quotient `m / diff` rounded down, up to the factors `up` and `down` and one unit of `1 / s`
   * in the difficulty: no stricter than `m / (diff * up)`, and no easier than `m / (diff * down - 1 / s)`.
   */
  ghost predicate BracketsQuotient(t: nat, m: nat, s: nat, diff: real, up: real, down: real) {
    && (t + 1) as real * (diff * up) > m as real
    && t as real * (diff * s as real * down - 1.0) <= (m * s) as real
  }

  // The relative rounding error of double precision.
  const ROUNDED_UP: real := 1.0 + 1.0 / TWO53
  const ROUNDED_DOWN: real := 1.0 - 1.0 / TWO53

  /** Below saturation the target brackets the real quotient. */
  lemma TargetBracketsQuotient(diff: real)
    requires diff * SCALE as real >= 1.0 && diff * SCALE as real <= U128_MAX as real
    ensures DiffToTarget(diff).Some?
    ensures BracketsQuotient(DiffToTarget(diff).value, MAX_TARGET, SCALE, diff, ROUNDED_UP, ROUNDED_DOWN)
  {
    hide BracketsQuotient, RoundF64, AsU128;
    ScaledFollowsOrder(diff, diff);
    RoundedCastIsClose(diff * SCALE as real);
    var n := Scaled(diff);
    QuotientBrackets(MAX_TARGET, SCALE, n, diff, FloorDiv(MAX_TARGET * SCALE, n), ROUNDED_UP, ROUNDED_DOWN);
  }

  lemma RoundedCastIsClose(x: real)
    requires 0.0 <= x <= U128_MAX as real
    ensures AsU128(RoundF64(x)) as real <= x * ROUNDED_UP
    ensures x * ROUNDED_DOWN - 1.0 <= AsU128(RoundF64(x)) as real
  {
    hide RoundF64;
    RoundingError(x);
    RelativeError(x, RoundF64(x));
    CastIsBelow(RoundF64(x), x);
  }

  lemma RelativeError(x: real, r: real)
    requires x >= 0.0 && -x <= (r - x) * TWO53 <= x
    ensures x * ROUNDED_DOWN <= r <= x * ROUNDED_UP
    ensures x * ROUNDED_DOWN <= x
  {
  }

  lemma CastIsBelow(r: real, x: real)
    requires 0.0 <= r && x <= U128_MAX as real
    ensures AsU128(r) as real <= r
    ensures r - 1.0 <= AsU128(r) as real || x <= AsU128(r) as real
  {
  }

  lemma QuotientBrackets(m: nat, s: nat, n: nat, diff: real, t: nat, up: real, down: real)
    requires n > 0 && s > 0
    requires n as real <= diff * s as real * up && diff * s as real * down - 1.0 <= n as real
    requires t == FloorDiv(m * s, n)
    ensures BracketsQuotient(t, m, s, diff, up, down)
  {
    RealQuotient(m, s, n, t);
    NotStricter((t + 1) as real, n as real, diff, s as real, up, m as real);
    RealProductsOrder(diff * s as real * down - 1.0, n as real, t as real);
  }

  lemma RealQuotient(m: nat, s: nat, n: nat, t: nat)
    requires n > 0 && t == FloorDiv(m * s, n)
    ensures t as real * n as real <= (m * s) as real
    ensures (t + 1) as real * n as real > m as real * s as real
  {
    Quotient(m * s, n, t);
    Quotient(m * s, n, t + 1);
    RealProduct(t, n);
    RealProduct(t + 1, n);
    RealProduct(m, s);
  }

  lemma NotStricter(q: real, n: real, x: real, s: real, up: real, m: real)
    requires q >= 0.0 && s > 0.0 && q * n > m * s && n <= x * s * up
    ensures q * (x * up) > m
  {
    RealProductsOrder(n, x * s * up, q);
    SwapFactors(x, s, up);
    CancelScale(q, x * up, m, s);
  }

  lemma SwapFactors(x: real, y: real, z: real)
    ensures x * y * z == x * z * y
  {
  }

  lemma RealProduct(x: int, y: int)
    ensures (x * y) as real == x as real * y as real
  {
  }

  lemma RealProductsOrder(x: real, y: real, z: real)
    requires x <= y && z >= 0.0
    ensures z * x <= z * y
  {
  }

  lemma CancelScale(t: real, d: real, m: real, s: real)
    requires s > 0.0 && t * (d * s) > m * s
    ensures t * d > m
  {
    if t * d <= m { RealProductsOrder(t * d, m, s); }
  }

  /** At `2^k`, for every `k` up to 68, the target is `2^(224-k) - 1`. */
  lemma TargetAtPowerOfTwo(k: nat, n: nat)
    requires k <= 68 && n == 224
    ensures DiffToTarget(Pow(2, k) as real) == Some(Pow(2, n - k) - 1)
  {
    hide Pow, DiffToTarget;
    var d, q := Pow(2, k), Pow(2, n - k);
    TwoToThe224(n);
    if k < 68 { PowGrows(2, k, n - 156); }
    ProductsOrder(d, Pow(2, n - 156), SCALE);
    PowerOfTwoFits(k);
    IntegerTarget(d);
    PowAdds(2, n - k, k);
    JustBelow(q, d);
  }

  lemma PowerOfTwoFits(k: nat)
    ensures FitsF64(Pow(2, k) * SCALE)
  {
    OddPartOfScale(Pow(2, k));
    OddPartOfMultiple(k, FIVE_TO_THE_18);
    OddPartIsSmaller(FIVE_TO_THE_18);
  }

  lemma JustBelow(q: nat, d: nat)
    requires q >= 1 && d >= 1
    ensures q * d >= 1 && (q * d - 1) / d == q - 1
  {
    ProductsOrder(1, q, d);
    QuotientIs(q * d - 1, d, q - 1);
  }

  /** One power-of-two step up in difficulty halves the target, rounding down. */
  lemma DoublingDifficultyHalvesTarget(k: nat)
    requires k < 68
    ensures DiffToTarget(Pow(2, k) as real).Some? && DiffToTarget(2.0 * Pow(2, k) as real).Some?
    ensures DiffToTarget(2.0 * Pow(2, k) as real).value == DiffToTarget(Pow(2, k) as real).value / 2
  {
    var n := 224;
    TargetAtPowerOfTwo(k, n);
    TargetAtPowerOfTwo(k + 1, n);
    assert Pow(2, n - k) == 2 * Pow(2, n - (k + 1));
  }

  /** In the Stratum variant the factor 1000 cancels, except at zero, where it survives. */
  lemma StratumTargetIsPlainQuotient(diff: nat)
    ensures diff > 0 ==> StratumDifficultyToTarget(diff) == (TWO64 - 1) / diff
    ensures diff > 0 ==> 1000 * StratumDifficultyToTarget(diff) <= StratumDifficultyToTarget(0)
    ensures StratumDifficultyToTarget(0) == (TWO64 - 1) * 1000
  {
    if diff > 0 {
      ScaleCancels(U64_MAX, diff, 1000);
      QuotientShrinks(U64_MAX, 1, diff);
    }
  }

  // ---------------------------------------------------------------------------------------
  // Compact bits
  // ---------------------------------------------------------------------------------------

  function Exponent(bits: nat): nat {
    bits / 0x100_0000
  }

  function Mantissa(bits: nat): nat {
    bits % 0x100_0000
  }

  /** `floor(mantissa * 256^(exponent - 3))` */
  function IdealTarget(bits: nat): nat {
    if Exponent(bits) >= 3 then Mantissa(bits) * Pow(256, Exponent(bits) - 3)
    else Mantissa(bits) / Pow(256, 3 - Exponent(bits))
  }

  /** The shift fits 32 bits; always so for the 32-bit `bits` of a header. */
  predicate ShiftFits(bits: nat) {
    Exponent(bits) <= 3 || 8 * (Exponent(bits) - 3) < 0x1_0000_0000
  }

  /**
   * "The target is `floor(mantissa * 256^(exponent-3))`" fails for huge 64-bit inputs, where the shift
   * is cut to 32 bits: it holds exactly when the shift fits or the mantissa is zero.
   */
  lemma CompactTargetIsIdealIffShiftFits(bits: nat)
    ensures CalculateTarget(bits) == IdealTarget(bits) <==> Mantissa(bits) == 0 || ShiftFits(bits)
    ensures bits < 0x1_0000_0000 ==> ShiftFits(bits)
  {
    var e, m := Exponent(bits), Mantissa(bits);
    if e <= 3 {
      PowOf256(3 - e);
    } else {
      PowOf256(e - 3);
      CutShift(m, 8 * (e - 3) % 0x1_0000_0000, 8 * (e - 3));
    }
  }

  /** What the code computes in any case: the shift that is applied is the true one modulo 2^32. */
  lemma TargetOfBits(bits: nat)
    ensures var (exponent, mantissa) := (bits / 0x100_0000, bits % 0x100_0000);
            CalculateTarget(bits)
            == if exponent < 3 then mantissa / Pow(256, 3 - exponent)
               else mantissa * Pow(256, (exponent - 3) % 0x2000_0000)
  {
    var e := Exponent(bits) - 3;
    if e < 0 {
      PowOf256(-e);
    } else {
      PowOf256(e % 0x2000_0000);
      assert 8 * e % 0x1_0000_0000 == 8 * (e % 0x2000_0000);
    }
  }

  /** Cutting a shift changes the shifted number exactly when the shift gets smaller and the number is not zero. */
  lemma CutShift(m: nat, cut: nat, shift: nat)
    requires cut <= shift
    ensures m * Pow(2, cut) == m * Pow(2, shift) <==> m == 0 || cut == shift
  {
    if cut < shift {
      PowGrows(2, cut, shift);
      if m > 0 { StrictProduct(Pow(2, cut), Pow(2, shift), m); }
    }
  }

  lemma StrictProduct(x: nat, y: nat, z: nat)
    requires x < y && z > 0
    ensures z * x < z * y
  {
  }

  /** A 64-bit input that misses the formula: mantissa 1 and exponent 2^29 + 3. */
  lemma HugeBitsMissTheFormula(bits: nat)
    requires bits == 0x2000_0003_00_0001
    ensures bits < 0x1_0000_0000_0000_0000 && CalculateTarget(bits) != IdealTarget(bits)
  {
    CompactTargetIsIdealIffShiftFits(bits);
    hide CalculateTarget, IdealTarget;
  }

  /** Bits compare like targets once they are normalized: exponent at least 3, mantissa at least 2^16. */
  lemma BitsOrderIsTargetOrder(a: nat, b: nat)
    requires ShiftFits(a) && ShiftFits(b)
    requires Exponent(a) >= 3 && Mantissa(a) >= 0x1_0000
    requires Exponent(b) >= 3 && Mantissa(b) >= 0x1_0000
    ensures a < b <==> CalculateTarget(a) < CalculateTarget(b)
  {
    CompactTargetIsIdealIffShiftFits(a);
    CompactTargetIsIdealIffShiftFits(b);
    if a < b {
      StrictlyBelow(a, b);
    } else if b < a {
      StrictlyBelow(b, a);
    }
  }

  lemma StrictlyBelow(a: nat, b: nat)
    requires a < b
    requires Exponent(a) >= 3 && Mantissa(a) >= 0x1_0000
    requires Exponent(b) >= 3 && Mantissa(b) >= 0x1_0000
    ensures IdealTarget(a) < IdealTarget(b)
  {
    var (x, y) := (Exponent(a) - 3, Exponent(b) - 3);
    if x == y {
      ProductsOrder(Mantissa(a), Mantissa(b), Pow(256, x));
    } else {
      PowGrows(256, x, y);
      ProductsOrder(Mantissa(a), 0x100_0000, Pow(256, x));
      ProductsOrder(0x1_0000, Mantissa(b), Pow(256, y));
      ProductsOrder(256 * Pow(256, x), Pow(256, y), 0x1_0000);
    }
  }
}
