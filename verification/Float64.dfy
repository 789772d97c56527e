/**
 * Rounding to double precision: the nearest number with a 53-bit significand, ties to even.  The range
 * of exponents is unbounded; overflow and subnormals are not modelled.
 */
module Float64 {
  import opened Powers

  const TWO52: real := 4503599627370496.0
  const TWO53: real := 9007199254740992.0

  function RoundHalfEven(x: real): (n: int)
    ensures -0.5 <= n as real - x <= 0.5
  {
    var below := x.Floor;
    var rest := x - below as real;
    if rest < 0.5 || (rest == 0.5 && below % 2 == 0) then below else below + 1
  }

  /** Scaled by powers of two until the significand is an integer of 53 bits, which is then rounded. */
  function RoundF64(x: real): (r: real)
    requires x >= 0.0
    ensures r >= 0.0
    decreases if x >= TWO53 then x.Floor else if 0.0 < x < TWO52 then (TWO53 / x).Floor else 0
  {
    if x >= TWO53 then 2.0 * RoundF64(x / 2.0)
    else if 0.0 < x < TWO52 then
      HalvedQuotient(TWO53, x);
      RoundF64(2.0 * x) / 2.0
    else RoundHalfEven(x) as real
  }

  lemma HalvedQuotient(a: real, x: real)
    requires 0.0 < x && 2.0 * x <= a
    ensures a / x >= 2.0 && a / (2.0 * x) == a / x / 2.0
  {
    var q := a / x;
    assert q * x == a;
    if q < 2.0 { ScaledOrder(q, 2.0, x); }
    assert q / 2.0 * (2.0 * x) == a;
  }

  lemma ScaledOrder(a: real, b: real, x: real)
    requires a < b && x > 0.0
    ensures a * x < b * x
  {
  }

  /** Rounding commutes with doubling. */
  lemma RoundDoubles(x: real)
    requires x >= 0.0
    ensures RoundF64(2.0 * x) == 2.0 * RoundF64(x)
  {
  }

  /** The nearest integer, and at a tie the even one. */
  lemma HalfEvenIsNearest(x: real, n: int)
    ensures -0.5 <= RoundHalfEven(x) as real - x <= 0.5
    ensures x == n as real + 0.5 ==> RoundHalfEven(x) == if n % 2 == 0 then n else n + 1
    ensures -0.5 < n as real - x < 0.5 ==> RoundHalfEven(x) == n
  {
    if x == n as real + 0.5 { assert x.Floor == n; }
  }

  /** Between 2^52 and 2^53 the numbers of double precision are the integers; from there rounding scales by two. */
  lemma RoundF64Means(x: real)
    requires x >= 0.0
    ensures 4503599627370496.0 <= x < 9007199254740992.0 ==> RoundF64(x) == RoundHalfEven(x) as real
    ensures RoundF64(2.0 * x) == 2.0 * RoundF64(x) && (x == 0.0 ==> RoundF64(x) == 0.0)
  {
    RoundDoubles(x);
    HalfEvenIsNearest(x, 0);
  }

  /** The relative error is at most 2^-53. */
  lemma {:induction false} RoundingError(x: real)
    requires x >= 0.0
    ensures -x <= (RoundF64(x) - x) * TWO53 <= x
    decreases if x >= TWO53 then x.Floor else if 0.0 < x < TWO52 then (TWO53 / x).Floor else 0
  {
    if x >= TWO53 {
      RoundingError(x / 2.0);
    } else if 0.0 < x < TWO52 {
      HalvedQuotient(TWO53, x);
      RoundingError(2.0 * x);
    }
  }

  lemma HalfEvenKeepsIntegerBounds(x: real, n: int)
    ensures n as real <= x ==> n <= RoundHalfEven(x)
    ensures x <= n as real ==> RoundHalfEven(x) <= n
  {
  }

  lemma HalfEvenIsMonotone(x: real, y: real)
    requires x <= y
    ensures RoundHalfEven(x) <= RoundHalfEven(y)
  {
    if x.Floor < y.Floor { HalfEvenKeepsIntegerBounds(x, y.Floor); HalfEvenKeepsIntegerBounds(y, y.Floor); }
  }

  /** From 2^52 up the rounded value is an integer. */
  lemma {:induction false} RoundsToInteger(x: real) returns (m: nat)
    requires x >= TWO52
    ensures RoundF64(x) == m as real >= TWO52
    decreases x.Floor
  {
    if x >= TWO53 {
      m := RoundsToInteger(x / 2.0);
      m := 2 * m;
    } else {
      HalfEvenKeepsIntegerBounds(x, 0x10_0000_0000_0000);
      m := RoundHalfEven(x);
    }
  }

  lemma RoundsBelow(x: real, y: real)
    requires TWO52 <= x < TWO53 <= y
    ensures RoundF64(x) <= RoundF64(y)
  {
    var m := RoundsToInteger(y / 2.0);
    HalfEvenKeepsIntegerBounds(x, 0x20_0000_0000_0000);
  }

  lemma {:induction false} RoundingIsMonotone(x: real, y: real)
    requires 0.0 <= x <= y
    ensures RoundF64(x) <= RoundF64(y)
    decreases if x >= TWO53 then x.Floor else if 0.0 < x < TWO52 then (TWO53 / x).Floor else 0
  {
    hide RoundHalfEven;
    if x >= TWO53 {
      RoundingIsMonotone(x / 2.0, y / 2.0);
      RoundDoubles(y / 2.0);
    } else if 0.0 < x < TWO52 {
      HalvedQuotient(TWO53, x);
      RoundingIsMonotone(2.0 * x, 2.0 * y);
      RoundDoubles(y);
    } else if x > 0.0 && y >= TWO53 {
      RoundsBelow(x, y);
    } else if x > 0.0 {
      HalfEvenIsMonotone(x, y);
    } else {
      HalfEvenKeepsIntegerBounds(0.0, 0);
    }
  }

  /** What is left of `n` when its factors of two are taken out. */
  function OddPart(n: nat): nat {
    if n > 0 && n % 2 == 0 then OddPart(n / 2) else n
  }

  /** `n` has a significand of 53 bits. */
  predicate FitsF64(n: nat) {
    OddPart(n) < 0x20_0000_0000_0000
  }

  lemma {:induction false} OddPartIsSmaller(n: nat)
    ensures OddPart(n) <= n
  {
    if n > 0 && n % 2 == 0 { OddPartIsSmaller(n / 2); }
  }

  lemma {:induction false} SmallIntegerIsKept(n: nat)
    requires n < 0x20_0000_0000_0000
    ensures RoundF64(n as real) == n as real
    decreases 0x20_0000_0000_0000 - n
  {
    if 0 < n < 0x10_0000_0000_0000 {
      SmallIntegerIsKept(2 * n);
      assert (2 * n) as real == 2.0 * n as real;
    } else {
      HalfEvenKeepsIntegerBounds(n as real, n);
    }
  }

  lemma OddIntegerIsNotKept(n: nat)
    requires n >= 0x20_0000_0000_0000 && n % 2 == 1
    ensures RoundF64(n as real) != n as real
  {
    var m := RoundsToInteger(n as real / 2.0);
    assert RoundF64(n as real) == (2 * m) as real;
  }

  /** An integer is kept exactly if and only if it fits. */
  lemma {:induction false} IntegerIsKeptIffFits(n: nat)
    ensures RoundF64(n as real) == n as real <==> FitsF64(n)
  {
    hide RoundF64;
    if n < 0x20_0000_0000_0000 {
      SmallIntegerIsKept(n);
      OddPartIsSmaller(n);
    } else if n % 2 == 0 {
      IntegerIsKeptIffFits(n / 2);
      RoundDoubles((n / 2) as real);
      assert n as real == 2.0 * (n / 2) as real;
    } else {
      OddIntegerIsNotKept(n);
    }
  }

  /** Powers of two do not change whether a number fits. */
  lemma {:induction false} OddPartOfMultiple(k: nat, n: nat)
    requires n > 0
    ensures OddPart(Pow(2, k) * n) == OddPart(n)
  {
    if k == 0 {
    } else {
      hide OddPart;
      OddPartOfMultiple(k - 1, n);
      OddPartOfDouble(Pow(2, k - 1) * n);
      TwiceTimes(Pow(2, k - 1), n);
    }
  }

  lemma TwiceTimes(p: nat, n: nat)
    ensures 2 * p * n == 2 * (p * n)
  {
  }

  lemma {:induction false} OddPartOfDouble(n: nat)
    ensures OddPart(2 * n) == OddPart(n)
  {
    var m := 2 * n;
    assert m % 2 == 0 && m / 2 == n;
  }
}
