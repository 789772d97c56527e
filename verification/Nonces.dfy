/**
 * The nonce stride of the CPU miner: thread `i` of `T` starts at `i * 1_000_000_007` and steps by
 * `T`, all in wrapping 64-bit arithmetic.
 */
module Nonces {
  import opened Powers

  const SPREAD: nat := 1_000_000_007

  function Start(thread: nat): nat {
    thread * SPREAD % TWO64
  }

  function NextNonce(threads: nat, nonce: nat): nat {
    (nonce + threads) % TWO64
  }

  /** The `k`-th nonce of a thread before it is cut to 64 bits. */
  function Unwrapped(threads: nat, thread: nat, k: nat): nat {
    thread * SPREAD + k * threads
  }

  /** The `k`-th nonce of a thread. */
  function NonceAt(threads: nat, thread: nat, k: nat): nat {
    Unwrapped(threads, thread, k) % TWO64
  }

  // ---------------------------------------------------------------------------------------
  // Divisibility
  // ---------------------------------------------------------------------------------------

  predicate Divides(d: nat, n: int) {
    d > 0 && n % d == 0
  }

  ghost predicate Coprime(a: nat, b: nat) {
    forall d: nat :: d > 1 && Divides(d, a) ==> !Divides(d, b)
  }

  lemma SizeOfMultiple(q: int, d: int)
    requires d >= 0
    ensures q >= 1 ==> q * d >= d
    ensures q <= -1 ==> q * d <= -d
  {
  }

  lemma Multiple(d: nat, n: int, q: int)
    requires d > 0 && n == q * d
    ensures Divides(d, n) && n / d == q
  {
    SizeOfMultiple(q - n / d, d);
  }

  lemma Quotient(d: nat, n: int)
    requires Divides(d, n)
    ensures n == n / d * d
  {
  }

  lemma DividesSum(d: nat, x: int, y: int)
    requires Divides(d, x) && Divides(d, y)
    ensures Divides(d, x + y) && Divides(d, x - y)
  {
    Quotient(d, x);
    Quotient(d, y);
    Multiple(d, x + y, x / d + y / d);
    Multiple(d, x - y, x / d - y / d);
  }

  lemma DividesProduct(d: nat, x: int, y: int)
    requires Divides(d, x)
    ensures Divides(d, x * y)
  {
    Quotient(d, x);
    Multiple(d, x * y, x / d * y);
  }

  lemma DividesTransitive(d: nat, e: nat, n: int)
    requires Divides(d, e) && Divides(e, n)
    ensures Divides(d, n)
  {
    Quotient(e, n);
    DividesProduct(d, e, n / e);
  }

  lemma SmallMultipleIsZero(d: nat, n: int)
    requires Divides(d, n) && n < d && 0 < n + d
    ensures n == 0
  {
    Quotient(d, n);
    SizeOfMultiple(n / d, d);
  }

  lemma CongruentMeansDivides(x: nat, y: nat, m: nat)
    requires m > 0 && x % m == y % m
    ensures Divides(m, x - y)
  {
    Multiple(m, x - y, x / m - y / m);
  }

  lemma DividesMeansCongruent(x: nat, y: nat, m: nat)
    requires m > 0 && Divides(m, x - y)
    ensures x % m == y % m
  {
    Quotient(m, x - y);
    var q := (x - y) / m;
    var r := y % m;
    Multiple(m, x - r, q + y / m);
    SizeOfMultiple(q + y / m - x / m, m);
  }

  lemma CoprimeSymmetric(a: nat, b: nat)
    requires Coprime(a, b)
    ensures Coprime(b, a)
  {
  }

  lemma CoprimeMinus(a: nat, b: nat)
    requires Coprime(a, b) && b >= a
    ensures Coprime(a, b - a)
  {
    forall d: nat | d > 1 && Divides(d, a) ensures !Divides(d, b - a) {
      if Divides(d, b - a) {
        DividesSum(d, b - a, a);
      }
    }
  }

  /** Euclid's lemma: a factor coprime to `a` can be cancelled from a multiple of `a`. */
  lemma {:induction false} EuclidsLemma(a: nat, b: nat, x: int)
    requires a > 0 && Coprime(a, b) && Divides(a, b * x)
    ensures Divides(a, x)
    decreases a + b, a
  {
    if b == 0 {
      assert Divides(a, a) by { Multiple(a, a, 1); }
    } else if b >= a {
      CoprimeMinus(a, b);
      Multiple(a, a * x, x);
      DividesSum(a, b * x, a * x);
      assert b * x - a * x == (b - a) * x;
      EuclidsLemma(a, b - a, x);
    } else {
      var y := b * x / a;
      Quotient(a, b * x);
      Multiple(b, a * y, x);
      CoprimeSymmetric(a, b);
      EuclidsLemma(b, a, y);
      Quotient(b, y);
      var z := y / b;
      CancelFactor(b, x, z * a);
      Multiple(a, x, z);
    }
  }

  lemma CancelFactor(b: nat, x: int, y: int)
    requires b > 0 && b * x == b * y
    ensures x == y
  {
    assert b * (x - y) == 0;
  }

  // ---------------------------------------------------------------------------------------
  // Threads never share a nonce
  // ---------------------------------------------------------------------------------------

  /** No thread's first nonce has wrapped. */
  predicate StartsFit(threads: nat) {
    threads >= 1 && (threads - 1) * SPREAD < TWO64
  }

  /** No two threads share a nonce as long as neither has wrapped. */
  ghost predicate DisjointBeforeWrap(threads: nat) {
    forall i: nat, j: nat, a: nat, b: nat ::
      i < j < threads && Unwrapped(threads, i, a) < TWO64 && Unwrapped(threads, j, b) < TWO64
      ==> NonceAt(threads, i, a) != NonceAt(threads, j, b)
  }

  /** No two threads ever share a nonce. */
  ghost predicate DisjointForEver(threads: nat) {
    forall i: nat, j: nat, a: nat, b: nat :: i < j < threads ==> NonceAt(threads, i, a) != NonceAt(threads, j, b)
  }

  /** The loop's wrapping additions compute `NonceAt`. */
  lemma SteppingIsNonceAt(threads: nat, thread: nat, k: nat)
    ensures NonceAt(threads, thread, k) == (thread * 1_000_000_007 + k * threads) % 0x1_0000_0000_0000_0000
    ensures NonceAt(threads, thread, 0) == Start(thread)
    ensures NextNonce(threads, NonceAt(threads, thread, k)) == NonceAt(threads, thread, k + 1)
  {
    var x := Unwrapped(threads, thread, k);
    assert Unwrapped(threads, thread, k + 1) == x + threads by { assert (k + 1) * threads == k * threads + threads; }
    var q := x / TWO64;
    Multiple(TWO64, x % TWO64 + threads - (x + threads), -q);
    DividesMeansCongruent(x % TWO64 + threads, x + threads, TWO64);
  }

  /** If two nonces differ by a multiple of the thread count, they belong to the same thread. */
  lemma SameResidueSameThread(threads: nat, i: nat, j: nat, a: nat, b: nat)
    requires Coprime(threads, SPREAD) && i < threads && j < threads
    requires Divides(threads, Unwrapped(threads, i, a) - Unwrapped(threads, j, b))
    ensures i == j
  {
    var n := Unwrapped(threads, i, a) - Unwrapped(threads, j, b);
    Multiple(threads, (b - a) * threads, b - a);
    DividesSum(threads, n, (b - a) * threads);
    EuclidsLemma(threads, SPREAD, i - j);
    SmallMultipleIsZero(threads, i - j);
  }

  /** Two attempts with the same unwrapped nonce are the same attempt of the same thread. */
  lemma UnwrappedIsInjective(threads: nat, i: nat, j: nat, a: nat, b: nat)
    requires Coprime(threads, SPREAD) && i < threads && j < threads
    requires Unwrapped(threads, i, a) == Unwrapped(threads, j, b)
    ensures i == j && a == b
  {
    Multiple(threads, 0, 0);
    SameResidueSameThread(threads, i, j, a, b);
    CancelFactor(threads, a, b);
  }

  /**
   * As long as no nonce has wrapped, the threads are disjoint exactly when the thread count is
   * coprime to 1_000_000_007.  (Beyond 18_446_743_945 threads some thread starts after a wrap.)
   */
  lemma DisjointBeforeWrapIffCoprime(threads: nat)
    requires StartsFit(threads)
    ensures DisjointBeforeWrap(threads) <==> Coprime(threads, SPREAD)
  {
    if Coprime(threads, SPREAD) {
      CoprimeIsDisjointBeforeWrap(threads);
    } else {
      var d: nat :| d > 1 && Divides(d, threads) && Divides(d, SPREAD);
      var i, b := SharedFactorCollision(threads, d);
      ProductsOrder(i, threads - 1, SPREAD);
      assert Unwrapped(threads, i, 0) == i * SPREAD < TWO64;
      assert NonceAt(threads, 0, b) == NonceAt(threads, i, 0);
    }
  }

  lemma CoprimeIsDisjointBeforeWrap(threads: nat)
    requires Coprime(threads, SPREAD)
    ensures DisjointBeforeWrap(threads)
  {
    hide Coprime, Unwrapped;
    forall i: nat, j: nat, a: nat, b: nat |
      i < j < threads && Unwrapped(threads, i, a) < TWO64 && Unwrapped(threads, j, b) < TWO64
      ensures NonceAt(threads, i, a) != NonceAt(threads, j, b)
    {
      if Unwrapped(threads, i, a) == Unwrapped(threads, j, b) {
        UnwrappedIsInjective(threads, i, j, a, b);
      }
    }
  }

  /** A common factor lets thread 0 run onto another thread's first nonce. */
  lemma SharedFactorCollision(threads: nat, d: nat) returns (i: nat, b: nat)
    requires threads >= 1 && d > 1 && Divides(d, threads) && Divides(d, SPREAD)
    ensures 0 < i < threads && Unwrapped(threads, 0, b) == Unwrapped(threads, i, 0)
  {
    Quotient(d, threads);
    Quotient(d, SPREAD);
    i, b := threads / d, SPREAD / d;
    ScaleBy(i, SPREAD, b, d);
    ProperFactor(threads, i, d);
  }

  lemma DivisorOfTwo64IsCoprime(threads: nat)
    requires Divides(threads, TWO64)
    ensures Coprime(threads, SPREAD)
  {
    forall d: nat | d > 1 && Divides(d, threads) ensures !Divides(d, SPREAD) {
      if Divides(d, SPREAD) {
        DividesTransitive(d, threads, TWO64);
        DividesProduct(d, TWO64, BEZOUT_U);
        DividesProduct(d, SPREAD, BEZOUT_V);
        DividesSum(d, TWO64 * BEZOUT_U, SPREAD * BEZOUT_V);
        SmallMultipleIsZero(d, 1);
      }
    }
  }

  // `TWO64 * BEZOUT_U + SPREAD * BEZOUT_V == 1`
  const BEZOUT_U: int := 268203220
  const BEZOUT_V: int := -4947476124452486217

  /** One bit more: a multiple that is off by `e` times `p` is moved to be off by a multiple of `2 * p`. */
  lemma OneBitMore(m: nat, target: nat, p: nat, k: nat, e: int) returns (next: nat)
    requires m % 2 == 1 && p > 0 && k * m - target == e * p
    ensures Divides(2 * p, next * m - target)
  {
    if e % 2 == 0 {
      next := k;
      Multiple(2 * p, next * m - target, e / 2);
    } else {
      next := k + p;
      assert next * m - target == (e + m) * p;
      assert (e + m) / 2 * (2 * p) == (e + m) / 2 * 2 * p;
      Multiple(2 * p, next * m - target, (e + m) / 2);
    }
  }

  /** Every odd number has, modulo any power of two, a multiple that hits a given target. */
  lemma {:induction false} OddMultipleHits(m: nat, target: nat, w: nat) returns (k: nat)
    requires m % 2 == 1
    ensures Divides(Pow(2, w), k * m - target)
  {
    if w == 0 {
      k := 0;
      Multiple(1, k * m - target, k * m - target);
    } else {
      var k0 := OddMultipleHits(m, target, w - 1);
      Quotient(Pow(2, w - 1), k0 * m - target);
      k := OneBitMore(m, target, Pow(2, w - 1), k0, (k0 * m - target) / Pow(2, w - 1));
    }
  }

  lemma {:induction false} SplitPowerOfTwo(n: nat) returns (v: nat, m: nat)
    requires n > 0
    ensures m % 2 == 1 && n == Pow(2, v) * m
  {
    if n % 2 == 1 {
      v, m := 0, n;
    } else {
      v, m := SplitPowerOfTwo(n / 2);
      v := v + 1;
    }
  }

  /** Through any number of wrap-arounds the threads are disjoint exactly when the thread count divides 2^64. */
  lemma DisjointThroughWrapIffPowerOfTwo(threads: nat)
    requires 1 <= threads < TWO64
    ensures DisjointForEver(threads) <==> Divides(threads, TWO64)
  {
    if Divides(threads, TWO64) {
      forall i: nat, j: nat, a: nat, b: nat | i < j < threads ensures NonceAt(threads, i, a) != NonceAt(threads, j, b) {
        if NonceAt(threads, i, a) == NonceAt(threads, j, b) {
          WrappedSameThread(threads, i, j, a, b);
        }
      }
    } else {
      var i, k := WrappedCollision(threads);
      assert NonceAt(threads, 0, k) == NonceAt(threads, i, 0);
    }
  }

  lemma WrappedSameThread(threads: nat, i: nat, j: nat, a: nat, b: nat)
    requires Divides(threads, TWO64) && i < threads && j < threads
    requires NonceAt(threads, i, a) == NonceAt(threads, j, b)
    ensures i == j
  {
    CongruentMeansDivides(Unwrapped(threads, i, a), Unwrapped(threads, j, b), TWO64);
    DividesTransitive(threads, TWO64, Unwrapped(threads, i, a) - Unwrapped(threads, j, b));
    DivisorOfTwo64IsCoprime(threads);
    SameResidueSameThread(threads, i, j, a, b);
  }

  lemma ExponentIsSmall(v: nat, n: nat)
    requires n == 64 && Pow(2, v) < TWO64
    ensures v < n
  {
    TwoToThe64(n);
    ExponentsOrder(2, v, n);
  }

  /** A proper split `threads == i * m` with `m` odd and `i * 2^w == 2^64`. */
  lemma OddFactor(threads: nat, n: nat) returns (i: nat, m: nat, w: nat)
    requires n == 64 && 1 <= threads < TWO64 && !Divides(threads, TWO64)
    ensures m % 2 == 1 && threads == i * m && 0 < i < threads && i * Pow(2, w) == TWO64
  {
    hide Divides;
    var v;
    v, m := SplitPowerOfTwo(threads);
    i := Pow(2, v);
    hide Pow;
    assert m >= 1 && i >= 1;
    SizeOfMultiple(m, i);
    ExponentIsSmall(v, n);
    w := n - v;
    PowAdds(2, v, w);
    TwoToThe64(n);
    assert i * Pow(2, w) == Pow(2, w) * i;
    Multiple(i, TWO64, Pow(2, w));
    assert m != 1;
    ProperFactor(threads, i, m);
  }

  lemma ProperFactor(n: nat, i: nat, m: nat)
    requires i >= 1 && m >= 2 && n == i * m
    ensures i < n
  {
  }

  /** A thread count with an odd factor lets thread 0 wrap around onto another thread's first nonce. */
  lemma WrappedCollision(threads: nat) returns (i: nat, k: nat)
    requires 1 <= threads < TWO64 && !Divides(threads, TWO64)
    ensures 0 < i < threads && NonceAt(threads, 0, k) == NonceAt(threads, i, 0)
  {
    var m, w;
    i, m, w := OddFactor(threads, 64);
    k := OddMultipleHits(m, SPREAD, w);
    var u := Pow(2, w);
    Quotient(u, k * m - SPREAD);
    var q := (k * m - SPREAD) / u;
    ScaleBy(i, k * m - SPREAD, q, u);
    assert i * (k * m - SPREAD) == k * threads - i * SPREAD by {
      assert i * (k * m) == k * (i * m);
    }
    Multiple(TWO64, k * threads - i * SPREAD, q);
    DividesMeansCongruent(k * threads, i * SPREAD, TWO64);
  }

  lemma ScaleBy(i: int, n: int, q: int, u: int)
    requires n == q * u
    ensures i * n == q * (i * u)
  {
  }
}
