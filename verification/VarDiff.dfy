/**
 * The VarDiff controller.  Difficulties, rates and ratios are reals; the square root the source
 * takes is a witness `root` with `root >= 0` and `root * root == ratio`.
 */
module VarDiff {
  import opened SeqFacts

  const MIN_ELAPSED_SECS := 30.0
  const MAX_ELAPSED_SECS_NO_SHARES := 90.0
  const MIN_SHARES := 3.0
  const LOWER_RATIO := 0.75
  const UPPER_RATIO := 1.25
  const MAX_STEP_UP := 2.0
  const MAX_STEP_DOWN := 0.5
  const MIN_REL_CHANGE := 0.10
  const EPSILON := 1.0 / 4503599627370496.0

  function Abs(x: real): real {
    if x < 0.0 then -x else x
  }

  function Max(x: real, y: real): real {
    if x < y then y else x
  }

  function Clamp(x: real, low: real, high: real): real {
    if x < low then low else if x > high then high else x
  }

  // ---------------------------------------------------------------------------------------
  // Powers of two
  // ---------------------------------------------------------------------------------------

  function Pow2(k: nat): (p: real)
    ensures p >= 1.0
  {
    if k == 0 then 1.0 else 2.0 * Pow2(k - 1)
  }

  ghost predicate IsPow2(d: real) {
    exists k: nat :: d == Pow2(k)
  }

  /** `2^floor(log2 x)`, raised to 1 where that is below 1. */
  function FloorPow2(x: real): real
    decreases x.Floor
  {
    if x < 2.0 then 1.0 else 2.0 * FloorPow2(x / 2.0)
  }

  /** `2^ceil(log2 x)`, raised to 1 where that is below 1. */
  function CeilPow2(x: real): real
    decreases if x <= 1.0 then 0 else x.Floor
  {
    if x <= 1.0 then 1.0 else 2.0 * CeilPow2(x / 2.0)
  }

  lemma {:induction false} FloorPow2Is(k: nat, x: real)
    requires Pow2(k) <= x < 2.0 * Pow2(k)
    ensures FloorPow2(x) == Pow2(k)
  {
    if k > 0 {
      FloorPow2Is(k - 1, x / 2.0);
    }
  }

  lemma {:induction false} CeilPow2Is(k: nat, x: real)
    requires Pow2(k) < 2.0 * x <= 2.0 * Pow2(k)
    ensures CeilPow2(x) == Pow2(k)
  {
    if k > 0 {
      CeilPow2Is(k - 1, x / 2.0);
    }
  }

  /** Every real from 1 up lies between a power of two and its double. */
  lemma {:induction false} FloorPow2Brackets(x: real)
    requires x >= 1.0
    ensures IsPow2(FloorPow2(x)) && FloorPow2(x) <= x < 2.0 * FloorPow2(x)
    decreases x.Floor
  {
    if x < 2.0 {
    } else {
      FloorPow2Brackets(x / 2.0);
      var k: nat :| FloorPow2(x / 2.0) == Pow2(k);
      assert FloorPow2(x) == Pow2(k + 1);
    }
  }

  lemma {:induction false} Pow2Grows(j: nat, k: nat)
    requires j <= k
    ensures Pow2(j) <= Pow2(k)
    ensures j < k ==> 2.0 * Pow2(j) <= Pow2(k)
  {
    if j < k {
      Pow2Grows(j, k - 1);
    }
  }

  // ---------------------------------------------------------------------------------------
  // One adjustment
  // ---------------------------------------------------------------------------------------

  ghost predicate IsRoot(root: real, x: real) {
    root >= 0.0 && root * root == x
  }

  function Pow2ClampTowards(current: real, next: real): real {
    if next <= 0.0 then 1.0
    else if next >= current then CeilPow2(next)
    else FloorPow2(next)
  }

  function Ratio(shares: real, elapsed: real, expectedSpm: real): real
    requires elapsed > 0.0
  {
    shares / elapsed * 60.0 / Max(expectedSpm, 1.0)
  }

  /** What one worker's window showed: its shares, its length, the configured rate, and the root of the ratio. */
  datatype Window = Window(shares: real, elapsed: real, expectedSpm: real, root: real)

  ghost predicate RootFits(w: Window) {
    w.elapsed > 0.0 && Ratio(w.shares, w.elapsed, w.expectedSpm) > 0.0
    ==> IsRoot(w.root, Ratio(w.shares, w.elapsed, w.expectedSpm))
  }

  function AtLeastOne(current: real, next: real, clampPow2: bool): real {
    var floored := if next < 1.0 then 1.0 else next;
    if clampPow2 then Pow2ClampTowards(current, floored) else floored
  }

  function StepOf(w: Window): real {
    Clamp(w.root, MAX_STEP_DOWN, MAX_STEP_UP)
  }

  function Stepped(current: real, w: Window): real {
    current * StepOf(w)
  }

  /** Where a window with enough shares would take the difficulty. */
  function AimOf(current: real, w: Window, clampPow2: bool): real {
    AtLeastOne(current, Stepped(current, w), clampPow2)
  }

  /** A change of less than 10% is not reported. */
  function Reported(current: real, next: real): Option<real> {
    if Abs(next - current) / Max(current, 1.0) < MIN_REL_CHANGE then None
    else if Abs(next - current) > EPSILON then Some(next)
    else None
  }

  function NextDiff(current: real, w: Window, clampPow2: bool): Option<real>
    requires RootFits(w)
  {
    if current <= 0.0 then None
    else if w.elapsed <= 0.0 then None
    else if w.shares == 0.0 && w.elapsed >= MAX_ELAPSED_SECS_NO_SHARES then
      var next := AtLeastOne(current, current * MAX_STEP_DOWN, clampPow2);
      if Abs(next - current) > EPSILON then Some(next) else None
    else if w.elapsed < MIN_ELAPSED_SECS || w.shares < MIN_SHARES then None
    else
      var ratio := Ratio(w.shares, w.elapsed, w.expectedSpm);
      if ratio <= 0.0 then None
      else if LOWER_RATIO < ratio < UPPER_RATIO then None
      else
        Reported(current, AimOf(current, w, clampPow2))
  }

  /** One tick of the VarDiff thread for one worker. */
  function Tick(current: real, w: Window, clampPow2: bool): real
    requires RootFits(w)
  {
    match NextDiff(current, w, clampPow2)
    case None => current
    case Some(next) => next
  }

  // ---------------------------------------------------------------------------------------
  // What a tick decides, window by window
  // ---------------------------------------------------------------------------------------

  /** A window that is too short, or has too few shares without being silent for 90 s, changes nothing. */
  lemma QuietTick(d: real, w: Window, clampPow2: bool)
    requires RootFits(w)
    requires d <= 0.0 || w.elapsed < 30.0 || (w.shares < 3.0 && !(w.shares == 0.0 && w.elapsed >= 90.0))
    ensures NextDiff(d, w, clampPow2) == None
  {
  }

  /**
   * `n` is `x` raised to 1 and, with the clamp, rounded to a power of two: up if that is no way down from
   * `d`, and down otherwise.
   */
  ghost predicate IsTarget(n: real, d: real, x: real, clampPow2: bool) {
    var y := if x < 1.0 then 1.0 else x;
    if !clampPow2 then n == y
    else if y >= d then IsPow2(n) && y <= n < 2.0 * y
    else IsPow2(n) && n <= y < 2.0 * n
  }

  lemma {:induction false} CeilPow2Brackets(x: real)
    requires x >= 1.0
    ensures IsPow2(CeilPow2(x)) && x <= CeilPow2(x) < 2.0 * x
    decreases x.Floor, x
  {
    if x <= 1.0 {
      assert CeilPow2(x) == Pow2(0);
    } else if x < 2.0 {
      assert CeilPow2(x) == 2.0 * CeilPow2(x / 2.0) == Pow2(1);
    } else {
      CeilPow2Brackets(x / 2.0);
      var k: nat :| CeilPow2(x / 2.0) == Pow2(k);
      assert CeilPow2(x) == Pow2(k + 1);
    }
  }

  lemma AtLeastOneIsTarget(d: real, x: real, clampPow2: bool)
    ensures IsTarget(AtLeastOne(d, x, clampPow2), d, x, clampPow2)
  {
    var y := if x < 1.0 then 1.0 else x;
    CeilPow2Brackets(y);
    FloorPow2Brackets(y);
    hide CeilPow2, FloorPow2, IsPow2;
  }

  /** A window silent for 90 s or more aims at half the difficulty; anything but rounding noise is reported. */
  lemma SilentTick(d: real, w: Window, clampPow2: bool) returns (n: real)
    requires RootFits(w) && d > 0.0 && w.shares == 0.0 && w.elapsed >= 90.0
    ensures IsTarget(n, d, d / 2.0, clampPow2)
    ensures NextDiff(d, w, clampPow2)
            == if n - d > 1.0 / 4503599627370496.0 || d - n > 1.0 / 4503599627370496.0 then Some(n) else None
  {
    n := AtLeastOne(d, d * 0.5, clampPow2);
    AtLeastOneIsTarget(d, d * 0.5, clampPow2);
    assert d * 0.5 == d / 2.0;
    hide AtLeastOne, IsTarget;
  }

  /** The ratio is the rate of shares a minute over the configured rate, which counts as at least 1. */
  lemma RatioMeans(shares: real, elapsed: real, expectedSpm: real, r: real)
    requires elapsed > 0.0
    requires r * (if expectedSpm < 1.0 then 1.0 else expectedSpm) * elapsed == 60.0 * shares
    ensures r == Ratio(shares, elapsed, expectedSpm)
  {
    var spm := Max(expectedSpm, 1.0);
    var q := shares / elapsed;
    assert q * elapsed == shares;
    assert (r * spm - q * 60.0) * elapsed == 0.0;
    DivIs(q * 60.0, spm, r);
  }

  /**
   * A window of 30 s or more with 3 shares or more changes nothing while its ratio `r` is strictly between
   * 3/4 and 5/4.  Otherwise it aims at `d` times the root of `r`, at most doubling and halving, and reports
   * that if it is at least 10% away.
   */
  lemma BusyTick(d: real, w: Window, clampPow2: bool, r: real) returns (n: real, x: real)
    requires RootFits(w) && d > 0.0 && w.shares >= 3.0 && w.elapsed >= 30.0
    requires r * (if w.expectedSpm < 1.0 then 1.0 else w.expectedSpm) * w.elapsed == 60.0 * w.shares
    ensures 0.75 < r < 1.25 ==> NextDiff(d, w, clampPow2) == None
    ensures r >= 4.0 ==> x == 2.0 * d
    ensures r <= 0.25 ==> x == d / 2.0
    ensures 0.25 < r < 4.0 ==> x > 0.0 && x * x == r * d * d
    ensures IsTarget(n, d, x, clampPow2)
    ensures r <= 0.75 || r >= 1.25
            ==> NextDiff(d, w, clampPow2)
                == var margin := 0.1 * (if d < 1.0 then 1.0 else d);
                   if n - d >= margin || d - n >= margin then Some(n) else None
  {
    hide NextDiff, AimOf, AtLeastOne, IsTarget, Ratio, StepOf, Stepped, IsRoot;
    RatioMeans(w.shares, w.elapsed, w.expectedSpm, r);
    BusyRatioPositive(r, if w.expectedSpm < 1.0 then 1.0 else w.expectedSpm, w.elapsed);
    x := BusyTarget(d, w, r);
    n := AimOf(d, w, clampPow2);
    AimIsTarget(d, w, clampPow2);
    ReportedAtTenPercent(d, w, clampPow2, r, n);
  }

  lemma AimIsTarget(d: real, w: Window, clampPow2: bool)
    ensures IsTarget(AimOf(d, w, clampPow2), d, Stepped(d, w), clampPow2)
  {
    AtLeastOneIsTarget(d, Stepped(d, w), clampPow2);
    hide StepOf, Stepped, IsTarget, AtLeastOne;
  }

  lemma BusyTarget(d: real, w: Window, r: real) returns (x: real)
    requires d > 0.0 && r > 0.0 && IsRoot(w.root, r)
    ensures x == Stepped(d, w)
    ensures r >= 4.0 ==> x == 2.0 * d
    ensures r <= 0.25 ==> x == d / 2.0
    ensures 0.25 < r < 4.0 ==> x > 0.0 && x * x == r * d * d
  {
    hide StepOf;
    StepIs(r, w);
    x := Stepped(d, w);
    if 0.25 < r < 4.0 { ScaledRoot(d, StepOf(w), r); }
  }

  lemma BusyRatioPositive(r: real, spm: real, elapsed: real)
    requires spm >= 1.0 && elapsed > 0.0 && r * spm * elapsed > 0.0
    ensures r > 0.0
  {
    if r < 0.0 {
      MulPositive(-r, spm);
      MulPositive(-r * spm, elapsed);
    }
  }

  lemma ScaledRoot(d: real, s: real, r: real)
    requires d > 0.0 && s >= 0.0 && s * s == r && r > 0.0
    ensures d * s > 0.0 && (d * s) * (d * s) == r * d * d
  {
    assert s != 0.0;
    MulPositive(d, s);
    assert (d * s) * (d * s) == (s * s) * d * d;
  }

  lemma ReportedAtTenPercent(d: real, w: Window, clampPow2: bool, r: real, n: real)
    requires RootFits(w) && d > 0.0 && w.shares >= 3.0 && w.elapsed >= 30.0
    requires r == Ratio(w.shares, w.elapsed, w.expectedSpm) > 0.0
    requires n == AimOf(d, w, clampPow2)
    ensures 0.75 < r < 1.25 ==> NextDiff(d, w, clampPow2) == None
    ensures r <= 0.75 || r >= 1.25
            ==> NextDiff(d, w, clampPow2)
                == var margin := 0.1 * (if d < 1.0 then 1.0 else d);
                   if n - d >= margin || d - n >= margin then Some(n) else None
  {
    BusyNextDiff(d, w, clampPow2, r);
    TenPercent(d, n);
    hide NextDiff, Ratio, AimOf, RootFits, Reported;
  }

  lemma BusyNextDiff(d: real, w: Window, clampPow2: bool, r: real)
    requires RootFits(w) && d > 0.0 && w.shares >= 3.0 && w.elapsed >= 30.0
    requires r == Ratio(w.shares, w.elapsed, w.expectedSpm) > 0.0
    ensures NextDiff(d, w, clampPow2) == if 0.75 < r < 1.25 then None else Reported(d, AimOf(d, w, clampPow2))
  {
    hide Ratio, RootFits, Reported, AimOf, AtLeastOne;
  }

  lemma TenPercent(d: real, n: real)
    requires d > 0.0
    ensures Reported(d, n) == var margin := 0.1 * (if d < 1.0 then 1.0 else d);
                              if n - d >= margin || d - n >= margin then Some(n) else None
  {
    DivBelow(Abs(n - d), Max(d, 1.0), 0.1);
  }

  // ---------------------------------------------------------------------------------------
  // A steady miner: every window shows the ratio `c / difficulty`
  // ---------------------------------------------------------------------------------------

  ghost predicate ShowsSteady(c: real, d: real, w: Window) {
    && RootFits(w)
    && w.elapsed >= MIN_ELAPSED_SECS && w.shares >= MIN_SHARES
    && d > 0.0 && Ratio(w.shares, w.elapsed, w.expectedSpm) == c / d
  }

  /** `ds[i + 1]` is the difficulty after the window `ws[i]` at difficulty `ds[i]`. */
  ghost predicate SteadyRun(c: real, ds: seq<real>, ws: seq<Window>, clampPow2: bool) {
    && |ds| == |ws| + 1
    && ds[0] >= 1.0
    && forall i :: 0 <= i < |ws| ==> ShowsSteady(c, ds[i], ws[i]) && ds[i + 1] == Tick(ds[i], ws[i], clampPow2)
  }

  /** Nothing more to adjust: inside the open band, or too low a rate at the floor. */
  predicate AtRest(c: real, d: real)
    requires d >= 1.0
  {
    LOWER_RATIO < c / d < UPPER_RATIO || (c / d <= LOWER_RATIO && 0.9 * d < 1.0)
  }

  // Nonlinear facts, one at a time.

  lemma DivIs(a: real, b: real, q: real)
    requires b > 0.0 && a == q * b
    ensures a / b == q
  {
  }

  lemma DivBelow(a: real, b: real, q: real)
    requires b > 0.0
    ensures a / b < q <==> a < q * b
  {
    var x := a / b;
    assert a == x * b;
    if x < q { MulPositive(q - x, b); }
    if q < x { MulPositive(x - q, b); }
  }

  lemma MulPositive(x: real, y: real)
    requires x > 0.0 && y > 0.0
    ensures x * y > 0.0
  {
  }

  lemma RatioPositive(c: real, d: real)
    requires c > 0.0 && d > 0.0
    ensures c / d > 0.0
  {
  }

  lemma SquareGrows(x: real, y: real)
    requires 0.0 <= x < y
    ensures x * x < y * y
  {
    MulPositive(y - x, y + x);
    assert (y - x) * (y + x) == y * y - x * x;
  }

  lemma RootBounds(root: real, x: real, bound: real)
    requires IsRoot(root, x) && bound >= 0.0
    ensures bound * bound < x <==> bound < root
    ensures bound * bound == x <==> bound == root
  {
    if root < bound { SquareGrows(root, bound); }
    if bound < root { SquareGrows(bound, root); }
  }

  /** A tick under a steady miner, with its 10% test freed from the division. */
  lemma SteadyTickIs(c: real, d: real, w: Window, clampPow2: bool) returns (s: real, next: real)
    requires d >= 1.0 && c > 0.0 && ShowsSteady(c, d, w)
    ensures c / d > 0.0 && IsRoot(w.root, c / d)
    ensures s == StepOf(w) && next == AtLeastOne(d, d * s, clampPow2)
    ensures 0.75 < c / d < 1.25 || Abs(next - d) < 0.1 * d ==> Tick(d, w, clampPow2) == d
    ensures !(0.75 < c / d < 1.25) && Abs(next - d) >= 0.1 * d ==> Tick(d, w, clampPow2) == next
  {
    hide Ratio, AtLeastOne;
    RatioPositive(c, d);
    s := StepOf(w);
    next := AtLeastOne(d, d * s, clampPow2);
    DivBelow(Abs(next - d), d, 0.1);
  }

  /** The step is the root of the ratio, capped at halving and doubling. */
  lemma StepIs(r: real, w: Window)
    requires r > 0.0 && IsRoot(w.root, r)
    ensures r >= 4.0 ==> StepOf(w) == 2.0
    ensures r <= 0.25 ==> StepOf(w) == 0.5
    ensures 0.25 <= r <= 4.0 ==> StepOf(w) == w.root && w.root * w.root == r
    ensures r >= 1.25 ==> StepOf(w) > 1.11
    ensures r <= 0.75 ==> StepOf(w) < 0.89
  {
    RootBounds(w.root, r, 2.0);
    RootBounds(w.root, r, 0.5);
    RootBounds(w.root, r, 1.11);
    RootBounds(w.root, r, 0.89);
  }

  /** Scaling the difficulty by `s` divides the ratio by `s`; by the root it leaves the root. */
  lemma Rescale(c: real, d: real, r: real, s: real)
    requires d > 0.0 && s > 0.0 && r * d == c
    ensures d * s > 0.0
    ensures c / (d * s) == r / s
    ensures s * s == r ==> c / (d * s) == s
  {
    MulPositive(d, s);
    var q := r / s;
    assert q * s == r;
    assert q * (d * s) == (q * s) * d == c;
    DivIs(c, d * s, q);
    if s * s == r { DivIs(r, s, s); }
  }

  /** Where a step above 1.11 leads, and that it passes the 10% test. */
  lemma TargetAbove(d: real, s: real)
    requires d >= 1.0 && s > 1.11
    ensures AtLeastOne(d, d * s, false) == d * s && d * s - d >= 0.1 * d
  {
    hide Abs;
    MulPositive(s - 1.11, d);
    assert d * s > 1.11 * d;
    TargetOf(d, d * s);
  }

  /** Where a step below 0.89 leads, and that only the floor fails the 10% test. */
  lemma TargetBelow(d: real, s: real)
    requires d >= 1.0 && 0.0 < s < 0.89
    ensures AtLeastOne(d, d * s, false) == if d * s < 1.0 then 1.0 else d * s
    ensures d * s < 0.89 * d
    ensures Abs(AtLeastOne(d, d * s, false) - d) < 0.1 * d <==> 0.9 * d < 1.0
  {
    MulPositive(d, s);
    MulPositive(0.89 - s, d);
    assert d * s < 0.89 * d;
    TargetOf(d, d * s);
    hide AtLeastOne, Abs;
  }

  lemma TargetOf(d: real, x: real)
    requires d >= 1.0 && 0.0 < x
    ensures AtLeastOne(d, x, false) == if x < 1.0 then 1.0 else x
    ensures x > 1.11 * d ==> x >= 1.0 && x - d >= 0.1 * d
    ensures x < 0.89 * d ==> (Abs(AtLeastOne(d, x, false) - d) < 0.1 * d <==> 0.9 * d < 1.0)
  {
  }

  /**
   * What one unclamped tick does under a steady miner, in terms of the ratio `r = c / d` before and
   * `c / d'` after.  Outside the band the new ratio is the square root of the old one, or the old one
   * halved or doubled where the step is capped, unless the difficulty lands on the floor.  The 10%
   * filter keeps a change back only when the floor is within 10% below `d`.
   */
  lemma SteadyTickUp(c: real, d: real, w: Window)
    requires c > 0.0 && d >= 1.0 && ShowsSteady(c, d, w) && c / d >= 1.25
    ensures Tick(d, w, false) > d
    ensures c / d > 4.0 ==> Tick(d, w, false) == 2.0 * d && c / Tick(d, w, false) == c / d / 2.0
    ensures c / d <= 4.0 ==> IsRoot(c / Tick(d, w, false), c / d)
  {
    hide NextDiff, Tick, Ratio, StepOf, AtLeastOne, IsRoot;
    var r := c / d;
    var s, next := SteadyTickIs(c, d, w, false);
    StepIs(r, w);
    TargetAbove(d, s);
    Rescale(c, d, r, s);
  }

  lemma SteadyTickDown(c: real, d: real, w: Window) returns (s: real)
    requires c > 0.0 && d >= 1.0 && ShowsSteady(c, d, w) && c / d <= 0.75 && !AtRest(c, d)
    ensures 0.0 < s < 0.89 && 1.0 <= Tick(d, w, false) < d
    ensures if c / d < 0.25 then s == 0.5 else IsRoot(s, c / d)
    ensures d * s <= 1.0 ==> Tick(d, w, false) == 1.0 && c < 1.0
    ensures d * s > 1.0
            ==> Tick(d, w, false) == d * s && c / Tick(d, w, false) == if c / d < 0.25 then 2.0 * (c / d) else s
  {
    hide NextDiff, Tick, Ratio, StepOf, AtLeastOne;
    var r := c / d;
    var next;
    s, next := SteadyTickIs(c, d, w, false);
    StepIs(r, w);
    TargetBelow(d, s);
    if d * s <= 1.0 {
      FloorIsBelowOne(c, d, r, s);
    } else {
      Rescale(c, d, r, s);
    }
  }

  /** The floor is only reached from a ratio whose rescaled value is below 1. */
  lemma FloorIsBelowOne(c: real, d: real, r: real, s: real)
    requires d >= 1.0 && r * d == c && 0.0 < s < 1.0 && d * s <= 1.0
    requires r <= s * s || (s == 0.5 && r < 0.25)
    ensures c < 1.0
  {
    assert r <= s * s;
    assert c <= s * s * d by { if r < s * s { MulPositive(s * s - r, d); } }
    assert s * (d * s) <= s by { if d * s < 1.0 { MulPositive(s, 1.0 - d * s); } }
  }

  lemma SteadyTickAtRest(c: real, d: real, w: Window)
    requires c > 0.0 && d >= 1.0 && ShowsSteady(c, d, w) && AtRest(c, d)
    ensures Tick(d, w, false) == d
  {
    var s, next := SteadyTickIs(c, d, w, false);
    if c / d <= 0.75 {
      StepIs(c / d, w);
      TargetBelow(d, s);
    }
  }

  // ---------------------------------------------------------------------------------------
  // Convergence without the power-of-two clamp
  // ---------------------------------------------------------------------------------------

  /** How often a ratio above 4 must be halved to come down to 4. */
  function Halvings(r: real): nat
    decreases if r <= 4.0 then 0 else r.Floor
  {
    if r <= 4.0 then 0 else 1 + Halvings(r / 2.0)
  }

  /** Halvings or doublings needed to bring the ratio into [1/4, 4]. */
  function CappedSteps(r: real): nat
    requires r > 0.0
  {
    if r >= 1.0 then Halvings(r) else Halvings(1.0 / r)
  }

  /** An upper bound on the adjustments still to come. */
  ghost function StepsToRest(c: real, d: real): nat
    requires c > 0.0 && d >= 1.0 && c / d > 0.0
  {
    var r := c / d;
    if AtRest(c, d) then 0
    else if r > 4.0 then 3 + Halvings(r)
    else if r >= 1.0 then (if r >= 2.44140625 then 3 else if r >= 1.5625 then 2 else 1)
    else if r < 0.25 then 3 + Halvings(1.0 / r)
    else (if r <= 0.31640625 then 3 else if r <= 0.5625 then 2 else 1)
  }

  lemma HalvingTheInverse(r: real)
    requires 0.0 < r
    ensures 1.0 / (2.0 * r) == 1.0 / r / 2.0
    ensures r < 0.25 <==> 1.0 / r > 4.0
  {
    var x := 1.0 / r;
    assert x * r == 1.0;
    DivIs(1.0, 2.0 * r, x / 2.0);
    DivBelow(1.0, r, 4.0);
    if x == 4.0 { assert 4.0 * r == 1.0; }
    if r == 0.25 { DivIs(1.0, r, 4.0); }
  }

  lemma UpIsCloser(c: real, d: real, w: Window)
    requires c > 0.0 && d >= 1.0 && ShowsSteady(c, d, w) && c / d >= 1.25
    ensures var next := Tick(d, w, false);
            next > d && c / next >= 1.0 && StepsToRest(c, next) < StepsToRest(c, d)
  {
    hide RootFits, Ratio, Tick;
    SteadyTickUp(c, d, w);
    var r, q := c / d, c / Tick(d, w, false);
    if r <= 4.0 {
      RootBounds(q, r, 1.0);
      RootBounds(q, r, 1.25);
      RootBounds(q, r, 1.5625);
      RootBounds(q, r, 2.0);
    }
  }

  lemma DownIsCloser(c: real, d: real, w: Window)
    requires c > 0.0 && d >= 1.0 && ShowsSteady(c, d, w) && 0.0 < c / d <= 0.75 && !AtRest(c, d)
    ensures var next := Tick(d, w, false);
            1.0 <= next < d && 0.0 < c / next <= 1.0 && StepsToRest(c, next) < StepsToRest(c, d)
  {
    hide RootFits, Ratio, Tick;
    var s := SteadyTickDown(c, d, w);
    var r, next := c / d, Tick(d, w, false);
    var q := c / next;
    RatioPositive(c, next);
    if d * s <= 1.0 {
    } else if r >= 0.25 {
      RootBounds(q, r, 1.0);
      RootBounds(q, r, 0.75);
      RootBounds(q, r, 0.5625);
      RootBounds(q, r, 0.5);
    } else {
      HalvingTheInverse(r);
      HalvingTheInverse(2.0 * r);
    }
  }

  /** Every tick away from rest takes one step off the bound and keeps the ratio on its side of 1. */
  lemma OneStepCloser(c: real, d: real, w: Window)
    requires c > 0.0 && d >= 1.0 && ShowsSteady(c, d, w) && c / d > 0.0
    ensures var next := Tick(d, w, false);
            && next >= 1.0 && c / next > 0.0
            && (AtRest(c, d) <==> next == d)
            && (!AtRest(c, d) ==> StepsToRest(c, next) < StepsToRest(c, d))
            && (c / d >= 1.0 ==> next >= d && c / next >= 1.0)
            && (c / d <= 1.0 ==> next <= d && c / next <= 1.0)
  {
    hide RootFits, Ratio, Tick, StepsToRest;
    if AtRest(c, d) {
      SteadyTickAtRest(c, d, w);
    } else if c / d >= 1.25 {
      UpIsCloser(c, d, w);
    } else {
      DownIsCloser(c, d, w);
    }
  }

  /**
   * Convergence.  Under a steady miner the unclamped controller never overshoots ratio 1 (the
   * difficulty moves monotonically towards `c`), and after at most three adjustments more than the
   * halvings or doublings needed to bring the ratio into [1/4, 4] it is at rest: inside the band, or
   * with too few shares at the floor.
   */
  lemma {:induction false} SteadyRunConverges(c: real, ds: seq<real>, ws: seq<Window>, i: nat)
    requires c > 0.0 && SteadyRun(c, ds, ws, false) && i < |ds|
    ensures ds[i] >= 1.0 && c / ds[i] > 0.0 && c / ds[0] > 0.0
    ensures c / ds[0] >= 1.0 ==> c / ds[i] >= 1.0 && ds[0] <= ds[i]
    ensures c / ds[0] <= 1.0 ==> c / ds[i] <= 1.0 && ds[i] <= ds[0]
    ensures AtRest(c, ds[i]) || StepsToRest(c, ds[i]) + i <= StepsToRest(c, ds[0])
    ensures i >= 3 + CappedSteps(c / ds[0]) ==> AtRest(c, ds[i])
  {
    if i == 0 {
      RatioPositive(c, ds[0]);
      HalvingTheInverse(c / ds[0]);
    } else {
      SteadyRunConverges(c, ds, ws, i - 1);
      OneStepCloser(c, ds[i - 1], ws[i - 1]);
    }
    AtMostThreeMore(c, ds[0]);
  }

  lemma AtMostThreeMore(c: real, d: real)
    requires c > 0.0 && d >= 1.0 && c / d > 0.0
    ensures StepsToRest(c, d) <= 3 + CappedSteps(c / d)
    ensures StepsToRest(c, d) == 0 <==> AtRest(c, d)
  {
    HalvingTheInverse(c / d);
  }

  /** A tick keeps the difficulty or goes to one of two targets: the halved one of a silent window, or the step's. */
  lemma TickTargets(d: real, w: Window, clampPow2: bool)
    requires RootFits(w)
    ensures var next := Tick(d, w, clampPow2);
            || next == d
            || next == AtLeastOne(d, d * StepOf(w), clampPow2)
            || next == AtLeastOne(d, d * MAX_STEP_DOWN, clampPow2)
    ensures w.shares == 0.0
            ==> Tick(d, w, clampPow2) == d || Tick(d, w, clampPow2) == AtLeastOne(d, d * MAX_STEP_DOWN, clampPow2)
    ensures NextDiff(d, w, clampPow2).Some? ==> Tick(d, w, clampPow2) != d
  {
    hide Ratio, RootFits, AtLeastOne;
  }

  /** Whatever the window, an unclamped tick from 1 or more stays within half and double, and at 1 or more. */
  lemma TickStaysWithinDouble(d: real, w: Window)
    requires d >= 1.0 && RootFits(w)
    ensures Tick(d, w, false) >= 1.0
    ensures 0.5 * d <= Tick(d, w, false) <= 2.0 * d
    ensures w.shares == 0.0 ==> Tick(d, w, false) <= d
  {
    hide NextDiff, Tick, Ratio, RootFits, StepOf, AtLeastOne;
    TickTargets(d, w, false);
    StepInRange(w);
    StepKeepsWithinDouble(d, StepOf(w));
    TargetInRange(d, d * StepOf(w));
    TargetInRange(d, d * MAX_STEP_DOWN);
  }

  lemma TargetInRange(d: real, x: real)
    requires d >= 1.0 && 0.5 * d <= x <= 2.0 * d
    ensures var next := AtLeastOne(d, x, false);
            next >= 1.0 && 0.5 * d <= next <= 2.0 * d && (x <= d ==> next <= d)
  {
  }

  lemma StepInRange(w: Window)
    ensures 0.5 <= StepOf(w) <= 2.0
  {
  }

  // ---------------------------------------------------------------------------------------
  // Any run, with the power-of-two clamp
  // ---------------------------------------------------------------------------------------

  /** The difficulty a server starts from: the configured integer, rounded down to a power of two. */
  function StartDiff(minShareDiff: nat, pow2Clamp: bool): real {
    var minDiff :=
      if pow2Clamp && minShareDiff > 0 then FloorPow2(minShareDiff as real) else minShareDiff as real;
    if minDiff == 0.0 then 4.0 else minDiff
  }

  /** A run under arbitrary windows: any shares, any lengths, silence, changing target rates. */
  ghost predicate ClampedRun(ds: seq<real>, ws: seq<Window>) {
    && |ds| == |ws| + 1
    && forall i :: 0 <= i < |ws| ==> RootFits(ws[i]) && ds[i + 1] == Tick(ds[i], ws[i], true)
  }

  /**
   * With the clamp the start difficulty is a power of two, the one that brackets the configured value from
   * below; without it, the value itself.  Zero stands for 4 either way.
   */
  lemma StartDiffIsPow2(minShareDiff: nat)
    ensures IsPow2(StartDiff(minShareDiff, true))
    ensures minShareDiff > 0
            ==> StartDiff(minShareDiff, true) <= minShareDiff as real < 2.0 * StartDiff(minShareDiff, true)
    ensures minShareDiff > 0 ==> StartDiff(minShareDiff, false) == minShareDiff as real
    ensures StartDiff(0, true) == StartDiff(0, false) == 4.0
  {
    if minShareDiff > 0 {
      FloorPow2Brackets(minShareDiff as real);
    } else {
      assert Pow2(2) == 2.0 * Pow2(1) == 4.0;
    }
  }

  /** Rounding away from `2^k` a value between its half and its double. */
  lemma RoundingFromPow2(k: nat, x: real)
    requires 0.5 * Pow2(k) <= x <= 2.0 * Pow2(k)
    ensures var next := AtLeastOne(Pow2(k), x, true);
            && (x > Pow2(k) ==> next == Pow2(k + 1))
            && (x == Pow2(k) ==> next == Pow2(k))
            && (x < Pow2(k) ==> next == Pow2(if k == 0 then 0 else k - 1))
  {
    if x > Pow2(k) {
      CeilPow2Is(k + 1, x);
    } else if x == Pow2(k) {
      CeilPow2Is(k, x);
    } else if k > 0 {
      Pow2Grows(0, k - 1);
      FloorPow2Is(k - 1, x);
    } else {
      CeilPow2Is(0, 1.0);
    }
  }

  lemma StepKeepsWithinDouble(d: real, s: real)
    requires d > 0.0 && 0.5 <= s <= 2.0
    ensures 0.5 * d <= d * s <= 2.0 * d
    ensures s > 1.0 ==> d * s > d
    ensures s < 1.0 ==> d * s < d
  {
    if 0.5 < s { MulPositive(s - 0.5, d); }
    if s < 2.0 { MulPositive(2.0 - s, d); }
    if s > 1.0 { MulPositive(s - 1.0, d); }
    if s < 1.0 { MulPositive(1.0 - s, d); }
  }

  /** Whatever the window, a clamped tick keeps, doubles or halves a power of two, and never halves 1. */
  lemma ClampedTick(k: nat, w: Window)
    requires RootFits(w)
    ensures var next := Tick(Pow2(k), w, true);
            next == Pow2(k) || next == Pow2(k + 1) || (k > 0 && next == Pow2(k - 1))
  {
    hide NextDiff, Tick, Ratio, RootFits, StepOf, AtLeastOne;
    var d := Pow2(k);
    TickTargets(d, w, true);
    StepInRange(w);
    StepKeepsWithinDouble(d, StepOf(w));
    RoundingFromPow2(k, d * StepOf(w));
    RoundingFromPow2(k, d * MAX_STEP_DOWN);
  }

  /**
   * With the power-of-two clamp on, every difficulty of every run that starts from the server's
   * start value is a power of two (so at least 1), and every change is exactly a doubling or a halving.
   * The run is one of consecutive ticks, with no difficulty set in between.
   */
  lemma {:induction false} ClampedRunStaysOnPowersOfTwo(minShareDiff: nat, ds: seq<real>, ws: seq<Window>, i: nat)
    requires ClampedRun(ds, ws) && ds[0] == StartDiff(minShareDiff, true) && i < |ds|
    ensures IsPow2(ds[i]) && ds[i] >= 1.0
    ensures i + 1 < |ds| ==> ds[i + 1] == ds[i] || ds[i + 1] == 2.0 * ds[i] || ds[i + 1] == ds[i] / 2.0
  {
    if i == 0 {
      StartDiffIsPow2(minShareDiff);
    } else {
      ClampedRunStaysOnPowersOfTwo(minShareDiff, ds, ws, i - 1);
      var k: nat :| ds[i - 1] == Pow2(k);
      ClampedTick(k, ws[i - 1]);
    }
    if i + 1 < |ds| {
      var k: nat :| ds[i] == Pow2(k);
      ClampedTick(k, ws[i]);
    }
  }

  // ---------------------------------------------------------------------------------------
  // A silent worker
  // ---------------------------------------------------------------------------------------

  /** A silent window halves a power of two and leaves 1 alone, with the clamp or without. */
  lemma SilenceHalves(k: nat, w: Window, clampPow2: bool)
    requires RootFits(w) && w.shares == 0.0 && w.elapsed >= 90.0
    ensures Tick(Pow2(k), w, clampPow2) == Pow2(if k == 0 then 0 else k - 1)
  {
    var n := SilentTick(Pow2(k), w, clampPow2);
    HalfTarget(k, n, clampPow2);
    hide NextDiff, IsTarget, RootFits;
    if k > 0 { Pow2Grows(1, k); }
  }

  lemma HalfTarget(k: nat, n: real, clampPow2: bool)
    requires IsTarget(n, Pow2(k), Pow2(k) / 2.0, clampPow2)
    ensures n == Pow2(if k == 0 then 0 else k - 1)
  {
    if clampPow2 {
      var j: nat :| n == Pow2(j);
      if k > 0 { SamePow2(j, k - 1); } else { SamePow2(0, j); }
    }
  }

  lemma SamePow2(j: nat, k: nat)
    requires Pow2(j) <= Pow2(k) < 2.0 * Pow2(j)
    ensures j == k
  {
    if j <= k { Pow2Grows(j, k); } else { Pow2Grows(k, j); }
  }

  /** Without the clamp it halves any difficulty from 2 up. */
  lemma SilenceHalvesUnclamped(d: real, w: Window)
    requires RootFits(w) && d >= 2.0 && w.shares == 0.0 && w.elapsed >= 90.0
    ensures Tick(d, w, false) == d / 2.0
  {
    var n := SilentTick(d, w, false);
  }

  /** A worker that stays silent is brought down to 1, one halving a window. */
  lemma {:induction false} SilentRunComesDown(k: nat, ds: seq<real>, ws: seq<Window>, clampPow2: bool, i: nat)
    requires |ds| == |ws| + 1 && ds[0] == Pow2(k) && i < |ds|
    requires forall j :: 0 <= j < |ws|
               ==> && RootFits(ws[j]) && ws[j].shares == 0.0 && ws[j].elapsed >= 90.0
                   && ds[j + 1] == Tick(ds[j], ws[j], clampPow2)
    ensures ds[i] == Pow2(if i < k then k - i else 0)
  {
    if i > 0 {
      SilentRunComesDown(k, ds, ws, clampPow2, i - 1);
      SilenceHalves(if i - 1 < k then k - (i - 1) else 0, ws[i - 1], clampPow2);
    }
  }

  // ---------------------------------------------------------------------------------------
  // A steady miner, with the power-of-two clamp
  // ---------------------------------------------------------------------------------------

  /** The ratio at `d` or, after a doubling, at `d / 2` lies in [1.25, 1.5]: the next tick undoes the last one. */
  predicate Cycling(c: real, d: real)
    requires d >= 1.0
  {
    1.25 <= c / d <= 1.5 || (d >= 2.0 && 0.625 <= c / d <= 0.75)
  }

  /** Some power of two has a ratio that is too high while its double has one that is too low. */
  ghost predicate HasCycle(c: real) {
    exists k: nat :: 1.25 * Pow2(k) <= c <= 1.5 * Pow2(k)
  }

  /** Ticks needed to bring the ratio into [0.625, 1.5] by halving or doubling it. */
  ghost function Pow2Steps(r: real): nat
    requires r > 0.0
    decreases if r > 1.5 then r.Floor else if r < 0.625 then (1.0 / r).Floor else 0
  {
    HalvingTheInverse(r);
    DivBelow(1.0, r, 1.0);
    if r > 1.5 then 1 + Pow2Steps(r / 2.0)
    else if r < 0.625 then 1 + Pow2Steps(2.0 * r)
    else 0
  }

  lemma SteadyClampedTick(c: real, k: nat, w: Window)
    requires c > 0.0 && ShowsSteady(c, Pow2(k), w)
    ensures var (r, next) := (c / Pow2(k), Tick(Pow2(k), w, true));
            && (r >= 1.25 ==> next == Pow2(k + 1))
            && (0.75 < r < 1.25 ==> next == Pow2(k))
            && (r <= 0.75 ==> next == Pow2(if k == 0 then 0 else k - 1))
  {
    hide NextDiff, Tick, Ratio, AtLeastOne;
    var d := Pow2(k);
    var s, next := SteadyTickIs(c, d, w, true);
    StepIs(c / d, w);
    StepKeepsWithinDouble(d, s);
    RoundingFromPow2(k, d * s);
  }

  lemma RatioOfHalfAndDouble(c: real, d: real)
    requires d > 0.0
    ensures c / (2.0 * d) == c / d / 2.0
    ensures c / (d / 2.0) == 2.0 * (c / d)
  {
    var r := c / d;
    assert r * d == c;
    DivIs(c, 2.0 * d, r / 2.0);
    DivIs(c, d / 2.0, 2.0 * r);
  }

  ghost predicate Settled(c: real, d: real)
    requires d >= 1.0
  {
    AtRest(c, d) || Cycling(c, d)
  }

  /** A steady clamped tick gets closer, rests, or goes round a cycle of two difficulties. */
  lemma ClampedStepCloser(c: real, k: nat, w: Window)
    requires c > 0.0 && ShowsSteady(c, Pow2(k), w)
    ensures var (d, next) := (Pow2(k), Tick(Pow2(k), w, true));
            && IsPow2(next) && next >= 1.0 && c / d > 0.0 && c / next > 0.0
            && (AtRest(c, d) <==> next == d)
            && (Cycling(c, d) ==> Cycling(c, next) && (next == 2.0 * d || next == d / 2.0))
            && (Cycling(c, d) ==> (c / d >= 1.0 <==> c / next < 1.0))
            && (Settled(c, d) ==> Settled(c, next))
            && (!Settled(c, d) ==> Settled(c, next) || Pow2Steps(c / next) < Pow2Steps(c / d))
  {
    var d, next := Pow2(k), Tick(Pow2(k), w, true);
    SteadyClampedTick(c, k, w);
    RatioPositive(c, d);
    RatioPositive(c, next);
    RatioOfHalfAndDouble(c, d);
    if k > 0 { Pow2Grows(1, k); }
  }

  lemma CyclingIsACycle(c: real, k: nat)
    requires c > 0.0 && Cycling(c, Pow2(k))
    ensures HasCycle(c)
  {
    var d := Pow2(k);
    if 1.25 <= c / d <= 1.5 {
      StayBetween(c, d, 1.25, 1.5);
    } else {
      StayBetween(c, d, 0.625, 0.75);
      assert 1.25 * Pow2(k - 1) <= c <= 1.5 * Pow2(k - 1);
    }
  }

  /** A cycle anywhere rules out rest everywhere. */
  lemma CycleRulesOutRest(c: real, j: nat, k: nat)
    requires c > 0.0 && 1.25 * Pow2(j) <= c <= 1.5 * Pow2(j)
    ensures !AtRest(c, Pow2(k))
  {
    var d := Pow2(k);
    if k <= j {
      Pow2Grows(k, j);
      DivBelow(c, d, 1.25);
    } else {
      Pow2Grows(j, k);
      Pow2Grows(1, k);
      AtMost(c, d, 0.75);
    }
  }

  lemma AtMost(c: real, d: real, q: real)
    requires d > 0.0 && c <= q * d
    ensures c / d <= q
  {
    var r := c / d;
    assert r * d == c;
    if r > q { MulPositive(r - q, d); }
  }

  lemma StayBetween(c: real, d: real, low: real, high: real)
    requires d > 0.0 && low <= c / d <= high
    ensures low * d <= c <= high * d
  {
    var r := c / d;
    assert r * d == c;
    if low < r { MulPositive(r - low, d); }
    if r < high { MulPositive(high - r, d); }
  }

  /** A clamped steady run from a power of two is settled once it has made enough ticks. */
  lemma {:induction false} ClampedSteadyRunSettles(c: real, ds: seq<real>, ws: seq<Window>, i: nat)
    requires c > 0.0 && SteadyRun(c, ds, ws, true) && IsPow2(ds[0]) && i < |ds|
    ensures IsPow2(ds[i]) && ds[i] >= 1.0 && c / ds[i] > 0.0 && c / ds[0] > 0.0
    ensures Settled(c, ds[i]) || Pow2Steps(c / ds[i]) + i <= Pow2Steps(c / ds[0])
    ensures i > Pow2Steps(c / ds[0]) ==> Settled(c, ds[i])
  {
    if i == 0 {
      RatioPositive(c, ds[0]);
    } else {
      ClampedSteadyRunSettles(c, ds, ws, i - 1);
      var k: nat :| ds[i - 1] == Pow2(k);
      ClampedStepCloser(c, k, ws[i - 1]);
    }
  }

  /**
   * "The controller settles" is false with the power-of-two clamp.  A clamped steady run, once it has
   * made enough ticks, is at rest for good if and only if no power of two has its ratio in
   * [1.25, 1.5]; otherwise it alternates for ever between such a power of two and its double.
   */
  lemma ClampedSteadyRunRestsUnlessCycle(c: real, ds: seq<real>, ws: seq<Window>, i: nat)
    requires c > 0.0 && SteadyRun(c, ds, ws, true) && IsPow2(ds[0])
    requires c / ds[0] > 0.0 && Pow2Steps(c / ds[0]) < i < |ds|
    ensures ds[i] >= 1.0 && (AtRest(c, ds[i]) <==> !HasCycle(c))
    ensures !HasCycle(c) && i + 1 < |ds| ==> ds[i + 1] == ds[i]
    ensures HasCycle(c) && i + 1 < |ds| ==> ds[i + 1] == 2.0 * ds[i] || ds[i + 1] == ds[i] / 2.0
    ensures HasCycle(c) && i + 2 < |ds| ==> ds[i + 2] == ds[i] != ds[i + 1]
  {
    ClampedSteadyRunSettles(c, ds, ws, i);
    var k: nat :| ds[i] == Pow2(k);
    if Cycling(c, ds[i]) { CyclingIsACycle(c, k); }
    if HasCycle(c) {
      var j: nat :| 1.25 * Pow2(j) <= c <= 1.5 * Pow2(j);
      CycleRulesOutRest(c, j, k);
    }
    if i + 1 < |ds| {
      ClampedStepCloser(c, k, ws[i]);
      var next := ds[i + 1];
      if i + 2 < |ds| && HasCycle(c) {
        var j: nat :| next == Pow2(j);
        SteadyClampedTick(c, k, ws[i]);
        SteadyClampedTick(c, j, ws[i + 1]);
        UniqueExponent(j, k);
      }
    }
  }

  lemma UniqueExponent(j: nat, k: nat)
    ensures Pow2(j) == Pow2(k + 1) ==> j == k + 1
    ensures k > 0 && Pow2(j) == Pow2(k - 1) ==> j == k - 1
  {
    if j < k + 1 { Pow2Grows(j, k + 1); } else { Pow2Grows(k + 1, j); }
    if k > 0 { if j < k - 1 { Pow2Grows(j, k - 1); } else { Pow2Grows(k - 1, j); } }
  }

  /** No steady miner below `c = 1.25` has a cycle, and at 1.25 the controller goes round between 1 and 2. */
  lemma SmallestCycle()
    ensures forall c :: HasCycle(c) ==> c >= 1.25
    ensures HasCycle(1.25) && Cycling(1.25, 1.0) && Cycling(1.25, 2.0)
    ensures !AtRest(1.25, 1.0) && !AtRest(1.25, 2.0)
  {
    assert Pow2(0) == 1.0;
  }

  // Windows of a minute at a target of 8 shares a minute: 10 shares at difficulty 1, and 5 at 2.

  function BusyMinute(root: real): Window {
    Window(10.0, 60.0, 8.0, root)
  }

  function SlowMinute(root: real): Window {
    Window(5.0, 60.0, 8.0, root)
  }

  /** These windows show the rate of a steady miner with `c = 1.25`; a busy minute doubles 1, a slow one halves 2. */
  lemma MinutesAlternate(up: real, down: real)
    requires IsRoot(up, 1.25) && IsRoot(down, 0.625)
    ensures ShowsSteady(1.25, 1.0, BusyMinute(up)) && Tick(1.0, BusyMinute(up), true) == 2.0
    ensures ShowsSteady(1.25, 2.0, SlowMinute(down)) && Tick(2.0, SlowMinute(down), true) == 1.0
  {
    hide Tick, NextDiff;
    assert Pow2(0) == 1.0 && Pow2(1) == 2.0;
    SteadyClampedTick(1.25, 0, BusyMinute(up));
    SteadyClampedTick(1.25, 1, SlowMinute(down));
  }

  /** A clamped steady run that never comes to rest, for any number of ticks. */
  lemma EndlessAlternation(up: real, down: real, n: nat) returns (ds: seq<real>, ws: seq<Window>)
    requires IsRoot(up, 1.25) && IsRoot(down, 0.625)
    ensures SteadyRun(1.25, ds, ws, true) && |ws| == n
    ensures forall i :: 0 <= i < n ==> ws[i] == if i % 2 == 0 then BusyMinute(up) else SlowMinute(down)
    ensures forall i :: 0 <= i <= n ==> ds[i] == if i % 2 == 0 then 1.0 else 2.0
  {
    MinutesAlternate(up, down);
    hide Tick, ShowsSteady, IsRoot;
    ds := seq(n + 1, i => if i % 2 == 0 then 1.0 else 2.0);
    ws := seq(n, i => if i % 2 == 0 then BusyMinute(up) else SlowMinute(down));
  }
}
