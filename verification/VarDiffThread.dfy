/**
 * The VarDiff fields of a worker.  Three parties use them: share submission counts shares, the VarDiff
 * thread adjusts the difficulty, and job dispatch sets the difficulty or starts the first window.  Each
 * field has its own lock, held for one access only, so the accesses of the three interleave.
 *
 * `VarDiffHandler` has the source's methods, each run without interruption.  The step system below it
 * has one step for every access and lets the parties interleave.
 */
module VarDiffThread {
  import opened SeqFacts
  import opened VarDiff

  /** A worker's difficulty, the start of its window and the shares counted in it; times in seconds. */
  datatype Stats = Stats(minDiff: real, start: Option<real>, shares: nat)

  function WindowOf(start: real, shares: nat, now: real, expectedSpm: real, root: real): Window {
    Window(shares as real, Max(now - start, 0.0), expectedSpm, root)
  }

  ghost predicate RootKnown(s: Stats, now: real, expectedSpm: real, root: real) {
    s.start.Some? ==> RootFits(WindowOf(s.start.value, s.shares, now, expectedSpm, root))
  }

  /** What an uninterrupted tick makes of a worker. */
  function ThreadTick(s: Stats, now: real, expectedSpm: real, clampPow2: bool, root: real): Stats
    requires RootKnown(s, now, expectedSpm, root)
  {
    if s.start.None? then s
    else
      match NextDiff(s.minDiff, WindowOf(s.start.value, s.shares, now, expectedSpm, root), clampPow2)
      case None => s
      case Some(next) => Stats(next, Some(now), 0)
  }

  /**
   * A tick leaves a worker without a window alone, and one whose window calls for no change.  Otherwise the
   * worker gets the new difficulty and a fresh window from the tick's reading of the clock on.
   */
  lemma ThreadTickMeans(s: Stats, now: real, expectedSpm: real, clampPow2: bool, root: real)
    requires RootKnown(s, now, expectedSpm, root)
    ensures s.start.None? ==> ThreadTick(s, now, expectedSpm, clampPow2, root) == s
    ensures s.start.Some?
            ==> var elapsed := if now < s.start.value then 0.0 else now - s.start.value;
                var w := Window(s.shares as real, elapsed, expectedSpm, root);
                && RootFits(w)
                && ThreadTick(s, now, expectedSpm, clampPow2, root)
                   == var next := NextDiff(s.minDiff, w, clampPow2);
                      if next.None? then s else Stats(next.value, Some(now), 0)
  {
  }

  /** A worker whose window has been silent for 90 s is halved, down to 1, with the clamp or without. */
  lemma SilentWorkerIsHalved(s: Stats, now: real, expectedSpm: real, clampPow2: bool, root: real, k: nat)
    requires RootKnown(s, now, expectedSpm, root)
    requires s.minDiff == Pow2(k) && s.start.Some? && s.shares == 0 && now - s.start.value >= 90.0
    ensures ThreadTick(s, now, expectedSpm, clampPow2, root)
            == if k == 0 then s else Stats(Pow2(k - 1), Some(now), 0)
  {
    var w := WindowOf(s.start.value, s.shares, now, expectedSpm, root);
    SilenceHalves(k, w, clampPow2);
    if k > 0 { Pow2Grows(k - 1, k); }
    ReportedDiffIsNew(s.minDiff, w, clampPow2);
    hide NextDiff;
  }

  /** A worker's name. */
  datatype Worker = Worker(name: string)

  class VarDiffHandler {
    var stats: map<Worker, Stats>

    constructor ()
      ensures stats == map[]
    {
      stats := map[];
    }

    /** One tick of the thread over all live workers; `root(w)` is the square root it takes for `w`. */
    method VarDiffTick(now: real, expectedSpm: real, clampPow2: bool, root: Worker -> real)
      requires forall w :: w in stats ==> RootKnown(stats[w], now, expectedSpm, root(w))
      modifies this
      ensures stats.Keys == old(stats).Keys
      ensures forall w :: w in stats
                ==> stats[w] == ThreadTick(old(stats)[w], now, expectedSpm, clampPow2, root(w))
    {
      var todo := stats.Keys;
      while todo != {}
        invariant todo <= stats.Keys == old(stats).Keys
        invariant forall w :: w in todo ==> stats[w] == old(stats)[w]
        invariant forall w :: w in stats && w !in todo
                    ==> stats[w] == ThreadTick(old(stats)[w], now, expectedSpm, clampPow2, root(w))
        decreases todo
      {
        var w :| w in todo;
        todo := todo - {w};
        var v := stats[w];
        if v.start.Some? {
          var window := WindowOf(v.start.value, v.shares, now, expectedSpm, root(w));
          var nextOpt := NextDiff(v.minDiff, window, clampPow2);
          if nextOpt.Some? {
            stats := stats[w := Stats(nextOpt.value, Some(now), 0)];
          }
        }
      }
    }

    /** A worker whose stats were pruned is not recreated; its connection's own difficulty is returned. */
    method SetClientVarDiff(w: Worker, diff: real, now: real, stratumDiff: real) returns (previous: real)
      modifies this
      ensures w in old(stats)
              ==> previous == old(stats)[w].minDiff && stats == old(stats)[w := Stats(diff, Some(now), 0)]
      ensures w !in old(stats) ==> previous == stratumDiff && stats == old(stats)
    {
      if w !in stats {
        return stratumDiff;
      }
      previous := stats[w].minDiff;
      stats := stats[w := Stats(diff, Some(now), 0)];
    }

    method StartClientVarDiff(w: Worker, now: real)
      modifies this
      ensures w in old(stats) && old(stats)[w].start.None?
              ==> stats == old(stats)[w := Stats(old(stats)[w].minDiff, Some(now), 0)]
      ensures w !in old(stats) || old(stats)[w].start.Some? ==> stats == old(stats)
    {
      if w in stats && stats[w].start.None? {
        stats := stats[w := Stats(stats[w].minDiff, Some(now), 0)];
      }
    }
  }

  // ---------------------------------------------------------------------------------------
  // The accesses to one worker's fields, interleaved
  // ---------------------------------------------------------------------------------------

  /** How far the thread's tick is: each place is named after the last access made. */
  datatype TickPc = Idle | Clocked | GotStart | GotShares | Decided | DiffWritten | StartWritten

  /**
   * The tick's local values.  `clockAt` and `readAt` record the steps at which it read the clock and the
   * counter, `resetSeen` the last reset of the counter before that.
   */
  datatype Tick = Tick(
    pc: TickPc, now: real, start: real, shares: nat, next: real, clockAt: nat, readAt: nat, resetSeen: nat)

  /** How far a call of `set_client_vardiff` or `start_client_vardiff` is. */
  datatype CallPc =
    | SetEntered | PreviousRead | StartEntered | BeforeClock | CallClocked | CallStartWritten | Returned

  datatype Call = Call(pc: CallPc, diff: real, previous: real, now: real, clockAt: nat)

  /**
   * `n` counts the steps taken.  `openAt` records the step after which the clock was read for the
   * present `start`, `resetAt` the step after which the counter was last reset.
   */
  datatype State = State(stats: Stats, tick: Tick, calls: seq<Call>, n: nat, openAt: nat, resetAt: nat)

  datatype Config = Config(expectedSpm: real, clampPow2: bool)

  datatype Step =
    | ShareFound
    | TickClock(now: real)
    | TickReadStart
    | TickReadShares
    | TickDecide(root: real)
    | TickWrite
    | EnterSet(diff: real)
    | EnterStart
    | CallClock(i: nat, now: real)
    | CallStep(i: nat)

  const IDLE := Tick(Idle, 0.0, 0.0, 0, 0.0, 0, 0, 0)

  function Initial(minDiff: real): State {
    State(Stats(minDiff, None, 0), IDLE, [], 0, 0, 0)
  }

  /** A call looks the worker up under the lock that the thread holds throughout its tick. */
  ghost predicate Enabled(c: Config, s: State, step: Step) {
    match step
    case ShareFound => true
    case TickClock(_) => s.tick.pc == Idle
    case TickReadStart => s.tick.pc == Clocked
    case TickReadShares => s.tick.pc == GotStart
    case TickDecide(root) =>
      && s.tick.pc == GotShares
      && RootFits(WindowOf(s.tick.start, s.tick.shares, s.tick.now, c.expectedSpm, root))
    case TickWrite => s.tick.pc == Decided || s.tick.pc == DiffWritten || s.tick.pc == StartWritten
    case EnterSet(_) => s.tick.pc == Idle
    case EnterStart => s.tick.pc == Idle
    case CallClock(i, _) => i < |s.calls| && s.calls[i].pc == BeforeClock
    case CallStep(i) => i < |s.calls| && s.calls[i].pc != BeforeClock && s.calls[i].pc != Returned
  }

  /** The tick reads `min_diff` and decides; without a new difficulty it is over. */
  ghost function Decide(c: Config, s: State, root: real): State
    requires Enabled(c, s, TickDecide(root))
  {
    var w := WindowOf(s.tick.start, s.tick.shares, s.tick.now, c.expectedSpm, root);
    match NextDiff(s.stats.minDiff, w, c.clampPow2)
    case None => s.(tick := IDLE)
    case Some(next) => s.(tick := s.tick.(pc := Decided, next := next))
  }

  ghost function WriteFromTick(s: State): State {
    match s.tick.pc
    case Decided => s.(stats := s.stats.(minDiff := s.tick.next), tick := s.tick.(pc := DiffWritten))
    case DiffWritten =>
      s.(stats := s.stats.(start := Some(s.tick.now)), tick := s.tick.(pc := StartWritten), openAt := s.tick.clockAt)
    case _ => s.(stats := s.stats.(shares := 0), tick := IDLE, resetAt := s.n + 1)
  }

  ghost function StepCall(s: State, i: nat): State
    requires i < |s.calls|
  {
    var x := s.calls[i];
    match x.pc
    case SetEntered => s.(calls := s.calls[i := x.(pc := PreviousRead, previous := s.stats.minDiff)])
    case PreviousRead => s.(stats := s.stats.(minDiff := x.diff), calls := s.calls[i := x.(pc := BeforeClock)])
    case StartEntered =>
      s.(calls := s.calls[i := x.(pc := if s.stats.start.None? then BeforeClock else Returned)])
    case CallClocked =>
      s.(stats := s.stats.(start := Some(x.now)), calls := s.calls[i := x.(pc := CallStartWritten)],
         openAt := x.clockAt)
    case CallStartWritten =>
      s.(stats := s.stats.(shares := 0), calls := s.calls[i := x.(pc := Returned)], resetAt := s.n + 1)
    case _ => s
  }

  ghost function Effect(c: Config, s: State, step: Step): State
    requires Enabled(c, s, step)
  {
    match step
    case ShareFound => s.(stats := s.stats.(shares := s.stats.shares + 1))
    case TickClock(now) => s.(tick := IDLE.(pc := Clocked, now := now, clockAt := s.n + 1))
    case TickReadStart =>
      if s.stats.start.None? then s.(tick := IDLE)
      else s.(tick := s.tick.(pc := GotStart, start := s.stats.start.value))
    case TickReadShares =>
      s.(tick := s.tick.(pc := GotShares, shares := s.stats.shares, readAt := s.n + 1, resetSeen := s.resetAt))
    case TickDecide(root) => Decide(c, s, root)
    case TickWrite => WriteFromTick(s)
    case EnterSet(diff) => s.(calls := s.calls + [Call(SetEntered, diff, 0.0, 0.0, 0)])
    case EnterStart => s.(calls := s.calls + [Call(StartEntered, 0.0, 0.0, 0.0, 0)])
    case CallClock(i, now) =>
      s.(calls := s.calls[i := s.calls[i].(pc := CallClocked, now := now, clockAt := s.n + 1)])
    case CallStep(i) => StepCall(s, i)
  }

  ghost function Do(c: Config, s: State, step: Step): State
    requires Enabled(c, s, step)
  {
    Effect(c, s, step).(n := s.n + 1)
  }

  ghost predicate IsStepOf(c: Config, ss: seq<State>, steps: seq<Step>, k: nat)
    requires |ss| == |steps| + 1 && k < |steps|
  {
    Enabled(c, ss[k], steps[k]) && ss[k + 1] == Do(c, ss[k], steps[k])
  }

  /** An execution starts without a window, at any seeded difficulty; its clock readings are arbitrary. */
  ghost predicate IsExecution(c: Config, ss: seq<State>, steps: seq<Step>) {
    && |ss| == |steps| + 1
    && ss[0] == Initial(ss[0].stats.minDiff)
    && forall k: nat :: k < |steps| ==> IsStepOf(c, ss, steps, k)
  }

  /** The tick of the step system, left alone, is `ThreadTick`. */
  lemma LoneTickIsThreadTick(c: Config, s: State, now: real, root: real) returns (t: State)
    requires s.tick.pc == Idle && RootKnown(s.stats, now, c.expectedSpm, root)
    ensures t.stats == ThreadTick(s.stats, now, c.expectedSpm, c.clampPow2, root)
    ensures t.tick.pc == Idle && t.calls == s.calls
  {
    t := Do(c, s, TickClock(now));
    t := Do(c, t, TickReadStart);
    if s.stats.start.Some? {
      t := Do(c, t, TickReadShares);
      t := Do(c, t, TickDecide(root));
      if t.tick.pc == Decided {
        t := Do(c, t, TickWrite);
        t := Do(c, t, TickWrite);
        t := Do(c, t, TickWrite);
      }
    }
  }

  /**
   * With anything in between, the tick decides on what it has read, at the difficulty of the moment, and
   * then writes that decision, its own reading of the clock and a zero over whatever is there.
   */
  lemma TickActsOnWhatItRead(c: Config, s: State, root: real)
    requires s.tick.pc == GotShares
    requires RootFits(WindowOf(s.tick.start, s.tick.shares, s.tick.now, c.expectedSpm, root))
    ensures Enabled(c, s, TickDecide(root))
    ensures var t := Do(c, s, TickDecide(root));
            && t.stats == s.stats && t.calls == s.calls
            && (t.tick.pc == Decided <==> t.tick.pc != Idle)
            && NextDiff(s.stats.minDiff, WindowOf(s.tick.start, s.tick.shares, s.tick.now, c.expectedSpm, root),
                        c.clampPow2)
               == if t.tick.pc == Decided then Some(t.tick.next) else None
  {
    hide NextDiff;
  }

  lemma TickWritesWhatItDecided(c: Config, s: State)
    requires Enabled(c, s, TickWrite)
    ensures var (t, u) := (s.tick, Do(c, s, TickWrite));
            && (t.pc == Decided ==> u.stats == s.stats.(minDiff := t.next) && u.tick == t.(pc := DiffWritten))
            && (t.pc == DiffWritten ==> u.stats == s.stats.(start := Some(t.now)) && u.tick == t.(pc := StartWritten))
            && (t.pc == StartWritten ==> u.stats == s.stats.(shares := 0) && u.tick.pc == Idle)
            && u.calls == s.calls
  {
  }

  /** So is a set: left alone, it makes what `SetClientVarDiff` makes and holds what that returns. */
  lemma LoneSetIsSetClientVarDiff(c: Config, s: State, diff: real, now: real) returns (t: State)
    requires s.tick.pc == Idle
    ensures t.stats == Stats(diff, Some(now), 0) && t.tick == s.tick
    ensures |t.calls| == |s.calls| + 1 && t.calls[..|s.calls|] == s.calls
    ensures t.calls[|s.calls|].pc == Returned && t.calls[|s.calls|].previous == s.stats.minDiff
  {
    var i := |s.calls|;
    t := Do(c, s, EnterSet(diff));
    t := Do(c, t, CallStep(i));
    t := Do(c, t, CallStep(i));
    t := Do(c, t, CallClock(i, now));
    t := Do(c, t, CallStep(i));
    t := Do(c, t, CallStep(i));
  }

  /** And a start: left alone, it makes what `StartClientVarDiff` makes. */
  lemma LoneStartIsStartClientVarDiff(c: Config, s: State, now: real) returns (t: State)
    requires s.tick.pc == Idle
    ensures t.stats == (if s.stats.start.Some? then s.stats else Stats(s.stats.minDiff, Some(now), 0))
    ensures t.tick == s.tick
    ensures |t.calls| == |s.calls| + 1 && t.calls[..|s.calls|] == s.calls
    ensures t.calls[|s.calls|].pc == Returned
  {
    var i := |s.calls|;
    t := Do(c, s, EnterStart);
    t := Do(c, t, CallStep(i));
    if s.stats.start.None? {
      t := Do(c, t, CallClock(i, now));
      t := Do(c, t, CallStep(i));
      t := Do(c, t, CallStep(i));
    }
  }

  // ---------------------------------------------------------------------------------------
  // Where the shares go
  // ---------------------------------------------------------------------------------------

  /** The shares found by the steps `a`, `a + 1`, ..., `b - 1`. */
  ghost function SharesIn(steps: seq<Step>, a: nat, b: nat): nat
    requires a <= b <= |steps|
  {
    if a == b then 0 else SharesIn(steps, a, b - 1) + if steps[b - 1].ShareFound? then 1 else 0
  }

  lemma {:induction false} SharesSplit(steps: seq<Step>, a: nat, b: nat, d: nat)
    requires a <= b <= d <= |steps|
    ensures SharesIn(steps, a, d) == SharesIn(steps, a, b) + SharesIn(steps, b, d)
  {
    if b < d {
      SharesSplit(steps, a, b, d - 1);
    }
  }

  ghost predicate WritesStart(s: State, step: Step) {
    || (step.TickWrite? && s.tick.pc == DiffWritten)
    || (step.CallStep? && step.i < |s.calls| && s.calls[step.i].pc == CallClocked)
  }

  ghost predicate Resets(s: State, step: Step) {
    || (step.TickWrite? && s.tick.pc == StartWritten)
    || (step.CallStep? && step.i < |s.calls| && s.calls[step.i].pc == CallStartWritten)
  }

  /** Step `at - 1` read the clock and got `now`. */
  ghost predicate ReadsClock(steps: seq<Step>, at: nat, now: real) {
    && 0 < at <= |steps|
    && (steps[at - 1].TickClock? || steps[at - 1].CallClock?)
    && steps[at - 1].now == now
  }

  /** Nobody is between writing the start of a window and resetting its counter. */
  ghost predicate Settled(s: State) {
    && s.tick.pc != StartWritten
    && forall i :: 0 <= i < |s.calls| ==> s.calls[i].pc != CallStartWritten
  }

  ghost predicate CounterOk(ss: seq<State>, steps: seq<Step>, k: nat)
    requires |ss| == |steps| + 1 && k < |ss|
  {
    var s := ss[k];
    && s.n == k && s.resetAt <= k && s.openAt <= k
    && s.stats.shares == SharesIn(steps, s.resetAt, k)
    && (s.resetAt > 0 ==> Resets(ss[s.resetAt - 1], steps[s.resetAt - 1]))
    && (forall j :: s.resetAt <= j < k ==> !Resets(ss[j], steps[j]))
  }

  /** The present start was read from the clock at `openAt`, and a later reset belongs to it or to someone after it. */
  ghost predicate OpeningOk(s: State, steps: seq<Step>) {
    && (s.stats.start.Some? ==> ReadsClock(steps, s.openAt, s.stats.start.value))
    && (s.stats.start.None? ==> s.openAt == 0)
    && (s.resetAt < s.openAt
        ==> || (s.tick.pc == StartWritten && s.tick.clockAt == s.openAt)
            || exists i :: 0 <= i < |s.calls| && s.calls[i].pc == CallStartWritten && s.calls[i].clockAt == s.openAt)
  }

  ghost predicate TickOk(s: State, steps: seq<Step>) {
    var t := s.tick;
    && (t.pc != Idle ==> t.clockAt <= s.n && ReadsClock(steps, t.clockAt, t.now))
    && (t.pc in {GotShares, Decided, DiffWritten, StartWritten}
        ==> && t.clockAt <= t.readAt <= s.n <= |steps| && t.resetSeen <= t.readAt
            && t.shares == SharesIn(steps, t.resetSeen, t.readAt))
  }

  ghost predicate CallOk(x: Call, s: State, steps: seq<Step>) {
    x.pc in {CallClocked, CallStartWritten} ==> x.clockAt <= s.n && ReadsClock(steps, x.clockAt, x.now)
  }

  ghost predicate CallsOk(s: State, steps: seq<Step>) {
    forall i :: 0 <= i < |s.calls| ==> CallOk(s.calls[i], s, steps)
  }

  ghost predicate Inv(ss: seq<State>, steps: seq<Step>, k: nat)
    requires |ss| == |steps| + 1 && k < |ss|
  {
    && CounterOk(ss, steps, k)
    && OpeningOk(ss[k], steps)
    && TickOk(ss[k], steps)
    && CallsOk(ss[k], steps)
  }

  lemma CounterStep(c: Config, ss: seq<State>, steps: seq<Step>, k: nat)
    requires |ss| == |steps| + 1 && k < |steps| && IsStepOf(c, ss, steps, k) && Inv(ss, steps, k)
    ensures CounterOk(ss, steps, k + 1)
  {
    hide NextDiff, OpeningOk;
  }

  lemma OpeningWritten(c: Config, ss: seq<State>, steps: seq<Step>, k: nat)
    requires |ss| == |steps| + 1 && k < |steps| && IsStepOf(c, ss, steps, k) && Inv(ss, steps, k)
    requires WritesStart(ss[k], steps[k])
    ensures OpeningOk(ss[k + 1], steps)
  {
    hide CounterOk, OpeningOk;
    var (s, t, step) := (ss[k], ss[k + 1], steps[k]);
    if step.CallStep? {
      assert CallOk(s.calls[step.i], s, steps);
      InFlight(t, steps, step.i);
    } else {
      TickInFlight(t, steps);
    }
  }

  lemma InFlight(t: State, steps: seq<Step>, i: nat)
    requires i < |t.calls| && t.calls[i].pc == CallStartWritten && t.calls[i].clockAt == t.openAt
    requires t.stats.start.Some? && ReadsClock(steps, t.openAt, t.stats.start.value)
    ensures OpeningOk(t, steps)
  {
  }

  lemma TickInFlight(t: State, steps: seq<Step>)
    requires t.tick.pc == StartWritten && t.tick.clockAt == t.openAt
    requires t.stats.start.Some? && ReadsClock(steps, t.openAt, t.stats.start.value)
    ensures OpeningOk(t, steps)
  {
  }

  lemma OpeningKept(c: Config, ss: seq<State>, steps: seq<Step>, k: nat)
    requires |ss| == |steps| + 1 && k < |steps| && IsStepOf(c, ss, steps, k) && Inv(ss, steps, k)
    requires !WritesStart(ss[k], steps[k])
    ensures OpeningOk(ss[k + 1], steps)
  {
    hide SharesIn, NextDiff, Resets, TickOk, CallsOk, ReadsClock;
    var (s, t) := (ss[k], ss[k + 1]);
    if t.resetAt < t.openAt && !(s.tick.pc == StartWritten && s.tick.clockAt == s.openAt) {
      var i :| 0 <= i < |s.calls| && s.calls[i].pc == CallStartWritten && s.calls[i].clockAt == s.openAt;
      assert t.calls[i] == s.calls[i];
    }
  }

  lemma OpeningStep(c: Config, ss: seq<State>, steps: seq<Step>, k: nat)
    requires |ss| == |steps| + 1 && k < |steps| && IsStepOf(c, ss, steps, k) && Inv(ss, steps, k)
    ensures OpeningOk(ss[k + 1], steps)
  {
    hide Inv, OpeningOk, IsStepOf;
    if WritesStart(ss[k], steps[k]) {
      OpeningWritten(c, ss, steps, k);
    } else {
      OpeningKept(c, ss, steps, k);
    }
  }

  lemma TickStep(c: Config, ss: seq<State>, steps: seq<Step>, k: nat)
    requires |ss| == |steps| + 1 && k < |steps| && IsStepOf(c, ss, steps, k) && Inv(ss, steps, k)
    ensures TickOk(ss[k + 1], steps)
  {
    hide NextDiff, Resets;
  }

  lemma CallsStep(c: Config, ss: seq<State>, steps: seq<Step>, k: nat)
    requires |ss| == |steps| + 1 && k < |steps| && IsStepOf(c, ss, steps, k) && Inv(ss, steps, k)
    ensures CallsOk(ss[k + 1], steps)
  {
    hide SharesIn, NextDiff, Resets;
    var (s, t) := (ss[k], ss[k + 1]);
    forall i | 0 <= i < |t.calls| ensures CallOk(t.calls[i], t, steps) {
      if i < |s.calls| { assert CallOk(s.calls[i], s, steps); }
    }
  }

  lemma {:induction false} ExecutionKeepsInv(c: Config, ss: seq<State>, steps: seq<Step>, k: nat)
    requires IsExecution(c, ss, steps) && k < |ss|
    ensures Inv(ss, steps, k)
  {
    if k > 0 {
      ExecutionKeepsInv(c, ss, steps, k - 1);
      assert IsStepOf(c, ss, steps, k - 1);
      CounterStep(c, ss, steps, k - 1);
      OpeningStep(c, ss, steps, k - 1);
      TickStep(c, ss, steps, k - 1);
      CallsStep(c, ss, steps, k - 1);
    }
  }

  /** The shares of the present window: found since the clock was read for its start. */
  ghost function WindowShares(s: State, steps: seq<Step>): nat
    requires s.openAt <= s.n <= |steps|
  {
    SharesIn(steps, s.openAt, s.n)
  }

  /**
   * Conservation, in every state of every interleaving.  The counter holds the shares found since the
   * last reset.  Once the opener of the window has reset it, the shares of the window are the counter
   * plus those that fell between the reading of the clock and the last reset; before that, the counter
   * still holds the shares found between the last reset and that reading.
   */
  lemma WindowLaw(c: Config, ss: seq<State>, steps: seq<Step>, k: nat)
    requires IsExecution(c, ss, steps) && k < |ss|
    ensures var s := ss[k];
            && s.n == k && s.openAt <= k && s.resetAt <= k
            && s.stats.shares == SharesIn(steps, s.resetAt, k)
            && (s.openAt <= s.resetAt
                ==> WindowShares(s, steps) == s.stats.shares + SharesIn(steps, s.openAt, s.resetAt))
            && (s.resetAt <= s.openAt
                ==> s.stats.shares == WindowShares(s, steps) + SharesIn(steps, s.resetAt, s.openAt))
    ensures Settled(ss[k]) ==> ss[k].openAt <= ss[k].resetAt
    ensures ss[k].stats.start.Some? ==> ReadsClock(steps, ss[k].openAt, ss[k].stats.start.value)
    ensures ss[k].resetAt > 0 ==> Resets(ss[ss[k].resetAt - 1], steps[ss[k].resetAt - 1])
    ensures forall j :: ss[k].resetAt <= j < k ==> !Resets(ss[j], steps[j])
  {
    ExecutionKeepsInv(c, ss, steps, k);
    var s := ss[k];
    if s.openAt <= s.resetAt {
      SharesSplit(steps, s.openAt, s.resetAt, k);
    } else {
      SharesSplit(steps, s.resetAt, s.openAt, k);
    }
  }

  /**
   * "The counter is the number of shares found in the window" is false.  Whenever nobody is in the
   * middle of opening a window it holds if and only if no share was found between the reading of the
   * clock that opened it and the last reset.
   */
  lemma CounterIsExactIffGapIsEmpty(c: Config, ss: seq<State>, steps: seq<Step>, k: nat)
    requires IsExecution(c, ss, steps) && k < |ss| && Settled(ss[k])
    ensures ss[k].openAt <= ss[k].resetAt <= k == ss[k].n
    ensures ss[k].stats.shares == WindowShares(ss[k], steps) <==> SharesIn(steps, ss[k].openAt, ss[k].resetAt) == 0
    ensures ss[k].stats.shares <= WindowShares(ss[k], steps)
  {
    WindowLaw(c, ss, steps, k);
  }

  /**
   * The two parts of an adjusting tick's gap.  Shares found between its reading of the clock and its
   * reading of the counter are in the number it decided on, so they were charged to the old window;
   * those found from then to the reset are in no window's count.
   */
  lemma AdjustmentGap(c: Config, ss: seq<State>, steps: seq<Step>, k: nat)
    requires IsExecution(c, ss, steps) && k < |steps| && steps[k].TickWrite? && ss[k].tick.pc == StartWritten
    ensures var t := ss[k].tick;
            && t.clockAt <= t.readAt <= k && t.resetSeen <= t.readAt
            && ss[k + 1].stats.shares == 0 && ss[k + 1].resetAt == k + 1
            && t.shares == SharesIn(steps, t.resetSeen, t.readAt)
            && (t.resetSeen <= t.clockAt
                ==> t.shares == SharesIn(steps, t.resetSeen, t.clockAt) + SharesIn(steps, t.clockAt, t.readAt))
            && SharesIn(steps, t.clockAt, k + 1)
               == SharesIn(steps, t.clockAt, t.readAt) + SharesIn(steps, t.readAt, k + 1)
  {
    ExecutionKeepsInv(c, ss, steps, k);
    assert IsStepOf(c, ss, steps, k);
    var t := ss[k].tick;
    if t.resetSeen <= t.clockAt { SharesSplit(steps, t.resetSeen, t.clockAt, t.readAt); }
    SharesSplit(steps, t.clockAt, t.readAt, k + 1);
  }

  lemma {:induction false} NoShares(steps: seq<Step>, a: nat, b: nat)
    requires a <= b <= |steps|
    requires forall k :: a <= k < b ==> !steps[k].ShareFound?
    ensures SharesIn(steps, a, b) == 0
  {
    if a < b {
      NoShares(steps, a, b - 1);
    }
  }

  // ---------------------------------------------------------------------------------------
  // How close together adjustments can be
  // ---------------------------------------------------------------------------------------

  /** A reported difficulty needs a window of 30 s with 3 shares or of 90 s with none, is 1 or more, and is new. */
  lemma DecisionNeedsAWindow(d: real, start: real, shares: nat, now: real, c: Config, root: real)
    requires RootFits(WindowOf(start, shares, now, c.expectedSpm, root))
    ensures var next := NextDiff(d, WindowOf(start, shares, now, c.expectedSpm, root), c.clampPow2);
            next.Some? ==> && next.value >= 1.0 && next.value != d
                           && now - start >= 30.0
                           && (shares == 0 ==> now - start >= 90.0)
                           && (0 < shares ==> shares >= 3)
  {
    ReportedDiffIsNew(d, WindowOf(start, shares, now, c.expectedSpm, root), c.clampPow2);
    hide Ratio, AtLeastOne, RootFits;
  }

  lemma ReportedDiffIsNew(d: real, w: Window, clampPow2: bool)
    requires RootFits(w)
    ensures NextDiff(d, w, clampPow2).Some?
            ==> NextDiff(d, w, clampPow2).value >= 1.0 && NextDiff(d, w, clampPow2).value != d
  {
    hide NextDiff, Ratio, RootFits, AtLeastOne;
    TickTargets(d, w, clampPow2);
    FlooredAtOne(d, d * StepOf(w), clampPow2);
    FlooredAtOne(d, d * MAX_STEP_DOWN, clampPow2);
  }

  lemma FlooredAtOne(d: real, x: real, clampPow2: bool)
    ensures AtLeastOne(d, x, clampPow2) >= 1.0
  {
    CeilAtLeastOne(Max(x, 1.0));
    hide CeilPow2, FloorPow2;
  }

  lemma {:induction false} CeilAtLeastOne(x: real)
    ensures CeilPow2(x) >= 1.0 && FloorPow2(x) >= 1.0
    decreases if x < 2.0 then 0 else x.Floor
  {
    if x >= 2.0 { CeilAtLeastOne(x / 2.0); }
  }

  /** The reading of the clock that a step writes as the start of a window. */
  ghost function WrittenStart(s: State, step: Step): real
    requires WritesStart(s, step)
  {
    if step.TickWrite? then s.tick.now else s.calls[step.i].now
  }

  /** No start is more than `skew` behind one written before it. */
  ghost predicate SkewAtMost(ss: seq<State>, steps: seq<Step>, skew: real)
    requires |ss| == |steps| + 1
  {
    forall i, j :: 0 <= i < j < |steps| && WritesStart(ss[i], steps[i]) && WritesStart(ss[j], steps[j])
      ==> WrittenStart(ss[i], steps[i]) <= WrittenStart(ss[j], steps[j]) + skew
  }

  /** Step `k` puts an adjustment into effect, at the time `ss[k].tick.now`. */
  ghost predicate Adjusts(ss: seq<State>, steps: seq<Step>, k: nat)
    requires |ss| == |steps| + 1 && k < |steps|
  {
    steps[k].TickWrite? && ss[k].tick.pc == DiffWritten
  }

  ghost predicate SpacingOk(ss: seq<State>, steps: seq<Step>, skew: real, k: nat)
    requires |ss| == |steps| + 1 && k < |ss|
  {
    var (stats, t) := (ss[k].stats, ss[k].tick);
    && (forall i: nat :: i < k && Adjusts(ss, steps, i)
          ==> stats.start.Some? && ss[i].tick.now <= stats.start.value + skew)
    && (t.pc in {GotStart, GotShares, Decided, DiffWritten}
        ==> forall i: nat :: i < k && Adjusts(ss, steps, i) ==> ss[i].tick.now <= t.start + skew)
    && (t.pc in {Decided, DiffWritten} ==> t.now - t.start >= MIN_ELAPSED_SECS)
  }

  lemma SpacingStep(c: Config, ss: seq<State>, steps: seq<Step>, skew: real, k: nat)
    requires |ss| == |steps| + 1 && k < |steps| && IsStepOf(c, ss, steps, k)
    requires skew >= 0.0 && SkewAtMost(ss, steps, skew) && SpacingOk(ss, steps, skew, k)
    ensures SpacingOk(ss, steps, skew, k + 1)
  {
    hide NextDiff;
    if steps[k].TickDecide? {
      var t := ss[k].tick;
      DecisionNeedsAWindow(ss[k].stats.minDiff, t.start, t.shares, t.now, c, steps[k].root);
    }
  }

  lemma {:induction false} SpacingHolds(c: Config, ss: seq<State>, steps: seq<Step>, skew: real, k: nat)
    requires IsExecution(c, ss, steps) && k < |ss| && skew >= 0.0 && SkewAtMost(ss, steps, skew)
    ensures SpacingOk(ss, steps, skew, k)
  {
    if k > 0 {
      SpacingHolds(c, ss, steps, skew, k - 1);
      assert IsStepOf(c, ss, steps, k - 1);
      SpacingStep(c, ss, steps, skew, k - 1);
    }
  }

  /** If no start is written more than `skew` late, two adjustments of a worker are at least 30 s less `skew` apart. */
  lemma AdjustmentsAreSpaced(c: Config, ss: seq<State>, steps: seq<Step>, skew: real, i: nat, j: nat)
    requires IsExecution(c, ss, steps) && skew >= 0.0 && SkewAtMost(ss, steps, skew)
    requires i < j < |steps| && Adjusts(ss, steps, i) && Adjusts(ss, steps, j)
    ensures ss[j].tick.now - ss[i].tick.now >= 30.0 - skew
  {
    SpacingHolds(c, ss, steps, skew, j);
  }

  // ---------------------------------------------------------------------------------------
  // The power-of-two clamp, with sets in between
  // ---------------------------------------------------------------------------------------

  /** Where a difficulty in state `k` can come from: a power of two, the seed, or a set entered before. */
  ghost predicate Explained(ss: seq<State>, steps: seq<Step>, k: nat, d: real)
    requires |ss| == |steps| + 1 && k < |ss|
  {
    IsPow2(d) || d == ss[0].stats.minDiff || exists j :: 0 <= j < k && steps[j] == EnterSet(d)
  }

  /** The present difficulty and every difficulty about to be written are explained. */
  ghost predicate DiffsOk(ss: seq<State>, steps: seq<Step>, k: nat)
    requires |ss| == |steps| + 1 && k < |ss|
  {
    var s := ss[k];
    && Explained(ss, steps, k, s.stats.minDiff)
    && (s.tick.pc == Decided ==> IsPow2(s.tick.next))
    && forall i :: 0 <= i < |s.calls| && s.calls[i].pc in {SetEntered, PreviousRead}
         ==> Explained(ss, steps, k, s.calls[i].diff)
  }

  lemma {:induction false} CeilIsPow2(x: real)
    ensures IsPow2(CeilPow2(x))
    decreases if x <= 1.0 then 0 else x.Floor
  {
    if x > 1.0 {
      CeilIsPow2(x / 2.0);
      var k: nat :| CeilPow2(x / 2.0) == Pow2(k);
      assert CeilPow2(x) == Pow2(k + 1);
    } else {
      assert CeilPow2(x) == Pow2(0);
    }
  }

  lemma {:induction false} FloorIsPow2(x: real)
    ensures IsPow2(FloorPow2(x))
    decreases if x < 2.0 then 0 else x.Floor
  {
    if x >= 2.0 {
      FloorIsPow2(x / 2.0);
      var k: nat :| FloorPow2(x / 2.0) == Pow2(k);
      assert FloorPow2(x) == Pow2(k + 1);
    } else {
      assert FloorPow2(x) == Pow2(0);
    }
  }

  lemma RoundedIsPow2(d: real, x: real)
    ensures IsPow2(AtLeastOne(d, x, true))
  {
    CeilIsPow2(Max(x, 1.0));
    FloorIsPow2(Max(x, 1.0));
    hide CeilPow2, FloorPow2, IsPow2;
  }

  /** A clamped decision to adjust is a power of two, whatever the difficulty it was made at. */
  lemma ClampedDecisionIsPow2(d: real, w: Window)
    requires RootFits(w) && NextDiff(d, w, true).Some?
    ensures IsPow2(NextDiff(d, w, true).value)
  {
    hide NextDiff, Ratio, RootFits, AtLeastOne, IsPow2;
    TickTargets(d, w, true);
    RoundedIsPow2(d, d * StepOf(w));
    RoundedIsPow2(d, d * MAX_STEP_DOWN);
  }

  /** At a power of two it is to double or to halve the difficulty that was read. */
  lemma ClampedDecisionIsAFactorOfTwo(d: real, w: Window)
    requires IsPow2(d) && RootFits(w) && NextDiff(d, w, true).Some?
    ensures var next := NextDiff(d, w, true).value; next == 2.0 * d || next == d / 2.0
  {
    ReportedDiffIsNew(d, w, true);
    var k: nat :| d == Pow2(k);
    ClampedTick(k, w);
    hide NextDiff;
  }

  lemma ExplainedLater(ss: seq<State>, steps: seq<Step>, k: nat, d: real)
    requires |ss| == |steps| + 1 && k < |steps| && Explained(ss, steps, k, d)
    ensures Explained(ss, steps, k + 1, d)
  {
  }

  lemma DiffsStep(c: Config, ss: seq<State>, steps: seq<Step>, k: nat)
    requires |ss| == |steps| + 1 && k < |steps| && IsStepOf(c, ss, steps, k)
    requires c.clampPow2 && DiffsOk(ss, steps, k)
    ensures DiffsOk(ss, steps, k + 1)
  {
    var (s, t, step) := (ss[k], ss[k + 1], steps[k]);
    if step.TickDecide? {
      var w := WindowOf(s.tick.start, s.tick.shares, s.tick.now, c.expectedSpm, step.root);
      if NextDiff(s.stats.minDiff, w, true).Some? { ClampedDecisionIsPow2(s.stats.minDiff, w); }
    }
    hide NextDiff, IsPow2;
    ExplainedLater(ss, steps, k, s.stats.minDiff);
    forall i | 0 <= i < |t.calls| && t.calls[i].pc in {SetEntered, PreviousRead}
      ensures Explained(ss, steps, k + 1, t.calls[i].diff)
    {
      if i < |s.calls| { ExplainedLater(ss, steps, k, s.calls[i].diff); }
    }
  }

  /**
   * With the clamp on, the difficulty is a power of two, the seed, or one that was set, in every state of
   * every interleaving; a set that was not a power of two lasts until the next adjustment is written.
   */
  lemma {:induction false} ClampedDifficultyIsExplained(c: Config, ss: seq<State>, steps: seq<Step>, k: nat)
    requires IsExecution(c, ss, steps) && k < |ss| && c.clampPow2
    ensures DiffsOk(ss, steps, k)
    ensures k < |steps| && steps[k].TickWrite? && ss[k].tick.pc == Decided ==> IsPow2(ss[k + 1].stats.minDiff)
  {
    if k > 0 {
      ClampedDifficultyIsExplained(c, ss, steps, k - 1);
      assert IsStepOf(c, ss, steps, k - 1);
      DiffsStep(c, ss, steps, k - 1);
    }
    if k < |steps| { assert IsStepOf(c, ss, steps, k); }
  }

  ghost predicate ZeroOrPow2(d: real) {
    d == 0.0 || IsPow2(d)
  }

  /** So seeds and sets of 0 or powers of two keep every difficulty 0 or a power of two. */
  lemma ClampedDifficultyStaysOnPow2(c: Config, ss: seq<State>, steps: seq<Step>, k: nat)
    requires IsExecution(c, ss, steps) && k < |ss| && c.clampPow2
    requires ZeroOrPow2(ss[0].stats.minDiff)
    requires forall j :: 0 <= j < k && steps[j].EnterSet? ==> ZeroOrPow2(steps[j].diff)
    ensures ZeroOrPow2(ss[k].stats.minDiff)
  {
    ClampedDifficultyIsExplained(c, ss, steps, k);
  }

  // ---------------------------------------------------------------------------------------
  // Concrete runs
  // ---------------------------------------------------------------------------------------

  /** No start written so far is later than `latest`. */
  ghost predicate StartsUpTo(ss: seq<State>, steps: seq<Step>, latest: real)
    requires |ss| == |steps| + 1
  {
    forall i :: 0 <= i < |steps| && WritesStart(ss[i], steps[i]) ==> WrittenStart(ss[i], steps[i]) <= latest
  }

  /** A run whose starts are at most `skew` out of order and at most `latest`. */
  ghost predicate Ordered(c: Config, ss: seq<State>, steps: seq<Step>, skew: real, latest: real) {
    IsExecution(c, ss, steps) && SkewAtMost(ss, steps, skew) && StartsUpTo(ss, steps, latest)
  }

  /** `(ts, more)` continues `(ss, steps)`. */
  ghost predicate Continues(ss: seq<State>, steps: seq<Step>, ts: seq<State>, more: seq<Step>) {
    |ss| <= |ts| && |steps| <= |more| && ts[..|ss|] == ss && more[..|steps|] == steps
  }

  /** One step more. */
  lemma Extend(c: Config, ss: seq<State>, steps: seq<Step>, step: Step, skew: real, latest: real)
    returns (ts: seq<State>, more: seq<Step>)
    requires Ordered(c, ss, steps, skew, latest) && Enabled(c, ss[|ss| - 1], step)
    requires WritesStart(ss[|ss| - 1], step) ==> latest - skew <= WrittenStart(ss[|ss| - 1], step) <= latest
    ensures Ordered(c, ts, more, skew, latest)
    ensures |ts| == |ss| + 1 && Continues(ss, steps, ts, more)
    ensures more == steps + [step] && ts[|ts| - 1] == Do(c, ss[|ss| - 1], step)
  {
    ts, more := ss + [Do(c, ss[|ss| - 1], step)], steps + [step];
    forall k: nat | k < |more| ensures IsStepOf(c, ts, more, k) {
      if k < |steps| { assert IsStepOf(c, ss, steps, k); }
    }
  }

  lemma ContinuesOn(ss: seq<State>, a: seq<Step>, ts: seq<State>, b: seq<Step>, us: seq<State>, d: seq<Step>)
    requires Continues(ss, a, ts, b) && Continues(ts, b, us, d)
    ensures Continues(ss, a, us, d)
  {
    assert us[..|ss|] == us[..|ts|][..|ss|];
    assert d[..|a|] == d[..|b|][..|a|];
  }

  lemma Later(c: Config, ss: seq<State>, steps: seq<Step>, skew: real, latest: real, later: real)
    requires Ordered(c, ss, steps, skew, latest) && latest <= later
    ensures Ordered(c, ss, steps, skew, later)
  {
  }

  /** The first window: `start_client_vardiff` without interruption, at time 0. */
  lemma OpenFirst(c: Config, minDiff: real, skew: real) returns (ss: seq<State>, steps: seq<Step>)
    requires skew >= 0.0
    ensures Ordered(c, ss, steps, skew, 0.0)
    ensures var s := ss[|ss| - 1];
            && s.stats == Stats(minDiff, Some(0.0), 0) && s.tick == IDLE
            && |s.calls| == 1 && s.calls[0].pc == Returned && s.n == 5 == |steps|
  {
    var s1, p1 := Extend(c, [Initial(minDiff)], [], EnterStart, skew, 0.0);
    var s2, p2 := Extend(c, s1, p1, CallStep(0), skew, 0.0);
    ss, steps := OpenerWrites(c, s2, p2, 0, 0.0, skew, 0.0);
  }

  /** A call `i` that is about to read the clock runs to its end. */
  lemma OpenerWrites(c: Config, ss: seq<State>, steps: seq<Step>, i: nat, now: real, skew: real, latest: real)
    returns (ts: seq<State>, more: seq<Step>)
    requires Ordered(c, ss, steps, skew, latest) && latest - skew <= now <= latest
    requires i < |ss[|ss| - 1].calls| && ss[|ss| - 1].calls[i].pc == BeforeClock
    ensures Ordered(c, ts, more, skew, latest) && |more| == |steps| + 3
    ensures var (s, t) := (ss[|ss| - 1], ts[|ts| - 1]);
            && t.stats == Stats(s.stats.minDiff, Some(now), 0) && t.tick == s.tick && t.n == s.n + 3
            && |t.calls| == |s.calls| && t.calls[i].pc == Returned
  {
    var s1, p1 := Extend(c, ss, steps, CallClock(i, now), skew, latest);
    var s2, p2 := Extend(c, s1, p1, CallStep(i), skew, latest);
    ts, more := Extend(c, s2, p2, CallStep(i), skew, latest);
  }

  /** The tick of a silent window, up to its decision to halve the difficulty. */
  lemma SilentTickDecides(c: Config, ss: seq<State>, steps: seq<Step>, now: real, skew: real)
    returns (ts: seq<State>, more: seq<Step>)
    requires Ordered(c, ss, steps, skew, 0.0) && !c.clampPow2 && now >= 90.0
    requires var s := ss[|ss| - 1];
             s.tick == IDLE && s.stats.start == Some(0.0) && s.stats.shares == 0 && s.stats.minDiff >= 4.0
    ensures Ordered(c, ts, more, skew, 0.0) && |ts| == |ss| + 4 && Continues(ss, steps, ts, more)
    ensures var (s, t) := (ss[|ss| - 1], ts[|ts| - 1]);
            && t.stats == s.stats && t.calls == s.calls && t.n == s.n + 4
            && t.openAt == s.openAt && t.resetAt == s.resetAt
            && t.tick.pc == Decided && t.tick.now == now && t.tick.next == 0.5 * s.stats.minDiff
            && t.tick.clockAt == s.n + 1
    ensures more[|steps|..] == [TickClock(now), TickReadStart, TickReadShares, TickDecide(0.0)]
  {
    var t1, m1 := Extend(c, ss, steps, TickClock(now), skew, 0.0);
    var t2, m2 := Extend(c, t1, m1, TickReadStart, skew, 0.0);
    var t3, m3 := Extend(c, t2, m2, TickReadShares, skew, 0.0);
    ts, more := Extend(c, t3, m3, TickDecide(0.0), skew, 0.0);
    assert m3 == steps + [TickClock(now), TickReadStart, TickReadShares];
    assert more == steps + [TickClock(now), TickReadStart, TickReadShares, TickDecide(0.0)];
    ContinuesOn(ss, steps, t1, m1, t2, m2);
    ContinuesOn(ss, steps, t2, m2, t3, m3);
    ContinuesOn(ss, steps, t3, m3, ts, more);
  }

  /** The four steps of an adjustment's writes with one share between the first and the last. */
  lemma WritesAroundShare(c: Config, ss: seq<State>, steps: seq<Step>) returns (ts: seq<State>, more: seq<Step>)
    requires Ordered(c, ss, steps, 0.0, 100.0) && Settled(ss[|ss| - 1])
    requires var t := ss[|ss| - 1].tick; t.pc == Decided && t.now == 100.0 && t.clockAt <= |steps| == ss[|ss| - 1].n
    ensures IsExecution(c, ts, more) && |more| == |steps| + 4
    ensures more == steps + [TickWrite, ShareFound, TickWrite, TickWrite]
    ensures var (s, t) := (ss[|ss| - 1], ts[|ts| - 1]);
            && Settled(t) && t.tick.pc == Idle && t.stats == Stats(s.tick.next, Some(100.0), 0)
            && t.openAt == s.tick.clockAt && t.n == |more|
  {
    var t1, m1 := Extend(c, ss, steps, TickWrite, 0.0, 100.0);
    var t2, m2 := Extend(c, t1, m1, ShareFound, 0.0, 100.0);
    var t3, m3 := Extend(c, t2, m2, TickWrite, 0.0, 100.0);
    ts, more := Extend(c, t3, m3, TickWrite, 0.0, 100.0);
  }

  lemma OneShare(steps: seq<Step>, a: nat, i: nat)
    requires a <= i < |steps| && steps[i].ShareFound?
    requires forall k :: a <= k < |steps| && k != i ==> !steps[k].ShareFound?
    ensures SharesIn(steps, a, |steps|) == 1
  {
    SharesSplit(steps, a, i, |steps|);
    SharesSplit(steps, i, i + 1, |steps|);
    NoShares(steps, a, i);
    NoShares(steps, i + 1, |steps|);
    assert SharesIn(steps, i, i) == 0;
  }

  /**
   * A losing run: a share is found after the tick has read the counter of a silent window and before
   * it resets it.  Then everything is settled, the share belongs to the new window, and the counter is 0.
   */
  lemma ShareCanBeLost(c: Config) returns (ss: seq<State>, steps: seq<Step>)
    requires !c.clampPow2
    ensures IsExecution(c, ss, steps)
    ensures var s := ss[|ss| - 1];
            && Settled(s) && s.tick.pc == Idle && s.stats == Stats(4.0, Some(100.0), 0)
            && s.openAt <= s.n == |steps| && WindowShares(s, steps) == 1
  {
    var s1, p1 := OpenFirst(c, 8.0, 0.0);
    var s2, p2 := SilentTickDecides(c, s1, p1, 100.0, 0.0);
    Later(c, s2, p2, 0.0, 0.0, 100.0);
    ss, steps := WritesAroundShare(c, s2, p2);
    assert forall k :: |p1| <= k < |p2| ==> p2[k] == p2[|p1|..][k - |p1|];
    OneShare(steps, 6, |p2| + 1);
  }

  // A set that reads the clock before an adjustment and writes after it.

  const TWO_PER_MINUTE := Config(2.0, false)

  /** A set is called and runs up to its reading of the clock. */
  lemma SetReadsClock(c: Config, ss: seq<State>, steps: seq<Step>, diff: real, now: real, skew: real, latest: real)
    returns (ts: seq<State>, more: seq<Step>)
    requires Ordered(c, ss, steps, skew, latest) && ss[|ss| - 1].tick.pc == Idle
    ensures Ordered(c, ts, more, skew, latest)
    ensures var (s, t) := (ss[|ss| - 1], ts[|ts| - 1]);
            && t.stats == s.stats.(minDiff := diff) && t.tick == s.tick
            && |t.calls| == |s.calls| + 1
            && t.calls[|s.calls|].pc == CallClocked && t.calls[|s.calls|].now == now
  {
    var i := |ss[|ss| - 1].calls|;
    var s1, p1 := Extend(c, ss, steps, EnterSet(diff), skew, latest);
    var s2, p2 := Extend(c, s1, p1, CallStep(i), skew, latest);
    var s3, p3 := Extend(c, s2, p2, CallStep(i), skew, latest);
    ts, more := Extend(c, s3, p3, CallClock(i, now), skew, latest);
  }

  /** It writes its start and resets the counter. */
  lemma SetWrites(c: Config, ss: seq<State>, steps: seq<Step>, i: nat, skew: real, latest: real)
    returns (ts: seq<State>, more: seq<Step>)
    requires Ordered(c, ss, steps, skew, latest) && i < |ss[|ss| - 1].calls|
    requires var x := ss[|ss| - 1].calls[i]; x.pc == CallClocked && latest - skew <= x.now <= latest
    ensures Ordered(c, ts, more, skew, latest) && Continues(ss, steps, ts, more)
    ensures var (s, t) := (ss[|ss| - 1], ts[|ts| - 1]);
            t.stats == Stats(s.stats.minDiff, Some(s.calls[i].now), 0) && t.tick == s.tick
  {
    var s1, p1 := Extend(c, ss, steps, CallStep(i), skew, latest);
    ts, more := Extend(c, s1, p1, CallStep(i), skew, latest);
    ContinuesOn(ss, steps, s1, p1, ts, more);
  }

  /** A set has read the clock at `100 - skew`, and a silent tick has decided at 100 to halve 8. */
  lemma SetBeforeTick(skew: real) returns (ss: seq<State>, steps: seq<Step>)
    requires 0.0 <= skew <= MIN_ELAPSED_SECS
    ensures Ordered(TWO_PER_MINUTE, ss, steps, skew, 0.0)
    ensures var s := ss[|ss| - 1];
            && s.stats.start == Some(0.0)
            && s.tick.pc == Decided && s.tick.now == 100.0 && s.tick.next == 4.0
            && |s.calls| == 2 && s.calls[1].pc == CallClocked && s.calls[1].now == 100.0 - skew
  {
    var s1, p1 := OpenFirst(TWO_PER_MINUTE, 8.0, skew);
    var s2, p2 := SetReadsClock(TWO_PER_MINUTE, s1, p1, 8.0, 100.0 - skew, skew, 0.0);
    ss, steps := SilentTickDecides(TWO_PER_MINUTE, s2, p2, 100.0, skew);
  }

  /** The tick writes its start, 100, at step `i`, and the set then writes its own over it. */
  lemma SetAfterTick(skew: real) returns (ss: seq<State>, steps: seq<Step>, i: nat)
    requires 0.0 <= skew <= MIN_ELAPSED_SECS
    ensures Ordered(TWO_PER_MINUTE, ss, steps, skew, 100.0)
    ensures ss[|ss| - 1].stats == Stats(4.0, Some(100.0 - skew), 0) && ss[|ss| - 1].tick == IDLE
    ensures i < |steps| && Adjusts(ss, steps, i) && ss[i].tick.now == 100.0
  {
    var s1, p1 := SetBeforeTick(skew);
    Later(TWO_PER_MINUTE, s1, p1, skew, 0.0, 100.0);
    var s2, p2;
    s2, p2, i := TickWrites(s1, p1, skew);
    ss, steps := SetWrites(TWO_PER_MINUTE, s2, p2, 1, skew, 100.0);
    assert ss[i] == s2[i] && steps[i] == p2[i];
  }

  lemma TickWrites(ss: seq<State>, steps: seq<Step>, skew: real)
    returns (ts: seq<State>, more: seq<Step>, i: nat)
    requires Ordered(TWO_PER_MINUTE, ss, steps, skew, 100.0) && skew >= 0.0
    requires ss[|ss| - 1].tick.pc == Decided && ss[|ss| - 1].tick.now == 100.0
    ensures Ordered(TWO_PER_MINUTE, ts, more, skew, 100.0)
    ensures var (s, t) := (ss[|ss| - 1], ts[|ts| - 1]);
            t.stats == Stats(s.tick.next, Some(100.0), 0) && t.tick == IDLE && t.calls == s.calls
    ensures i < |more| && Adjusts(ts, more, i) && ts[i].tick.now == 100.0
  {
    var s1, p1 := Extend(TWO_PER_MINUTE, ss, steps, TickWrite, skew, 100.0);
    i := |p1|;
    var s2, p2 := Extend(TWO_PER_MINUTE, s1, p1, TickWrite, skew, 100.0);
    ts, more := Extend(TWO_PER_MINUTE, s2, p2, TickWrite, skew, 100.0);
  }

  /** Two shares are found. */
  lemma TwoShares(c: Config, ss: seq<State>, steps: seq<Step>, skew: real, latest: real)
    returns (ts: seq<State>, more: seq<Step>)
    requires Ordered(c, ss, steps, skew, latest)
    ensures Ordered(c, ts, more, skew, latest) && |more| == |steps| + 2 && Continues(ss, steps, ts, more)
    ensures var (s, t) := (ss[|ss| - 1], ts[|ts| - 1]);
            t.stats == s.stats.(shares := s.stats.shares + 2) && t.tick == s.tick
  {
    var t1, m1 := Extend(c, ss, steps, ShareFound, skew, latest);
    ts, more := Extend(c, t1, m1, ShareFound, skew, latest);
    ContinuesOn(ss, steps, t1, m1, ts, more);
  }

  /** The tick reads a window of 4 shares in 30 s, and decides to double the difficulty. */
  lemma BusyTick(ss: seq<State>, steps: seq<Step>, start: real, skew: real)
    returns (ts: seq<State>, more: seq<Step>)
    requires Ordered(TWO_PER_MINUTE, ss, steps, skew, start + 30.0)
    requires ss[|ss| - 1].stats == Stats(4.0, Some(start), 4) && ss[|ss| - 1].tick == IDLE
    ensures Ordered(TWO_PER_MINUTE, ts, more, skew, start + 30.0) && Continues(ss, steps, ts, more)
    ensures var t := ts[|ts| - 1].tick; t.pc == Decided && t.now == start + 30.0
  {
    var t1, m1 := Extend(TWO_PER_MINUTE, ss, steps, TickClock(start + 30.0), skew, start + 30.0);
    var t2, m2 := Extend(TWO_PER_MINUTE, t1, m1, TickReadStart, skew, start + 30.0);
    var t3, m3 := Extend(TWO_PER_MINUTE, t2, m2, TickReadShares, skew, start + 30.0);
    FourSharesDouble(start);
    ts, more := Extend(TWO_PER_MINUTE, t3, m3, TickDecide(2.0), skew, start + 30.0);
    ContinuesOn(ss, steps, t1, m1, t2, m2);
    ContinuesOn(ss, steps, t2, m2, t3, m3);
    ContinuesOn(ss, steps, t3, m3, ts, more);
  }

  /** Four shares in the 30 s after the set's reading double the difficulty: the next adjustment, at step `j`. */
  lemma NextAdjustment(ss: seq<State>, steps: seq<Step>, start: real, skew: real)
    returns (ts: seq<State>, more: seq<Step>, j: nat)
    requires Ordered(TWO_PER_MINUTE, ss, steps, skew, start + 30.0) && skew >= 0.0
    requires ss[|ss| - 1].stats == Stats(4.0, Some(start), 0) && ss[|ss| - 1].tick == IDLE
    ensures Ordered(TWO_PER_MINUTE, ts, more, skew, start + 30.0) && Continues(ss, steps, ts, more)
    ensures |steps| <= j < |more| && Adjusts(ts, more, j) && ts[j].tick.now == start + 30.0
  {
    var t1, m1 := TwoShares(TWO_PER_MINUTE, ss, steps, skew, start + 30.0);
    var t2, m2 := TwoShares(TWO_PER_MINUTE, t1, m1, skew, start + 30.0);
    ContinuesOn(ss, steps, t1, m1, t2, m2);
    var t3, m3 := BusyTick(t2, m2, start, skew);
    ContinuesOn(ss, steps, t2, m2, t3, m3);
    var t4, m4 := Extend(TWO_PER_MINUTE, t3, m3, TickWrite, skew, start + 30.0);
    ContinuesOn(ss, steps, t3, m3, t4, m4);
    j := |m4|;
    ts, more := Extend(TWO_PER_MINUTE, t4, m4, TickWrite, skew, start + 30.0);
    ContinuesOn(ss, steps, t4, m4, ts, more);
  }

  lemma FourSharesDouble(start: real)
    ensures var w := WindowOf(start, 4, start + 30.0, 2.0, 2.0);
            RootFits(w) && NextDiff(4.0, w, false) == Some(8.0)
  {
    assert 4.0 / 30.0 * 60.0 / 2.0 == 4.0;
  }

  /** Every two adjustments are 30 s apart. */
  ghost predicate WellSpaced(ss: seq<State>, steps: seq<Step>)
    requires |ss| == |steps| + 1
  {
    forall i: nat, j: nat :: i < j < |steps| && Adjusts(ss, steps, i) && Adjusts(ss, steps, j)
      ==> ss[j].tick.now - ss[i].tick.now >= 30.0
  }

  /**
   * A set whose start is written `skew` late lets two adjustments, at steps `i` and `j`, come exactly
   * `30 - skew` seconds apart: the bound of `AdjustmentsAreSpaced` is reached.
   */
  lemma LateSetShortensSpacing(skew: real) returns (ss: seq<State>, steps: seq<Step>, i: nat, j: nat)
    requires 0.0 <= skew <= MIN_ELAPSED_SECS
    ensures IsExecution(TWO_PER_MINUTE, ss, steps) && SkewAtMost(ss, steps, skew)
    ensures i < j < |steps| && Adjusts(ss, steps, i) && Adjusts(ss, steps, j)
    ensures ss[j].tick.now - ss[i].tick.now == 30.0 - skew
  {
    ss, steps, i := SetAfterTick(skew);
    Later(TWO_PER_MINUTE, ss, steps, skew, 100.0, 130.0 - skew);
    var ts, more;
    ts, more, j := NextAdjustment(ss, steps, 100.0 - skew, skew);
    assert ts[i] == ss[i] && more[i] == steps[i];
    assert Adjusts(ts, more, i) && Adjusts(ts, more, j);
    ss, steps := ts, more;
  }

  /**
   * "Two adjustments of a worker are at least 30 s apart" is kept in all runs whose starts are written
   * at most `skew` out of order if and only if they are written in order.
   */
  lemma SpacingKeptIffStartsInOrder(skew: real)
    requires skew >= 0.0
    ensures (forall c: Config, ss: seq<State>, steps: seq<Step> ::
              IsExecution(c, ss, steps) && SkewAtMost(ss, steps, skew) ==> WellSpaced(ss, steps))
            <==> skew == 0.0
  {
    if skew == 0.0 {
      forall c: Config, ss: seq<State>, steps: seq<Step> | IsExecution(c, ss, steps) && SkewAtMost(ss, steps, skew)
        ensures WellSpaced(ss, steps)
      {
        forall i: nat, j: nat | i < j < |steps| && Adjusts(ss, steps, i) && Adjusts(ss, steps, j)
          ensures ss[j].tick.now - ss[i].tick.now >= MIN_ELAPSED_SECS
        {
          AdjustmentsAreSpaced(c, ss, steps, skew, i, j);
        }
      }
    } else {
      var ss, steps, i, j := LateSetShortensSpacing(if skew < MIN_ELAPSED_SECS then skew else MIN_ELAPSED_SECS);
      assert SkewAtMost(ss, steps, skew) && !WellSpaced(ss, steps);
    }
  }
}
