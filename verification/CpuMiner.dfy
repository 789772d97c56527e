/**
 * The internal CPU miner: one publisher hands block templates to `threads` mining threads through a
 * version-counted slot guarded by a mutex and a condition variable.
 *
 * The protocol is a step system.  A critical section is one step; everything else interleaves.  Two
 * steps allow more than the source, so that the shutdown flag, which is raised without the lock, may
 * be seen early or late: a thread may park, go on waiting or go on mining whatever the flag says, and
 * it may wake spuriously.
 */
module CpuMiner {
  import opened Powers
  import opened SeqFacts
  import opened Nonces

  /** A published template; `block` stands for the block and its proof-of-work state. */
  datatype Work = Work(id: nat, block: nat)

  datatype Slot = Slot(version: nat, work: Option<Work>)

  function PublishTo(slot: Slot, work: Work): Slot {
    Slot((slot.version + 1) % TWO64, Some(work))
  }

  /** What `wait_for_update` decides each time it holds the lock. */
  datatype WaitDecision = KeepWaiting | Return(version: nat, work: Option<Work>)

  function Decide(slot: Slot, lastSeen: nat, shutdown: bool): WaitDecision {
    if slot.version != lastSeen then Return(slot.version, slot.work)
    else if shutdown then Return(lastSeen, None)
    else KeepWaiting
  }

  class SharedWork {
    var version: nat
    var work: Option<Work>

    ghost function Contents(): Slot
      reads this
    {
      Slot(version, work)
    }

    constructor ()
      ensures Contents() == Slot(0, None)
    {
      version, work := 0, None;
    }

    method Publish(w: Work)
      modifies this
      ensures Contents() == PublishTo(old(Contents()), w)
      ensures work == Some(w)
      ensures old(version) < 0xFFFF_FFFF_FFFF_FFFF ==> version == old(version) + 1
      ensures old(version) == 0xFFFF_FFFF_FFFF_FFFF ==> version == 0
    {
      version := (version + 1) % TWO64;
      work := Some(w);
    }

    /** One turn of the loop in `wait_for_update`, up to the point where it would block. */
    method PollUpdate(lastSeen: nat, shutdown: bool) returns (d: WaitDecision)
      ensures d == Decide(Contents(), lastSeen, shutdown)
      ensures d == KeepWaiting <==> version == lastSeen && !shutdown
      ensures d == Return(lastSeen, None) <== version == lastSeen && shutdown
      ensures d == Return(version, work) <== version != lastSeen
    {
      if version == lastSeen && !shutdown {
        return KeepWaiting;
      }
      if shutdown && version == lastSeen {
        return Return(lastSeen, None);
      }
      return Return(version, work);
    }
  }

  // ---------------------------------------------------------------------------------------
  // The step system
  // ---------------------------------------------------------------------------------------

  /** `passes(w, n)` says whether nonce `n` solves the template of `w`. */
  datatype Config = Config(threads: nat, passes: (Work, nat) -> bool)

  /**
   * Where a mining thread is: at the top of its outer loop, waiting for the lock, asleep, about to try a
   * nonce, about to look for newer work, or gone.
   */
  datatype Pc = Top | Waiting | Parked | Mining | Checking | Exited

  /** A mining thread; `tries` and `seen` record its past. */
  datatype Worker = Worker(pc: Pc, lastSeen: nat, held: Option<Work>, nonce: nat, tries: nat, seen: seq<nat>)

  /** Thread `thread` tried its `k`-th nonce on the work of `version`. */
  datatype Attempt = Attempt(thread: nat, version: nat, k: nat, nonce: nat)

  /** `published`, `attempts` and `submitted` record the past. */
  datatype State = State(
    slot: Slot, nextId: nat, shutdown: bool, workers: seq<Worker>,
    published: seq<Work>, attempts: seq<Attempt>, submitted: seq<Attempt>)

  datatype Step =
    | Publish(block: nat)
    | RaiseShutdown
    | NotifyAll
    | Wake(i: nat)
    | Enter(i: nat)
    | Leave(i: nat)
    | Take(i: nat)
    | Park(i: nat)
    | GiveUp(i: nat)
    | Try(i: nat)
    | Recheck(i: nat)

  function Initial(c: Config): State {
    State(Slot(0, None), 0, false,
          seq(c.threads, i requires i >= 0 => Worker(Top, 0, None, Start(i), 0, [])), [], [], [])
  }

  predicate Enabled(c: Config, s: State, step: Step) {
    if step.Publish? || step.RaiseShutdown? || step.NotifyAll? then true
    else
      && step.i < |s.workers|
      && var w := s.workers[step.i];
         match step
         case Wake(_) => w.pc == Parked
         case Enter(_) => w.pc == Top
         case Leave(_) => s.shutdown && w.pc in {Top, Mining, Checking}
         case Take(_) => w.pc == Waiting && s.slot.version != w.lastSeen
         case Park(_) => w.pc == Waiting && s.slot.version == w.lastSeen
         case GiveUp(_) => w.pc == Waiting && s.slot.version == w.lastSeen && s.shutdown
         case Try(_) => w.pc == Mining && w.held.Some?
         case _ => w.pc == Checking
  }

  function Woken(w: Worker): Worker {
    if w.pc == Parked then w.(pc := Waiting) else w
  }

  function WakeAll(ws: seq<Worker>): (r: seq<Worker>)
    ensures |r| == |ws| && forall i :: 0 <= i < |ws| ==> r[i] == Woken(ws[i])
  {
    seq(|ws|, i requires 0 <= i < |ws| => Woken(ws[i]))
  }

  /** The thread that moves, after its step. */
  function Moved(c: Config, s: State, step: Step): Worker
    requires Enabled(c, s, step) && !step.Publish? && !step.RaiseShutdown? && !step.NotifyAll?
  {
    var w := s.workers[step.i];
    match step
    case Wake(_) => w.(pc := Waiting)
    case Enter(_) => w.(pc := Waiting)
    case Leave(_) => w.(pc := Exited)
    case Take(_) =>
      Worker(if s.slot.work.Some? then Mining else Top, s.slot.version, s.slot.work, w.nonce, w.tries,
             w.seen + [s.slot.version])
    case Park(_) => w.(pc := Parked)
    case GiveUp(_) => w.(pc := Top)
    case Try(_) =>
      if c.passes(w.held.value, w.nonce) then w.(pc := Top)
      else w.(pc := Checking, nonce := NextNonce(c.threads, w.nonce), tries := w.tries + 1)
    case _ => w.(pc := if s.slot.version != w.lastSeen then Top else Mining)
  }

  function Do(c: Config, s: State, step: Step): State
    requires Enabled(c, s, step)
  {
    match step
    case Publish(block) =>
      var work := Work(s.nextId, block);
      s.(slot := PublishTo(s.slot, work), nextId := (s.nextId + 1) % TWO64,
         workers := WakeAll(s.workers), published := s.published + [work])
    case RaiseShutdown => s.(shutdown := true)
    case NotifyAll => s.(workers := WakeAll(s.workers))
    case Try(i) =>
      var w := s.workers[i];
      var a := Attempt(i, w.lastSeen, w.tries, w.nonce);
      s.(workers := s.workers[i := Moved(c, s, step)],
         attempts := s.attempts + [a],
         submitted := if c.passes(w.held.value, w.nonce) then s.submitted + [a] else s.submitted)
    case _ => s.(workers := s.workers[step.i := Moved(c, s, step)])
  }

  /** Taking or leaving the wait is what the source decides under the lock; with work, the thread mines it. */
  lemma StepsFollowTheWait(c: Config, s: State, i: nat)
    requires i < |s.workers| && s.workers[i].pc == Waiting
    ensures var w := s.workers[i];
            match Decide(s.slot, w.lastSeen, s.shutdown)
            case KeepWaiting => Enabled(c, s, Park(i)) && !Enabled(c, s, Take(i)) && !Enabled(c, s, GiveUp(i))
            case Return(v, work) =>
              if work.Some? || v != w.lastSeen
              then && Enabled(c, s, Take(i))
                   && var x := Moved(c, s, Take(i));
                      && x.lastSeen == v && x.held == work && x.nonce == w.nonce
                      && x.pc == if work.Some? then Mining else Top
              else Enabled(c, s, GiveUp(i)) && Moved(c, s, GiveUp(i)) == w.(pc := Top)
  {
  }

  ghost predicate IsStepOf(c: Config, ss: seq<State>, steps: seq<Step>, n: nat)
    requires |ss| == |steps| + 1 && n < |steps|
  {
    Enabled(c, ss[n], steps[n]) && ss[n + 1] == Do(c, ss[n], steps[n])
  }

  ghost predicate IsExecution(c: Config, ss: seq<State>, steps: seq<Step>) {
    && |ss| == |steps| + 1
    && ss[0] == Initial(c)
    && forall n: nat :: n < |steps| ==> IsStepOf(c, ss, steps, n)
  }

  // ---------------------------------------------------------------------------------------
  // The invariant
  // ---------------------------------------------------------------------------------------

  ghost predicate Increasing(vs: seq<nat>) {
    forall p, q :: 0 <= p < q < |vs| ==> vs[p] < vs[q]
  }

  /** The slot holds the last published work, and its version counts the publications. */
  ghost predicate SlotOk(s: State) {
    && s.slot.version == s.nextId == |s.published| < TWO64
    && s.slot.work == (if s.published == [] then None else Some(s.published[|s.published| - 1]))
    && forall v :: 0 <= v < |s.published| ==> s.published[v].id == v
  }

  ghost predicate Busy(w: Worker) {
    w.pc == Mining || w.pc == Checking
  }

  ghost predicate WorkerOk(c: Config, s: State, i: nat)
    requires i < |s.workers|
  {
    var w := s.workers[i];
    && w.lastSeen <= |s.published|
    && (w.pc == Parked ==> w.lastSeen == |s.published|)
    && (Busy(w) ==> 0 < w.lastSeen && w.held == Some(s.published[w.lastSeen - 1]))
    && c.threads > 0 && w.nonce == NonceAt(c.threads, i, w.tries)
    && Increasing(w.seen)
    && (if w.lastSeen == 0 then w.seen == [] else |w.seen| > 0 && w.seen[|w.seen| - 1] == w.lastSeen)
  }

  ghost predicate AttemptOk(c: Config, s: State, a: Attempt) {
    && a.thread < |s.workers| && c.threads > 0
    && var w := s.workers[a.thread];
       && 0 < a.version <= w.lastSeen
       && a.k <= w.tries
       && a.nonce == NonceAt(c.threads, a.thread, a.k)
       && (Busy(w) && a.version == w.lastSeen ==> a.k < w.tries)
  }

  /** A submitted block solves the work published as its version, and ends its thread's work on it. */
  ghost predicate SubmitOk(c: Config, s: State, b: Attempt) {
    && AttemptOk(c, s, b)
    && b.version <= |s.published|
    && c.passes(s.published[b.version - 1], b.nonce)
    && (b.version == s.workers[b.thread].lastSeen ==> !Busy(s.workers[b.thread]))
  }

  ghost predicate SameTry(a: Attempt, b: Attempt) {
    a.thread == b.thread && a.version == b.version && a.k == b.k
  }

  ghost predicate Inv(c: Config, s: State) {
    && SlotOk(s)
    && |s.workers| == c.threads
    && (forall i: nat :: i < |s.workers| ==> WorkerOk(c, s, i))
    && (forall p :: 0 <= p < |s.attempts| ==> AttemptOk(c, s, s.attempts[p]))
    && (forall p :: 0 <= p < |s.submitted| ==> SubmitOk(c, s, s.submitted[p]))
    && (forall p, q :: 0 <= p < q < |s.attempts| ==> !SameTry(s.attempts[p], s.attempts[q]))
    && (forall p, q :: 0 <= p < q < |s.submitted| && s.submitted[p].thread == s.submitted[q].thread
          ==> s.submitted[p].version != s.submitted[q].version)
  }

  lemma InitialInv(c: Config)
    requires c.threads > 0
    ensures Inv(c, Initial(c))
  {
    var s := Initial(c);
    forall i: nat | i < |s.workers| ensures WorkerOk(c, s, i) {
      SteppingIsNonceAt(c.threads, i, 0);
    }
  }

  /** What a step may do to a thread without disturbing the record of its past. */
  ghost predicate Quiet(w: Worker, x: Worker) {
    && w.lastSeen <= x.lastSeen && w.tries <= x.tries
    && (Busy(x) && x.lastSeen == w.lastSeen ==> Busy(w))
  }

  ghost predicate QuietStep(s: State, t: State) {
    && |s.workers| == |t.workers|
    && s.published <= t.published
    && forall i :: 0 <= i < |s.workers| ==> Quiet(s.workers[i], t.workers[i])
  }

  lemma PastStaysOk(c: Config, s: State, t: State)
    requires QuietStep(s, t)
    ensures forall a :: AttemptOk(c, s, a) ==> AttemptOk(c, t, a)
    ensures forall a :: SubmitOk(c, s, a) ==> SubmitOk(c, t, a)
  {
  }

  /** Publishing and notifying wake the parked threads and leave the rest alone. */
  lemma WakingKeepsInv(c: Config, s: State, step: Step)
    requires Inv(c, s) && (step.Publish? || step.RaiseShutdown? || step.NotifyAll?)
    requires |Do(c, s, step).published| < TWO64
    ensures Inv(c, Do(c, s, step))
  {
    var t := Do(c, s, step);
    forall i: nat | i < |t.workers| ensures WorkerOk(c, t, i) {
      assert WorkerOk(c, s, i);
    }
    PastStaysOk(c, s, t);
  }

  lemma MovedIsOk(c: Config, s: State, step: Step)
    requires Inv(c, s) && Enabled(c, s, step) && !step.Publish? && !step.RaiseShutdown? && !step.NotifyAll?
    ensures WorkerOk(c, Do(c, s, step), step.i)
    ensures Quiet(s.workers[step.i], Moved(c, s, step))
  {
    var i := step.i;
    assert WorkerOk(c, s, i);
    if step.Try? {
      SteppingIsNonceAt(c.threads, i, s.workers[i].tries);
    }
    hide NonceAt, AttemptOk, SubmitOk;
  }

  /** A step of one thread leaves the slot, the publications and the other threads alone. */
  lemma MoveIsQuiet(c: Config, s: State, step: Step)
    requires Inv(c, s) && Enabled(c, s, step) && !step.Publish? && !step.RaiseShutdown? && !step.NotifyAll?
    ensures var t := Do(c, s, step);
            && SlotOk(t) && QuietStep(s, t) && t.published == s.published
            && (forall i: nat :: i < |t.workers| ==> WorkerOk(c, t, i))
  {
    MovedIsOk(c, s, step);
    var t := Do(c, s, step);
    forall i: nat | i < |t.workers| ensures WorkerOk(c, t, i) {
      if i != step.i {
        assert WorkerOk(c, s, i);
      }
    }
  }

  lemma MoveKeepsInv(c: Config, s: State, step: Step)
    requires Inv(c, s) && Enabled(c, s, step)
    requires !step.Publish? && !step.RaiseShutdown? && !step.NotifyAll? && !step.Try?
    ensures Inv(c, Do(c, s, step))
  {
    var t := Do(c, s, step);
    MoveIsQuiet(c, s, step);
    PastStaysOk(c, s, t);
  }

  /** A fresh attempt repeats no earlier one, and a fresh block is its thread's first for its version. */
  lemma TryKeepsInv(c: Config, s: State, i: nat)
    requires Inv(c, s) && Enabled(c, s, Try(i))
    ensures Inv(c, Do(c, s, Try(i)))
  {
    var step := Try(i);
    var t := Do(c, s, step);
    MoveIsQuiet(c, s, step);
    PastStaysOk(c, s, t);
    assert WorkerOk(c, s, i);
    var w := s.workers[i];
    var a := Attempt(i, w.lastSeen, w.tries, w.nonce);
    assert AttemptOk(c, t, a);
    forall p | 0 <= p < |s.attempts| ensures !SameTry(s.attempts[p], a) {
    }
    forall p | 0 <= p < |s.submitted| && s.submitted[p].thread == i ensures s.submitted[p].version != a.version {
    }
  }

  lemma StepKeepsInv(c: Config, s: State, step: Step)
    requires Inv(c, s) && Enabled(c, s, step)
    requires |Do(c, s, step).published| < TWO64
    ensures Inv(c, Do(c, s, step))
  {
    if step.Publish? || step.RaiseShutdown? || step.NotifyAll? {
      WakingKeepsInv(c, s, step);
    } else if step.Try? {
      TryKeepsInv(c, s, step.i);
    } else {
      MoveKeepsInv(c, s, step);
    }
  }

  /** The invariant holds in every state of every execution until the version counter would wrap. */
  lemma {:induction false} ExecutionKeepsInv(c: Config, ss: seq<State>, steps: seq<Step>, n: nat)
    requires c.threads > 0 && IsExecution(c, ss, steps) && n < |ss|
    requires |ss[n].published| < TWO64
    ensures Inv(c, ss[n])
  {
    if n == 0 {
      InitialInv(c);
    } else {
      assert IsStepOf(c, ss, steps, n - 1);
      ExecutionKeepsInv(c, ss, steps, n - 1);
      StepKeepsInv(c, ss[n - 1], steps[n - 1]);
    }
  }

  // ---------------------------------------------------------------------------------------
  // What it means
  // ---------------------------------------------------------------------------------------

  /** No published work is missed: a sleeping thread has seen the newest version, and every version has work. */
  lemma NoPublishedWorkIsMissed(c: Config, ss: seq<State>, steps: seq<Step>, n: nat, i: nat)
    requires c.threads > 0 && IsExecution(c, ss, steps) && n < |ss| && |ss[n].published| < TWO64
    requires i < c.threads
    ensures var s := ss[n];
            && |s.workers| == c.threads
            && s.slot.version == |s.published|
            && (s.slot.version > 0 <==> s.slot.work.Some?)
            && (s.slot.version > 0 ==> s.slot.work == Some(s.published[s.slot.version - 1]))
            && (s.workers[i].pc == Parked ==> s.workers[i].lastSeen == s.slot.version)
            && (Busy(s.workers[i]) ==> 0 < s.workers[i].lastSeen <= |s.published|
                                       && s.workers[i].held == Some(s.published[s.workers[i].lastSeen - 1]))
  {
    ExecutionKeepsInv(c, ss, steps, n);
    assert WorkerOk(c, ss[n], i);
  }

  /**
   * Each thread takes up strictly newer versions, and sends at most one block per version, which solves
   * that version's work.
   */
  lemma OneBlockPerVersion(c: Config, ss: seq<State>, steps: seq<Step>, n: nat)
    requires c.threads > 0 && IsExecution(c, ss, steps) && n < |ss| && |ss[n].published| < TWO64
    ensures var s := ss[n];
            && (forall i: nat :: i < |s.workers| ==> Increasing(s.workers[i].seen))
            && (forall p :: 0 <= p < |s.submitted| ==>
                  var b := s.submitted[p];
                  0 < b.version <= |s.published| && c.passes(s.published[b.version - 1], b.nonce))
            && (forall p, q :: 0 <= p < q < |s.submitted|
                  ==> || s.submitted[p].thread != s.submitted[q].thread
                      || s.submitted[p].version != s.submitted[q].version)
  {
    ExecutionKeepsInv(c, ss, steps, n);
    var s := ss[n];
    forall i: nat | i < |s.workers| ensures Increasing(s.workers[i].seen) {
      assert WorkerOk(c, s, i);
    }
    forall p | 0 <= p < |s.submitted|
      ensures 0 < s.submitted[p].version <= |s.published|
      ensures c.passes(s.published[s.submitted[p].version - 1], s.submitted[p].nonce)
    {
    }
  }

  /** No two attempts of an execution try the same nonce on the same work. */
  ghost predicate NoNonceTriedTwice(s: State) {
    forall p, q :: 0 <= p < q < |s.attempts|
      ==> s.attempts[p].version != s.attempts[q].version || s.attempts[p].nonce != s.attempts[q].nonce
  }

  /** With a thread count coprime to 1_000_000_007 and before any nonce wraps, no nonce is tried twice on any work. */
  lemma NoWorkIsRepeated(c: Config, ss: seq<State>, steps: seq<Step>, n: nat)
    requires c.threads > 0 && IsExecution(c, ss, steps) && n < |ss| && |ss[n].published| < TWO64
    requires Coprime(c.threads, SPREAD)
    requires forall p :: 0 <= p < |ss[n].attempts|
               ==> Unwrapped(c.threads, ss[n].attempts[p].thread, ss[n].attempts[p].k) < TWO64
    ensures NoNonceTriedTwice(ss[n])
  {
    ExecutionKeepsInv(c, ss, steps, n);
    var s := ss[n];
    forall p, q | 0 <= p < q < |s.attempts| && s.attempts[p].nonce == s.attempts[q].nonce
      ensures s.attempts[p].version != s.attempts[q].version
    {
      var a, b := s.attempts[p], s.attempts[q];
      UnwrappedIsInjective(c.threads, a.thread, b.thread, a.k, b.k);
    }
  }

  /**
   * With a thread count that divides 2^64, two threads never try the same nonce, through any number of
   * wrap-arounds.
   */
  lemma NoTwoThreadsShareANonce(c: Config, ss: seq<State>, steps: seq<Step>, n: nat)
    requires c.threads > 0 && IsExecution(c, ss, steps) && n < |ss| && |ss[n].published| < TWO64
    requires Divides(c.threads, TWO64)
    ensures var s := ss[n];
            forall p, q :: 0 <= p < q < |s.attempts| && s.attempts[p].thread != s.attempts[q].thread
              ==> s.attempts[p].nonce != s.attempts[q].nonce
  {
    ExecutionKeepsInv(c, ss, steps, n);
    var s := ss[n];
    forall p, q | 0 <= p < q < |s.attempts| && s.attempts[p].thread != s.attempts[q].thread
      ensures s.attempts[p].nonce != s.attempts[q].nonce
    {
      var a, b := s.attempts[p], s.attempts[q];
      if a.nonce == b.nonce {
        WrappedSameThread(c.threads, a.thread, b.thread, a.k, b.k);
      }
    }
  }

  // The mining loop, exactly.

  /**
   * One turn of the inner loop, with anything in between.  A nonce that passes is sent and ends the work on
   * this version.  After one that does not, the thread looks at the slot, whatever it holds by then: it goes
   * on, with the nonce one stride further, if and only if it has seen the current version.
   */
  lemma MiningTurn(c: Config, s: State, i: nat)
    requires i < |s.workers| && s.workers[i].pc == Mining && s.workers[i].held.Some? && c.threads > 0
    ensures Enabled(c, s, Try(i))
    ensures var (w, t) := (s.workers[i], Do(c, s, Try(i)));
            && t.attempts == s.attempts + [Attempt(i, w.lastSeen, w.tries, w.nonce)]
            && (c.passes(w.held.value, w.nonce)
                ==> && t.workers == s.workers[i := w.(pc := Top)]
                    && t.submitted == s.submitted + [Attempt(i, w.lastSeen, w.tries, w.nonce)])
            && (!c.passes(w.held.value, w.nonce)
                ==> && t.submitted == s.submitted
                    && t.workers == s.workers[i := t.workers[i]]
                    && t.workers[i] == w.(pc := Checking, tries := w.tries + 1,
                                          nonce := (w.nonce + c.threads) % 0x1_0000_0000_0000_0000))
  {
  }

  lemma LookAtTheSlot(c: Config, t: State, i: nat)
    requires i < |t.workers| && t.workers[i].pc == Checking
    ensures Enabled(c, t, Recheck(i))
    ensures var (w, u) := (t.workers[i], Do(c, t, Recheck(i)));
            && u == t.(workers := t.workers[i := u.workers[i]])
            && (u.workers[i] == w.(pc := Mining) <==> t.slot.version == w.lastSeen)
            && (u.workers[i] == w.(pc := Top) <==> t.slot.version != w.lastSeen)
  {
  }

  /** A thread at the top of its loop goes to the wait, and one that is asleep can wake into it, with all else kept. */
  lemma ThreadsComeToTheWait(c: Config, s: State, i: nat)
    requires i < |s.workers| && (s.workers[i].pc == Top || s.workers[i].pc == Parked)
    ensures var step := if s.workers[i].pc == Top then Enter(i) else Wake(i);
            Enabled(c, s, step) && Do(c, s, step) == s.(workers := s.workers[i := s.workers[i].(pc := Waiting)])
  {
  }

  /** Once the shutdown flag is up and the waiters are notified, every thread can leave by three steps of its own. */
  lemma ShutdownReachesEveryThread(c: Config, s: State, i: nat) returns (t: State)
    requires s.shutdown && i < |s.workers|
    ensures |t.workers| == |s.workers| && t.workers[i].pc == Exited
    ensures forall j :: 0 <= j < |s.workers| && j != i ==> t.workers[j] == Woken(s.workers[j])
  {
    t := Do(c, s, NotifyAll);
    if t.workers[i].pc == Waiting {
      t := Do(c, t, if t.slot.version != t.workers[i].lastSeen then Take(i) else GiveUp(i));
    }
    if t.workers[i].pc != Exited {
      t := Do(c, t, Leave(i));
    }
  }

  /** The attempt solves the work of its version. */
  ghost predicate Solves(c: Config, s: State, a: Attempt) {
    0 < a.version <= |s.published| && c.passes(s.published[a.version - 1], a.nonce)
  }

  ghost predicate SentIffSolved(c: Config, s: State) {
    forall a :: a in s.submitted <==> a in s.attempts && Solves(c, s, a)
  }

  lemma TrySendsIffSolved(c: Config, s: State, i: nat)
    requires Inv(c, s) && SentIffSolved(c, s) && Enabled(c, s, Try(i))
    ensures SentIffSolved(c, Do(c, s, Try(i)))
  {
    assert WorkerOk(c, s, i);
    var (w, t) := (s.workers[i], Do(c, s, Try(i)));
    var a := Attempt(i, w.lastSeen, w.tries, w.nonce);
    MiningTurn(c, s, i);
    assert Solves(c, t, a) <==> c.passes(w.held.value, w.nonce);
    hide Inv, WorkerOk, Enabled;
    forall b ensures b in t.submitted <==> b in t.attempts && Solves(c, t, b) {
      assert Solves(c, t, b) <==> Solves(c, s, b);
      assert b in t.attempts <==> b in s.attempts || b == a;
    }
  }

  lemma PublishKeepsSolved(c: Config, s: State, step: Step)
    requires Inv(c, s) && SentIffSolved(c, s) && Enabled(c, s, step) && !step.Try?
    ensures SentIffSolved(c, Do(c, s, step))
  {
    var t := Do(c, s, step);
    forall a | a in s.attempts ensures Solves(c, t, a) <==> Solves(c, s, a) {
      var p :| 0 <= p < |s.attempts| && s.attempts[p] == a;
      assert AttemptOk(c, s, s.attempts[p]) && WorkerOk(c, s, a.thread);
    }
  }

  /**
   * Every solved block is sent, and nothing else: in every state of every execution before the version
   * wraps, the blocks sent are exactly the attempts whose nonce solves the work published as their version.
   */
  lemma {:induction false} SentExactlyTheSolved(c: Config, ss: seq<State>, steps: seq<Step>, n: nat)
    requires c.threads > 0 && IsExecution(c, ss, steps) && n < |ss| && |ss[n].published| < TWO64
    ensures forall a :: a in ss[n].submitted
              <==> && a in ss[n].attempts && 0 < a.version <= |ss[n].published|
                   && c.passes(ss[n].published[a.version - 1], a.nonce)
    ensures SentIffSolved(c, ss[n])
  {
    if n > 0 {
      assert IsStepOf(c, ss, steps, n - 1);
      SentExactlyTheSolved(c, ss, steps, n - 1);
      ExecutionKeepsInv(c, ss, steps, n - 1);
      if steps[n - 1].Try? {
        TrySendsIffSolved(c, ss[n - 1], steps[n - 1].i);
      } else {
        PublishKeepsSolved(c, ss[n - 1], steps[n - 1]);
      }
    }
    hide Inv, IsStepOf, IsExecution, Do;
  }

  /** Thread `i` has tried its `k`-th nonce. */
  ghost predicate Tried(s: State, i: nat, k: nat) {
    exists p :: 0 <= p < |s.attempts| && s.attempts[p].thread == i && s.attempts[p].k == k
  }

  /** No nonce is skipped: what a thread has tried are its nonces from the first on, each one stride further. */
  lemma {:induction false} NoNonceIsSkipped(c: Config, ss: seq<State>, steps: seq<Step>, n: nat, i: nat)
    requires c.threads > 0 && IsExecution(c, ss, steps) && n < |ss| && |ss[n].published| < TWO64
    requires i < c.threads
    ensures |ss[n].workers| == c.threads
    ensures forall k: nat :: k < ss[n].workers[i].tries ==> Tried(ss[n], i, k)
    ensures forall p :: 0 <= p < |ss[n].attempts| && ss[n].attempts[p].thread == i
              ==> var a := ss[n].attempts[p];
                  && a.k <= ss[n].workers[i].tries
                  && a.nonce == (i * 1_000_000_007 + a.k * c.threads) % 0x1_0000_0000_0000_0000
  {
    ExecutionKeepsInv(c, ss, steps, n);
    if n > 0 {
      assert IsStepOf(c, ss, steps, n - 1);
      var (s, t) := (ss[n - 1], ss[n]);
      NoNonceIsSkipped(c, ss, steps, n - 1, i);
      TriesAreRecorded(c, s, steps[n - 1], i);
    }
    hide Do, IsStepOf;
    forall p | 0 <= p < |ss[n].attempts| && ss[n].attempts[p].thread == i
      ensures ss[n].attempts[p].k <= ss[n].workers[i].tries
      ensures ss[n].attempts[p].nonce
              == (i * 1_000_000_007 + ss[n].attempts[p].k * c.threads) % 0x1_0000_0000_0000_0000
    {
      assert AttemptOk(c, ss[n], ss[n].attempts[p]);
    }
  }

  lemma TriesAreRecorded(c: Config, s: State, step: Step, i: nat)
    requires Enabled(c, s, step) && i < |s.workers|
    requires forall k: nat :: k < s.workers[i].tries ==> Tried(s, i, k)
    ensures i < |Do(c, s, step).workers|
    ensures forall k: nat :: k < Do(c, s, step).workers[i].tries ==> Tried(Do(c, s, step), i, k)
  {
    var t := Do(c, s, step);
    forall k: nat | k < t.workers[i].tries ensures Tried(t, i, k) {
      if k < s.workers[i].tries {
        assert Tried(s, i, k);
        var p :| 0 <= p < |s.attempts| && s.attempts[p].thread == i && s.attempts[p].k == k;
        assert t.attempts[p] == s.attempts[p];
      } else {
        assert t.attempts[|s.attempts|].thread == i && t.attempts[|s.attempts|].k == k;
      }
    }
  }

  /** The blocks handed over by the publisher in the first `n` steps. */
  ghost function Handed(steps: seq<Step>, n: nat): seq<nat>
    requires n <= |steps|
  {
    if n == 0 then []
    else if steps[n - 1].Publish? then Handed(steps, n - 1) + [steps[n - 1].block]
    else Handed(steps, n - 1)
  }

  /** Version `v` of the work is the `v`-th block handed over, and no thread leaves before the flag is raised. */
  lemma {:induction false} VersionsAreThePublications(c: Config, ss: seq<State>, steps: seq<Step>, n: nat)
    requires c.threads > 0 && IsExecution(c, ss, steps) && n < |ss| && |ss[n].published| < TWO64
    ensures |ss[n].published| == |Handed(steps, n)|
    ensures forall v :: 0 <= v < |ss[n].published| ==> ss[n].published[v] == Work(v, Handed(steps, n)[v])
    ensures ss[n].shutdown <==> exists k :: 0 <= k < n && steps[k] == RaiseShutdown
    ensures forall i :: 0 <= i < |ss[n].workers| && ss[n].workers[i].pc == Exited ==> ss[n].shutdown
  {
    if n > 0 {
      assert IsStepOf(c, ss, steps, n - 1);
      VersionsAreThePublications(c, ss, steps, n - 1);
      ExecutionKeepsInv(c, ss, steps, n - 1);
    }
  }
}
