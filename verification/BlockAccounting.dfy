/**
 * Block-confirmation accounting.  A block the node accepts gets a confirm task, which polls the node
 * up to 30 times and then either bumps two separately locked counters and records the block blue, or
 * records it not blue.  Meanwhile a pruner drops idle workers from the live map; tasks keep the
 * dropped worker's counters.
 *
 * `Book` is the shared state, on which every locked section is one function; the class `Ledger` has
 * the source's methods, proved against these functions; the step system interleaves them.
 */
module BlockAccounting {

  const CONFIRM_MAX_ATTEMPTS: nat := 30
  const NO_SHARE_LIFETIME_SECS: nat := 180
  const IDLE_LIFETIME_SECS: nat := 600

  datatype WorkStats = WorkStats(
    name: string, minDiff: real, startTime: nat, lastShare: nat, sharesFound: nat, blocksFound: nat)

  /**
   * `table` holds every `WorkStats` ever created, `live` the ones in the handler's map (by name, as
   * an index into `table`).  `accepted`, `blue` and `notBlue` are the three recorded metrics.
   */
  datatype Book = Book(
    table: seq<WorkStats>, live: map<string, nat>, overallBlocks: nat, accepted: nat, blue: nat, notBlue: nat)

  const EMPTY_BOOK := Book([], map[], 0, 0, 0, 0)

  /** The live entries point to distinct rows that carry their names. */
  ghost predicate Linked(b: Book) {
    forall name :: name in b.live ==> b.live[name] < |b.table| && b.table[b.live[name]].name == name
  }

  // The locked sections.

  /** A new row; its displayed difficulty is the connection's own, if that is positive. */
  function NewStats(name: string, stratumDiff: real, now: nat): WorkStats {
    WorkStats(name, if stratumDiff > 0.0 then stratumDiff else 0.0, now, now, 0, 0)
  }

  function GetCreate(b: Book, name: string, stratumDiff: real, now: nat): Book {
    if name in b.live then b
    else b.(table := b.table + [NewStats(name, stratumDiff, now)], live := b.live[name := |b.table|])
  }

  /** `duration_since` saturates at zero, which the signed differences reproduce. */
  predicate Retained(w: WorkStats, now: nat) {
    && (w.sharesFound > 0 || now - w.startTime < NO_SHARE_LIFETIME_SECS)
    && now - w.lastShare < IDLE_LIFETIME_SECS
  }

  function Prune(b: Book, now: nat): Book
    requires Linked(b)
  {
    b.(live := map name | name in b.live && Retained(b.table[b.live[name]], now) :: b.live[name])
  }

  function CountShare(b: Book, id: nat): Book
    requires id < |b.table|
  {
    b.(table := b.table[id := b.table[id].(sharesFound := b.table[id].sharesFound + 1)])
  }

  function TouchShare(b: Book, id: nat, now: nat): Book
    requires id < |b.table|
  {
    b.(table := b.table[id := b.table[id].(lastShare := now)])
  }

  function BumpWorker(b: Book, id: nat): Book
    requires id < |b.table|
  {
    b.(table := b.table[id := b.table[id].(blocksFound := b.table[id].blocksFound + 1)])
  }

  function BumpOverall(b: Book): Book {
    b.(overallBlocks := b.overallBlocks + 1)
  }

  datatype Answer = Blue | NotBlue | RpcError

  /** The first attempt, of the 30 a task has, that the node answers with blue; 30 if there is none. */
  ghost function FirstBlue(poll: nat -> Answer, from: nat): (n: nat)
    requires from <= CONFIRM_MAX_ATTEMPTS
    ensures from <= n <= CONFIRM_MAX_ATTEMPTS
    ensures forall k :: from <= k < n ==> poll(k) != Blue
    ensures n < CONFIRM_MAX_ATTEMPTS ==> poll(n) == Blue
    decreases CONFIRM_MAX_ATTEMPTS - from
  {
    if from == CONFIRM_MAX_ATTEMPTS || poll(from) == Blue then from else FirstBlue(poll, from + 1)
  }

  lemma FirstBlueSkips(poll: nat -> Answer, k: nat)
    requires k < CONFIRM_MAX_ATTEMPTS
    ensures FirstBlue(poll, k) == if poll(k) == Blue then k else FirstBlue(poll, k + 1)
  {
  }

  /** What a confirm task that nobody interrupts does to the book. */
  ghost function Confirmed(b: Book, id: nat, poll: nat -> Answer): Book
    requires id < |b.table|
  {
    if FirstBlue(poll, 0) < CONFIRM_MAX_ATTEMPTS
    then BumpOverall(BumpWorker(b, id)).(blue := b.blue + 1)
    else b.(notBlue := b.notBlue + 1)
  }

  class Ledger {
    var table: seq<WorkStats>
    var live: map<string, nat>
    var overallBlocks: nat
    var accepted: nat
    var blue: nat
    var notBlue: nat

    ghost function Contents(): Book
      reads this
    {
      Book(table, live, overallBlocks, accepted, blue, notBlue)
    }

    ghost predicate Valid()
      reads this
    {
      Linked(Contents())
    }

    constructor ()
      ensures Valid() && Contents() == EMPTY_BOOK
    {
      table, live, overallBlocks, accepted, blue, notBlue := [], map[], 0, 0, 0, 0;
    }

    method GetCreateStats(name: string, stratumDiff: real, now: nat) returns (id: nat)
      requires Valid()
      modifies this
      ensures Valid() && Contents() == GetCreate(old(Contents()), name, stratumDiff, now)
      ensures id < |table| && name in live && live[name] == id
      ensures name in old(live) ==> Contents() == old(Contents())
      ensures name !in old(live)
              ==> && id == |old(table)| && live == old(live)[name := id]
                  && table == old(table)
                              + [WorkStats(name, if stratumDiff > 0.0 then stratumDiff else 0.0, now, now, 0, 0)]
    {
      if name in live {
        id := live[name];
      } else {
        id := |table|;
        var minDiff := 0.0;
        if stratumDiff > 0.0 {
          minDiff := stratumDiff;
        }
        table := table + [WorkStats(name, minDiff, now, now, 0, 0)];
        live := live[name := id];
      }
    }

    method PruneStats(now: nat)
      requires Valid()
      modifies this
      ensures Valid() && Contents() == Prune(old(Contents()), now)
      ensures table == old(table) && live.Keys <= old(live).Keys
      ensures forall name :: name in old(live)
                ==> var w := table[old(live)[name]];
                    if (w.sharesFound > 0 || now - w.startTime < 180) && now - w.lastShare < 600
                    then name in live && live[name] == old(live)[name]
                    else name !in live
    {
      live := map name | name in live && Retained(table[live[name]], now) :: live[name];
    }

    /** The body of the confirm task. */
    method ConfirmBlock(id: nat, poll: nat -> Answer)
      requires Valid() && id < |table|
      modifies this
      ensures Valid() && Contents() == Confirmed(old(Contents()), id, poll)
      ensures live == old(live) && accepted == old(accepted)
      ensures (exists k :: 0 <= k < 30 && poll(k) == Blue)
              ==> && table == old(table)[id := old(table)[id].(blocksFound := old(table)[id].blocksFound + 1)]
                  && overallBlocks == old(overallBlocks) + 1
                  && blue == old(blue) + 1 && notBlue == old(notBlue)
      ensures (forall k :: 0 <= k < 30 ==> poll(k) != Blue)
              ==> && table == old(table) && overallBlocks == old(overallBlocks)
                  && blue == old(blue) && notBlue == old(notBlue) + 1
    {
      hide FirstBlue;
      for attempt := 0 to CONFIRM_MAX_ATTEMPTS
        invariant Valid() && Contents() == old(Contents())
        invariant FirstBlue(poll, attempt) == FirstBlue(poll, 0)
      {
        FirstBlueSkips(poll, attempt);
        match poll(attempt) {
          case Blue =>
            table := table[id := table[id].(blocksFound := table[id].blocksFound + 1)];
            overallBlocks := overallBlocks + 1;
            blue := blue + 1;
            return;
          case NotBlue =>
          case RpcError =>
        }
      }
      notBlue := notBlue + 1;
    }
  }

  // ---------------------------------------------------------------------------------------
  // Interleavings
  // ---------------------------------------------------------------------------------------

  /**
   * Where an accepted block is.  Its submitter holds the worker's stats, then has recorded the
   * acceptance, then has spawned the confirm task.  The task is still asking; answered blue with
   * nothing counted yet; counted for its worker; counted for the worker and overall; out of attempts;
   * or at one of the two ends.
   */
  datatype Pc =
    | HasStats | AcceptRecorded
    | Polling | Found | WorkerCounted | BothCounted | OutOfAttempts | RecordedBlue | RecordedNotBlue

  datatype Task = Task(stats: nat, attempts: nat, pc: Pc)

  datatype State = State(book: Book, tasks: seq<Task>)

  datatype Step =
    | Accept(name: string, stratumDiff: real, now: nat)
    | Authorize(name: string, stratumDiff: real, now: nat)
    | Share(id: nat)
    | Touch(id: nat, now: nat)
    | PruneTick(now: nat)
    | Poll(t: nat, answer: Answer)
    | Advance(t: nat)

  predicate Enabled(s: State, step: Step) {
    match step
    case Share(id) => id < |s.book.table|
    case Touch(id, _) => id < |s.book.table|
    case Poll(t, _) => t < |s.tasks| && s.tasks[t].pc == Polling
    case Advance(t) =>
      t < |s.tasks| && s.tasks[t].pc in {HasStats, AcceptRecorded, Found, WorkerCounted, BothCounted, OutOfAttempts}
    case _ => true
  }

  function Polled(task: Task, answer: Answer): Task {
    var n := task.attempts + 1;
    Task(task.stats, n,
         if answer == Blue then Found else if n == CONFIRM_MAX_ATTEMPTS then OutOfAttempts else Polling)
  }

  function Advanced(task: Task): Task {
    match task.pc
    case HasStats => task.(pc := AcceptRecorded)
    case AcceptRecorded => task.(pc := Polling)
    case Found => task.(pc := WorkerCounted)
    case WorkerCounted => task.(pc := BothCounted)
    case BothCounted => task.(pc := RecordedBlue)
    case OutOfAttempts => task.(pc := RecordedNotBlue)
    case _ => task
  }

  function AdvancedBook(b: Book, task: Task): Book
    requires task.stats < |b.table|
  {
    match task.pc
    case HasStats => b.(accepted := b.accepted + 1)
    case Found => BumpWorker(b, task.stats)
    case WorkerCounted => BumpOverall(b)
    case BothCounted => b.(blue := b.blue + 1)
    case OutOfAttempts => b.(notBlue := b.notBlue + 1)
    case _ => b
  }

  ghost predicate WellFormed(s: State) {
    && Linked(s.book)
    && forall t :: 0 <= t < |s.tasks| ==> s.tasks[t].stats < |s.book.table|
  }

  ghost function Do(s: State, step: Step): State
    requires WellFormed(s) && Enabled(s, step)
  {
    match step
    case Accept(name, diff, now) =>
      var b := GetCreate(s.book, name, diff, now);
      State(b, s.tasks + [Task(b.live[name], 0, HasStats)])
    case Authorize(name, diff, now) => s.(book := GetCreate(s.book, name, diff, now))
    case Share(id) => s.(book := CountShare(s.book, id))
    case Touch(id, now) => s.(book := TouchShare(s.book, id, now))
    case PruneTick(now) => s.(book := Prune(s.book, now))
    case Poll(t, answer) => s.(tasks := s.tasks[t := Polled(s.tasks[t], answer)])
    case Advance(t) =>
      State(AdvancedBook(s.book, s.tasks[t]), s.tasks[t := Advanced(s.tasks[t])])
  }

  ghost predicate IsStepOf(ss: seq<State>, steps: seq<Step>, n: nat)
    requires |ss| == |steps| + 1 && n < |steps|
  {
    WellFormed(ss[n]) && Enabled(ss[n], steps[n]) && ss[n + 1] == Do(ss[n], steps[n])
  }

  ghost predicate IsExecution(ss: seq<State>, steps: seq<Step>) {
    && |ss| == |steps| + 1
    && ss[0] == State(EMPTY_BOOK, [])
    && forall n: nat :: n < |steps| ==> IsStepOf(ss, steps, n)
  }

  // ---------------------------------------------------------------------------------------
  // Counting
  // ---------------------------------------------------------------------------------------

  /** How many tasks are at one of the given places. */
  ghost function CountAt(tasks: seq<Task>, pcs: set<Pc>): nat {
    if tasks == [] then 0
    else (if tasks[0].pc in pcs then 1 else 0) + CountAt(tasks[1..], pcs)
  }

  /** How many of them belong to row `id` of the table. */
  ghost function CountAtFor(tasks: seq<Task>, pcs: set<Pc>, id: nat): nat {
    if tasks == [] then 0
    else (if tasks[0].pc in pcs && tasks[0].stats == id then 1 else 0) + CountAtFor(tasks[1..], pcs, id)
  }

  /** All blocks ever counted for a worker. */
  ghost function TotalBlocks(table: seq<WorkStats>): nat {
    if table == [] then 0 else table[0].blocksFound + TotalBlocks(table[1..])
  }

  /** The blocks of the rows in `ids` only. */
  ghost function BlocksIn(table: seq<WorkStats>, ids: set<nat>): nat {
    if table == [] then 0
    else
      var last := |table| - 1;
      BlocksIn(table[..last], ids) + (if last in ids then table[last].blocksFound else 0)
  }

  lemma {:induction false} CountAppended(tasks: seq<Task>, x: Task, pcs: set<Pc>, id: nat)
    ensures CountAt(tasks + [x], pcs) == CountAt(tasks, pcs) + if x.pc in pcs then 1 else 0
    ensures CountAtFor(tasks + [x], pcs, id)
            == CountAtFor(tasks, pcs, id) + if x.pc in pcs && x.stats == id then 1 else 0
  {
    if tasks == [] {
    } else {
      CountAppended(tasks[1..], x, pcs, id);
      assert (tasks + [x])[1..] == tasks[1..] + [x];
    }
  }

  lemma {:induction false} CountMoved(tasks: seq<Task>, t: nat, x: Task, pcs: set<Pc>, id: nat)
    requires t < |tasks| && x.stats == tasks[t].stats
    ensures CountAt(tasks[t := x], pcs)
            == CountAt(tasks, pcs) - (if tasks[t].pc in pcs then 1 else 0) + (if x.pc in pcs then 1 else 0)
    ensures CountAtFor(tasks[t := x], pcs, id)
            == CountAtFor(tasks, pcs, id) - (if tasks[t].pc in pcs && x.stats == id then 1 else 0)
               + (if x.pc in pcs && x.stats == id then 1 else 0)
  {
    if t == 0 {
    } else {
      CountMoved(tasks[1..], t - 1, x, pcs, id);
    }
  }

  lemma {:induction false} CountsSplit(tasks: seq<Task>, p: set<Pc>, q: set<Pc>)
    requires p !! q
    ensures CountAt(tasks, p + q) == CountAt(tasks, p) + CountAt(tasks, q)
    ensures (forall pc :: pc in p) ==> CountAt(tasks, p) == |tasks|
  {
    if tasks != [] {
      CountsSplit(tasks[1..], p, q);
    }
  }

  lemma {:induction false} TotalAppended(table: seq<WorkStats>, w: WorkStats)
    ensures TotalBlocks(table + [w]) == TotalBlocks(table) + w.blocksFound
  {
    if table == [] {
    } else {
      TotalAppended(table[1..], w);
      assert (table + [w])[1..] == table[1..] + [w];
    }
  }

  lemma {:induction false} TotalUpdated(table: seq<WorkStats>, id: nat, w: WorkStats)
    requires id < |table|
    ensures TotalBlocks(table[id := w]) == TotalBlocks(table) - table[id].blocksFound + w.blocksFound
  {
    if id == 0 {
    } else {
      TotalUpdated(table[1..], id - 1, w);
    }
  }

  lemma {:induction false} TotalSplits(table: seq<WorkStats>, ids: set<nat>, others: set<nat>)
    requires ids !! others && forall id: nat :: id < |table| ==> id in ids || id in others
    ensures TotalBlocks(table) == BlocksIn(table, ids) + BlocksIn(table, others)
  {
    if table != [] {
      var last := |table| - 1;
      TotalSplits(table[..last], ids, others);
      TotalAppended(table[..last], table[last]);
      assert table == table[..last] + [table[last]];
    }
  }

  lemma {:induction false} CountForUnused(tasks: seq<Task>, pcs: set<Pc>, id: nat)
    requires forall t :: 0 <= t < |tasks| ==> tasks[t].stats != id
    ensures CountAtFor(tasks, pcs, id) == 0
  {
    if tasks != [] {
      CountForUnused(tasks[1..], pcs, id);
    }
  }

  // ---------------------------------------------------------------------------------------
  // The invariant
  // ---------------------------------------------------------------------------------------

  const SPAWNED: set<Pc> := {Polling, Found, WorkerCounted, BothCounted, OutOfAttempts}
  const COUNTED_FOR_WORKER: set<Pc> := {WorkerCounted, BothCounted, RecordedBlue}
  const COUNTED_OVERALL: set<Pc> := {BothCounted, RecordedBlue}

  /** A task asks at most 30 times, and gives up exactly after 30 answers that were not blue. */
  ghost predicate TaskOk(task: Task) {
    && task.attempts <= CONFIRM_MAX_ATTEMPTS
    && (task.pc == Polling ==> task.attempts < CONFIRM_MAX_ATTEMPTS)
    && (task.pc == HasStats || task.pc == AcceptRecorded ==> task.attempts == 0)
    && (task.pc == OutOfAttempts || task.pc == RecordedNotBlue ==> task.attempts == CONFIRM_MAX_ATTEMPTS)
  }

  ghost predicate MetricsOk(s: State) {
    && s.book.accepted + CountAt(s.tasks, {HasStats}) == |s.tasks|
    && s.book.blue == CountAt(s.tasks, {RecordedBlue})
    && s.book.notBlue == CountAt(s.tasks, {RecordedNotBlue})
    && s.book.overallBlocks == CountAt(s.tasks, COUNTED_OVERALL)
    && TotalBlocks(s.book.table) == CountAt(s.tasks, COUNTED_FOR_WORKER)
  }

  /** A worker's blocks are the accepted blocks of its own tasks that were answered blue and counted. */
  ghost predicate WorkerBlocksOk(s: State, id: nat)
    requires id < |s.book.table|
  {
    s.book.table[id].blocksFound == CountAtFor(s.tasks, COUNTED_FOR_WORKER, id)
  }

  ghost predicate Inv(s: State) {
    && WellFormed(s)
    && MetricsOk(s)
    && (forall t :: 0 <= t < |s.tasks| ==> TaskOk(s.tasks[t]))
    && (forall id: nat :: id < |s.book.table| ==> WorkerBlocksOk(s, id))
  }

  lemma GetCreateKeeps(s: State, name: string, diff: real, now: nat)
    requires Inv(s)
    ensures Inv(s.(book := GetCreate(s.book, name, diff, now)))
    ensures name in GetCreate(s.book, name, diff, now).live
  {
    var t := s.(book := GetCreate(s.book, name, diff, now));
    if name !in s.book.live {
      var n := |s.book.table|;
      TotalAppended(s.book.table, t.book.table[n]);
      CountForUnused(s.tasks, COUNTED_FOR_WORKER, n);
      forall id: nat | id < |t.book.table| ensures WorkerBlocksOk(t, id) {
        if id < n { assert WorkerBlocksOk(s, id); }
      }
    }
  }

  lemma AcceptKeeps(s: State, name: string, diff: real, now: nat)
    requires Inv(s)
    ensures Inv(Do(s, Accept(name, diff, now)))
  {
    GetCreateKeeps(s, name, diff, now);
    var b := GetCreate(s.book, name, diff, now);
    var u := s.(book := b);
    var x := Task(b.live[name], 0, HasStats);
    var t := Do(s, Accept(name, diff, now));
    CountAppended(s.tasks, x, {HasStats}, 0);
    CountAppended(s.tasks, x, {RecordedBlue}, 0);
    CountAppended(s.tasks, x, {RecordedNotBlue}, 0);
    CountAppended(s.tasks, x, COUNTED_OVERALL, 0);
    CountAppended(s.tasks, x, COUNTED_FOR_WORKER, 0);
    forall id: nat | id < |t.book.table| ensures WorkerBlocksOk(t, id) {
      CountAppended(s.tasks, x, COUNTED_FOR_WORKER, id);
      assert WorkerBlocksOk(u, id);
    }
  }

  lemma ShareKeeps(s: State, id: nat, step: Step)
    requires Inv(s) && Enabled(s, step) && (step == Share(id) || (step.Touch? && step.id == id))
    ensures Inv(Do(s, step))
  {
    var t := Do(s, step);
    TotalUpdated(s.book.table, id, t.book.table[id]);
    forall k: nat | k < |t.book.table| ensures WorkerBlocksOk(t, k) {
      assert WorkerBlocksOk(s, k);
    }
  }

  lemma PruneKeeps(s: State, now: nat)
    requires Inv(s)
    ensures Inv(Do(s, PruneTick(now)))
  {
    var t := Do(s, PruneTick(now));
    forall k: nat | k < |t.book.table| ensures WorkerBlocksOk(t, k) {
      assert WorkerBlocksOk(s, k);
    }
  }

  function One(b: bool): nat {
    if b then 1 else 0
  }

  ghost predicate Moves(tasks: seq<Task>, t: nat, x: Task, pcs: set<Pc>)
    requires t < |tasks|
  {
    CountAt(tasks[t := x], pcs) == CountAt(tasks, pcs) - One(tasks[t].pc in pcs) + One(x.pc in pcs)
  }

  lemma MetricsMove(tasks: seq<Task>, t: nat, x: Task)
    requires t < |tasks| && x.stats == tasks[t].stats
    ensures Moves(tasks, t, x, {HasStats})
    ensures Moves(tasks, t, x, {RecordedBlue}) && Moves(tasks, t, x, {RecordedNotBlue})
    ensures Moves(tasks, t, x, COUNTED_OVERALL) && Moves(tasks, t, x, COUNTED_FOR_WORKER)
  {
    CountMoved(tasks, t, x, {HasStats}, 0);
    CountMoved(tasks, t, x, {RecordedBlue}, 0);
    CountMoved(tasks, t, x, {RecordedNotBlue}, 0);
    CountMoved(tasks, t, x, COUNTED_OVERALL, 0);
    CountMoved(tasks, t, x, COUNTED_FOR_WORKER, 0);
  }

  lemma PollKeepsWorkers(s: State, t: nat, answer: Answer)
    requires Inv(s) && Enabled(s, Poll(t, answer))
    ensures var u := Do(s, Poll(t, answer));
            && WellFormed(u) && (forall k :: 0 <= k < |u.tasks| ==> TaskOk(u.tasks[k]))
            && forall id: nat :: id < |u.book.table| ==> WorkerBlocksOk(u, id)
  {
    var x := Polled(s.tasks[t], answer);
    var u := Do(s, Poll(t, answer));
    forall id: nat | id < |u.book.table| ensures WorkerBlocksOk(u, id) {
      CountMoved(s.tasks, t, x, COUNTED_FOR_WORKER, id);
      assert WorkerBlocksOk(s, id);
    }
  }

  lemma PollKeeps(s: State, t: nat, answer: Answer)
    requires Inv(s) && Enabled(s, Poll(t, answer))
    ensures Inv(Do(s, Poll(t, answer)))
  {
    PollKeepsWorkers(s, t, answer);
    MetricsMove(s.tasks, t, Polled(s.tasks[t], answer));
    hide CountAt, WorkerBlocksOk, WellFormed, TaskOk;
  }

  lemma AdvanceKeepsWorkers(s: State, t: nat)
    requires Inv(s) && Enabled(s, Advance(t))
    ensures WellFormed(Do(s, Advance(t)))
    ensures forall id: nat :: id < |Do(s, Advance(t)).book.table| ==> WorkerBlocksOk(Do(s, Advance(t)), id)
  {
    var x := Advanced(s.tasks[t]);
    var u := Do(s, Advance(t));
    forall id: nat | id < |u.book.table| ensures WorkerBlocksOk(u, id) {
      CountMoved(s.tasks, t, x, COUNTED_FOR_WORKER, id);
      assert WorkerBlocksOk(s, id);
    }
  }

  lemma AdvanceKeeps(s: State, t: nat)
    requires Inv(s) && Enabled(s, Advance(t))
    ensures Inv(Do(s, Advance(t)))
  {
    AdvanceKeepsWorkers(s, t);
    hide CountAt, WorkerBlocksOk;
    var task := s.tasks[t];
    var u := Do(s, Advance(t));
    MetricsMove(s.tasks, t, Advanced(task));
    if task.pc == Found {
      TotalUpdated(s.book.table, task.stats, u.book.table[task.stats]);
    }
  }

  lemma StepKeepsInv(s: State, step: Step)
    requires Inv(s) && Enabled(s, step)
    ensures Inv(Do(s, step))
  {
    match step
    case Accept(name, diff, now) => AcceptKeeps(s, name, diff, now);
    case Authorize(name, diff, now) => GetCreateKeeps(s, name, diff, now);
    case Share(id) => ShareKeeps(s, id, step);
    case Touch(id, _) => ShareKeeps(s, id, step);
    case PruneTick(now) => PruneKeeps(s, now);
    case Poll(t, answer) => PollKeeps(s, t, answer);
    case Advance(t) => AdvanceKeeps(s, t);
  }

  lemma {:induction false} ExecutionKeepsInv(ss: seq<State>, steps: seq<Step>, n: nat)
    requires IsExecution(ss, steps) && n < |ss|
    ensures Inv(ss[n])
  {
    if n > 0 {
      ExecutionKeepsInv(ss, steps, n - 1);
      assert IsStepOf(ss, steps, n - 1);
      StepKeepsInv(ss[n - 1], steps[n - 1]);
    }
  }

  // ---------------------------------------------------------------------------------------
  // What it means
  // ---------------------------------------------------------------------------------------

  /**
   * Conservation, in every state of every interleaving.  Recorded acceptances are the blue-recorded, the
   * not-blue-recorded, the blocks whose task is still running, and the blocks whose task is about to be
   * spawned.  The blocks of all workers ever seen, pruned ones included, exceed the all-time total by
   * exactly the tasks between their two increments.
   */
  lemma BlocksAreConserved(ss: seq<State>, steps: seq<Step>, n: nat)
    requires IsExecution(ss, steps) && n < |ss|
    ensures var (b, tasks) := (ss[n].book, ss[n].tasks);
            && b.accepted == b.blue + b.notBlue + CountAt(tasks, SPAWNED) + CountAt(tasks, {AcceptRecorded})
            && TotalBlocks(b.table) == b.overallBlocks + CountAt(tasks, {WorkerCounted})
            && b.overallBlocks == b.blue + CountAt(tasks, {BothCounted})
  {
    ExecutionKeepsInv(ss, steps, n);
    var tasks := ss[n].tasks;
    CountsSplit(tasks, COUNTED_OVERALL, {WorkerCounted});
    CountsSplit(tasks, {RecordedBlue}, {BothCounted});
    assert COUNTED_OVERALL + {WorkerCounted} == COUNTED_FOR_WORKER;
    assert {RecordedBlue} + {BothCounted} == COUNTED_OVERALL;
    EveryTaskIsSomewhere(tasks);
  }

  lemma EveryTaskIsSomewhere(tasks: seq<Task>)
    ensures |tasks| == CountAt(tasks, {HasStats}) + CountAt(tasks, {AcceptRecorded}) + CountAt(tasks, SPAWNED)
                       + CountAt(tasks, {RecordedBlue}) + CountAt(tasks, {RecordedNotBlue})
  {
    var a, b, c, d := {HasStats}, {AcceptRecorded}, {RecordedBlue}, {RecordedNotBlue};
    CountsSplit(tasks, a, b);
    CountsSplit(tasks, a + b, SPAWNED);
    CountsSplit(tasks, a + b + SPAWNED, c);
    CountsSplit(tasks, a + b + SPAWNED + c, d);
    CountsSplit(tasks, a + b + SPAWNED + c + d, {});
    forall pc: Pc ensures pc in a + b + SPAWNED + c + d {
      assert pc in SPAWNED || pc in a || pc in b || pc in c || pc in d by {
        match pc { case HasStats => case AcceptRecorded => case Polling => case Found => case WorkerCounted =>
          case BothCounted => case OutOfAttempts => case RecordedBlue => case RecordedNotBlue => }
      }
    }
  }

  /** The rows of workers that the pruner has dropped. */
  ghost function PrunedRows(b: Book): set<nat> {
    set id: nat | id < |b.table| && id !in b.live.Values
  }

  /**
   * In any one state the blocks of the live workers and those of the pruned ones make up the all-time
   * total and the tasks between their two increments.
   */
  lemma LiveAndPrunedBlocks(ss: seq<State>, steps: seq<Step>, n: nat)
    requires IsExecution(ss, steps) && n < |ss|
    ensures var (b, tasks) := (ss[n].book, ss[n].tasks);
            BlocksIn(b.table, b.live.Values) + BlocksIn(b.table, PrunedRows(b))
            == b.overallBlocks + CountAt(tasks, {WorkerCounted})
    ensures forall x, y :: x in ss[n].book.live && y in ss[n].book.live && x != y
              ==> ss[n].book.live[x] != ss[n].book.live[y]
  {
    BlocksAreConserved(ss, steps, n);
    ExecutionKeepsInv(ss, steps, n);
    TotalSplits(ss[n].book.table, ss[n].book.live.Values, PrunedRows(ss[n].book));
  }

  // The printed totals.

  /** No counter falls and no row goes away. */
  ghost predicate Grows(a: Book, b: Book) {
    && |a.table| <= |b.table|
    && a.overallBlocks <= b.overallBlocks
    && forall id: nat :: id < |a.table| ==> a.table[id].blocksFound <= b.table[id].blocksFound
  }

  lemma StepGrows(s: State, step: Step)
    requires WellFormed(s) && Enabled(s, step)
    ensures Grows(s.book, Do(s, step).book)
  {
  }

  lemma {:induction false} BooksGrow(ss: seq<State>, steps: seq<Step>, a: nat, b: nat)
    requires IsExecution(ss, steps) && a <= b < |ss|
    ensures Grows(ss[a].book, ss[b].book)
  {
    if a < b {
      BooksGrow(ss, steps, a, b - 1);
      assert IsStepOf(ss, steps, b - 1);
      StepGrows(ss[b - 1], steps[b - 1]);
    }
  }

  lemma {:induction false} MoreBlocksIn(a: seq<WorkStats>, b: seq<WorkStats>, ids: set<nat>)
    requires |a| <= |b| && forall id: nat :: id < |a| ==> a[id].blocksFound <= b[id].blocksFound
    ensures BlocksIn(a, ids) <= BlocksIn(b, ids)
  {
    if |b| > 0 {
      var n := |b| - 1;
      MoreBlocksIn(if |a| == |b| then a[..n] else a, b[..n], ids);
    }
  }

  /**
   * A print reads the all-time total in state `m`, takes the live workers in state `l`, and reads each
   * of their counters in a state of its own between `l` and `n`; `seen` has the rows as they were read.
   */
  ghost predicate IsPrint(ss: seq<State>, m: nat, l: nat, n: nat, seen: seq<WorkStats>) {
    && m <= l <= n < |ss|
    && |seen| == |ss[l].book.table|
    && forall id: nat :: id < |seen| ==> ReadBetween(ss, l, n, id, seen[id])
  }

  ghost predicate ReadBetween(ss: seq<State>, l: nat, n: nat, id: nat, row: WorkStats)
    requires n < |ss|
  {
    exists k: nat :: l <= k <= n && id < |ss[k].book.table| && row == ss[k].book.table[id]
  }

  /** The sum in the "Blocks" column. */
  ghost function PrintedLive(ss: seq<State>, l: nat, seen: seq<WorkStats>): nat
    requires l < |ss|
  {
    BlocksIn(seen, ss[l].book.live.Values)
  }

  /** The rows that are not live in state `l`, as far as the table reaches in state `n`. */
  ghost function NotLive(ss: seq<State>, l: nat, n: nat): set<nat>
    requires l < |ss| && n < |ss|
  {
    set id: nat | id < |ss[n].book.table| && id !in ss[l].book.live.Values
  }

  /**
   * The printed "Blocks" sum of the live workers against the printed all-time "Total".  It falls short by
   * no more than what pruned workers found.  Together with what the workers it does not show have found,
   * it is no more than the all-time total at the end of the print and the tasks between their two
   * increments then.
   */
  lemma PrintedTotals(ss: seq<State>, steps: seq<Step>, m: nat, l: nat, n: nat, seen: seq<WorkStats>)
    requires IsExecution(ss, steps) && IsPrint(ss, m, l, n, seen)
    ensures var (live, total) := (PrintedLive(ss, l, seen), ss[m].book.overallBlocks);
            && total <= ss[n].book.overallBlocks
            && total - BlocksIn(ss[l].book.table, PrunedRows(ss[l].book)) <= live
            && live + BlocksIn(ss[n].book.table, NotLive(ss, l, n))
               <= ss[n].book.overallBlocks + CountAt(ss[n].tasks, {WorkerCounted})
  {
    var ids := ss[l].book.live.Values;
    BooksGrow(ss, steps, m, l);
    BooksGrow(ss, steps, l, n);
    LiveAndPrunedBlocks(ss, steps, l);
    BlocksAreConserved(ss, steps, n);
    RowsAreBetween(ss, steps, l, n, seen);
    MoreBlocksIn(ss[l].book.table, seen, ids);
    MoreBlocksIn(seen, ss[n].book.table, ids);
    TotalSplits(ss[n].book.table, ids, NotLive(ss, l, n));
  }

  lemma RowsAreBetween(ss: seq<State>, steps: seq<Step>, l: nat, n: nat, seen: seq<WorkStats>)
    requires IsExecution(ss, steps) && IsPrint(ss, l, l, n, seen)
    ensures |seen| <= |ss[n].book.table|
    ensures forall id: nat :: id < |seen|
              ==> && ss[l].book.table[id].blocksFound <= seen[id].blocksFound
                  && seen[id].blocksFound <= ss[n].book.table[id].blocksFound
  {
    BooksGrow(ss, steps, l, n);
    forall id: nat | id < |seen|
      ensures ss[l].book.table[id].blocksFound <= seen[id].blocksFound
      ensures seen[id].blocksFound <= ss[n].book.table[id].blocksFound
    {
      assert ReadBetween(ss, l, n, id, seen[id]);
      var k: nat :| l <= k <= n && id < |ss[k].book.table| && seen[id] == ss[k].book.table[id];
      BooksGrow(ss, steps, l, k);
      BooksGrow(ss, steps, k, n);
    }
  }

  /** One step more of an execution. */
  lemma Extend(ss: seq<State>, steps: seq<Step>, step: Step) returns (ts: seq<State>, more: seq<Step>)
    requires IsExecution(ss, steps) && Enabled(ss[|ss| - 1], step)
    ensures IsExecution(ts, more) && WellFormed(ss[|ss| - 1]) && |ts| == |ss| + 1
    ensures ts == ss + [Do(ss[|ss| - 1], step)] && more == steps + [step]
  {
    ExecutionKeepsInv(ss, steps, |ss| - 1);
    ts, more := ss + [Do(ss[|ss| - 1], step)], steps + [step];
    forall n: nat | n < |more| ensures IsStepOf(ts, more, n) {
      if n < |steps| { assert IsStepOf(ss, steps, n); }
    }
  }

  /** A first block is accepted for a worker, and its task spawned. */
  lemma FirstTask(name: string) returns (ss: seq<State>, steps: seq<Step>)
    ensures IsExecution(ss, steps) && |ss| == 4
    ensures ss[3] == State(Book([NewStats(name, 1.0, 0)], map[name := 0], 0, 1, 0, 0), [Task(0, 0, Polling)])
  {
    ss, steps := Extend([State(EMPTY_BOOK, [])], [], Accept(name, 1.0, 0));
    assert ss[1].book.table == [NewStats(name, 1.0, 0)];
    ss, steps := Extend(ss, steps, Advance(0));
    ss, steps := Extend(ss, steps, Advance(0));
  }

  /** It is confirmed: from the poll to the overall count. */
  lemma FirstConfirmation(ss: seq<State>, steps: seq<Step>, name: string) returns (ts: seq<State>, more: seq<Step>)
    requires IsExecution(ss, steps) && |ss| == 4
    requires ss[3] == State(Book([NewStats(name, 1.0, 0)], map[name := 0], 0, 1, 0, 0), [Task(0, 0, Polling)])
    ensures IsExecution(ts, more) && |ts| == 7 && ts[3] == ss[3]
    ensures ts[6].tasks == [Task(0, 1, BothCounted)]
    ensures var b := ts[6].book;
            b.overallBlocks == 1 && b.table == [NewStats(name, 1.0, 0).(blocksFound := 1)]
  {
    ts, more := Extend(ss, steps, Poll(0, Blue));
    ts, more := Extend(ts, more, Advance(0));
    ts, more := Extend(ts, more, Advance(0));
  }

  /** Live exceeds all-time by no more than the tasks that are between their increments when the print ends. */
  ghost predicate PrintOk(ss: seq<State>, m: nat, l: nat, n: nat, seen: seq<WorkStats>)
    requires IsPrint(ss, m, l, n, seen)
  {
    PrintedLive(ss, l, seen) - ss[m].book.overallBlocks <= CountAt(ss[n].tasks, {WorkerCounted})
  }

  /** A print during which at most `k` blocks are counted overall. */
  ghost predicate QuietPrint(ss: seq<State>, m: nat, l: nat, n: nat, seen: seq<WorkStats>, k: nat) {
    IsPrint(ss, m, l, n, seen) && ss[n].book.overallBlocks <= ss[m].book.overallBlocks + k
  }

  /**
   * Which single prints keep it: exactly those during which no more blocks are counted overall than the
   * print leaves out of what the workers have found by its end.
   */
  lemma PrintOkIffEnoughIsLeftOut(
    ss: seq<State>, steps: seq<Step>, m: nat, l: nat, n: nat, seen: seq<WorkStats>)
    requires IsExecution(ss, steps) && IsPrint(ss, m, l, n, seen)
    ensures var leftOut := TotalBlocks(ss[n].book.table) - PrintedLive(ss, l, seen);
            && leftOut >= BlocksIn(ss[n].book.table, NotLive(ss, l, n))
            && (PrintOk(ss, m, l, n, seen) <==> ss[n].book.overallBlocks - ss[m].book.overallBlocks <= leftOut)
  {
    PrintedTotals(ss, steps, m, l, n, seen);
    BlocksAreConserved(ss, steps, n);
  }

  /** All prints during which at most `k` blocks are counted keep it if and only if `k` is zero. */
  lemma PrintsOkIffQuiet(k: nat)
    ensures (forall ss: seq<State>, steps: seq<Step>, m: nat, l: nat, n: nat, seen: seq<WorkStats> ::
              IsExecution(ss, steps) && QuietPrint(ss, m, l, n, seen, k) ==> PrintOk(ss, m, l, n, seen))
            <==> k == 0
  {
    if k == 0 {
      forall ss: seq<State>, steps: seq<Step>, m: nat, l: nat, n: nat, seen: seq<WorkStats> |
        IsExecution(ss, steps) && QuietPrint(ss, m, l, n, seen, k)
        ensures PrintOk(ss, m, l, n, seen)
      {
        PrintedTotals(ss, steps, m, l, n, seen);
      }
    } else {
      var ss, steps, m, l, n, seen := PrintCanShowMoreLiveThanTotal("worker");
      assert QuietPrint(ss, m, l, n, seen, k) && !PrintOk(ss, m, l, n, seen);
    }
  }

  /**
   * A print that breaks it: a block confirmed between the two reads is in the live column only, while at neither end of
   * the print a task is between its increments.
   */
  lemma PrintCanShowMoreLiveThanTotal(name: string)
    returns (ss: seq<State>, steps: seq<Step>, m: nat, l: nat, n: nat, seen: seq<WorkStats>)
    ensures IsExecution(ss, steps) && IsPrint(ss, m, l, n, seen)
    ensures CountAt(ss[m].tasks, {WorkerCounted}) == 0 == CountAt(ss[n].tasks, {WorkerCounted})
    ensures PrintedLive(ss, l, seen) == 1 && ss[m].book.overallBlocks == 0 && ss[n].book.overallBlocks == 1
  {
    ss, steps := FirstTask(name);
    ss, steps := FirstConfirmation(ss, steps, name);
    m, l, n, seen := 3, 3, 6, ss[6].book.table;
    assert ReadBetween(ss, l, n, 0, seen[0]);
    assert ss[l].book.live == map[name := 0];
    assert ss[l].book.live[name] == 0 && 0 in ss[l].book.live.Values;
    assert BlocksIn(seen, ss[l].book.live.Values) == BlocksIn(seen[..0], ss[l].book.live.Values) + seen[0].blocksFound;
  }

  /** A worker's count is exactly that of its own confirmed blocks, whether or not it was pruned meanwhile. */
  lemma WorkerCountsItsOwnBlocks(ss: seq<State>, steps: seq<Step>, n: nat, id: nat)
    requires IsExecution(ss, steps) && n < |ss| && id < |ss[n].book.table|
    ensures ss[n].book.table[id].blocksFound == CountAtFor(ss[n].tasks, COUNTED_FOR_WORKER, id)
  {
    ExecutionKeepsInv(ss, steps, n);
    assert WorkerBlocksOk(ss[n], id);
  }

  // Who is live, and what the pruner goes by.

  /** The pruner's condition on a row. */
  ghost predicate RecentEnough(w: WorkStats, now: nat) {
    (w.sharesFound > 0 || now - w.startTime < 180) && now - w.lastShare < 600
  }

  /** Only a prune drops a worker, and only one whose row is not recent enough; no other step relinks a live name. */
  lemma LiveAfterStep(s: State, step: Step, name: string)
    requires WellFormed(s) && Enabled(s, step) && name in s.book.live
    ensures var live := Do(s, step).book.live;
            && (step.PruneTick? ==> (name in live <==> RecentEnough(s.book.table[s.book.live[name]], step.now)))
            && (!step.PruneTick? ==> name in live)
            && (name in live ==> live[name] == s.book.live[name])
  {
  }

  /** A worker that is authorized or has a block accepted is live afterwards. */
  lemma LiveAfterCall(s: State, step: Step)
    requires WellFormed(s) && Enabled(s, step) && (step.Authorize? || step.Accept?)
    ensures step.name in Do(s, step).book.live
    ensures step.name !in s.book.live ==> Do(s, step).book.live[step.name] == |s.book.table|
  {
  }

  /** Every prune from state `a` to state `b` finds the row of `name` recent enough. */
  ghost predicate SparedUntil(ss: seq<State>, steps: seq<Step>, a: nat, b: nat, name: string)
    requires a <= b < |ss| == |steps| + 1
  {
    forall k :: a <= k < b && steps[k].PruneTick? ==> SparedAt(ss[k], steps[k].now, name)
  }

  ghost predicate SparedAt(s: State, now: nat, name: string) {
    name in s.book.live && s.book.live[name] < |s.book.table| && RecentEnough(s.book.table[s.book.live[name]], now)
  }

  /**
   * A live worker keeps its row, in any interleaving, for as long as every prune finds that row recent
   * enough; in particular as long as there is no prune.
   */
  lemma {:induction false} LiveWorkerKeepsItsRow(
    ss: seq<State>, steps: seq<Step>, a: nat, b: nat, name: string)
    requires IsExecution(ss, steps) && a <= b < |ss| && name in ss[a].book.live
    requires SparedUntil(ss, steps, a, b, name)
    ensures name in ss[b].book.live && ss[b].book.live[name] == ss[a].book.live[name]
  {
    if a < b {
      LiveWorkerKeepsItsRow(ss, steps, a, b - 1, name);
      assert IsStepOf(ss, steps, b - 1);
      LiveAfterStep(ss[b - 1], steps[b - 1], name);
    }
  }

  /** How many of the first `n` steps count a share for row `id`. */
  ghost function Shares(steps: seq<Step>, n: nat, id: nat): nat
    requires n <= |steps|
  {
    if n == 0 then 0 else Shares(steps, n - 1, id) + One(steps[n - 1] == Share(id))
  }

  /** The last time a share of row `id` was stamped in the first `n` steps; `start` if never. */
  ghost function LastStamp(steps: seq<Step>, n: nat, id: nat, start: nat): nat
    requires n <= |steps|
  {
    if n == 0 then start
    else if steps[n - 1].Touch? && steps[n - 1].id == id then steps[n - 1].now
    else LastStamp(steps, n - 1, id, start)
  }

  /** Rows that do not exist yet have no shares and no stamps. */
  lemma {:induction false} NoSharesYet(ss: seq<State>, steps: seq<Step>, n: nat, id: nat, start: nat)
    requires IsExecution(ss, steps) && n < |ss| && id >= |ss[n].book.table|
    ensures Shares(steps, n, id) == 0 && LastStamp(steps, n, id, start) == start
  {
    if n > 0 {
      assert IsStepOf(ss, steps, n - 1);
      StepGrows(ss[n - 1], steps[n - 1]);
      NoSharesYet(ss, steps, n - 1, id, start);
    }
  }

  /** The pruner's data are right: a row has the number of its shares and the time of the last one. */
  lemma {:induction false} RowsRememberTheirShares(ss: seq<State>, steps: seq<Step>, n: nat, id: nat)
    requires IsExecution(ss, steps) && n < |ss| && id < |ss[n].book.table|
    ensures ss[n].book.table[id].sharesFound == Shares(steps, n, id)
    ensures ss[n].book.table[id].lastShare == LastStamp(steps, n, id, ss[n].book.table[id].startTime)
  {
    if n > 0 {
      assert IsStepOf(ss, steps, n - 1);
      if id < |ss[n - 1].book.table| {
        RowsRememberTheirShares(ss, steps, n - 1, id);
        RowStep(ss[n - 1], steps[n - 1], id);
      } else {
        NoSharesYet(ss, steps, n - 1, id, ss[n].book.table[id].startTime);
        NewRow(ss[n - 1], steps[n - 1], id);
      }
    }
  }

  /** What a step does to a row that exists. */
  lemma RowStep(s: State, step: Step, id: nat)
    requires WellFormed(s) && Enabled(s, step) && id < |s.book.table|
    ensures id < |Do(s, step).book.table|
    ensures var (x, y) := (s.book.table[id], Do(s, step).book.table[id]);
            && y.name == x.name && y.minDiff == x.minDiff && y.startTime == x.startTime
            && y.sharesFound == x.sharesFound + One(step == Share(id))
            && y.lastShare == if step.Touch? && step.id == id then step.now else x.lastShare
  {
  }

  /** A new row starts empty, when it is created, under the name it is created for. */
  lemma NewRow(s: State, step: Step, id: nat)
    requires WellFormed(s) && Enabled(s, step) && |s.book.table| <= id < |Do(s, step).book.table|
    ensures (step.Accept? || step.Authorize?) && id == |s.book.table| && step.name !in s.book.live
    ensures Do(s, step).book.table[id]
            == WorkStats(step.name, if step.stratumDiff > 0.0 then step.stratumDiff else 0.0, step.now, step.now, 0, 0)
  {
  }

  /** An accepted block stays with the row that its worker had when it was accepted, which keeps the worker's name. */
  lemma {:induction false} BlockStaysWithItsWorker(ss: seq<State>, steps: seq<Step>, k: nat, n: nat)
    requires IsExecution(ss, steps) && k < n < |ss| && steps[k].Accept?
    ensures steps[k].name in ss[k + 1].book.live
    ensures |ss[k].tasks| < |ss[n].tasks|
    ensures ss[n].tasks[|ss[k].tasks|].stats == ss[k + 1].book.live[steps[k].name] < |ss[n].book.table|
    ensures ss[n].book.table[ss[n].tasks[|ss[k].tasks|].stats].name == steps[k].name
  {
    var t := |ss[k].tasks|;
    if n == k + 1 {
      assert IsStepOf(ss, steps, k);
      ExecutionKeepsInv(ss, steps, n);
    } else {
      BlockStaysWithItsWorker(ss, steps, k, n - 1);
      assert IsStepOf(ss, steps, n - 1);
      ExecutionKeepsInv(ss, steps, n - 1);
      TaskStep(ss[n - 1], steps[n - 1], t);
      RowStep(ss[n - 1], steps[n - 1], ss[n - 1].tasks[t].stats);
    }
  }

  // Every task ends.

  /** Steps a task has left at most. */
  ghost function Remaining(task: Task): nat
    requires TaskOk(task)
  {
    match task.pc
    case HasStats => CONFIRM_MAX_ATTEMPTS + 5
    case AcceptRecorded => CONFIRM_MAX_ATTEMPTS + 4
    case Polling => CONFIRM_MAX_ATTEMPTS - task.attempts + 3
    case Found => 3
    case WorkerCounted => 2
    case BothCounted => 1
    case OutOfAttempts => 1
    case _ => 0
  }

  predicate IsOwn(step: Step, t: nat) {
    (step.Poll? || step.Advance?) && step.t == t
  }

  predicate IsPollOf(step: Step, t: nat) {
    step.Poll? && step.t == t
  }

  /** How many of the steps `a..n` are steps of task `t`, and how many of those are polls. */
  ghost function OwnSteps(steps: seq<Step>, a: nat, n: nat, t: nat): nat
    requires a <= n <= |steps|
  {
    if a == n then 0 else OwnSteps(steps, a, n - 1, t) + if IsOwn(steps[n - 1], t) then 1 else 0
  }

  ghost function Polls(steps: seq<Step>, a: nat, n: nat, t: nat): nat
    requires a <= n <= |steps|
  {
    if a == n then 0 else Polls(steps, a, n - 1, t) + if IsPollOf(steps[n - 1], t) then 1 else 0
  }

  ghost predicate Ended(task: Task) {
    task.pc == RecordedBlue || task.pc == RecordedNotBlue
  }

  lemma TaskStep(s: State, step: Step, t: nat)
    requires Inv(s) && Enabled(s, step) && t < |s.tasks|
    ensures t < |Do(s, step).tasks|
    ensures var (x, y) := (s.tasks[t], Do(s, step).tasks[t]);
            && TaskOk(x) && TaskOk(y) && y.stats == x.stats
            && (IsOwn(step, t) ==> !Ended(x) && Remaining(y) < Remaining(x))
            && (!IsOwn(step, t) ==> y == x)
            && y.attempts == x.attempts + if IsPollOf(step, t) then 1 else 0
  {
    StepKeepsInv(s, step);
  }

  /**
   * A task polls at most 30 times and takes at most 33 steps after it is spawned, 35 from the acceptance;
   * once it has taken them it has ended, in exactly one of the two ways, and an ended task never moves
   * again.
   */
  lemma {:induction false} EveryTaskEnds(ss: seq<State>, steps: seq<Step>, a: nat, n: nat, t: nat)
    requires IsExecution(ss, steps) && a <= n < |ss| && t < |ss[a].tasks|
    ensures t < |ss[n].tasks| && TaskOk(ss[a].tasks[t]) && TaskOk(ss[n].tasks[t])
    ensures Remaining(ss[n].tasks[t]) + OwnSteps(steps, a, n, t) <= Remaining(ss[a].tasks[t])
    ensures ss[n].tasks[t].attempts == ss[a].tasks[t].attempts + Polls(steps, a, n, t)
    ensures OwnSteps(steps, a, n, t) <= 35 && Polls(steps, a, n, t) <= 30
    ensures ss[a].tasks[t].pc == Polling ==> OwnSteps(steps, a, n, t) <= 33
    ensures OwnSteps(steps, a, n, t) == 35 ==> Ended(ss[n].tasks[t])
    ensures ss[a].tasks[t].pc == Polling && OwnSteps(steps, a, n, t) == 33
            ==> Ended(ss[n].tasks[t])
    ensures Ended(ss[a].tasks[t]) ==> ss[n].tasks[t] == ss[a].tasks[t]
  {
    ExecutionKeepsInv(ss, steps, a);
    if a < n {
      EveryTaskEnds(ss, steps, a, n - 1, t);
      ExecutionKeepsInv(ss, steps, n - 1);
      assert IsStepOf(ss, steps, n - 1);
      TaskStep(ss[n - 1], steps[n - 1], t);
    }
  }

  /** One of the first `n` answers of task `t` was blue. */
  ghost predicate AnsweredBlue(steps: seq<Step>, n: nat, t: nat)
    requires n <= |steps|
  {
    exists k :: 0 <= k < n && steps[k] == Poll(t, Blue)
  }

  const BLUE_SIDE: set<Pc> := {Found, WorkerCounted, BothCounted, RecordedBlue}

  lemma TaskTurnsBlue(s: State, step: Step, t: nat)
    requires Inv(s) && Enabled(s, step) && t < |s.tasks|
    ensures t < |Do(s, step).tasks|
    ensures Do(s, step).tasks[t].pc in BLUE_SIDE <==> s.tasks[t].pc in BLUE_SIDE || step == Poll(t, Blue)
  {
  }

  lemma {:induction false} NoAnswersYet(ss: seq<State>, steps: seq<Step>, n: nat, t: nat)
    requires IsExecution(ss, steps) && n < |ss| && t >= |ss[n].tasks|
    ensures !AnsweredBlue(steps, n, t) && Polls(steps, 0, n, t) == 0
  {
    if n > 0 {
      assert IsStepOf(ss, steps, n - 1);
      NoAnswersYet(ss, steps, n - 1, t);
    }
  }

  lemma NewTask(s: State, step: Step, t: nat)
    requires WellFormed(s) && Enabled(s, step) && |s.tasks| <= t < |Do(s, step).tasks|
    ensures Do(s, step).tasks[t].pc == HasStats && Do(s, step).tasks[t].attempts == 0 && step.Accept?
  {
  }

  lemma AnsweredBlueNext(steps: seq<Step>, n: nat, t: nat)
    requires 0 < n <= |steps|
    ensures AnsweredBlue(steps, n, t) <==> AnsweredBlue(steps, n - 1, t) || steps[n - 1] == Poll(t, Blue)
  {
  }

  lemma {:induction false} BlueSideIff(ss: seq<State>, steps: seq<Step>, n: nat, t: nat)
    requires IsExecution(ss, steps) && n < |ss| && t < |ss[n].tasks|
    ensures ss[n].tasks[t].pc in BLUE_SIDE <==> AnsweredBlue(steps, n, t)
  {
    hide Inv, Do, AnsweredBlue;
    if n > 0 {
      var (s, step) := (ss[n - 1], steps[n - 1]);
      IsExecutionStep(ss, steps, n - 1);
      AnsweredBlueNext(steps, n, t);
      if t < |s.tasks| {
        BlueSideIff(ss, steps, n - 1, t);
        TaskTurnsBlue(s, step, t);
      } else {
        NoAnswersYet(ss, steps, n - 1, t);
        NewTask(s, step, t);
      }
    }
  }

  lemma {:induction false} AttemptsArePolls(ss: seq<State>, steps: seq<Step>, n: nat, t: nat)
    requires IsExecution(ss, steps) && n < |ss| && t < |ss[n].tasks|
    ensures ss[n].tasks[t].attempts == Polls(steps, 0, n, t)
  {
    hide Inv, Do;
    if n > 0 {
      var (s, step) := (ss[n - 1], steps[n - 1]);
      IsExecutionStep(ss, steps, n - 1);
      if t < |s.tasks| {
        AttemptsArePolls(ss, steps, n - 1, t);
        TaskStep(s, step, t);
      } else {
        NoAnswersYet(ss, steps, n - 1, t);
        NewTask(s, step, t);
      }
    }
  }

  /**
   * A task is on its way to be recorded blue, or is, exactly when one of its answers was blue.  It is on its
   * way to be recorded not blue, or is, exactly when it has had 30 answers and none was.
   */
  lemma BlueIffAnsweredBlue(ss: seq<State>, steps: seq<Step>, n: nat, t: nat)
    requires IsExecution(ss, steps) && n < |ss| && t < |ss[n].tasks|
    ensures ss[n].tasks[t].pc in {Found, WorkerCounted, BothCounted, RecordedBlue} <==> AnsweredBlue(steps, n, t)
    ensures ss[n].tasks[t].attempts == Polls(steps, 0, n, t) <= 30
    ensures ss[n].tasks[t].pc in {OutOfAttempts, RecordedNotBlue}
            <==> !AnsweredBlue(steps, n, t) && Polls(steps, 0, n, t) == 30
  {
    ExecutionKeepsInv(ss, steps, n);
    assert TaskOk(ss[n].tasks[t]);
    BlueSideIff(ss, steps, n, t);
    AttemptsArePolls(ss, steps, n, t);
  }

  lemma IsExecutionStep(ss: seq<State>, steps: seq<Step>, n: nat)
    requires IsExecution(ss, steps) && n < |steps|
    ensures |ss| == |steps| + 1 && IsStepOf(ss, steps, n) && Inv(ss[n])
  {
    ExecutionKeepsInv(ss, steps, n);
  }

  /** The steps of task `t` alone, until it ends; the node's answers are given by the number of the attempt. */
  ghost function RunAlone(s: State, t: nat, poll: nat -> Answer): State
    requires Inv(s) && t < |s.tasks|
    decreases assert TaskOk(s.tasks[t]); Remaining(s.tasks[t])
  {
    var task := s.tasks[t];
    if Ended(task) then s
    else
      var step := if task.pc == Polling then Poll(t, poll(task.attempts)) else Advance(t);
      TaskStep(s, step, t);
      StepKeepsInv(s, step);
      RunAlone(Do(s, step), t, poll)
  }

  /** The task's next step, and the state it leaves. */
  lemma RunAloneStep(s: State, t: nat, poll: nat -> Answer) returns (u: State)
    requires Inv(s) && t < |s.tasks| && s.tasks[t].stats < |s.book.table| && !Ended(s.tasks[t])
    ensures Inv(u) && t < |u.tasks| && u.tasks[t].stats == s.tasks[t].stats < |u.book.table|
    ensures RunAlone(s, t, poll) == RunAlone(u, t, poll)
    ensures var task := s.tasks[t];
            if task.pc == Polling then u.book == s.book && u.tasks[t] == Polled(task, poll(task.attempts))
            else u.book == AdvancedBook(s.book, task) && u.tasks[t] == Advanced(task)
  {
    var task := s.tasks[t];
    var step := if task.pc == Polling then Poll(t, poll(task.attempts)) else Advance(t);
    TaskStep(s, step, t);
    StepKeepsInv(s, step);
    u := Do(s, step);
  }

  lemma RunEnded(s: State, t: nat, poll: nat -> Answer)
    requires Inv(s) && t < |s.tasks| && Ended(s.tasks[t])
    ensures RunAlone(s, t, poll) == s
  {
  }

  /** From a blue answer the task counts for the worker and overall and records. */
  lemma RunFromFound(s: State, t: nat, poll: nat -> Answer)
    requires Inv(s) && t < |s.tasks| && s.tasks[t].stats < |s.book.table| && s.tasks[t].pc == Found
    ensures RunAlone(s, t, poll).book == BumpOverall(BumpWorker(s.book, s.tasks[t].stats)).(blue := s.book.blue + 1)
  {
    hide Inv, RunAlone;
    var u := RunAloneStep(s, t, poll);
    var v := RunAloneStep(u, t, poll);
    var w := RunAloneStep(v, t, poll);
    RunEnded(w, t, poll);
  }

  lemma RunFromOutOfAttempts(s: State, t: nat, poll: nat -> Answer)
    requires Inv(s) && t < |s.tasks| && s.tasks[t].stats < |s.book.table| && s.tasks[t].pc == OutOfAttempts
    ensures RunAlone(s, t, poll).book == s.book.(notBlue := s.book.notBlue + 1)
  {
    hide Inv, RunAlone;
    var u := RunAloneStep(s, t, poll);
    RunEnded(u, t, poll);
  }

  lemma {:induction false} RunFromPolling(s: State, t: nat, poll: nat -> Answer)
    requires Inv(s) && t < |s.tasks| && s.tasks[t].stats < |s.book.table| && s.tasks[t].pc == Polling
    requires s.tasks[t].attempts < CONFIRM_MAX_ATTEMPTS
    ensures RunAlone(s, t, poll).book
            == if FirstBlue(poll, s.tasks[t].attempts) < CONFIRM_MAX_ATTEMPTS
               then BumpOverall(BumpWorker(s.book, s.tasks[t].stats)).(blue := s.book.blue + 1)
               else s.book.(notBlue := s.book.notBlue + 1)
    decreases CONFIRM_MAX_ATTEMPTS - s.tasks[t].attempts
  {
    hide Inv, RunAlone, FirstBlue;
    FirstBlueSkips(poll, s.tasks[t].attempts);
    var u := RunAloneStep(s, t, poll);
    if u.tasks[t].pc == Found {
      RunFromFound(u, t, poll);
    } else if u.tasks[t].pc == OutOfAttempts {
      NoAttemptLeft(poll);
      RunFromOutOfAttempts(u, t, poll);
    } else {
      RunFromPolling(u, t, poll);
    }
  }

  lemma NoAttemptLeft(poll: nat -> Answer)
    ensures FirstBlue(poll, CONFIRM_MAX_ATTEMPTS) == CONFIRM_MAX_ATTEMPTS
  {
  }

  /** Left alone, a fresh task of the step system does to the book what `Ledger.ConfirmBlock` does. */
  lemma LoneTaskIsConfirmBlock(s: State, t: nat, poll: nat -> Answer)
    requires Inv(s) && t < |s.tasks| && s.tasks[t].stats < |s.book.table|
    requires s.tasks[t].pc == Polling && s.tasks[t].attempts == 0
    ensures RunAlone(s, t, poll).book == Confirmed(s.book, s.tasks[t].stats, poll)
  {
    RunFromPolling(s, t, poll);
  }
}
