/**
 * The duplicate-submit guard: a hash map of recent submit keys paired with a FIFO queue of the
 * same keys.  `set_outcome` refreshes a key's timestamp without moving it in the queue, so the
 * timestamps along the queue are not sorted and expiry is lazy.
 *
 * `Table` is the abstract value of the guard, `Pruned` says which keys a prune leaves, and the
 * class carries the source's loops, proved against them.
 */
module DuplicateSubmit {
  import opened SeqFacts

  /** The text that identifies a submit; two submits are duplicates when their texts are equal. */
  datatype SubmitKey = SubmitKey(text: string)

  datatype Outcome = InFlight | Accepted | Stale | LowDiff | Bad

  datatype Entry = Entry(ts: nat, outcome: Outcome)

  datatype Table = Table(entries: map<SubmitKey, Entry>, order: seq<SubmitKey>)

  datatype Config = Config(ttl: nat, maxEntries: nat)

  const EMPTY := Table(map[], [])

  /** The queue lists every key of the map exactly once. */
  ghost predicate Consistent(t: Table) {
    && NoRepeats(t.order)
    && Elements(t.order) == t.entries.Keys
  }

  /** `duration_since` saturates at zero, which the signed difference reproduces since `ttl` is never negative. */
  predicate Expired(c: Config, e: Entry, now: nat) {
    now - e.ts > c.ttl
  }

  lemma EmptyIsConsistent()
    ensures Consistent(EMPTY)
  {
  }

  ghost function PopFront(t: Table): Table
    requires |t.order| > 0
  {
    Table(t.entries - {t.order[0]}, t.order[1..])
  }

  lemma PopFrontKeepsConsistent(t: Table)
    requires Consistent(t) && |t.order| > 0
    ensures Consistent(PopFront(t))
    ensures t.order[0] in t.entries
  {
  }

  /** The table without the `k` keys that were admitted first. */
  ghost function DropOldest(t: Table, k: nat): (d: Table)
    requires Consistent(t) && k <= |t.order|
    ensures Consistent(d)
    ensures d.order == t.order[k..]
  {
    if k == 0 then t
    else
      var d := DropOldest(t, k - 1);
      PopFrontKeepsConsistent(d);
      PopFront(d)
  }

  /** What is left after a drop is the rest of the queue, with its entries untouched. */
  lemma {:induction false} DropOldestKeepsRest(t: Table, k: nat)
    requires Consistent(t) && k <= |t.order|
    ensures DropOldest(t, k).entries.Keys == Elements(t.order[k..]) <= t.entries.Keys
    ensures forall key :: key in DropOldest(t, k).entries ==> DropOldest(t, k).entries[key] == t.entries[key]
  {
    if k > 0 {
      DropOldestKeepsRest(t, k - 1);
    }
  }

  /** End of the longest run of expired keys that starts at position `from` of the queue. */
  ghost function ExpiredRun(c: Config, t: Table, now: nat, from: nat): (end: nat)
    requires Consistent(t) && from <= |t.order|
    ensures from <= end <= |t.order|
    ensures forall i :: from <= i < end ==> Expired(c, t.entries[t.order[i]], now)
    ensures end < |t.order| ==> !Expired(c, t.entries[t.order[end]], now)
    decreases |t.order| - from
  {
    if from < |t.order| && Expired(c, t.entries[t.order[from]], now)
    then ExpiredRun(c, t, now, from + 1)
    else from
  }

  /** How many keys a prune drops: the longest all-expired prefix, or more if the table is over capacity. */
  ghost function PruneCount(c: Config, t: Table, now: nat): nat
    requires Consistent(t)
  {
    var expired := ExpiredRun(c, t, now, 0);
    var excess := |t.order| - c.maxEntries;
    if expired < excess then excess else expired
  }

  ghost function Pruned(c: Config, t: Table, now: nat): Table
    requires Consistent(t)
  {
    DropOldest(t, PruneCount(c, t, now))
  }

  ghost function Lookup(t: Table, key: SubmitKey): Option<Outcome> {
    if key in t.entries then Some(t.entries[key].outcome) else None
  }

  lemma CountEntries(t: Table)
    requires Consistent(t)
    ensures |t.entries| == |t.order|
  {
    CountElements(t.order);
  }

  ghost predicate AllExpired(c: Config, t: Table, now: nat, k: nat)
    requires Consistent(t) && k <= |t.order|
  {
    forall i :: 0 <= i < k ==> Expired(c, t.entries[t.order[i]], now)
  }

  lemma StartOfPrune(c: Config, t: Table, now: nat)
    requires Consistent(t)
    ensures AllExpired(c, t, now, 0) && DropOldest(t, 0) == t
  {
  }

  lemma OneMoreExpired(c: Config, t: Table, now: nat, k: nat)
    requires Consistent(t) && k < |t.order| && t.order[k] in t.entries
    requires AllExpired(c, t, now, k) && Expired(c, t.entries[t.order[k]], now)
    ensures AllExpired(c, t, now, k + 1)
  {
  }

  lemma ExpiredRunEndsAt(c: Config, t: Table, now: nat, k: nat)
    requires Consistent(t) && k <= |t.order|
    requires AllExpired(c, t, now, k)
    requires k < |t.order| ==> !Expired(c, t.entries[t.order[k]], now)
    ensures k == ExpiredRun(c, t, now, 0)
  {
  }

  /** One round of either loop of the prune: the front is the next key, and popping it drops one more. */
  lemma PopNext(t: Table, k: nat)
    requires Consistent(t) && k < |t.order|
    ensures t.order[k] in t.entries
    ensures var d := DropOldest(t, k);
            && d.order[0] == t.order[k] && d.order[0] in d.entries
            && d.entries[d.order[0]] == t.entries[t.order[k]]
            && DropOldest(t, k + 1) == Table(d.entries - {d.order[0]}, d.order[1..])
  {
    DropOldestKeepsRest(t, k);
    PopFrontKeepsConsistent(DropOldest(t, k));
  }

  /** `k` rounds are what a prune does if the first `expired` of them popped the whole expired prefix. */
  lemma PruneEnds(c: Config, t: Table, now: nat, expired: nat, k: nat)
    requires Consistent(t) && expired <= k <= |t.order|
    requires AllExpired(c, t, now, expired)
    requires expired < |t.order| ==> t.order[expired] in t.entries && !Expired(c, t.entries[t.order[expired]], now)
    requires |t.order| - k <= c.maxEntries
    requires k == expired || |t.order| - k == c.maxEntries
    ensures DropOldest(t, k) == Pruned(c, t, now)
  {
    hide NoRepeats, Elements;
    ExpiredRunEndsAt(c, t, now, expired);
  }

  /**
   * Exactly which keys survive a prune: the key at position `p` survives if and only if some key
   * admitted no later than it was touched at most `ttl` ago and fewer than `max_entries` keys were
   * admitted after it.
   */
  lemma PruneKeeps(c: Config, t: Table, now: nat, p: nat)
    requires Consistent(t) && p < |t.order|
    ensures t.order[p] in Pruned(c, t, now).entries
            <==> (&& (exists q :: 0 <= q <= p && now - t.entries[t.order[q]].ts <= c.ttl)
                  && |t.order| - p - 1 < c.maxEntries)
  {
    DropOldestKeepsRest(t, PruneCount(c, t, now));
  }

  /** A prune leaves at most `max_entries` keys, changes no entry it keeps, and keeps the admission order. */
  lemma PruneBounds(c: Config, t: Table, now: nat)
    requires Consistent(t)
    ensures var u := Pruned(c, t, now);
            && Consistent(u)
            && |u.entries| <= c.maxEntries
            && (forall key :: key in u.entries ==> key in t.entries && u.entries[key] == t.entries[key])
            && (exists k :: 0 <= k <= |t.order| && u.order == t.order[k..])
  {
    DropOldestKeepsRest(t, PruneCount(c, t, now));
    CountEntries(Pruned(c, t, now));
  }

  // ---------------------------------------------------------------------------------------
  // The guard's calls as events, and runs of the guard
  // ---------------------------------------------------------------------------------------

  /**
   * One call on the guard, made while its lock is held.  The clock reading is taken before the
   * lock, so successive readings need not be ordered.
   */
  datatype Event =
    | Get(key: SubmitKey, now: nat)
    | Insert(key: SubmitKey, now: nat)
    | SetOutcome(key: SubmitKey, now: nat, outcome: Outcome)

  ghost function Apply(c: Config, t: Table, e: Event): Table
    requires Consistent(t)
  {
    var u := Pruned(c, t, e.now);
    match e
    case Get(_, _) => u
    case Insert(key, now) =>
      if key in u.entries then u
      else Table(u.entries[key := Entry(now, InFlight)], u.order + [key])
    case SetOutcome(key, now, outcome) =>
      if key in u.entries then u.(entries := u.entries[key := Entry(now, outcome)])
      else u
  }

  lemma AppendKeepsConsistent(t: Table, key: SubmitKey, e: Entry)
    requires Consistent(t) && key !in t.entries
    ensures Consistent(Table(t.entries[key := e], t.order + [key]))
  {
  }

  lemma RewriteKeepsConsistent(t: Table, key: SubmitKey, e: Entry)
    requires Consistent(t) && key in t.entries
    ensures Consistent(Table(t.entries[key := e], t.order))
  {
  }

  lemma ApplyKeepsConsistent(c: Config, t: Table, e: Event)
    requires Consistent(t)
    ensures Consistent(Apply(c, t, e))
    ensures |Apply(c, t, e).entries| <= c.maxEntries + 1
  {
    PruneBounds(c, t, e.now);
    var u := Pruned(c, t, e.now);
    match e
    case Get(_, _) =>
    case Insert(key, now) => if key !in u.entries { AppendKeepsConsistent(u, key, Entry(now, InFlight)); }
    case SetOutcome(key, now, o) => if key in u.entries { RewriteKeepsConsistent(u, key, Entry(now, o)); }
  }

  /**
   * A run of the guard: call `i` finds the table `before[i]`, prunes it to `atCall[i]`, and leaves
   * `before[i + 1]`.
   */
  datatype Run = Run(es: seq<Event>, before: seq<Table>, atCall: seq<Table>)

  ghost predicate IsStep(c: Config, r: Run, i: nat)
    requires |r.before| == |r.es| + 1 && |r.atCall| == |r.es| && i < |r.es|
  {
    && Consistent(r.before[i])
    && r.atCall[i] == Pruned(c, r.before[i], r.es[i].now)
    && r.before[i + 1] == Apply(c, r.before[i], r.es[i])
  }

  ghost predicate IsRun(c: Config, r: Run) {
    && |r.before| == |r.es| + 1 && |r.atCall| == |r.es|
    && r.before[0] == EMPTY
    && forall i: nat :: i < |r.es| ==> IsStep(c, r, i)
  }

  /** Every sequence of calls has a run, and every table of it is consistent and within capacity. */
  lemma {:induction false} EveryCallSequenceRuns(c: Config, es: seq<Event>) returns (r: Run)
    ensures IsRun(c, r) && r.es == es
    ensures Consistent(r.before[|es|])
  {
    hide NoRepeats, Elements, PruneCount;
    if es == [] {
      EmptyIsConsistent();
      r := Run([], [EMPTY], []);
    } else {
      var n := |es| - 1;
      var q := EveryCallSequenceRuns(c, es[..n]);
      var t := q.before[n];
      ApplyKeepsConsistent(c, t, es[n]);
      r := Run(es, q.before + [Apply(c, t, es[n])], q.atCall + [Pruned(c, t, es[n].now)]);
      forall i: nat | i < |es| ensures IsStep(c, r, i) {
        if i < n { assert IsStep(c, q, i); }
      }
    }
  }

  /** The four calls of the run below. */
  ghost function RefreshedAheadOfExpired(a: SubmitKey, b: SubmitKey): seq<Event> {
    [Insert(a, 0), Insert(b, 1), SetOutcome(a, 55, Accepted), Get(b, 110)]
  }

  /** A prune drops nothing from a table within capacity whose oldest key is fresh. */
  lemma FreshFrontKeepsAll(c: Config, t: Table, now: nat)
    requires Consistent(t) && |t.order| <= c.maxEntries
    requires t.order != [] ==> !Expired(c, t.entries[t.order[0]], now)
    ensures Pruned(c, t, now) == t
  {
    StartOfPrune(c, t, now);
  }

  lemma FirstInsert(c: Config, r: Run, key: SubmitKey)
    requires IsRun(c, r) && |r.es| > 0 && r.es[0] == Insert(key, 0)
    ensures r.before[1] == Table(map[key := Entry(0, InFlight)], [key])
  {
    assert IsStep(c, r, 0);
    FreshFrontKeepsAll(c, r.before[0], 0);
  }

  lemma SecondInsert(c: Config, r: Run, a: SubmitKey, b: SubmitKey)
    requires IsRun(c, r) && |r.es| > 1 && r.es[1] == Insert(b, 1) && c == Config(60, 100) && a != b
    requires r.before[1] == Table(map[a := Entry(0, InFlight)], [a])
    ensures r.before[2] == Table(map[a := Entry(0, InFlight), b := Entry(1, InFlight)], [a, b])
  {
    assert IsStep(c, r, 1);
    FreshFrontKeepsAll(c, r.before[1], 1);
    hide NoRepeats, Elements;
  }

  /**
   * "Entries older than the ttl are dropped" is false: a key that expired long ago is still
   * answered while a refreshed key sits in front of it.  With a ttl of 60 the call at 110 is answered
   * from an entry written at 1.
   */
  lemma ExpiredKeyBehindFreshKeySurvives(c: Config, a: SubmitKey, b: SubmitKey) returns (r: Run)
    requires c == Config(60, 100) && a != b
    ensures IsRun(c, r) && r.es == RefreshedAheadOfExpired(a, b)
    ensures b in r.atCall[3].entries && Expired(c, r.atCall[3].entries[b], r.es[3].now)
    ensures Lookup(r.atCall[3], b) == Some(InFlight)
  {
    r := EveryCallSequenceRuns(c, RefreshedAheadOfExpired(a, b));
    FirstInsert(c, r, a);
    SecondInsert(c, r, a, b);
    assert IsStep(c, r, 2) && IsStep(c, r, 3);
    FreshFrontKeepsAll(c, r.before[2], 55);
    FreshFrontKeepsAll(c, r.before[3], 110);
  }

  /** In every reachable state the queue and the map agree and hold at most `max_entries + 1` keys. */
  lemma ReachableTables(c: Config, r: Run, n: nat)
    requires IsRun(c, r) && n <= |r.es|
    ensures var t := r.before[n];
            && NoRepeats(t.order)
            && Elements(t.order) == t.entries.Keys
            && |t.entries| == |t.order| <= c.maxEntries + 1
  {
    if n > 0 {
      assert IsStep(c, r, n - 1);
      ApplyKeepsConsistent(c, r.before[n - 1], r.es[n - 1]);
    }
    CountEntries(r.before[n]);
  }

  /** Call `i` registers its key as a new submit. */
  ghost predicate Admits(r: Run, i: nat)
    requires i < |r.es| == |r.atCall|
  {
    r.es[i].Insert? && r.es[i].key !in r.atCall[i].entries
  }

  /** Call `i` writes the timestamp and the outcome of its key. */
  ghost predicate Touches(r: Run, i: nat)
    requires i < |r.es| == |r.atCall|
  {
    Admits(r, i) || (r.es[i].SetOutcome? && r.es[i].key in r.atCall[i].entries)
  }

  /** The prune of call `m` throws `key` out. */
  ghost predicate Forgets(r: Run, m: nat, key: SubmitKey)
    requires m < |r.es| == |r.atCall| && |r.before| == |r.es| + 1
  {
    key in r.before[m].entries && key !in r.atCall[m].entries
  }

  /** The last call before `n` that wrote `key`; -1 if there is none. */
  ghost function LastTouch(r: Run, n: nat, key: SubmitKey): (i: int)
    requires n <= |r.es| == |r.atCall|
    ensures -1 <= i < n
    ensures 0 <= i ==> r.es[i].key == key && Touches(r, i)
    ensures forall j: nat :: i < j < n && r.es[j].key == key ==> !Touches(r, j)
  {
    if n == 0 then -1
    else if r.es[n - 1].key == key && Touches(r, n - 1) then n - 1
    else LastTouch(r, n - 1, key)
  }

  /** The last call before `n` that admitted `key`; -1 if there is none. */
  ghost function LastAdmission(r: Run, n: nat, key: SubmitKey): (i: int)
    requires n <= |r.es| == |r.atCall|
    ensures -1 <= i < n
    ensures 0 <= i ==> r.es[i].key == key && Admits(r, i)
    ensures forall j: nat :: i < j < n && r.es[j].key == key ==> !Admits(r, j)
  {
    if n == 0 then -1
    else if r.es[n - 1].key == key && Admits(r, n - 1) then n - 1
    else LastAdmission(r, n - 1, key)
  }

  ghost function Written(e: Event): Entry
    requires !e.Get?
  {
    Entry(e.now, if e.Insert? then InFlight else e.outcome)
  }

  /** The keys admitted by the calls strictly between `i` and `m`. */
  ghost function AdmittedBetween(r: Run, i: int, m: nat): set<SubmitKey>
    requires m <= |r.es| == |r.atCall|
  {
    set j: nat | j < m && i < j && Admits(r, j) :: r.es[j].key
  }

  /** What one call does to one key and to the queue, without saying how much its prune drops. */
  lemma StepFacts(c: Config, r: Run, i: nat)
    requires IsRun(c, r) && i < |r.es|
    ensures Consistent(r.before[i]) && Consistent(r.atCall[i]) && Consistent(r.before[i + 1])
    ensures forall key :: key in r.atCall[i].entries
              ==> key in r.before[i].entries && r.atCall[i].entries[key] == r.before[i].entries[key]
    ensures r.before[i + 1].entries
            == if Touches(r, i) then r.atCall[i].entries[r.es[i].key := Written(r.es[i])] else r.atCall[i].entries
    ensures r.before[i + 1].order
            == if Admits(r, i) then r.atCall[i].order + [r.es[i].key] else r.atCall[i].order
  {
    assert IsStep(c, r, i);
    PruneBounds(c, r.before[i], r.es[i].now);
    ApplyKeepsConsistent(c, r.before[i], r.es[i]);
  }

  /** Every retained entry is what the last call that touched its key wrote. */
  lemma {:induction false} TableRemembersLastTouch(c: Config, r: Run, n: nat, key: SubmitKey)
    requires IsRun(c, r) && n <= |r.es| && key in r.before[n].entries
    ensures 0 <= LastAdmission(r, n, key) <= LastTouch(r, n, key)
    ensures r.before[n].entries[key] == Written(r.es[LastTouch(r, n, key)])
  {
    if n > 0 {
      StepFacts(c, r, n - 1);
      if r.es[n - 1].key != key || !Admits(r, n - 1) {
        TableRemembersLastTouch(c, r, n - 1, key);
      }
    }
  }

  /** The queue is sorted by the time of admission. */
  ghost predicate InAdmissionOrder(r: Run, n: nat, order: seq<SubmitKey>)
    requires n <= |r.es| == |r.atCall|
  {
    forall p, q :: 0 <= p < q < |order| ==> LastAdmission(r, n, order[p]) < LastAdmission(r, n, order[q])
  }

  lemma SuffixStaysInOrder(r: Run, n: nat, order: seq<SubmitKey>, k: nat)
    requires n <= |r.es| == |r.atCall| && k <= |order|
    requires InAdmissionOrder(r, n, order)
    ensures InAdmissionOrder(r, n, order[k..])
  {
    var rest := order[k..];
    forall p, q | 0 <= p < q < |rest| ensures LastAdmission(r, n, rest[p]) < LastAdmission(r, n, rest[q]) {
    }
  }

  lemma OrderSurvivesCall(r: Run, n: nat, kept: seq<SubmitKey>)
    requires n < |r.es| == |r.atCall|
    requires InAdmissionOrder(r, n, kept) && Elements(kept) == r.atCall[n].entries.Keys
    ensures InAdmissionOrder(r, n + 1, if Admits(r, n) then kept + [r.es[n].key] else kept)
  {
    forall p | 0 <= p < |kept| ensures LastAdmission(r, n + 1, kept[p]) == LastAdmission(r, n, kept[p]) {
    }
  }

  /** A call cuts `k` keys off the front of the queue and appends its own key if it admits it. */
  lemma QueueStep(c: Config, r: Run, i: nat) returns (k: nat)
    requires IsRun(c, r) && i < |r.es|
    ensures k <= |r.before[i].order| && r.atCall[i].order == r.before[i].order[k..]
    ensures Elements(r.atCall[i].order) == r.atCall[i].entries.Keys
    ensures r.before[i + 1].order
            == if Admits(r, i) then r.before[i].order[k..] + [r.es[i].key] else r.before[i].order[k..]
  {
    StepFacts(c, r, i);
    assert IsStep(c, r, i);
    k := PruneCount(c, r.before[i], r.es[i].now);
  }

  lemma {:induction false} QueueIsInAdmissionOrder(c: Config, r: Run, n: nat)
    requires IsRun(c, r) && n <= |r.es|
    ensures InAdmissionOrder(r, n, r.before[n].order)
  {
    if n > 0 {
      hide NoRepeats, Elements, InAdmissionOrder, IsStep, Admits;
      QueueIsInAdmissionOrder(c, r, n - 1);
      var k := QueueStep(c, r, n - 1);
      SuffixStaysInOrder(r, n - 1, r.before[n - 1].order, k);
      OrderSurvivesCall(r, n - 1, r.before[n - 1].order[k..]);
    }
  }

  /** A key that was in the table and later is not was thrown out by some call's prune in between. */
  lemma {:induction false} SomeCallForgets(c: Config, r: Run, a: nat, b: nat, key: SubmitKey) returns (m: nat)
    requires IsRun(c, r) && a <= b < |r.es|
    requires key in r.before[a].entries && key !in r.atCall[b].entries
    ensures a <= m <= b && Forgets(r, m, key)
    decreases b - a
  {
    if Forgets(r, a, key) {
      m := a;
    } else {
      StepFacts(c, r, a);
      m := SomeCallForgets(c, r, a + 1, b, key);
    }
  }

  lemma BehindMeansLater(c: Config, r: Run, m: nat, p: nat, q: nat)
    requires IsRun(c, r) && m <= |r.es| && p < q < |r.before[m].order|
    ensures var order := r.before[m].order;
            && order[q] != order[p]
            && order[q] in AdmittedBetween(r, LastAdmission(r, m, order[p]), m)
  {
    ReachableTables(c, r, m);
    QueueIsInAdmissionOrder(c, r, m);
    TableRemembersLastTouch(c, r, m, r.before[m].order[q]);
  }

  /** The keys behind position `p` of the queue were all admitted after the key at `p`. */
  lemma NewerKeysWereAdmittedLater(c: Config, r: Run, m: nat, p: nat)
    requires IsRun(c, r) && m <= |r.es| && p < |r.before[m].order|
    ensures var order := r.before[m].order;
            |AdmittedBetween(r, LastAdmission(r, m, order[p]), m) - {order[p]}| >= |order| - p - 1
  {
    ReachableTables(c, r, m);
    var order := r.before[m].order;
    var newer := order[p + 1..];
    var since := LastAdmission(r, m, order[p]);
    forall other | other in Elements(newer)
      ensures other in AdmittedBetween(r, since, m) - {order[p]}
    {
      var q :| 0 <= q < |newer| && newer[q] == other;
      BehindMeansLater(c, r, m, p, p + 1 + q);
    }
    CountElements(newer);
    SubsetIsSmaller(Elements(newer), AdmittedBetween(r, since, m) - {order[p]});
  }

  /** A key is only thrown out because its own entry expired or because enough newer keys were admitted. */
  lemma ForgottenForAReason(c: Config, r: Run, m: nat, key: SubmitKey)
    requires IsRun(c, r) && m < |r.es| && Forgets(r, m, key)
    ensures var since := LastAdmission(r, m, key);
            var touch := LastTouch(r, m, key);
            && 0 <= since <= touch
            && (|| r.es[m].now - r.es[touch].now > c.ttl
                || |AdmittedBetween(r, since, m) - {key}| >= c.maxEntries)
  {
    TableRemembersLastTouch(c, r, m, key);
    ReachableTables(c, r, m);
    var t := r.before[m];
    var p :| 0 <= p < |t.order| && t.order[p] == key;
    NewerKeysWereAdmittedLater(c, r, m, p);
    assert IsStep(c, r, m);
    PruneKeeps(c, t, r.es[m].now, p);
  }

  /** The keys that a run has in the table before call `m` and admitted after `key`. */
  ghost function AdmittedAfter(r: Run, m: nat, key: SubmitKey): set<SubmitKey>
    requires m < |r.es| == |r.atCall| && |r.before| == |r.es| + 1
  {
    set other | other in r.before[m].entries && LastAdmission(r, m, other) > LastAdmission(r, m, key)
  }

  /** A key in the table was admitted no later than `key` and touched at most `ttl` before call `m`. */
  ghost predicate FreshUpTo(c: Config, r: Run, m: nat, key: SubmitKey)
    requires m < |r.es| == |r.atCall| && |r.before| == |r.es| + 1
  {
    exists other :: other in r.before[m].entries && LastAdmission(r, m, other) <= LastAdmission(r, m, key)
      && LastTouch(r, m, other) >= 0 && r.es[m].now - r.es[LastTouch(r, m, other)].now <= c.ttl
  }

  lemma BehindIsAdmittedAfter(c: Config, r: Run, m: nat, p: nat, q: nat)
    requires IsRun(c, r) && m < |r.es| && p < q < |r.before[m].order|
    ensures r.before[m].order[q] in AdmittedAfter(r, m, r.before[m].order[p])
  {
    QueueIsInAdmissionOrder(c, r, m);
    ReachableTables(c, r, m);
    assert r.before[m].order[q] in Elements(r.before[m].order);
    hide LastAdmission, IsRun;
  }

  lemma AdmittedAfterMeansBehind(c: Config, r: Run, m: nat, p: nat, key: SubmitKey) returns (q: nat)
    requires IsRun(c, r) && m < |r.es| && p < |r.before[m].order|
    requires key in AdmittedAfter(r, m, r.before[m].order[p])
    ensures p < q < |r.before[m].order| && r.before[m].order[q] == key
  {
    QueueIsInAdmissionOrder(c, r, m);
    ReachableTables(c, r, m);
    hide LastAdmission, IsRun;
    assert key in Elements(r.before[m].order);
    q :| 0 <= q < |r.before[m].order| && r.before[m].order[q] == key;
  }

  lemma AdmittedAfterIsBehind(c: Config, r: Run, m: nat, p: nat)
    requires IsRun(c, r) && m < |r.es| && p < |r.before[m].order|
    ensures |AdmittedAfter(r, m, r.before[m].order[p])| == |r.before[m].order| - p - 1
  {
    ReachableTables(c, r, m);
    var order := r.before[m].order;
    var behind := order[p + 1..];
    CountElements(behind);
    hide AdmittedAfter, NoRepeats, IsStep;
    forall key | key in Elements(behind) ensures key in AdmittedAfter(r, m, order[p]) {
      var q :| 0 <= q < |behind| && behind[q] == key;
      BehindIsAdmittedAfter(c, r, m, p, p + 1 + q);
    }
    forall key | key in AdmittedAfter(r, m, order[p]) ensures key in Elements(behind) {
      var q := AdmittedAfterMeansBehind(c, r, m, p, key);
      assert behind[q - p - 1] == key;
    }
    assert Elements(behind) == AdmittedAfter(r, m, order[p]);
  }

  /** The key at position `q` of the queue was touched at most `ttl` before call `m`. */
  ghost predicate FreshAt(c: Config, r: Run, m: nat, q: nat)
    requires m < |r.es| && |r.before| == |r.es| + 1 && q < |r.before[m].order|
    requires r.before[m].order[q] in r.before[m].entries
  {
    r.es[m].now - r.before[m].entries[r.before[m].order[q]].ts <= c.ttl
  }

  lemma FreshMeansInFront(c: Config, r: Run, m: nat, p: nat) returns (q: nat)
    requires IsRun(c, r) && m < |r.es| && p < |r.before[m].order|
    requires FreshUpTo(c, r, m, r.before[m].order[p])
    ensures q <= p && r.before[m].order[q] in r.before[m].entries && FreshAt(c, r, m, q)
  {
    TouchedAt(c, r, m);
    QueueIsInAdmissionOrder(c, r, m);
    hide Admits, Touches, IsRun;
    var (t, key) := (r.before[m], r.before[m].order[p]);
    var other :| other in t.entries && LastAdmission(r, m, other) <= LastAdmission(r, m, key)
      && LastTouch(r, m, other) >= 0 && r.es[m].now - r.es[LastTouch(r, m, other)].now <= c.ttl;
    assert other in t.order;
    q :| 0 <= q < |t.order| && t.order[q] == other;
  }

  lemma InFrontMeansFresh(c: Config, r: Run, m: nat, p: nat, q: nat)
    requires IsRun(c, r) && m < |r.es| && q <= p < |r.before[m].order|
    requires r.before[m].order[q] in r.before[m].entries && FreshAt(c, r, m, q)
    ensures FreshUpTo(c, r, m, r.before[m].order[p])
  {
    TouchedAt(c, r, m);
    QueueIsInAdmissionOrder(c, r, m);
    hide Admits, Touches, IsRun;
    assert LastAdmission(r, m, r.before[m].order[q]) <= LastAdmission(r, m, r.before[m].order[p]);
  }

  /** Queue and table list the same keys, and the time in an entry is that of the key's last touch. */
  lemma TouchedAt(c: Config, r: Run, m: nat)
    requires IsRun(c, r) && m < |r.es|
    ensures forall key :: key in r.before[m].order <==> key in r.before[m].entries
    ensures forall key :: key in r.before[m].entries
              ==> && LastTouch(r, m, key) >= 0
                  && r.before[m].entries[key].ts == r.es[LastTouch(r, m, key)].now
  {
    ReachableTables(c, r, m);
    var t := r.before[m];
    forall key ensures key in t.order <==> key in t.entries {
      assert key in t.order <==> key in Elements(t.order);
    }
    forall key | key in t.entries
      ensures LastTouch(r, m, key) >= 0 && t.entries[key].ts == r.es[LastTouch(r, m, key)].now
    {
      TableRemembersLastTouch(c, r, m, key);
    }
  }

  /** Some key no further back than position `p` is fresh. */
  ghost predicate FreshInFront(c: Config, r: Run, m: nat, p: nat)
    requires m < |r.es| && |r.before| == |r.es| + 1 && p < |r.before[m].order|
    requires forall q :: 0 <= q < |r.before[m].order| ==> r.before[m].order[q] in r.before[m].entries
  {
    exists q :: 0 <= q <= p && FreshAt(c, r, m, q)
  }

  lemma FreshInFrontIff(c: Config, r: Run, m: nat, p: nat)
    requires IsRun(c, r) && m < |r.es| && p < |r.before[m].order|
    requires forall q :: 0 <= q < |r.before[m].order| ==> r.before[m].order[q] in r.before[m].entries
    ensures FreshInFront(c, r, m, p) <==> FreshUpTo(c, r, m, r.before[m].order[p])
  {
    hide FreshUpTo, FreshAt, IsStep;
    if FreshUpTo(c, r, m, r.before[m].order[p]) {
      var q := FreshMeansInFront(c, r, m, p);
    }
    if FreshInFront(c, r, m, p) {
      var q :| 0 <= q <= p && FreshAt(c, r, m, q);
      InFrontMeansFresh(c, r, m, p, q);
    }
  }

  lemma SurvivesAt(c: Config, r: Run, m: nat, p: nat)
    requires IsRun(c, r) && m < |r.es| && p < |r.before[m].order|
    requires forall q :: 0 <= q < |r.before[m].order| ==> r.before[m].order[q] in r.before[m].entries
    ensures r.before[m].order[p] in r.atCall[m].entries
            <==> FreshInFront(c, r, m, p) && |r.before[m].order| - p - 1 < c.maxEntries
  {
    assert IsStep(c, r, m);
    var (t, now) := (r.before[m], r.es[m].now);
    PruneKeeps(c, t, now, p);
    hide Pruned, NoRepeats, Elements;
    if exists q :: 0 <= q <= p && now - t.entries[t.order[q]].ts <= c.ttl {
      var q :| 0 <= q <= p && now - t.entries[t.order[q]].ts <= c.ttl;
      assert FreshAt(c, r, m, q);
    }
  }

  /**
   * Exactly what a call remembers, over any run and with unordered readings.  A key in the table is still
   * there after the call's prune if and only if some key of the table admitted no later was touched at
   * most `ttl` ago, and fewer than `max_entries` keys of the table were admitted after it.
   */
  lemma RememberedIff(c: Config, r: Run, m: nat, key: SubmitKey)
    requires IsRun(c, r) && m < |r.es| && key in r.before[m].entries
    ensures key in r.atCall[m].entries
            <==> FreshUpTo(c, r, m, key) && |AdmittedAfter(r, m, key)| < c.maxEntries
  {
    hide FreshUpTo, AdmittedAfter, FreshInFront, IsStep;
    TouchedAt(c, r, m);
    assert key in r.before[m].order;
    var p :| 0 <= p < |r.before[m].order| && r.before[m].order[p] == key;
    SurvivesAt(c, r, m, p);
    AdmittedAfterIsBehind(c, r, m, p);
    FreshInFrontIff(c, r, m, p);
  }

  /**
   * Main result.  If a key is admitted at calls `i` and `j`, then some call `m` in between threw it
   * out, and at that call either more than `ttl` had passed since the last touch of the key, or at
   * least `max_entries` distinct other keys had been admitted after it.  Nothing is assumed about
   * the order of the clock readings.
   */
  lemma ReadmissionNeedsExpiryOrEviction(c: Config, r: Run, i: nat, j: nat) returns (m: nat)
    requires IsRun(c, r) && i < j < |r.es| && r.es[i].key == r.es[j].key
    requires Admits(r, i) && Admits(r, j)
    ensures i < m <= j && Forgets(r, m, r.es[i].key)
    ensures i <= LastTouch(r, m, r.es[i].key)
    ensures || r.es[m].now - r.es[LastTouch(r, m, r.es[i].key)].now > c.ttl
            || |AdmittedBetween(r, i, m) - {r.es[i].key}| >= c.maxEntries
  {
    var key := r.es[i].key;
    StepFacts(c, r, i);
    m := SomeCallForgets(c, r, i + 1, j, key);
    ForgottenForAReason(c, r, m, key);
    var since := LastAdmission(r, m, key);
    SubsetIsSmaller(AdmittedBetween(r, since, m) - {key}, AdmittedBetween(r, i, m) - {key});
  }

  /** No reading up to call `j` is more than `ttl` past the last touch, and too few keys came to push `i`'s key out. */
  ghost predicate NoReasonToForget(c: Config, r: Run, i: nat, j: nat)
    requires i < j < |r.es| == |r.atCall|
  {
    var key := r.es[i].key;
    && (forall m: nat :: i < m <= j ==> LastTouch(r, m, key) >= 0)
    && (forall m: nat :: i < m <= j ==> r.es[m].now - r.es[LastTouch(r, m, key)].now <= c.ttl)
    && |AdmittedBetween(r, i, j) - {key}| < c.maxEntries
  }

  /**
   * The guard's promise.  After a key is admitted at call `i`, and while there is no reason to
   * forget it, every later call `j` finds it with the outcome that was last recorded for it, and no
   * call in between admits it again.
   */
  lemma {:induction false} DuplicateGetsLastOutcome(c: Config, r: Run, i: nat, j: nat)
    requires IsRun(c, r) && i < j < |r.es| && Admits(r, i)
    requires NoReasonToForget(c, r, i, j)
    ensures LastAdmission(r, j, r.es[i].key) == i <= LastTouch(r, j, r.es[i].key)
    ensures Lookup(r.atCall[j], r.es[i].key) == Some(Written(r.es[LastTouch(r, j, r.es[i].key)]).outcome)
  {
    var key := r.es[i].key;
    StepFacts(c, r, j - 1);
    if i + 1 < j {
      SubsetIsSmaller(AdmittedBetween(r, i, j - 1) - {key}, AdmittedBetween(r, i, j) - {key});
      DuplicateGetsLastOutcome(c, r, i, j - 1);
    }
    TableRemembersLastTouch(c, r, j, key);
    StepFacts(c, r, j);
    if Forgets(r, j, key) {
      ForgottenForAReason(c, r, j, key);
    }
  }

  // ---------------------------------------------------------------------------------------
  // The guard itself
  // ---------------------------------------------------------------------------------------

  /** What `respond_on_duplicate` sends for a duplicate. */
  datatype Reply = ResultTrue | StaleShare | LowDiffShare | BadShare | NoReply

  ghost function ReplyFor(outcome: Outcome, hasId: bool): Reply {
    match outcome
    case InFlight => ResultTrue
    case Accepted => ResultTrue
    case Stale => StaleShare
    case LowDiff => if hasId then LowDiffShare else NoReply
    case Bad => BadShare
  }

  /**
   * Until the first submitter's outcome is recorded, every other submitter of its key is answered
   * true; afterwards each is answered according to the outcome last recorded.
   */
  lemma OtherSubmittersAreAnswered(c: Config, r: Run, i: nat, j: nat, hasId: bool)
    requires IsRun(c, r) && i < j < |r.es| && Admits(r, i)
    requires NoReasonToForget(c, r, i, j)
    ensures Lookup(r.atCall[j], r.es[i].key).Some?
    ensures var reply := ReplyFor(Lookup(r.atCall[j], r.es[i].key).value, hasId);
            var last := r.es[LastTouch(r, j, r.es[i].key)];
            && (reply == ResultTrue <==> !last.SetOutcome? || last.outcome == Accepted || last.outcome == InFlight)
            && (reply == StaleShare <==> last.SetOutcome? && last.outcome == Stale)
            && (reply == LowDiffShare <==> last.SetOutcome? && last.outcome == LowDiff && hasId)
            && (reply == BadShare <==> last.SetOutcome? && last.outcome == Bad)
    ensures (forall k :: i < k < j && r.es[k].key == r.es[i].key ==> !r.es[k].SetOutcome?)
            ==> ReplyFor(Lookup(r.atCall[j], r.es[i].key).value, hasId) == ResultTrue
  {
    hide NoReasonToForget, IsStep, IsRun;
    DuplicateGetsLastOutcome(c, r, i, j);
  }

  class DuplicateSubmitGuard {
    const config: Config
    var entries: map<SubmitKey, Entry>
    var order: seq<SubmitKey>

    ghost function Contents(): Table
      reads this
    {
      Table(entries, order)
    }

    ghost predicate Valid()
      reads this
    {
      Consistent(Contents())
    }

    constructor (ttl: nat, maxEntries: nat)
      ensures Valid() && Contents() == EMPTY
      ensures config == Config(ttl, maxEntries)
    {
      config := Config(ttl, maxEntries);
      entries := map[];
      order := [];
    }

    method Prune(now: nat)
      requires Valid()
      modifies this
      ensures Valid()
      ensures Contents() == Pruned(config, old(Contents()), now)
    {
      hide NoRepeats, Elements, DropOldest, AllExpired, Pruned;
      ghost var was, k := Contents(), 0;
      StartOfPrune(config, was, now);
      while |order| > 0
        invariant k <= |was.order| && Contents() == DropOldest(was, k)
        invariant AllExpired(config, was, now, k)
        decreases |order|
      {
        PopNext(was, k);
        var front := order[0];
        var remove := if front in entries then Expired(config, entries[front], now) else true;
        if !remove { break; }
        order := order[1..];
        entries := entries - {front};
        OneMoreExpired(config, was, now, k);
        k := k + 1;
      }
      ghost var expired := k;
      while |entries| > config.maxEntries
        invariant expired <= k <= |was.order| && Contents() == DropOldest(was, k)
        invariant k == expired || |was.order| - k >= config.maxEntries
        decreases |order|
      {
        CountEntries(DropOldest(was, k));
        if |order| > 0 {
          PopNext(was, k);
          var key := order[0];
          order := order[1..];
          entries := entries - {key};
          k := k + 1;
        } else {
          break;
        }
      }
      CountEntries(DropOldest(was, k));
      PruneEnds(config, was, now, expired, k);
    }

    method Get(key: SubmitKey, now: nat) returns (r: Option<Outcome>)
      requires Valid()
      modifies this
      ensures Valid()
      ensures Contents() == Apply(config, old(Contents()), Event.Get(key, now))
      ensures r == if key in entries then Some(entries[key].outcome) else None
    {
      Prune(now);
      r := if key in entries then Some(entries[key].outcome) else None;
    }

    method InsertInflight(key: SubmitKey, now: nat)
      requires Valid()
      modifies this
      ensures Valid()
      ensures Contents() == Apply(config, old(Contents()), Insert(key, now))
      ensures key in entries
      ensures key !in old(entries) ==> entries[key] == Entry(now, InFlight)
    {
      PruneBounds(config, Contents(), now);
      ApplyKeepsConsistent(config, Contents(), Insert(key, now));
      Prune(now);
      if key in entries {
        return;
      }
      entries := entries[key := Entry(now, InFlight)];
      order := order + [key];
    }

    method SetOutcome(key: SubmitKey, now: nat, outcome: Outcome)
      requires Valid()
      modifies this
      ensures Valid()
      ensures Contents() == Apply(config, old(Contents()), Event.SetOutcome(key, now, outcome))
      ensures key in entries ==> entries[key] == Entry(now, outcome)
    {
      hide NoRepeats, Elements, PruneCount;
      ApplyKeepsConsistent(config, Contents(), Event.SetOutcome(key, now, outcome));
      Prune(now);
      if key in entries {
        entries := entries[key := Entry(now, outcome)];
      }
    }

    /**
     * The atomic check-and-register of a submit: a look-up and, when the key is unknown, an
     * insertion.  The insertion prunes a second time, which can drop further keys.
     */
    method RespondOnDuplicate(key: SubmitKey, now: nat, hasId: bool) returns (handled: bool, reply: Reply)
      requires Valid()
      modifies this
      ensures Valid()
      ensures var looked := Apply(config, old(Contents()), Event.Get(key, now));
              && (handled <==> key in looked.entries)
              && (handled ==> var outcome := looked.entries[key].outcome;
                              && Contents() == looked
                              && reply == ReplyFor(outcome, hasId)
                              && (reply == ResultTrue <==> outcome == InFlight || outcome == Accepted)
                              && (reply == StaleShare <==> outcome == Stale)
                              && (reply == LowDiffShare <==> outcome == LowDiff && hasId)
                              && (reply == BadShare <==> outcome == Bad))
              && (!handled ==> && Consistent(looked) && reply == NoReply
                               && Contents() == Apply(config, looked, Insert(key, now))
                               && key in entries && entries[key] == Entry(now, InFlight))
    {
      hide NoRepeats, Elements, PruneCount;
      reply := NoReply;
      var found := Get(key, now);
      PruneBounds(config, Contents(), now);
      if found.None? {
        InsertInflight(key, now);
      }
      handled := found.Some?;
      if handled {
        match found.value {
          case Accepted => reply := ResultTrue;
          case InFlight => reply := ResultTrue;
          case Stale => reply := StaleShare;
          case LowDiff => if hasId { reply := LowDiffShare; }
          case Bad => reply := BadShare;
        }
      }
    }
  }
}
