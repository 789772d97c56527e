/** The ring of the last 300 jobs of a connection. */
module JobRing {
  import opened SeqFacts

  const MAX_JOBS: nat := 300

  /** `block` and `prePowHash` stand for the block template and its hash. */
  datatype Job = Job(block: nat, prePowHash: nat)

  /** The newest of the ids `1..n` that falls on `slot`; 0 if there is none. */
  ghost function Newest(n: nat, slot: nat): nat {
    if n == 0 then 0 else if n % MAX_JOBS == slot then n else Newest(n - 1, slot)
  }

  /** What `Newest` means. */
  lemma {:induction false} NewestIsLargest(n: nat, slot: nat)
    ensures Newest(n, slot) <= n
    ensures Newest(n, slot) > 0 ==> Newest(n, slot) % MAX_JOBS == slot
    ensures forall id :: Newest(n, slot) < id <= n ==> id % MAX_JOBS != slot
  {
    if n > 0 {
      NewestIsLargest(n - 1, slot);
    }
  }

  lemma SameSlotApart(x: nat, y: nat)
    requires x < y && x % MAX_JOBS == y % MAX_JOBS
    ensures y >= x + MAX_JOBS
  {
  }

  /** Looking up an id gives that very job exactly while the id is one of the last 300 issued. */
  lemma LookupIsExactIffRecent(n: nat, id: nat)
    ensures id > 0 && Newest(n, id % MAX_JOBS) == id <==> 0 < id <= n < id + 300
  {
    var found := Newest(n, id % MAX_JOBS);
    NewestIsLargest(n, id % MAX_JOBS);
    if 0 < id <= n < id + MAX_JOBS && found != id {
      SameSlotApart(id, found);
    }
  }

  /** An id is answered at all exactly when its slot has been used, and then with one of the last 300 jobs. */
  lemma LookupAnswersIffSlotUsed(n: nat, id: nat)
    ensures Newest(n, id % MAX_JOBS) > 0 <==> n >= 300 || 0 < id % 300 <= n
    ensures Newest(n, id % MAX_JOBS) > 0
            ==> n < Newest(n, id % MAX_JOBS) + 300 && Newest(n, id % MAX_JOBS) % 300 == id % 300
  {
    var slot := id % MAX_JOBS;
    NewestIsLargest(n, slot);
    if 0 < slot <= n {
      assert slot % MAX_JOBS == slot;
    }
    if n >= MAX_JOBS {
      assert MAX_JOBS % MAX_JOBS == 0;
    }
  }

  /** The slots in use after `n` jobs. */
  ghost function UsedSlots(n: nat): set<nat> {
    set slot: nat | slot < MAX_JOBS && Newest(n, slot) > 0
  }

  ghost function Upto(n: nat): (r: set<nat>)
    ensures forall k: nat :: k in r <==> k < n
    ensures |r| == n
  {
    if n == 0 then {} else Upto(n - 1) + {n - 1}
  }

  /** After `n` jobs `min(n, 300)` slots are in use. */
  lemma CountUsedSlots(n: nat)
    ensures |UsedSlots(n)| == if n < MAX_JOBS then n else MAX_JOBS
  {
    var m := if n < MAX_JOBS then n + 1 else MAX_JOBS;
    forall slot: nat | slot < MAX_JOBS ensures slot in UsedSlots(n) <==> n >= MAX_JOBS || 0 < slot <= n {
      LookupAnswersIffSlotUsed(n, slot);
    }
    if n < MAX_JOBS {
      assert UsedSlots(n) == Upto(m) - {0};
    } else {
      assert UsedSlots(n) == Upto(m);
    }
  }

  class MiningState {
    var jobs: map<nat, Job>
    var jobIds: map<nat, nat>
    var jobCounter: nat

    /** Every job ever added; job `id` is `history[id - 1]`. */
    ghost var history: seq<Job>

    ghost predicate Valid()
      reads this
    {
      && jobCounter == |history|
      && jobs.Keys == jobIds.Keys == UsedSlots(jobCounter)
      && (forall slot :: slot in jobIds ==> jobIds[slot] == Newest(jobCounter, slot) <= jobCounter)
      && (forall slot :: slot in jobs ==> jobIds[slot] > 0 && jobs[slot] == history[jobIds[slot] - 1])
    }

    constructor ()
      ensures Valid() && history == []
    {
      jobs, jobIds, jobCounter, history := map[], map[], 0, [];
    }

    method AddJob(job: Job) returns (id: nat)
      requires Valid()
      modifies this
      ensures Valid() && history == old(history) + [job]
      ensures id == |history|
    {
      jobCounter := jobCounter + 1;
      id := jobCounter;
      var slot := id % MAX_JOBS;
      jobs := jobs[slot := job];
      jobIds := jobIds[slot := id];
      history := history + [job];
    }

    /** The newest job on the id's slot, whether or not it is the job asked for. */
    method GetJob(id: nat) returns (r: Option<Job>)
      requires Valid()
      ensures var found := Newest(|history|, id % MAX_JOBS);
              found <= |history| && r == if found > 0 then Some(history[found - 1]) else None
      ensures 0 < id <= |history| < id + 300 ==> r == Some(history[id - 1])
    {
      LookupIsExactIffRecent(|history|, id);
      var slot := id % MAX_JOBS;
      NewestIsLargest(|history|, slot);
      r := if slot in jobs then Some(jobs[slot]) else None;
    }

    method GetJobIdAtSlot(slot: nat) returns (r: Option<nat>)
      requires Valid()
      ensures var found := Newest(|history|, slot % MAX_JOBS);
              r == if found > 0 then Some(found) else None
      ensures 0 < slot <= |history| < slot + 300 ==> r == Some(slot)
    {
      LookupIsExactIffRecent(|history|, slot);
      r := if slot % MAX_JOBS in jobIds then Some(jobIds[slot % MAX_JOBS]) else None;
    }

    /** Both maps hold `min(n, 300)` slots after `n` jobs. */
    lemma RingSize()
      requires Valid()
      ensures |jobs| == |jobIds| == if |history| < 300 then |history| else 300
    {
      CountUsedSlots(|history|);
    }
  }
}
