/**
 * The sliding 60-second window on configuration POSTs, per source address.  The clock is read before
 * the lock is taken, so readings of concurrent requests can reach the window out of order.
 */
module PostLimiter {

  const WINDOW_MS: nat := 60_000

  /** A source address. */
  datatype Ip = Ip(text: string)

  /** The hits a reading at `now` keeps; `duration_since` saturates at zero. */
  function Recent(hits: seq<nat>, now: nat): (r: seq<nat>)
    ensures |r| <= |hits|
  {
    if hits == [] then []
    else if now - hits[0] < WINDOW_MS then [hits[0]] + Recent(hits[1..], now)
    else Recent(hits[1..], now)
  }

  /** The window of one address after a POST read at `now`, and whether it was let through. */
  function Admit(limit: nat, hits: seq<nat>, now: nat): (seq<nat>, bool) {
    var kept := Recent(hits, now);
    if |kept| >= limit then (kept, false) else (kept + [now], true)
  }

  class PostLimiter {
    const limit: nat
    var hits: map<Ip, seq<nat>>

    ghost function HitsOf(ip: Ip): seq<nat>
      reads this
    {
      if ip in hits then hits[ip] else []
    }

    constructor (limit: nat)
      ensures hits == map[] && this.limit == limit
    {
      this.limit := limit;
      hits := map[];
    }

    method CheckPost(ip: Ip, now: nat) returns (allowed: bool)
      modifies this
      ensures (HitsOf(ip), allowed) == Admit(limit, old(HitsOf(ip)), now)
      ensures forall other :: other != ip ==> HitsOf(other) == old(HitsOf(other))
      ensures var low := now - 59_999;
              && (allowed <==> CountFrom(old(HitsOf(ip)), low) < limit)
              && |HitsOf(ip)| == CountFrom(HitsOf(ip), low)
                              == CountFrom(old(HitsOf(ip)), low) + if allowed then 1 else 0
    {
      RecentKeepsFrom(HitsOf(ip), now, now - 59_999);
      CountFromConcat(Recent(HitsOf(ip), now), [now], now - 59_999);
      var window := if ip in hits then hits[ip] else [];
      var kept := Recent(window, now);
      if |kept| >= limit {
        hits := hits[ip := kept];
        return false;
      }
      hits := hits[ip := kept + [now]];
      return true;
    }
  }

  // ---------------------------------------------------------------------------------------
  // Runs
  // ---------------------------------------------------------------------------------------

  // A run is the sequence `rs` of clock readings of one address's POSTs, in the order in which they
  // took the lock; `CheckPost` says that the addresses do not affect each other.

  /** The stored window after the first `n` POSTs. */
  ghost function Kept(limit: nat, rs: seq<nat>, n: nat): seq<nat>
    requires n <= |rs|
  {
    if n == 0 then [] else Admit(limit, Kept(limit, rs, n - 1), rs[n - 1]).0
  }

  ghost predicate Allowed(limit: nat, rs: seq<nat>, i: nat)
    requires i < |rs|
  {
    Admit(limit, Kept(limit, rs, i), rs[i]).1
  }

  /** The readings of those of the first `n` POSTs that were let through. */
  ghost function AllowedTimes(limit: nat, rs: seq<nat>, n: nat): seq<nat>
    requires n <= |rs|
  {
    if n == 0 then []
    else if Allowed(limit, rs, n - 1) then AllowedTimes(limit, rs, n - 1) + [rs[n - 1]]
    else AllowedTimes(limit, rs, n - 1)
  }

  /** No reading is more than `skew` behind an earlier one. */
  ghost predicate SkewAtMost(rs: seq<nat>, skew: nat) {
    forall i, j :: 0 <= i < j < |rs| ==> rs[i] <= rs[j] + skew
  }

  /** How many of the times lie in `[low, high)`. */
  ghost function CountIn(times: seq<nat>, low: int, high: int): nat {
    if times == [] then 0
    else CountIn(times[..|times| - 1], low, high) + if low <= times[|times| - 1] < high then 1 else 0
  }

  /** How many of the times are `low` or later. */
  ghost function CountFrom(times: seq<nat>, low: int): nat {
    if times == [] then 0
    else CountFrom(times[..|times| - 1], low) + if low <= times[|times| - 1] then 1 else 0
  }

  lemma {:induction false} CountFromConcat(a: seq<nat>, b: seq<nat>, low: int)
    ensures CountFrom(a + b, low) == CountFrom(a, low) + CountFrom(b, low)
  {
    if b == [] {
      assert a + b == a;
    } else {
      CountFromConcat(a, b[..|b| - 1], low);
      assert (a + b)[..|a + b| - 1] == a + b[..|b| - 1];
    }
  }

  lemma {:induction false} CountInBelowCountFrom(times: seq<nat>, low: int, high: int)
    ensures CountIn(times, low, high) <= CountFrom(times, low) <= |times|
  {
    if times != [] {
      CountInBelowCountFrom(times[..|times| - 1], low, high);
    }
  }

  lemma {:induction false} CountFromFalls(times: seq<nat>, low: int, higher: int)
    requires low <= higher
    ensures CountFrom(times, higher) <= CountFrom(times, low)
  {
    if times != [] {
      CountFromFalls(times[..|times| - 1], low, higher);
    }
  }

  /** A reading that is less than a minute past `low` drops nothing from `low` on. */
  lemma {:induction false} RecentKeepsFrom(hits: seq<nat>, now: nat, low: int)
    ensures now < low + WINDOW_MS ==> CountFrom(Recent(hits, now), low) == CountFrom(hits, low)
    ensures CountFrom(Recent(hits, now), low) <= CountFrom(hits, low)
    ensures CountFrom(Recent(hits, now), now - WINDOW_MS + 1) == |Recent(hits, now)|
  {
    if hits != [] {
      RecentKeepsFrom(hits[1..], now, low);
      assert hits == [hits[0]] + hits[1..];
      CountFromConcat([hits[0]], hits[1..], low);
      CountFromConcat([hits[0]], Recent(hits[1..], now), low);
      CountFromConcat([hits[0]], Recent(hits[1..], now), now - WINDOW_MS + 1);
    }
  }

  /** What POST `n` does to the stored window and to the allowed times, counted from `low` on. */
  lemma NextPost(limit: nat, rs: seq<nat>, n: nat, low: int)
    requires n < |rs|
    ensures var kept := Recent(Kept(limit, rs, n), rs[n]);
            var added := if Allowed(limit, rs, n) && low <= rs[n] then 1 else 0;
            && Allowed(limit, rs, n) == (|kept| < limit)
            && |Kept(limit, rs, n + 1)| == |kept| + (if Allowed(limit, rs, n) then 1 else 0)
            && CountFrom(Kept(limit, rs, n + 1), low) == CountFrom(kept, low) + added
            && CountFrom(AllowedTimes(limit, rs, n + 1), low) == CountFrom(AllowedTimes(limit, rs, n), low) + added
  {
    var kept := Recent(Kept(limit, rs, n), rs[n]);
    CountFromConcat(kept, [rs[n]], low);
    CountFromConcat(AllowedTimes(limit, rs, n), [rs[n]], low);
  }

  /**
   * The stored window holds at most `limit` hits, all of them let through, and all from `low` on if no
   * reading was a minute past `low`.
   */
  ghost predicate Agrees(limit: nat, rs: seq<nat>, n: nat, low: int)
    requires n <= |rs|
  {
    var (kept, allowed) := (CountFrom(Kept(limit, rs, n), low), CountFrom(AllowedTimes(limit, rs, n), low));
    && |Kept(limit, rs, n)| <= limit
    && kept <= allowed
    && ((forall i :: 0 <= i < n ==> rs[i] < low + WINDOW_MS) ==> kept == allowed)
  }

  lemma AgreesAtStart(limit: nat, rs: seq<nat>, low: int)
    ensures Agrees(limit, rs, 0, low)
  {
  }

  lemma AgreesNext(limit: nat, rs: seq<nat>, n: nat, low: int)
    requires n < |rs| && Agrees(limit, rs, n, low)
    ensures Agrees(limit, rs, n + 1, low)
  {
    NextPost(limit, rs, n, low);
    RecentKeepsFrom(Kept(limit, rs, n), rs[n], low);
  }

  lemma {:induction false} WindowAgreesWithHistory(limit: nat, rs: seq<nat>, n: nat, low: int)
    requires n <= |rs|
    ensures Agrees(limit, rs, n, low)
  {
    if n == 0 {
      AgreesAtStart(limit, rs, low);
    } else {
      WindowAgreesWithHistory(limit, rs, n - 1, low);
      AgreesNext(limit, rs, n - 1, low);
    }
  }

  /** When a POST is let through, fewer than `limit` others were in the minute (less `skew`) up to it. */
  lemma FewBeforeAllowed(limit: nat, rs: seq<nat>, n: nat, skew: nat)
    requires n < |rs| && SkewAtMost(rs, skew) && Allowed(limit, rs, n)
    ensures CountFrom(AllowedTimes(limit, rs, n), rs[n] - WINDOW_MS + skew + 1) < limit
  {
    var low := rs[n] - WINDOW_MS + skew + 1;
    var kept := Kept(limit, rs, n);
    WindowAgreesWithHistory(limit, rs, n, low);
    RecentKeepsFrom(kept, rs[n], low);
    CountInBelowCountFrom(Recent(kept, rs[n]), low, 0);
  }

  /**
   * If no reading is more than `skew` behind an earlier one, every window shorter than a minute by
   * `skew` contains at most `limit` allowed POSTs.
   */
  lemma {:induction false} WindowsAreLimited(limit: nat, rs: seq<nat>, n: nat, skew: nat, from: int)
    requires n <= |rs| && SkewAtMost(rs, skew)
    ensures CountIn(AllowedTimes(limit, rs, n), from, from + 60_000 - skew) <= limit
  {
    if n > 0 {
      WindowsAreLimited(limit, rs, n - 1, skew, from);
      if Allowed(limit, rs, n - 1) {
        AllowedStaysLimited(limit, rs, n - 1, skew, from);
      }
    }
  }

  lemma AllowedStaysLimited(limit: nat, rs: seq<nat>, n: nat, skew: nat, from: int)
    requires n < |rs| && SkewAtMost(rs, skew) && Allowed(limit, rs, n)
    requires CountIn(AllowedTimes(limit, rs, n), from, from + WINDOW_MS - skew) <= limit
    ensures CountIn(AllowedTimes(limit, rs, n) + [rs[n]], from, from + WINDOW_MS - skew) <= limit
  {
    var times, now := AllowedTimes(limit, rs, n), rs[n];
    CountOneMore(times, now, from, from + WINDOW_MS - skew);
    FewBeforeAllowed(limit, rs, n, skew);
    CountInBelowCountFrom(times, from, from + WINDOW_MS - skew);
    if from <= now < from + WINDOW_MS - skew {
      CountFromFalls(times, now - WINDOW_MS + skew + 1, from);
    }
  }

  /**
   * With nondecreasing readings a POST is turned away exactly when `limit` POSTs were allowed in the
   * 60 seconds up to it.
   */
  lemma DeniedIffLimitReached(limit: nat, rs: seq<nat>, i: nat)
    requires i < |rs| && SkewAtMost(rs, 0)
    ensures var recent := CountFrom(AllowedTimes(limit, rs, i), rs[i] as int - 59_999);
            recent <= limit && (!Allowed(limit, rs, i) <==> recent == limit)
  {
    hide Kept, AllowedTimes, CountFrom, Recent;
    var low := rs[i] - WINDOW_MS + 1;
    WindowAgreesWithHistory(limit, rs, i, low);
    RecentKeepsFrom(Kept(limit, rs, i), rs[i], low);
  }

  // When is the promise "at most `limit` in every 60 seconds" kept?

  ghost predicate MinuteOk(limit: nat, rs: seq<nat>, from: int) {
    CountIn(AllowedTimes(limit, rs, |rs|), from, from + 60_000) <= limit
  }

  ghost predicate KeepsPromise(limit: nat, rs: seq<nat>) {
    forall from: int :: MinuteOk(limit, rs, from)
  }

  ghost predicate Spaced(times: seq<nat>) {
    forall p, q :: 0 <= p < q < |times| ==> times[p] + WINDOW_MS <= times[q]
  }

  function LastOnly(times: seq<nat>): seq<nat> {
    if times == [] then [] else [times[|times| - 1]]
  }

  /** With a limit of one, allowed readings are always a minute apart, in whatever order readings arrive. */
  lemma {:induction false} LimitOneIsSpaced(rs: seq<nat>, n: nat)
    requires n <= |rs|
    ensures Spaced(AllowedTimes(1, rs, n)) && Kept(1, rs, n) == LastOnly(AllowedTimes(1, rs, n))
  {
    if n == 0 {
      NothingIsSpaced();
    } else {
      LimitOneIsSpaced(rs, n - 1);
      SpacedNext(AllowedTimes(1, rs, n - 1), rs[n - 1]);
    }
  }

  lemma NothingIsSpaced()
    ensures Spaced([]) && LastOnly([]) == []
  {
  }

  lemma SpacedNext(times: seq<nat>, now: nat)
    requires Spaced(times)
    ensures var (kept, allowed) := Admit(1, LastOnly(times), now);
            var next := if allowed then times + [now] else times;
            Spaced(next) && kept == LastOnly(next)
  {
  }

  lemma {:induction false} SpacedTimesShareNoWindow(times: seq<nat>, from: int)
    requires Spaced(times)
    ensures CountIn(times, from, from + WINDOW_MS) <= 1
    ensures (forall p :: 0 <= p < |times| ==> !(from <= times[p] < from + WINDOW_MS))
            ==> CountIn(times, from, from + WINDOW_MS) == 0
  {
    if times != [] {
      SpacedTimesShareNoWindow(times[..|times| - 1], from);
    }
  }

  lemma PromiseKept(limit: nat, skew: nat, rs: seq<nat>)
    requires limit == 1 || skew == 0
    requires SkewAtMost(rs, skew)
    ensures KeepsPromise(limit, rs)
  {
    forall from: int ensures MinuteOk(limit, rs, from) {
      if limit == 1 {
        LimitOneIsSpaced(rs, |rs|);
        SpacedTimesShareNoWindow(AllowedTimes(1, rs, |rs|), from);
      } else {
        WindowsAreLimited(limit, rs, |rs|, 0, from);
      }
    }
  }

  /** A burst of `limit` POSTs at time 0, a POST a minute later, and one that was read a millisecond earlier. */
  function LateReading(limit: nat): seq<nat> {
    seq(limit, _ => 0) + [WINDOW_MS, WINDOW_MS - 1]
  }

  lemma {:induction false} RecentOfZeros(hits: seq<nat>)
    requires forall k :: 0 <= k < |hits| ==> hits[k] == 0
    ensures Recent(hits, 0) == hits && Recent(hits, WINDOW_MS) == []
  {
    if hits != [] {
      RecentOfZeros(hits[1..]);
    }
  }

  lemma {:induction false} BurstIsAllowed(limit: nat, n: nat)
    requires n <= limit
    ensures var rs := LateReading(limit);
            Kept(limit, rs, n) == AllowedTimes(limit, rs, n) == seq(n, _ => 0)
  {
    if n > 0 {
      BurstIsAllowed(limit, n - 1);
      var zeros := seq(n - 1, _ => 0);
      RecentOfZeros(zeros);
    }
  }

  lemma {:induction false} CountZeros(n: nat)
    ensures CountIn(seq(n, _ => 0), 0, WINDOW_MS) == n
  {
    if n > 0 {
      CountZeros(n - 1);
      assert seq(n, _ => 0) == seq(n - 1, _ => 0) + [0];
      CountOneMore(seq(n - 1, _ => 0), 0, 0, WINDOW_MS);
    }
  }

  /** The two POSTs after the burst: the first empties the window, the second finds it nearly empty. */
  lemma LateReadingRun(limit: nat)
    requires limit >= 2
    ensures var rs := LateReading(limit);
            AllowedTimes(limit, rs, limit + 2) == (AllowedTimes(limit, rs, limit) + [WINDOW_MS]) + [WINDOW_MS - 1]
  {
    var rs := LateReading(limit);
    BurstIsAllowed(limit, limit);
    RecentOfZeros(Kept(limit, rs, limit));
  }

  lemma CountOneMore(times: seq<nat>, t: nat, low: int, high: int)
    ensures CountIn(times + [t], low, high) == CountIn(times, low, high) + if low <= t < high then 1 else 0
  {
  }

  /** One late reading lets `limit + 1` POSTs through within one minute, once the limit is above one. */
  lemma LateReadingBreaksPromise(limit: nat)
    requires limit >= 2
    ensures SkewAtMost(LateReading(limit), 1) && !KeepsPromise(limit, LateReading(limit))
  {
    hide AllowedTimes, CountIn, KeepsPromise;
    var rs := LateReading(limit);
    BurstIsAllowed(limit, limit);
    CountZeros(limit);
    LateReadingRun(limit);
    var zeros := AllowedTimes(limit, rs, limit);
    CountOneMore(zeros, WINDOW_MS, 0, WINDOW_MS);
    CountOneMore(zeros + [WINDOW_MS], WINDOW_MS - 1, 0, WINDOW_MS);
    BrokenMinute(limit, rs, 0);
  }

  lemma BrokenMinute(limit: nat, rs: seq<nat>, from: int)
    requires CountIn(AllowedTimes(limit, rs, |rs|), from, from + WINDOW_MS) > limit
    ensures !KeepsPromise(limit, rs)
  {
    assert !MinuteOk(limit, rs, from);
  }

  /**
   * "At most `limit` POSTs in every 60 seconds" is not kept in general.  It is kept in all runs whose
   * readings are at most `skew` out of order if and only if they are in order or the limit is one.
   */
  lemma PromiseKeptIffReadingsInOrder(limit: nat, skew: nat)
    requires limit > 0
    ensures (forall rs :: SkewAtMost(rs, skew) ==> KeepsPromise(limit, rs)) <==> limit == 1 || skew == 0
  {
    if limit == 1 || skew == 0 {
      forall rs | SkewAtMost(rs, skew) ensures KeepsPromise(limit, rs) {
        PromiseKept(limit, skew, rs);
      }
    } else {
      LateReadingBreaksPromise(limit);
    }
  }
}
