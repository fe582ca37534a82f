// crates/oracle/src/middleware.rs: the fixed-window rate limiter and its clean-up.
module RateLimiter {
  import opened Prelude

  const NANOS_PER_SEC: nat := 1_000_000_000

  // A key's request count and the start of its window; times are nanoseconds.
  datatype Entry = Entry(count: nat, start: nat)

  type Requests = map<string, Entry>

  datatype Answer = Answer(allowed: bool, remaining: nat, resetAfterSecs: nat)

  // What one check does to the entry of its key.
  function CheckEntry(limit: nat, window: nat, previous: Option<Entry>, now: nat): (Answer, Entry)
  {
    var e := if previous.Some? then previous.value else Entry(0, now);
    var e := if SaturatingSub(now, e.start) >= window then Entry(0, now) else e;
    var reset := SaturatingSub(window, SaturatingSub(now, e.start)) / NANOS_PER_SEC;
    if e.count >= limit then (Answer(false, 0, reset), e)
    else (Answer(true, SaturatingSub(limit, e.count) - 1, reset), e.(count := e.count + 1))
  }

  function Lookup(m: Requests, key: string): Option<Entry>
  {
    if key in m then Some(m[key]) else None
  }

  class Limiter {
    var requests: Requests
    const limit: nat
    const window: nat

    constructor (requestsPerMinute: nat)
      requires requestsPerMinute <= U32_MAX
      ensures requests == map[] && limit == requestsPerMinute && window == 60_000_000_000
    {
      requests := map[];
      limit := requestsPerMinute;
      window := 60 * NANOS_PER_SEC;
    }

    method Check(key: string, now: nat) returns (answer: Answer)
      modifies this`requests
      ensures answer == CheckEntry(limit, window, Lookup(old(requests), key), now).0
      ensures requests == old(requests)[key := CheckEntry(limit, window, Lookup(old(requests), key), now).1]
    {
      if key !in requests {
        requests := requests[key := Entry(0, now)];
      }
      if SaturatingSub(now, requests[key].start) >= window {
        requests := requests[key := Entry(0, now)];
      }
      var Entry(count, start) := requests[key];
      var remaining := SaturatingSub(limit, count);
      var resetAfter := SaturatingSub(window, SaturatingSub(now, start)) / NANOS_PER_SEC;
      if count >= limit {
        return Answer(false, 0, resetAfter);
      }
      requests := requests[key := Entry(count + 1, start)];
      answer := Answer(true, remaining - 1, resetAfter);
    }

    method Cleanup(now: nat)
      modifies this`requests
      ensures requests == CleanUp(window, old(requests), now)
    {
      requests := map k | k in requests && SaturatingSub(now, requests[k].start) < window * 2 :: requests[k];
    }
  }

  function CleanUp(window: nat, m: Requests, now: nat): Requests
  {
    map k | k in m && SaturatingSub(now, m[k].start) < window * 2 :: m[k]
  }

  // Clean-up keeps exactly the entries whose window began less than two windows ago.
  lemma CleanUpKeepsTwoWindows(window: nat, m: Requests, now: nat, key: string)
    requires 0 < window
    ensures key in CleanUp(window, m, now) <==> key in m && now < m[key].start + 2 * window
    ensures key in CleanUp(window, m, now) ==> CleanUp(window, m, now)[key] == m[key]
  {
  }

  // ----- Runs -----

  // Calls in the order in which they take the lock.
  datatype Call = Check(key: string, now: nat) | Cleanup(now: nat)

  // The map after n calls; without cleaning, clean-ups do nothing.
  function MapAt(limit: nat, window: nat, cleaning: bool, calls: seq<Call>, n: nat): Requests
    requires n <= |calls|
  {
    if n == 0 then map[]
    else
      var m := MapAt(limit, window, cleaning, calls, n - 1);
      match calls[n - 1]
      case Check(key, now) => m[key := CheckEntry(limit, window, Lookup(m, key), now).1]
      case Cleanup(now) => if cleaning then CleanUp(window, m, now) else m
  }

  function AnswerAt(limit: nat, window: nat, cleaning: bool, calls: seq<Call>, i: nat): Answer
    requires i < |calls| && calls[i].Check?
  {
    CheckEntry(limit, window, Lookup(MapAt(limit, window, cleaning, calls, i), calls[i].key), calls[i].now).0
  }

  // ----- Clean-up is invisible -----

  // The clock is read before the lock is taken. No check reads a clock that lags an
  // earlier clean-up by more than this.
  ghost predicate ChecksLagAtMost(lag: nat, calls: seq<Call>)
  {
    forall i, j | 0 <= i < j < |calls| && calls[i].Cleanup? && calls[j].Check? ::
      calls[i].now <= calls[j].now + lag
  }

  // Where the cleaned map lacks an entry, every check to come would have reset it anyway.
  ghost predicate Simulates(window: nat, calls: seq<Call>, n: nat, cleaned: Requests, full: Requests)
    requires n <= |calls|
  {
    && (forall k | k in cleaned :: k in full && full[k] == cleaned[k])
    && (forall k, j | k in full && k !in cleaned && n <= j < |calls| && calls[j].Check? ::
          full[k].start + window <= calls[j].now)
  }

  lemma {:induction false} CleanedMapSimulatesFullMap(limit: nat, window: nat, calls: seq<Call>, n: nat)
    requires n <= |calls| && 0 < window && ChecksLagAtMost(window, calls)
    ensures Simulates(window, calls, n, MapAt(limit, window, true, calls, n), MapAt(limit, window, false, calls, n))
  {
    if n > 0 {
      CleanedMapSimulatesFullMap(limit, window, calls, n - 1);
      var cleaned, full := MapAt(limit, window, true, calls, n - 1), MapAt(limit, window, false, calls, n - 1);
      if calls[n - 1].Check? {
        var key, now := calls[n - 1].key, calls[n - 1].now;
        assert CheckEntry(limit, window, Lookup(cleaned, key), now) == CheckEntry(limit, window, Lookup(full, key), now);
      }
    }
  }

  // Every check gets the answer it would get had no clean-up ever run.
  lemma CleanupIsInvisible(limit: nat, window: nat, calls: seq<Call>, i: nat)
    requires i < |calls| && calls[i].Check? && 0 < window && ChecksLagAtMost(window, calls)
    ensures AnswerAt(limit, window, true, calls, i) == AnswerAt(limit, window, false, calls, i)
  {
    CleanedMapSimulatesFullMap(limit, window, calls, i);
  }

  // A run whose last check lags its clean-up by exactly lag.
  function LaggingRun(window: nat, lag: nat): seq<Call>
  {
    var swept := if lag < 2 * window then 2 * window else lag;
    [Check("k", 0), Cleanup(swept), Check("k", swept - lag)]
  }

  // Beyond one window the clean-up shows: it drops an entry whose window the lagging
  // check still falls into.
  lemma LongLagShows(limit: nat, window: nat, lag: nat)
    requires 0 < limit && 0 < window < lag
    ensures ChecksLagAtMost(lag, LaggingRun(window, lag))
    ensures AnswerAt(limit, window, true, LaggingRun(window, lag), 2) != AnswerAt(limit, window, false, LaggingRun(window, lag), 2)
  {
    var calls := LaggingRun(window, lag);
    assert MapAt(limit, window, true, calls, 1) == map["k" := Entry(1, 0)] == MapAt(limit, window, false, calls, 1);
    assert MapAt(limit, window, true, calls, 2) == map[];
    assert MapAt(limit, window, false, calls, 2) == map["k" := Entry(1, 0)];
  }

  ghost predicate InvisibleIn(limit: nat, window: nat, calls: seq<Call>)
  {
    forall i | 0 <= i < |calls| && calls[i].Check? ::
      AnswerAt(limit, window, true, calls, i) == AnswerAt(limit, window, false, calls, i)
  }

  // Exactly how much lag clean-ups tolerate: one window.
  lemma CleanupIsInvisibleIff(limit: nat, window: nat, lag: nat)
    requires 0 < limit && 0 < window
    ensures (forall calls: seq<Call> | ChecksLagAtMost(lag, calls) :: InvisibleIn(limit, window, calls)) <==> lag <= window
  {
    if lag <= window {
      forall calls: seq<Call> | ChecksLagAtMost(lag, calls) ensures InvisibleIn(limit, window, calls) {
        forall i | 0 <= i < |calls| && calls[i].Check?
          ensures AnswerAt(limit, window, true, calls, i) == AnswerAt(limit, window, false, calls, i)
        {
          CleanupIsInvisible(limit, window, calls, i);
        }
      }
    } else {
      LongLagShows(limit, window, lag);
      assert !InvisibleIn(limit, window, LaggingRun(window, lag));
    }
  }

  // ----- How many requests pass -----

  ghost predicate ClockNeverStepsBack(calls: seq<Call>)
  {
    forall i, j | 0 <= i < j < |calls| :: calls[i].now <= calls[j].now
  }

  predicate Allowed(limit: nat, window: nat, cleaning: bool, calls: seq<Call>, i: nat, key: string)
    requires i < |calls|
  {
    calls[i].Check? && calls[i].key == key && AnswerAt(limit, window, cleaning, calls, i).allowed
  }

  // How many of the first n calls let the key pass at time lo or later.
  function CountFrom(limit: nat, window: nat, cleaning: bool, calls: seq<Call>, n: nat, key: string, lo: nat): nat
    requires n <= |calls|
  {
    if n == 0 then 0
    else
      CountFrom(limit, window, cleaning, calls, n - 1, key, lo)
      + if Allowed(limit, window, cleaning, calls, n - 1, key) && lo <= calls[n - 1].now then 1 else 0
  }

  lemma {:induction false} CountFromIsMonotone(
      limit: nat, window: nat, cleaning: bool, calls: seq<Call>, n: nat, key: string, lo: nat, hi: nat)
    requires n <= |calls| && lo <= hi
    ensures CountFrom(limit, window, cleaning, calls, n, key, hi) <= CountFrom(limit, window, cleaning, calls, n, key, lo)
  {
    if n > 0 {
      CountFromIsMonotone(limit, window, cleaning, calls, n - 1, key, lo, hi);
    }
  }

  lemma {:induction false} NoneAfterTheLast(
      limit: nat, window: nat, cleaning: bool, calls: seq<Call>, n: nat, key: string, lo: nat)
    requires n <= |calls| && forall i | 0 <= i < n :: calls[i].now < lo
    ensures CountFrom(limit, window, cleaning, calls, n, key, lo) == 0
  {
    if n > 0 {
      NoneAfterTheLast(limit, window, cleaning, calls, n - 1, key, lo);
    }
  }

  lemma {:induction false} CleaningDoesNotChangeCounts(
      limit: nat, window: nat, calls: seq<Call>, n: nat, key: string, lo: nat)
    requires n <= |calls| && 0 < window && ChecksLagAtMost(window, calls)
    ensures CountFrom(limit, window, true, calls, n, key, lo) == CountFrom(limit, window, false, calls, n, key, lo)
  {
    if n > 0 {
      CleaningDoesNotChangeCounts(limit, window, calls, n - 1, key, lo);
      if calls[n - 1].Check? {
        CleanupIsInvisible(limit, window, calls, n - 1);
      }
    }
  }

  function SlidingBound(limit: nat): nat
  {
    if limit == 0 then 0 else 2 * limit - 1
  }

  // The requests a key passed at lo or later, counted without clean-ups.
  function Passed(limit: nat, window: nat, calls: seq<Call>, n: nat, key: string, lo: nat): nat
    requires n <= |calls|
  {
    CountFrom(limit, window, false, calls, n, key, lo)
  }

  function EntryAt(limit: nat, window: nat, calls: seq<Call>, n: nat, key: string): Option<Entry>
    requires n <= |calls|
  {
    Lookup(MapAt(limit, window, false, calls, n), key)
  }

  // At most SlidingBound requests pass in [lo, lo + window).
  ghost predicate Slides(limit: nat, window: nat, calls: seq<Call>, n: nat, key: string, lo: nat)
    requires n <= |calls|
  {
    Passed(limit, window, calls, n, key, lo) <= Passed(limit, window, calls, n, key, lo + window) + SlidingBound(limit)
  }

  // Less than a window before the start of the present window, all but one of the
  // requests that could pass belong to the window before it.
  ghost predicate NearStart(limit: nat, window: nat, calls: seq<Call>, n: nat, key: string, e: Entry, lo: nat)
    requires n <= |calls|
  {
    lo <= e.start < lo + window ==> Passed(limit, window, calls, n, key, lo) <= e.count + SaturatingSub(limit, 1)
  }

  // What the entry of a key says about the requests it let pass.
  ghost predicate Tallies(limit: nat, window: nat, calls: seq<Call>, n: nat, key: string)
    requires n <= |calls|
  {
    match EntryAt(limit, window, calls, n, key)
    case None => forall lo: nat :: Passed(limit, window, calls, n, key, lo) == 0
    case Some(e) =>
      && Passed(limit, window, calls, n, key, e.start) == e.count <= limit
      && Passed(limit, window, calls, n, key, e.start + window) == 0
      && (limit > 0 ==> Passed(limit, window, calls, n, key, e.start + 1) < e.count)
      && (limit == 0 ==> forall lo: nat :: Passed(limit, window, calls, n, key, lo) == 0)
      && (forall lo: nat :: NearStart(limit, window, calls, n, key, e, lo))
      && (forall lo: nat :: Slides(limit, window, calls, n, key, lo))
      && exists i | 0 <= i < n :: e.start == calls[i].now
  }

  // A check that is let through adds one to every count that reaches back to it.
  lemma PassedStep(limit: nat, window: nat, calls: seq<Call>, n: nat, key: string, lo: nat)
    requires n < |calls|
    ensures Passed(limit, window, calls, n + 1, key, lo)
      == Passed(limit, window, calls, n, key, lo)
         + if Allowed(limit, window, false, calls, n, key) && lo <= calls[n].now then 1 else 0
  {
  }

  // A check of this key that is let through, and leaves the entry e'.
  ghost predicate LetsThrough(limit: nat, window: nat, calls: seq<Call>, n: nat, key: string, e: Entry, e': Entry)
    requires n < |calls|
  {
    && Allowed(limit, window, false, calls, n, key)
    && EntryAt(limit, window, calls, n, key) == Some(e)
    && EntryAt(limit, window, calls, n + 1, key) == Some(e')
    && Tallies(limit, window, calls, n, key)
    && ClockNeverStepsBack(calls) && 0 < window
  }

  lemma EntryAfterLetThrough(limit: nat, window: nat, calls: seq<Call>, n: nat, key: string, e: Entry, e': Entry)
    requires n < |calls| && LetsThrough(limit, window, calls, n, key, e, e')
    ensures e.start <= calls[n].now && e.count <= limit && 0 < limit
    ensures if calls[n].now < e.start + window then e' == Entry(e.count + 1, e.start) else e' == Entry(1, calls[n].now)
    ensures e'.count <= limit && e'.start <= calls[n].now < e'.start + window
  {
  }

  lemma NearStartStep(limit: nat, window: nat, calls: seq<Call>, n: nat, key: string, e: Entry, e': Entry, lo: nat)
    requires n < |calls| && LetsThrough(limit, window, calls, n, key, e, e')
    ensures NearStart(limit, window, calls, n + 1, key, e', lo)
  {
    EntryAfterLetThrough(limit, window, calls, n, key, e, e');
    PassedStep(limit, window, calls, n, key, lo);
    assert NearStart(limit, window, calls, n, key, e, lo);
    if e.start < lo {
      CountFromIsMonotone(limit, window, false, calls, n, key, e.start + 1, lo);
    }
  }

  lemma SlidesStep(limit: nat, window: nat, calls: seq<Call>, n: nat, key: string, e: Entry, e': Entry, lo: nat)
    requires n < |calls| && LetsThrough(limit, window, calls, n, key, e, e')
    ensures Slides(limit, window, calls, n + 1, key, lo)
  {
    EntryAfterLetThrough(limit, window, calls, n, key, e, e');
    PassedStep(limit, window, calls, n, key, lo);
    PassedStep(limit, window, calls, n, key, lo + window);
    assert Slides(limit, window, calls, n, key, lo);
    NearStartStep(limit, window, calls, n, key, e, e', lo);
    if e'.start < lo {
      if e'.start == e.start {
        CountFromIsMonotone(limit, window, false, calls, n, key, e.start, lo);
      } else {
        CountFromIsMonotone(limit, window, false, calls, n, key, e.start + window, lo);
      }
    }
  }

  lemma TalliesLetThrough(limit: nat, window: nat, calls: seq<Call>, n: nat, key: string, e: Entry, e': Entry)
    requires n < |calls| && LetsThrough(limit, window, calls, n, key, e, e')
    ensures Tallies(limit, window, calls, n + 1, key)
  {
    var now, m := calls[n].now, n + 1;
    EntryAfterLetThrough(limit, window, calls, n, key, e, e');
    forall lo: nat ensures NearStart(limit, window, calls, m, key, e', lo) && Slides(limit, window, calls, m, key, lo) {
      NearStartStep(limit, window, calls, n, key, e, e', lo);
      SlidesStep(limit, window, calls, n, key, e, e', lo);
    }
    PassedStep(limit, window, calls, n, key, e'.start);
    PassedStep(limit, window, calls, n, key, e'.start + 1);
    PassedStep(limit, window, calls, n, key, e'.start + window);
    if e'.start != e.start {
      CountFromIsMonotone(limit, window, false, calls, n, key, e.start + window, now);
      CountFromIsMonotone(limit, window, false, calls, n, key, e.start + window, now + 1);
      CountFromIsMonotone(limit, window, false, calls, n, key, e.start + window, now + window);
    }
  }

  lemma RefusedEntry(limit: nat, window: nat, calls: seq<Call>, n: nat, key: string, e: Entry) returns (e': Entry)
    requires n < |calls| && !Allowed(limit, window, false, calls, n, key)
    requires EntryAt(limit, window, calls, n, key) == Some(e)
    ensures EntryAt(limit, window, calls, n + 1, key) == Some(e')
    ensures e' == e || (limit == 0 && e' == Entry(0, calls[n].now))
  {
    e' := EntryAt(limit, window, calls, n + 1, key).value;
  }

  lemma TalliesRefused(limit: nat, window: nat, calls: seq<Call>, n: nat, key: string, e: Entry)
    requires n < |calls| && !Allowed(limit, window, false, calls, n, key)
    requires EntryAt(limit, window, calls, n, key) == Some(e) && Tallies(limit, window, calls, n, key)
    ensures Tallies(limit, window, calls, n + 1, key)
  {
    var m := n + 1;
    var e' := RefusedEntry(limit, window, calls, n, key, e);
    hide EntryAt, Allowed, CountFrom;
    forall lo: nat ensures Passed(limit, window, calls, m, key, lo) == Passed(limit, window, calls, n, key, lo) {
      PassedStep(limit, window, calls, n, key, lo);
    }
    hide Passed;
    forall lo: nat ensures NearStart(limit, window, calls, m, key, e', lo) && Slides(limit, window, calls, m, key, lo) {
      assert NearStart(limit, window, calls, n, key, e, lo) && Slides(limit, window, calls, n, key, lo);
    }
  }

  lemma TalliesOpened(limit: nat, window: nat, calls: seq<Call>, n: nat, key: string)
    requires n < |calls| && 0 < window && ClockNeverStepsBack(calls)
    requires EntryAt(limit, window, calls, n, key).None? && Tallies(limit, window, calls, n, key)
    ensures Tallies(limit, window, calls, n + 1, key)
  {
    var m := n + 1;
    forall lo: nat ensures Passed(limit, window, calls, m, key, lo)
      == if Allowed(limit, window, false, calls, n, key) && lo <= calls[n].now then 1 else 0
    {
      PassedStep(limit, window, calls, n, key, lo);
      assert Passed(limit, window, calls, n, key, lo) == 0;
    }
  }

  lemma TalliesStep(limit: nat, window: nat, calls: seq<Call>, n: nat, key: string)
    requires n < |calls| && 0 < window && ClockNeverStepsBack(calls)
    requires Tallies(limit, window, calls, n, key)
    ensures Tallies(limit, window, calls, n + 1, key)
  {
    match EntryAt(limit, window, calls, n, key)
    case None => TalliesOpened(limit, window, calls, n, key);
    case Some(e) =>
      if Allowed(limit, window, false, calls, n, key) {
        TalliesLetThrough(limit, window, calls, n, key, e, EntryAt(limit, window, calls, n + 1, key).value);
      } else {
        TalliesRefused(limit, window, calls, n, key, e);
      }
  }

  lemma {:induction false} TalliesAlongRun(limit: nat, window: nat, calls: seq<Call>, n: nat, key: string)
    requires n <= |calls| && 0 < window && ClockNeverStepsBack(calls)
    ensures Tallies(limit, window, calls, n, key)
  {
    if n > 0 {
      TalliesAlongRun(limit, window, calls, n - 1, key);
      TalliesStep(limit, window, calls, n - 1, key);
    }
  }

  // The start of the window that call i falls into: what the entry of its key records.
  function WindowStart(limit: nat, window: nat, calls: seq<Call>, i: nat): nat
    requires i < |calls| && calls[i].Check?
  {
    MapAt(limit, window, true, calls, i + 1)[calls[i].key].start
  }

  // The requests the first n calls let pass in [start, start + window).
  function TakenIn(limit: nat, window: nat, calls: seq<Call>, n: nat, key: string, start: nat): int
    requires n <= |calls|
  {
    CountFrom(limit, window, true, calls, n, key, start) - CountFrom(limit, window, true, calls, n, key, start + window)
  }

  // From call i on, the entry of the key stays in the window from start or has moved on
  // by at least a whole window, and that window never takes more than the limit.
  ghost predicate WindowClosed(limit: nat, window: nat, calls: seq<Call>, n: nat, key: string, start: nat)
    requires n <= |calls|
  {
    && EntryAt(limit, window, calls, n, key).Some?
    && (var e := EntryAt(limit, window, calls, n, key).value; e.start == start || e.start >= start + window)
    && Passed(limit, window, calls, n, key, start) <= Passed(limit, window, calls, n, key, start + window) + limit
  }

  lemma WindowClosedStep(limit: nat, window: nat, calls: seq<Call>, n: nat, key: string, start: nat)
    requires n < |calls| && 0 < window && 0 < limit && ClockNeverStepsBack(calls)
    requires WindowClosed(limit, window, calls, n, key, start)
    ensures WindowClosed(limit, window, calls, n + 1, key, start)
  {
    var e := EntryAt(limit, window, calls, n, key).value;
    TalliesAlongRun(limit, window, calls, n, key);
    TalliesAlongRun(limit, window, calls, n + 1, key);
    PassedStep(limit, window, calls, n, key, start);
    PassedStep(limit, window, calls, n, key, start + window);
    if Allowed(limit, window, false, calls, n, key) {
      EntryAfterLetThrough(limit, window, calls, n, key, e, EntryAt(limit, window, calls, n + 1, key).value);
    } else {
      var _ := RefusedEntry(limit, window, calls, n, key, e);
    }
  }

  lemma {:induction false} WindowClosedAlongRun(limit: nat, window: nat, calls: seq<Call>, i: nat, n: nat, key: string)
    requires i < n <= |calls| && 0 < window && ClockNeverStepsBack(calls)
    requires Allowed(limit, window, false, calls, i, key)
    ensures WindowClosed(limit, window, calls, n, key, EntryAt(limit, window, calls, i + 1, key).value.start)
  {
    LetThroughInWindow(limit, window, calls, i, key);
    hide Allowed, EntryAt, Passed;
    if i + 1 < n {
      WindowClosedAlongRun(limit, window, calls, i, n - 1, key);
      WindowClosedStep(limit, window, calls, n - 1, key, EntryAt(limit, window, calls, i + 1, key).value.start);
    }
  }

  // After a check its key is in the cleaned map, with the entry of the full one.
  lemma CheckedEntry(limit: nat, window: nat, calls: seq<Call>, i: nat)
    requires i < |calls| && calls[i].Check? && 0 < window && ChecksLagAtMost(window, calls)
    ensures EntryAt(limit, window, calls, i + 1, calls[i].key).Some?
    ensures EntryAt(limit, window, calls, i + 1, calls[i].key).value.start == WindowStart(limit, window, calls, i)
  {
    CleanedMapSimulatesFullMap(limit, window, calls, i + 1);
  }

  // What a request that passes finds, and is told, without clean-ups.
  lemma LetThroughInWindow(limit: nat, window: nat, calls: seq<Call>, i: nat, key: string)
    requires i < |calls| && 0 < window && ClockNeverStepsBack(calls)
    requires Allowed(limit, window, false, calls, i, key)
    ensures EntryAt(limit, window, calls, i + 1, key).Some?
    ensures var start := EntryAt(limit, window, calls, i + 1, key).value.start;
      && start <= calls[i].now < start + window
      && AnswerAt(limit, window, false, calls, i).remaining + Passed(limit, window, calls, i + 1, key, start) == limit
      && Passed(limit, window, calls, i + 1, key, start + window) == 0
  {
    TalliesAlongRun(limit, window, calls, i, key);
    TalliesAlongRun(limit, window, calls, i + 1, key);
    hide CountFrom, Tallies;
    assert Tallies(limit, window, calls, i, key) && Tallies(limit, window, calls, i + 1, key);
    EntryIsTallied(limit, window, calls, i, key);
    EntryIsTallied(limit, window, calls, i + 1, key);
  }

  lemma EntryIsTallied(limit: nat, window: nat, calls: seq<Call>, n: nat, key: string)
    requires n <= |calls| && Tallies(limit, window, calls, n, key)
    ensures var e := EntryAt(limit, window, calls, n, key);
      e.Some? ==>
        && Passed(limit, window, calls, n, key, e.value.start) == e.value.count <= limit
        && Passed(limit, window, calls, n, key, e.value.start + window) == 0
        && exists i | 0 <= i < n :: e.value.start == calls[i].now
  {
    hide EntryAt, CountFrom, NearStart, Slides;
  }

  lemma AllowedWithoutCleaning(limit: nat, window: nat, calls: seq<Call>, i: nat, key: string)
    requires i < |calls| && 0 < window && ClockNeverStepsBack(calls)
    requires Allowed(limit, window, true, calls, i, key)
    ensures Allowed(limit, window, false, calls, i, key)
    ensures AnswerAt(limit, window, true, calls, i) == AnswerAt(limit, window, false, calls, i)
    ensures EntryAt(limit, window, calls, i + 1, key).Some?
    ensures EntryAt(limit, window, calls, i + 1, key).value.start == WindowStart(limit, window, calls, i)
  {
    hide AnswerAt, EntryAt, WindowStart;
    CleanupIsInvisible(limit, window, calls, i);
    CheckedEntry(limit, window, calls, i);
  }

  // Per window: a request that passes lies in the window from its start, which lasts a
  // whole window and takes at most limit requests over the entire run; and it is told
  // exactly how many more that window will take.
  lemma WindowTakesAtMostLimit(limit: nat, window: nat, calls: seq<Call>, i: nat, key: string)
    requires i < |calls| && 0 < window && ClockNeverStepsBack(calls)
    requires Allowed(limit, window, true, calls, i, key)
    ensures var start := WindowStart(limit, window, calls, i);
      && start <= calls[i].now < start + window
      && (forall n | i < n <= |calls| :: TakenIn(limit, window, calls, n, key, start) <= limit)
      && AnswerAt(limit, window, true, calls, i).remaining + TakenIn(limit, window, calls, i + 1, key, start) == limit
  {
    AllowedWithoutCleaning(limit, window, calls, i, key);
    hide Allowed, AnswerAt, EntryAt, TakenIn, WindowStart, Passed;
    var start := WindowStart(limit, window, calls, i);
    LetThroughInWindow(limit, window, calls, i, key);
    TakenWithoutCleaning(limit, window, calls, i + 1, key, start);
    forall n | i < n <= |calls| ensures TakenIn(limit, window, calls, n, key, start) <= limit {
      TakenWithoutCleaning(limit, window, calls, n, key, start);
      WindowClosedAlongRun(limit, window, calls, i, n, key);
    }
  }

  lemma TakenWithoutCleaning(limit: nat, window: nat, calls: seq<Call>, n: nat, key: string, start: nat)
    requires n <= |calls| && 0 < window && ClockNeverStepsBack(calls)
    ensures TakenIn(limit, window, calls, n, key, start)
      == Passed(limit, window, calls, n, key, start) - Passed(limit, window, calls, n, key, start + window)
  {
    CleaningDoesNotChangeCounts(limit, window, calls, n, key, start);
    CleaningDoesNotChangeCounts(limit, window, calls, n, key, start + window);
  }

  // The windows of a key do not overlap: two requests that pass share one, or the later
  // window starts no sooner than the earlier one ends.
  lemma WindowsDoNotOverlap(limit: nat, window: nat, calls: seq<Call>, i: nat, j: nat, key: string)
    requires i < j < |calls| && 0 < window && ClockNeverStepsBack(calls)
    requires Allowed(limit, window, true, calls, i, key) && Allowed(limit, window, true, calls, j, key)
    ensures var s, t := WindowStart(limit, window, calls, i), WindowStart(limit, window, calls, j);
      s == t || s + window <= t
  {
    AllowedWithoutCleaning(limit, window, calls, i, key);
    AllowedWithoutCleaning(limit, window, calls, j, key);
    hide Allowed, EntryAt, WindowStart, Passed;
    WindowClosedAlongRun(limit, window, calls, i, j + 1, key);
  }

  // What every check is told, passed or not: it lies in the window its entry records
  // after it, and the answer is the whole seconds that are left of this window.
  lemma ResetIsSecondsLeft(limit: nat, window: nat, calls: seq<Call>, i: nat)
    requires i < |calls| && calls[i].Check? && 0 < window && ClockNeverStepsBack(calls)
    ensures var start, now := WindowStart(limit, window, calls, i), calls[i].now;
      var reset := AnswerAt(limit, window, true, calls, i).resetAfterSecs;
      && start <= now < start + window
      && reset * 1_000_000_000 <= start + window - now < (reset + 1) * 1_000_000_000
  {
    CleanupIsInvisible(limit, window, calls, i);
    CheckedEntry(limit, window, calls, i);
    TalliesAlongRun(limit, window, calls, i, calls[i].key);
    hide Tallies, WindowStart, CountFrom;
    var e := EntryAt(limit, window, calls, i, calls[i].key);
    EntryIsTallied(limit, window, calls, i, calls[i].key);
    CheckedWindow(limit, window, e, calls[i].now);
    assert EntryAt(limit, window, calls, i + 1, calls[i].key) == Some(CheckEntry(limit, window, e, calls[i].now).1);
    hide CheckEntry, MapAt;
  }

  lemma CheckedWindow(limit: nat, window: nat, previous: Option<Entry>, now: nat)
    requires 0 < window && (previous.Some? ==> previous.value.start <= now)
    ensures var r := CheckEntry(limit, window, previous, now);
      && r.1.start <= now < r.1.start + window
      && r.0.resetAfterSecs * 1_000_000_000 <= r.1.start + window - now < (r.0.resetAfterSecs + 1) * 1_000_000_000
  {
  }

  // A check is refused only when its window has already taken the whole limit.
  lemma RefusedOnlyWhenFull(limit: nat, window: nat, calls: seq<Call>, i: nat)
    requires i < |calls| && calls[i].Check? && 0 < window && ClockNeverStepsBack(calls)
    requires !AnswerAt(limit, window, true, calls, i).allowed
    ensures var start := WindowStart(limit, window, calls, i);
      && start <= calls[i].now < start + window
      && TakenIn(limit, window, calls, i, calls[i].key, start) == limit
      && AnswerAt(limit, window, true, calls, i).remaining == 0
  {
    var key, start := calls[i].key, WindowStart(limit, window, calls, i);
    ResetIsSecondsLeft(limit, window, calls, i);
    CleanupIsInvisible(limit, window, calls, i);
    CheckedEntry(limit, window, calls, i);
    TalliesAlongRun(limit, window, calls, i, key);
    TakenWithoutCleaning(limit, window, calls, i, key, start);
    hide WindowStart, CountFrom, TakenIn, NearStart, Slides;
    if limit == 0 {
      NothingPasses(window, calls, i, key, start);
      NothingPasses(window, calls, i, key, start + window);
    } else {
      RefusedKeepsEntry(limit, window, calls, i);
    }
  }

  lemma NothingPasses(window: nat, calls: seq<Call>, n: nat, key: string, lo: nat)
    requires n <= |calls| && 0 < window && Tallies(0, window, calls, n, key)
    ensures Passed(0, window, calls, n, key, lo) == 0
  {
    hide EntryAt, CountFrom;
  }

  lemma RefusedKeepsEntry(limit: nat, window: nat, calls: seq<Call>, i: nat)
    requires i < |calls| && calls[i].Check? && 0 < limit
    requires !AnswerAt(limit, window, false, calls, i).allowed
    ensures var e := EntryAt(limit, window, calls, i, calls[i].key);
      e.Some? && e.value.count >= limit && EntryAt(limit, window, calls, i + 1, calls[i].key) == e
  {
  }

  // Per sliding interval: however checks of all keys and clean-ups interleave, a key
  // passes at most 2 * limit - 1 times in any interval as long as the window.
  lemma SlidingIntervalTakesLessThanTwiceLimit(
      limit: nat, window: nat, calls: seq<Call>, n: nat, key: string, lo: nat)
    requires n <= |calls| && 0 < window && ClockNeverStepsBack(calls)
    ensures CountFrom(limit, window, true, calls, n, key, lo) - CountFrom(limit, window, true, calls, n, key, lo + window)
      <= SlidingBound(limit)
  {
    TalliesAlongRun(limit, window, calls, n, key);
    CleaningDoesNotChangeCounts(limit, window, calls, n, key, lo);
    CleaningDoesNotChangeCounts(limit, window, calls, n, key, lo + window);
    if EntryAt(limit, window, calls, n, key).Some? {
      assert Slides(limit, window, calls, n, key, lo);
    } else {
      assert Passed(limit, window, calls, n, key, lo) == 0;
    }
  }

  // The bound is attained: one request opens a window, the rest of the limit arrives in
  // its last instant, and a full limit arrives in the next.
  function Burst(limit: nat, window: nat): seq<Call>
    requires 2 <= window
  {
    seq(2 * limit, i requires 0 <= i < 2 * limit => Check("k", BurstTime(limit, window, i)))
  }

  function BurstEntry(limit: nat, window: nat, n: nat): Entry
  {
    if n <= limit then Entry(n, 0) else Entry(n - limit, window)
  }

  function BurstTime(limit: nat, window: nat, n: nat): nat
    requires 2 <= window
  {
    if n == 0 then 0 else if n < limit then window - 1 else window
  }

  // Each check of the burst is let through.
  lemma BurstCheck(limit: nat, window: nat, n: nat)
    requires 2 <= window && 0 < n <= 2 * limit
    ensures var r := CheckEntry(limit, window, if n == 1 then None else Some(BurstEntry(limit, window, n - 1)), BurstTime(limit, window, n - 1));
      r.0.allowed && r.1 == BurstEntry(limit, window, n)
  {
  }

  lemma BurstStep(limit: nat, window: nat, n: nat)
    requires 2 <= window && 0 < n <= 2 * limit
    requires n > 1 ==> Lookup(MapAt(limit, window, true, Burst(limit, window), n - 1), "k") == Some(BurstEntry(limit, window, n - 1))
    ensures Lookup(MapAt(limit, window, true, Burst(limit, window), n), "k") == Some(BurstEntry(limit, window, n))
    ensures Allowed(limit, window, true, Burst(limit, window), n - 1, "k")
  {
    hide CheckEntry, BurstEntry;
    var calls := Burst(limit, window);
    assert calls[n - 1] == Check("k", BurstTime(limit, window, n - 1));
    if n == 1 {
      assert MapAt(limit, window, true, calls, 0) == map[];
    }
    BurstCheck(limit, window, n);
  }

  lemma {:induction false} BurstPasses(limit: nat, window: nat, n: nat)
    requires 2 <= window && 0 < n <= 2 * limit
    ensures var calls := Burst(limit, window);
      && Lookup(MapAt(limit, window, true, calls, n), "k") == Some(BurstEntry(limit, window, n))
      && CountFrom(limit, window, true, calls, n, "k", window - 1) == n - 1
      && CountFrom(limit, window, true, calls, n, "k", 2 * window - 1) == 0
  {
    hide MapAt, Allowed, BurstEntry;
    if n > 1 {
      BurstPasses(limit, window, n - 1);
    }
    BurstStep(limit, window, n);
    assert Burst(limit, window)[n - 1].now == BurstTime(limit, window, n - 1);
  }

  lemma BurstClock(limit: nat, window: nat)
    requires 2 <= window
    ensures ClockNeverStepsBack(Burst(limit, window)) && |Burst(limit, window)| == 2 * limit
  {
  }

  lemma SlidingBoundIsAttained(limit: nat, window: nat)
    requires 2 <= window && 0 < limit
    ensures var calls := Burst(limit, window);
      && ClockNeverStepsBack(calls)
      && CountFrom(limit, window, true, calls, |calls|, "k", window - 1)
         - CountFrom(limit, window, true, calls, |calls|, "k", (window - 1) + window)
         == SlidingBound(limit)
  {
    BurstClock(limit, window);
    BurstPasses(limit, window, 2 * limit);
    hide Burst, BurstEntry, CountFrom, MapAt, ClockNeverStepsBack;
  }
}
