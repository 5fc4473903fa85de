/**
 The sliding-window rate limiter in its two implementations
 (src/lib/rate-limit.ts): what one hit does to one key, and what a whole history
 of hits admits.
 */
module RateLimit {
  import opened Prelude

  /** `None` is JavaScript's NaN. */
  datatype Answer = Answer(allowed: bool, remaining: nat, retryAfter: Option<nat>, reset: Option<nat>)

  function CeilDiv(x: int): int {
    -((-x) / 1000)
  }

  /** Milliseconds as whole seconds, rounded up, at least one. */
  function Seconds(ms: int): nat {
    if CeilDiv(ms) < 1 then 1 else CeilDiv(ms)
  }

  predicate Gone(hit: nat, now: nat, window: nat) {
    hit + window <= now
  }

  // ----- In memory -----

  /** Expired hits are shifted from the front. */
  function DropOld(hits: seq<nat>, now: nat, window: nat): seq<nat> {
    if hits != [] && Gone(hits[0], now, window) then DropOld(hits[1..], now, window) else hits
  }

  function MemoryHit(hits: seq<nat>, now: nat, limit: nat, window: nat): (seq<nat>, Answer) {
    var kept := DropOld(hits, now, window);
    if |kept| >= limit then
      var wait := if kept == [] then None else Some(Seconds(kept[0] + window - now));
      (kept, Answer(false, 0, wait, wait))
    else
      var after := kept + [now];
      (after, Answer(true, limit - |after|, Some(0), Some(Seconds(after[0] + window - now))))
  }

  // ----- In Redis -----

  /** A sorted set of scores, and when the key expires. */
  datatype Scores = Scores(hits: seq<nat>, expiresAt: nat)

  function Purged(hits: seq<nat>, now: nat, window: nat): seq<nat> {
    if hits == [] then []
    else (if Gone(hits[0], now, window) then [] else [hits[0]]) + Purged(hits[1..], now, window)
  }

  function Inserted(hits: seq<nat>, x: nat): seq<nat> {
    if hits == [] || x < hits[0] then [x] + hits else [hits[0]] + Inserted(hits[1..], x)
  }

  /**
   The Lua script, one atomic step: the caller took its clock at `at`, the script
   runs when the server's is `server`.  A key is gone once the server's clock is past
   its expiry.
   */
  function RedisScript(s: Scores, at: nat, server: nat, limit: nat, window: nat): (Scores, Answer) {
    var kept := Purged(if s.expiresAt < server then [] else s.hits, at, window);
    var added := Inserted(kept, at);
    if |added| > limit then
      var retry := if kept != [] && kept[0] > 0 then Seconds(kept[0] + window - at) else 1;
      (Scores(kept, server + window), Answer(false, 0, Some(retry), Some(retry)))
    else (Scores(added, server + window), Answer(true, limit - |added|, Some(0), Some(Seconds(window))))
  }

  /** A hit whose script runs the moment its clock is taken. */
  function RedisHit(s: Scores, now: nat, limit: nat, window: nat): (Scores, Answer) {
    RedisScript(s, now, now, limit, window)
  }

  // ----- What a limiter has admitted -----

  predicate Sorted(hits: seq<nat>, now: nat) {
    forall i, j :: 0 <= i <= j < |hits| ==> hits[i] <= hits[j] <= now
  }

  predicate InWindow(hit: nat, t: nat, window: nat) {
    hit <= t && t < hit + window
  }

  function CountIn(hits: seq<nat>, t: nat, window: nat): nat {
    if hits == [] then 0
    else CountIn(hits[..|hits| - 1], t, window) + if InWindow(hits[|hits| - 1], t, window) then 1 else 0
  }

  /**
   `log` is every hit admitted so far, oldest first.  The limiter still holds its
   last part, all it no longer holds has left the window, and any two admissions
   `limit` places apart are at least a window apart.
   */
  ghost predicate Consistent(hits: seq<nat>, log: seq<nat>, now: nat, limit: nat, window: nat) {
    && Sorted(log, now)
    && |hits| <= |log| && hits == log[|log| - |hits|..]
    && (forall i :: 0 <= i < |log| - |hits| ==> Gone(log[i], now, window))
    && (forall i, j :: 0 <= i <= j < |log| && i + limit <= j ==> Gone(log[i], log[j], window))
  }

  lemma {:induction false} DropOldIsSuffix(hits: seq<nat>, now: nat, window: nat)
    requires Sorted(hits, now)
    ensures var kept := DropOld(hits, now, window);
      && |kept| <= |hits| && kept == hits[|hits| - |kept|..]
      && (forall i :: 0 <= i < |hits| - |kept| ==> Gone(hits[i], now, window))
      && (forall i :: |hits| - |kept| <= i < |hits| ==> !Gone(hits[i], now, window))
  {
    if hits != [] && Gone(hits[0], now, window) {
      DropOldIsSuffix(hits[1..], now, window);
      var kept := DropOld(hits, now, window);
      assert forall i :: 1 <= i < |hits| ==> hits[i] == hits[1..][i - 1];
      assert hits[|hits| - |kept|..] == hits[1..][|hits| - 1 - |kept|..];
    }
  }

  lemma {:induction false} CountSuffix(log: seq<nat>, n: nat, t: nat, window: nat)
    requires n <= |log|
    requires forall i :: 0 <= i < n ==> !InWindow(log[i], t, window)
    ensures CountIn(log, t, window) <= |log| - n
    ensures (forall i :: n <= i < |log| ==> InWindow(log[i], t, window)) ==> CountIn(log, t, window) == |log| - n
    decreases |log|
  {
    if n < |log| {
      CountSuffix(log[..|log| - 1], n, t, window);
    } else if log != [] {
      CountSuffix(log[..|log| - 1], n - 1, t, window);
    }
  }

  /** No window of the log holds more than `limit` admissions. */
  lemma {:induction false} AtMostLimit(hits: seq<nat>, log: seq<nat>, now: nat, limit: nat, window: nat, t: nat)
    requires Consistent(hits, log, now, limit, window)
    ensures CountIn(log, t, window) <= limit
  {
    SpacedAtMost(log, limit, window, t);
  }

  lemma {:induction false} SpacedAtMost(log: seq<nat>, limit: nat, window: nat, t: nat)
    requires forall i, j :: 0 <= i <= j < |log| && i + limit <= j ==> Gone(log[i], log[j], window)
    ensures CountIn(log, t, window) <= limit
    decreases |log|
  {
    if |log| <= limit {
      CountSuffix(log, 0, t, window);
    } else {
      var last := log[|log| - 1];
      if InWindow(last, t, window) {
        forall i | 0 <= i < |log| - limit ensures !InWindow(log[i], t, window) {
          assert Gone(log[i], last, window);
        }
        CountSuffix(log, |log| - limit, t, window);
      } else {
        SpacedAtMost(log[..|log| - 1], limit, window, t);
      }
    }
  }

  lemma KeptIsInWindow(hits: seq<nat>, log: seq<nat>, last: nat, now: nat, limit: nat, window: nat)
    requires Consistent(hits, log, last, limit, window) && last <= now
    ensures var kept := DropOld(hits, now, window);
      && |kept| <= |log| && kept == log[|log| - |kept|..]
      && (forall i :: 0 <= i < |log| - |kept| ==> Gone(log[i], now, window))
      && CountIn(log, now, window) == |kept|
  {
    var kept := DropOld(hits, now, window);
    var n, m := |log| - |hits|, |log| - |kept|;
    assert Sorted(hits, now) by {
      assert forall i :: 0 <= i < |hits| ==> hits[i] == log[n + i];
    }
    DropOldIsSuffix(hits, now, window);
    assert kept == log[m..];
    forall i | 0 <= i < m ensures Gone(log[i], now, window) {
      if i >= n { assert log[i] == hits[i - n]; }
    }
    forall i | m <= i < |log| ensures InWindow(log[i], now, window) {
      assert log[i] == hits[i - n] && !Gone(hits[i - n], now, window);
      assert log[i] <= log[i] <= last;
    }
    CountSuffix(log, m, now, window);
  }

  function Logged(log: seq<nat>, now: nat, a: Answer): seq<nat> {
    if a.allowed then log + [now] else log
  }

  /** A hit is admitted exactly when fewer than `limit` admitted hits are in the window. */
  lemma MemoryHitKeeps(hits: seq<nat>, log: seq<nat>, last: nat, now: nat, limit: nat, window: nat)
    requires Consistent(hits, log, last, limit, window) && last <= now
    ensures var (after, a) := MemoryHit(hits, now, limit, window);
      && Consistent(after, Logged(log, now, a), now, limit, window)
      && (a.allowed <==> CountIn(log, now, window) < limit)
      && (a.allowed ==> a.remaining == limit - 1 - CountIn(log, now, window))
  {
    KeptIsInWindow(hits, log, last, now, limit, window);
    var kept := DropOld(hits, now, window);
    hide DropOld, CountIn, Seconds, Gone, Sorted;
    if |kept| >= limit {
      SkipKeeps(hits, kept, log, last, now, limit, window);
    } else {
      AdmitKeeps(hits, kept, log, last, now, limit, window);
    }
    hide Consistent;
  }

  lemma SkipKeeps(hits: seq<nat>, kept: seq<nat>, log: seq<nat>, last: nat, now: nat, limit: nat, window: nat)
    requires Consistent(hits, log, last, limit, window) && last <= now
    requires |kept| <= |log| && kept == log[|log| - |kept|..]
    requires forall i :: 0 <= i < |log| - |kept| ==> Gone(log[i], now, window)
    ensures Consistent(kept, log, now, limit, window)
  {
    LoggedSorted(log, last, now);
  }

  lemma AdmitKeeps(hits: seq<nat>, kept: seq<nat>, log: seq<nat>, last: nat, now: nat, limit: nat, window: nat)
    requires Consistent(hits, log, last, limit, window) && last <= now
    requires |kept| <= |log| && kept == log[|log| - |kept|..] && |kept| < limit
    requires forall i :: 0 <= i < |log| - |kept| ==> Gone(log[i], now, window)
    ensures Consistent(kept + [now], log + [now], now, limit, window)
  {
    LoggedSorted(log, last, now);
    hide Sorted;
    var longer := log + [now];
    assert kept + [now] == longer[|longer| - |kept| - 1..];
    forall i, j | 0 <= i <= j < |longer| && i + limit <= j ensures Gone(longer[i], longer[j], window) {
      if j == |log| {
        assert i < |log| - |kept| && longer[i] == log[i];
      } else {
        assert longer[i] == log[i] && longer[j] == log[j];
      }
    }
  }

  lemma LoggedSorted(log: seq<nat>, last: nat, now: nat)
    requires Sorted(log, last) && last <= now
    ensures Sorted(log, now) && Sorted(log + [now], now)
  {
    forall i, j | 0 <= i <= j < |log + [now]| ensures (log + [now])[i] <= (log + [now])[j] <= now {
      if i < |log| { assert log[i] <= log[i] <= last; }
    }
  }

  // ----- A history of hits on one key -----

  function MemoryRun(times: seq<nat>, limit: nat, window: nat): seq<nat> {
    if times == [] then []
    else MemoryHit(MemoryRun(times[..|times| - 1], limit, window), times[|times| - 1], limit, window).0
  }

  function MemoryAnswer(times: seq<nat>, now: nat, limit: nat, window: nat): Answer {
    MemoryHit(MemoryRun(times, limit, window), now, limit, window).1
  }

  function RedisRun(times: seq<nat>, limit: nat, window: nat): Scores {
    if times == [] then Scores([], 0)
    else RedisHit(RedisRun(times[..|times| - 1], limit, window), times[|times| - 1], limit, window).0
  }

  function RedisAnswer(times: seq<nat>, now: nat, limit: nat, window: nat): Answer {
    RedisHit(RedisRun(times, limit, window), now, limit, window).1
  }

  /** The times of the hits that the in-memory limiter allowed. */
  function AllowedTimes(times: seq<nat>, limit: nat, window: nat): seq<nat> {
    if times == [] then []
    else
      var init, now := times[..|times| - 1], times[|times| - 1];
      Logged(AllowedTimes(init, limit, window), now, MemoryAnswer(init, now, limit, window))
  }

  function LastTime(times: seq<nat>): nat {
    if times == [] then 0 else times[|times| - 1]
  }

  lemma {:induction false} RunIsConsistent(times: seq<nat>, limit: nat, window: nat)
    requires Sorted(times, LastTime(times))
    ensures Consistent(MemoryRun(times, limit, window), AllowedTimes(times, limit, window), LastTime(times), limit, window)
    decreases |times|
  {
    hide MemoryHit, Consistent;
    if times == [] {
      EmptyIsConsistent(limit, window);
    } else {
      var init, now := times[..|times| - 1], times[|times| - 1];
      assert LastTime(init) <= now && Sorted(init, LastTime(init));
      RunIsConsistent(init, limit, window);
      MemoryHitKeeps(MemoryRun(init, limit, window), AllowedTimes(init, limit, window), LastTime(init), now, limit, window);
    }
  }

  lemma EmptyIsConsistent(limit: nat, window: nat)
    ensures Consistent([], [], 0, limit, window)
  {
  }

  /**
   After any history with a clock that does not go back, a hit is allowed exactly
   when fewer than `limit` allowed hits lie in the last window, the reported
   remainder is exact, and no window holds more than `limit` allowed hits.
   */
  lemma AllowedExactly(times: seq<nat>, now: nat, limit: nat, window: nat, t: nat)
    requires Sorted(times, now)
    ensures var log, a := AllowedTimes(times, limit, window), MemoryAnswer(times, now, limit, window);
      && (a.allowed <==> CountIn(log, now, window) < limit)
      && (a.allowed ==> a.remaining == limit - 1 - CountIn(log, now, window))
      && CountIn(log, t, window) <= limit
  {
    hide MemoryHit, Consistent, CountIn;
    assert LastTime(times) <= now;
    assert Sorted(times, LastTime(times));
    RunIsConsistent(times, limit, window);
    var hits, log := MemoryRun(times, limit, window), AllowedTimes(times, limit, window);
    MemoryHitKeeps(hits, log, LastTime(times), now, limit, window);
    AtMostLimit(hits, log, LastTime(times), limit, window, t);
  }

  // ----- The two implementations agree -----

  predicate Positive(hits: seq<nat>) {
    forall i :: 0 <= i < |hits| ==> hits[i] > 0
  }

  /** No hit outlives the key, so the key's expiry drops nothing that still counts. */
  predicate Outlived(s: Scores, window: nat) {
    forall i :: 0 <= i < |s.hits| ==> s.hits[i] + window <= s.expiresAt
  }

  lemma {:induction false} PurgedIsDropOld(hits: seq<nat>, now: nat, window: nat)
    requires Sorted(hits, now)
    ensures Purged(hits, now, window) == DropOld(hits, now, window)
  {
    if hits != [] {
      var rest := hits[1..];
      assert forall i :: 0 <= i < |rest| ==> rest[i] == hits[i + 1];
      PurgedIsDropOld(rest, now, window);
      if !Gone(hits[0], now, window) {
        assert rest != [] ==> rest[0] == hits[1] && hits[0] <= hits[1] && !Gone(rest[0], now, window);
        assert [hits[0]] + rest == hits;
      }
    }
  }

  lemma {:induction false} InsertedLast(hits: seq<nat>, now: nat)
    requires Sorted(hits, now)
    ensures Inserted(hits, now) == hits + [now]
  {
    if hits != [] {
      assert hits[0] <= hits[0] <= now;
      assert forall i :: 0 <= i < |hits[1..]| ==> hits[1..][i] == hits[i + 1];
      InsertedLast(hits[1..], now);
      assert hits == [hits[0]] + hits[1..];
    }
  }

  lemma {:induction false} AllGone(hits: seq<nat>, now: nat, window: nat)
    requires forall i :: 0 <= i < |hits| ==> Gone(hits[i], now, window)
    ensures DropOld(hits, now, window) == []
  {
    if hits != [] {
      assert forall i :: 0 <= i < |hits[1..]| ==> hits[1..][i] == hits[i + 1];
      AllGone(hits[1..], now, window);
    }
  }

  /** One hit does the same to both, and tells the caller the same, but for the reset of an allowed hit. */
  lemma HitsAgree(s: Scores, now: nat, limit: nat, window: nat)
    requires Sorted(s.hits, now) && Positive(s.hits) && Outlived(s, window) && now > 0 && limit > 0
    ensures var (m, a) := MemoryHit(s.hits, now, limit, window);
      var (r, b) := RedisHit(s, now, limit, window);
      && r.hits == m && Positive(m) && Outlived(r, window) && Sorted(m, now)
      && a.allowed == b.allowed && a.remaining == b.remaining && a.retryAfter == b.retryAfter
      && (a.reset == b.reset || (a.allowed && a.reset.Some? && b.reset.Some? && a.reset.value < b.reset.value))
  {
    var kept := DropOld(s.hits, now, window);
    KeptSoFar(s, now, window);
    RedisHitIs(s, now, limit, window);
    hide RedisHit, DropOld, Seconds, Sorted, Positive, Outlived;
    var first := if kept == [] then now else kept[0];
    assert (kept + [now])[0] == first;
    if |kept| < limit { SecondsGrow(first + window - now, window); }
  }

  /** The script, on hits in order, purges from the front and adds at the back, as memory does. */
  lemma RedisHitIs(s: Scores, now: nat, limit: nat, window: nat)
    requires Sorted(s.hits, now) && Positive(s.hits) && Outlived(s, window) && now > 0
    ensures var kept := DropOld(s.hits, now, window);
      RedisHit(s, now, limit, window) ==
        if |kept| + 1 > limit then
          var retry := if kept != [] then Seconds(kept[0] + window - now) else 1;
          (Scores(kept, now + window), Answer(false, 0, Some(retry), Some(retry)))
        else (Scores(kept + [now], now + window), Answer(true, limit - |kept| - 1, Some(0), Some(Seconds(window))))
  {
    var kept := DropOld(s.hits, now, window);
    KeptSoFar(s, now, window);
    InsertedLast(kept, now);
    hide Purged, DropOld, Inserted, Seconds, Sorted, Positive, Outlived;
  }

  lemma KeptSoFar(s: Scores, now: nat, window: nat)
    requires Sorted(s.hits, now) && Positive(s.hits) && Outlived(s, window) && now > 0
    ensures var kept := DropOld(s.hits, now, window);
      && Purged(if s.expiresAt < now then [] else s.hits, now, window) == kept
      && Sorted(kept, now) && Sorted(kept + [now], now)
      && Positive(kept) && Positive(kept + [now])
      && (kept != [] ==> 0 < kept[0] <= now)
      && Outlived(Scores(kept, now + window), window) && Outlived(Scores(kept + [now], now + window), window)
  {
    var kept := DropOld(s.hits, now, window);
    DropOldIsSuffix(s.hits, now, window);
    PurgedIsDropOld(s.hits, now, window);
    if s.expiresAt < now { AllGone(s.hits, now, window); }
    hide DropOld, Purged;
    var n := |s.hits| - |kept|;
    assert forall i :: 0 <= i < |kept| ==> kept[i] == s.hits[n + i];
    assert Sorted(kept, now);
    assert forall i :: 0 <= i < |kept| ==> kept[i] <= kept[i] <= now;
    LoggedSorted(kept, now, now);
  }

  lemma SecondsGrow(a: int, b: int)
    requires a <= b
    ensures Seconds(a) <= Seconds(b)
  {
  }

  lemma {:induction false} RunsAgree(times: seq<nat>, limit: nat, window: nat)
    requires Sorted(times, LastTime(times)) && Positive(times) && limit > 0
    ensures var s := RedisRun(times, limit, window);
      && s.hits == MemoryRun(times, limit, window)
      && Sorted(s.hits, LastTime(times)) && Positive(s.hits) && Outlived(s, window)
    decreases |times|
  {
    hide MemoryHit, RedisHit;
    if times != [] {
      var init, now := times[..|times| - 1], times[|times| - 1];
      assert LastTime(init) <= now && Sorted(init, LastTime(init));
      RunsAgree(init, limit, window);
      var s := RedisRun(init, limit, window);
      assert Sorted(s.hits, now);
      HitsAgree(s, now, limit, window);
    }
  }

  /** On every history, the Redis script and the in-memory limiter give the same answers. */
  lemma ImplementationsAgree(times: seq<nat>, now: nat, limit: nat, window: nat)
    requires Sorted(times, now) && Positive(times) && now > 0 && limit > 0
    ensures var a, b := MemoryAnswer(times, now, limit, window), RedisAnswer(times, now, limit, window);
      && a.allowed == b.allowed && a.remaining == b.remaining && a.retryAfter == b.retryAfter
      && (!a.allowed ==> a.reset == b.reset)
  {
    hide MemoryHit, RedisHit;
    assert LastTime(times) <= now && Sorted(times, LastTime(times));
    RunsAgree(times, limit, window);
    assert Sorted(RedisRun(times, limit, window).hits, now);
    HitsAgree(RedisRun(times, limit, window), now, limit, window);
  }

  /** A limit of zero is the one case where they differ: in memory the wait is not a number. */
  lemma ZeroLimitDiffers(now: nat, window: nat)
    ensures MemoryAnswer([], now, 0, window).retryAfter == None
    ensures RedisAnswer([], now, 0, window).retryAfter == Some(1)
  {
  }

  // ----- The wait that is reported -----

  /** Whole seconds, rounded up, and at least one. */
  lemma SecondsAre(ms: int)
    ensures Seconds(ms) >= 1
    ensures ms > 0 ==> 1000 * (Seconds(ms) - 1) < ms <= 1000 * Seconds(ms)
    ensures ms <= 0 ==> Seconds(ms) == 1
  {
  }

  lemma FullBucket(hits: seq<nat>, log: seq<nat>, last: nat, now: nat, limit: nat, window: nat)
    requires Consistent(hits, log, last, limit, window) && last <= now && !MemoryHit(hits, now, limit, window).1.allowed
    ensures var kept := DropOld(hits, now, window);
      && |kept| == limit && Sorted(kept, now) && MemoryHit(hits, now, limit, window).0 == kept
      && forall i :: 0 <= i < |kept| ==> !Gone(kept[i], now, window)
  {
    var kept := DropOld(hits, now, window);
    KeptIsInWindow(hits, log, last, now, limit, window);
    AtMostLimit(hits, log, last, limit, window, now);
    var n := |log| - |hits|;
    assert Sorted(hits, now) by {
      assert forall i :: 0 <= i < |hits| ==> hits[i] == log[n + i];
    }
    DropOldIsSuffix(hits, now, window);
    assert forall i :: 0 <= i < |kept| ==> kept[i] == hits[|hits| - |kept| + i];
  }

  /** A refused caller that waits as long as it is told is allowed if nobody comes in between; a second less is too short. */
  lemma RetryIsExact(hits: seq<nat>, log: seq<nat>, last: nat, now: nat, limit: nat, window: nat)
    requires Consistent(hits, log, last, limit, window) && last <= now && limit > 0
    requires !MemoryHit(hits, now, limit, window).1.allowed
    ensures var (kept, a) := MemoryHit(hits, now, limit, window);
      && a.retryAfter.Some? && a.retryAfter.value >= 1
      && MemoryHit(kept, now + 1000 * a.retryAfter.value, limit, window).1.allowed
      && !MemoryHit(kept, now + 1000 * (a.retryAfter.value - 1), limit, window).1.allowed
  {
    FullBucket(hits, log, last, now, limit, window);
    var kept := DropOld(hits, now, window);
    var wait := kept[0] + window - now;
    SecondsAre(wait);
    hide Seconds;
    var s := Seconds(wait);
    DropOldIsShorter(kept, now + 1000 * s, window);
    assert DropOld(kept, now + 1000 * (s - 1), window) == kept;
  }

  lemma DropOldIsShorter(hits: seq<nat>, now: nat, window: nat)
    requires hits != [] && Gone(hits[0], now, window)
    ensures |DropOld(hits, now, window)| < |hits|
  {
    DropOldIsNoLonger(hits[1..], now, window);
  }

  lemma {:induction false} DropOldIsNoLonger(hits: seq<nat>, now: nat, window: nat)
    ensures |DropOld(hits, now, window)| <= |hits|
  {
    if hits != [] && Gone(hits[0], now, window) { DropOldIsNoLonger(hits[1..], now, window); }
  }
}
