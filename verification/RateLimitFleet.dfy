/**
 Instances that share one Redis and fall back to their own memory
 (`RedisBackend.hit` in src/lib/rate-limit.ts), on one key.

 A call first takes its hit in memory; later it takes the clock again and sends
 the script; later still the script runs, or never does; and its reply arrives, or
 is lost.  Other calls run in between, and an instance may drop the key's bucket
 from memory to make room.
 */
module RateLimitFleet {
  import opened RateLimit

  datatype Outcome = Waiting | Asked(at: nat) | Answered(allowed: bool, at: nat) | FellBack

  datatype Call = Call(instance: nat, at: nat, memoryAllowed: bool, outcome: Outcome)

  /**
   A hit that the script admitted, and what has happened to it since: the latest
   clock that a script purged by, and whether the key has expired.
   */
  datatype Hit = Hit(at: nat, purgedBy: nat, expired: bool)

  /**
   `history`: the hits that the script admitted, in the order it ran.  `clock`: the
   latest clock that any script has carried.
   */
  datatype World = World(
    now: nat,
    redis: Scores,
    history: seq<Hit>,
    clock: nat,
    memories: seq<seq<nat>>,
    calls: seq<Call>)

  datatype Event =
    | Arrive(instance: nat, at: nat)
    | Ask(k: nat, at: nat)
    | Run(k: nat, server: nat, lost: bool)
    | Unreachable(k: nat)
    | Evict(instance: nat)

  function Init(instances: nat): World {
    World(1, Scores([], 0), [], 0, seq(instances, _ => []), [])
  }

  predicate IsWaiting(w: World, k: nat) {
    k < |w.calls| && w.calls[k].outcome.Waiting?
  }

  predicate IsAsked(w: World, k: nat) {
    k < |w.calls| && w.calls[k].outcome.Asked?
  }

  function Max(a: nat, b: nat): nat {
    if a < b then b else a
  }

  /** The key has expired by the time a script runs. */
  predicate Expires(w: World, server: nat) {
    w.redis.expiresAt < server
  }

  /** What a script at `at` does to the hits admitted before it. */
  function Aged(history: seq<Hit>, at: nat, expires: bool): seq<Hit> {
    if history == [] then []
    else
      var h := history[|history| - 1];
      Aged(history[..|history| - 1], at, expires) + [Hit(h.at, Max(h.purgedBy, at), h.expired || expires)]
  }

  /** The times of the admitted hits. */
  function Times(history: seq<Hit>): seq<nat> {
    if history == [] then [] else Times(history[..|history| - 1]) + [history[|history| - 1].at]
  }

  function AskRedis(w: World, at: nat, server: nat, limit: nat, window: nat): World {
    var (s, a) := RedisScript(w.redis, at, server, limit, window);
    w.(now := server, redis := s, clock := Max(w.clock, at),
       history := Aged(w.history, at, Expires(w, server)) + if a.allowed then [Hit(at, 0, false)] else [])
  }

  function Concluded(calls: seq<Call>, k: nat, outcome: Outcome): seq<Call>
    requires k < |calls|
  {
    calls[k := calls[k].(outcome := outcome)]
  }

  function Apply(w: World, e: Event, limit: nat, window: nat): World {
    match e
    case Arrive(i, at) =>
      if i < |w.memories| && w.now <= at then
        var (hits, a) := MemoryHit(w.memories[i], at, limit, window);
        w.(now := at, memories := w.memories[i := hits], calls := w.calls + [Call(i, at, a.allowed, Waiting)])
      else w
    case Ask(k, at) =>
      if IsWaiting(w, k) && w.now <= at then w.(now := at, calls := Concluded(w.calls, k, Asked(at))) else w
    case Run(k, server, lost) =>
      if IsAsked(w, k) && w.now <= server && w.calls[k].outcome.at <= server then
        var at := w.calls[k].outcome.at;
        var a := RedisScript(w.redis, at, server, limit, window).1;
        AskRedis(w, at, server, limit, window).(
          calls := Concluded(w.calls, k, if lost then FellBack else Answered(a.allowed, at)))
      else w
    case Unreachable(k) =>
      if IsWaiting(w, k) || IsAsked(w, k) then w.(calls := Concluded(w.calls, k, FellBack)) else w
    case Evict(i) => if i < |w.memories| then w.(memories := w.memories[i := []]) else w
  }

  function Exec(w: World, es: seq<Event>, limit: nat, window: nat): World
    decreases |es|
  {
    if es == [] then w else Exec(Apply(w, es[0], limit, window), es[1..], limit, window)
  }

  // ----- Counting admissions -----

  /** Admitted on Redis's word at a time inside the window that ends at `t`. */
  predicate ByRedis(c: Call, t: nat, window: nat) {
    c.outcome.Answered? && c.outcome.allowed && InWindow(c.outcome.at, t, window)
  }

  predicate ByMemory(c: Call, t: nat, window: nat) {
    c.memoryAllowed && InWindow(c.at, t, window)
  }

  /** Admitted, for either reason, inside the window that ends at `t`. */
  predicate Admitted(c: Call, t: nat, window: nat) {
    ByRedis(c, t, window) || (c.outcome.FellBack? && ByMemory(c, t, window))
  }

  function CountByRedis(calls: seq<Call>, t: nat, window: nat): nat {
    if calls == [] then 0
    else CountByRedis(calls[..|calls| - 1], t, window) + if ByRedis(calls[|calls| - 1], t, window) then 1 else 0
  }

  function CountAdmitted(calls: seq<Call>, t: nat, window: nat): nat {
    if calls == [] then 0
    else CountAdmitted(calls[..|calls| - 1], t, window) + if Admitted(calls[|calls| - 1], t, window) then 1 else 0
  }

  function CountAdmittedBy(calls: seq<Call>, i: nat, t: nat, window: nat): nat {
    if calls == [] then 0
    else
      var last := calls[|calls| - 1];
      CountAdmittedBy(calls[..|calls| - 1], i, t, window) + if last.instance == i && Admitted(last, t, window) then 1 else 0
  }

  /** When one instance's memory allowed a hit. */
  function MemoryLog(calls: seq<Call>, i: nat): seq<nat> {
    if calls == [] then []
    else
      var last := calls[|calls| - 1];
      MemoryLog(calls[..|calls| - 1], i) + if last.instance == i && last.memoryAllowed then [last.at] else []
  }

  function SumMemory(calls: seq<Call>, n: nat, t: nat, window: nat): nat {
    if n == 0 then 0 else SumMemory(calls, n - 1, t, window) + CountIn(MemoryLog(calls, n - 1), t, window)
  }

  // ----- One script -----

  /** How many hits have not left the window by `a`. */
  function Live(hits: seq<nat>, a: nat, window: nat): nat {
    if hits == [] then 0
    else Live(hits[..|hits| - 1], a, window) + if Gone(hits[|hits| - 1], a, window) then 0 else 1
  }

  lemma {:induction false} LiveCons(x: nat, hits: seq<nat>, a: nat, window: nat)
    ensures Live([x] + hits, a, window) == Live(hits, a, window) + if Gone(x, a, window) then 0 else 1
  {
    hide Gone;
    if hits == [] {
      assert [x] + hits == [x] && [x][..0] == [];
    } else {
      assert ([x] + hits)[..|hits|] == [x] + hits[..|hits| - 1];
      LiveCons(x, hits[..|hits| - 1], a, window);
    }
  }

  lemma {:induction false} LiveLater(hits: seq<nat>, a: nat, b: nat, window: nat)
    requires a <= b
    ensures Live(hits, b, window) <= Live(hits, a, window)
    ensures (forall x :: x in hits && !Gone(x, a, window) ==> !Gone(x, b, window)) ==> Live(hits, b, window) == Live(hits, a, window)
    ensures (forall x :: x in hits ==> Gone(x, a, window)) ==> Live(hits, a, window) == 0
  {
    if hits != [] {
      var init, last := hits[..|hits| - 1], hits[|hits| - 1];
      LiveLater(init, a, b, window);
      assert last in hits && forall x :: x in init ==> x in hits;
    }
  }

  lemma {:induction false} LivePurged(hits: seq<nat>, at: nat, a: nat, window: nat)
    ensures Live(Purged(hits, at, window), a, window) == Live(hits, Max(at, a), window)
    ensures |Purged(hits, at, window)| == Live(hits, at, window)
  {
    if hits != [] {
      LivePurged(hits[1..], at, a, window);
      assert hits == [hits[0]] + hits[1..];
      LiveCons(hits[0], hits[1..], Max(at, a), window);
      LiveCons(hits[0], hits[1..], at, window);
      if !Gone(hits[0], at, window) {
        LiveCons(hits[0], Purged(hits[1..], at, window), a, window);
      } else {
        assert [] + Purged(hits[1..], at, window) == Purged(hits[1..], at, window);
      }
    }
  }

  lemma {:induction false} LiveInserted(hits: seq<nat>, x: nat, a: nat, window: nat)
    ensures Live(Inserted(hits, x), a, window) == Live(hits, a, window) + if Gone(x, a, window) then 0 else 1
    ensures |Inserted(hits, x)| == |hits| + 1
  {
    hide Gone;
    LiveCons(x, hits, a, window);
    if hits != [] && x >= hits[0] {
      LiveInserted(hits[1..], x, a, window);
      assert hits == [hits[0]] + hits[1..];
      LiveCons(hits[0], hits[1..], a, window);
      LiveCons(hits[0], Inserted(hits[1..], x), a, window);
    }
  }

  /** The hit is no longer in Redis. */
  predicate Forgotten(h: Hit, window: nat) {
    h.expired || Gone(h.at, h.purgedBy, window)
  }

  /** How many admitted hits have not left the window by `a` and are still in Redis. */
  function Remembered(history: seq<Hit>, a: nat, window: nat): nat {
    if history == [] then 0
    else
      var h := history[|history| - 1];
      Remembered(history[..|history| - 1], a, window) + if Gone(h.at, a, window) || Forgotten(h, window) then 0 else 1
  }

  lemma {:induction false} AgedKeepsTimes(history: seq<Hit>, at: nat, expires: bool)
    ensures Times(Aged(history, at, expires)) == Times(history)
  {
    if history != [] {
      var init, aged := history[..|history| - 1], Aged(history, at, expires);
      AgedKeepsTimes(init, at, expires);
      assert aged[..|aged| - 1] == Aged(init, at, expires);
    }
  }

  lemma {:induction false} AgedRemembers(history: seq<Hit>, at: nat, expires: bool, a: nat, window: nat)
    ensures Remembered(Aged(history, at, expires), a, window) == if expires then 0 else Remembered(history, Max(at, a), window)
  {
    if history != [] {
      var init, aged := history[..|history| - 1], Aged(history, at, expires);
      AgedRemembers(init, at, expires, a, window);
      assert aged[..|aged| - 1] == Aged(init, at, expires);
    }
  }

  /** Of the hits in the window, those remembered are all exactly when none is forgotten. */
  lemma {:induction false} RemembersAllExactly(history: seq<Hit>, a: nat, window: nat)
    ensures Remembered(history, a, window) <= Live(Times(history), a, window)
    ensures Remembered(history, a, window) == Live(Times(history), a, window)
        <==> forall h :: h in history && !Gone(h.at, a, window) ==> !Forgotten(h, window)
  {
    hide Gone, Forgotten;
    if history != [] {
      var init, last, times := history[..|history| - 1], history[|history| - 1], Times(history);
      RemembersAllExactly(init, a, window);
      assert times[..|times| - 1] == Times(init);
      assert last in history && forall h :: h in history <==> h in init || h == last;
    }
  }

  /** Redis holds what was admitted and has been neither purged nor lost with the key. */
  ghost predicate HoldsRemembered(w: World, window: nat) {
    forall a :: Live(w.redis.hits, a, window) == Remembered(w.history, a, window)
  }

  function Held(w: World, server: nat): seq<nat> {
    if Expires(w, server) then [] else w.redis.hits
  }

  /** A script allows its hit exactly when fewer than `limit` of the hits it finds are in its window. */
  lemma ScriptAllowsExactly(w: World, at: nat, server: nat, limit: nat, window: nat)
    ensures RedisScript(w.redis, at, server, limit, window).1.allowed <==> Live(Held(w, server), at, window) < limit
  {
    var kept := Purged(Held(w, server), at, window);
    LivePurged(Held(w, server), at, at, window);
    LiveInserted(kept, at, at, window);
    hide Live, Purged, Inserted, Gone;
  }

  lemma ScriptLive(w: World, at: nat, server: nat, limit: nat, window: nat, a: nat)
    ensures var (s, answer) := RedisScript(w.redis, at, server, limit, window);
      Live(s.hits, a, window) ==
        Live(Held(w, server), Max(at, a), window) + if answer.allowed && !Gone(at, a, window) then 1 else 0
  {
    var kept := Purged(Held(w, server), at, window);
    LivePurged(Held(w, server), at, a, window);
    LiveInserted(kept, at, a, window);
    hide Live, Purged, Inserted, Gone;
  }

  lemma RememberedSnoc(history: seq<Hit>, at: nat, a: nat, window: nat)
    ensures Remembered(history + [Hit(at, 0, false)], a, window) ==
      Remembered(history, a, window) + if Gone(at, a, window) then 0 else 1
  {
    assert (history + [Hit(at, 0, false)])[..|history|] == history;
  }

  /** Whenever a script runs, in whatever order, Redis goes on holding what is remembered. */
  lemma ScriptKeepsHold(w: World, at: nat, server: nat, limit: nat, window: nat)
    requires HoldsRemembered(w, window)
    ensures HoldsRemembered(AskRedis(w, at, server, limit, window), window)
  {
    var v := AskRedis(w, at, server, limit, window);
    var aged := Aged(w.history, at, Expires(w, server));
    forall a ensures Live(v.redis.hits, a, window) == Remembered(v.history, a, window) {
      ScriptLive(w, at, server, limit, window, a);
      AgedRemembers(w.history, at, Expires(w, server), a, window);
      RememberedSnoc(aged, at, a, window);
      assert Live([], Max(at, a), window) == 0;
      assert aged + [] == aged;
      hide Live, RedisScript, Gone, Remembered, Aged;
    }
  }

  lemma {:induction false} ExecHolds(w: World, es: seq<Event>, limit: nat, window: nat)
    requires HoldsRemembered(w, window)
    ensures HoldsRemembered(Exec(w, es, limit, window), window)
    decreases |es|
  {
    if es != [] {
      ApplyHolds(w, es[0], limit, window);
      hide HoldsRemembered, Apply;
      ExecHolds(Apply(w, es[0], limit, window), es[1..], limit, window);
    }
  }

  lemma ApplyHolds(w: World, e: Event, limit: nat, window: nat)
    requires HoldsRemembered(w, window)
    ensures HoldsRemembered(Apply(w, e, limit, window), window)
  {
    if e.Run? && IsAsked(w, e.k) {
      ScriptKeepsHold(w, w.calls[e.k].outcome.at, e.server, limit, window);
    }
    hide Live, Remembered, RedisScript, MemoryHit, Aged;
  }

  /** No hit still in the window of a script has been purged since it was admitted, or lost with the key. */
  predicate NothingForgotten(w: World, at: nat, server: nat, window: nat) {
    forall h :: h in w.history && !Gone(h.at, at, window) ==> !Forgotten(h, window) && !Expires(w, server)
  }

  lemma HeldIsRemembered(w: World, at: nat, server: nat, window: nat)
    requires HoldsRemembered(w, window)
    ensures Live(Held(w, server), at, window) == Live(Times(w.history), at, window) <==> NothingForgotten(w, at, server, window)
    ensures Live(Held(w, server), at, window) <= Live(Times(w.history), at, window)
  {
    RemembersAllExactly(w.history, at, window);
    if Expires(w, server) {
      AllLeft(w.history, at, window);
    }
    assert Live(w.redis.hits, at, window) == Remembered(w.history, at, window);
  }

  lemma {:induction false} AllLeft(history: seq<Hit>, a: nat, window: nat)
    ensures Live(Times(history), a, window) == 0 <==> forall h :: h in history ==> Gone(h.at, a, window)
  {
    hide Gone;
    if history != [] {
      var init, last, times := history[..|history| - 1], history[|history| - 1], Times(history);
      AllLeft(init, a, window);
      assert times[..|times| - 1] == Times(init);
      assert last in history && forall h :: h in history <==> h in init || h == last;
    }
  }

  /**
   In every run, whatever order its scripts run in: the hits a script finds in its
   window are all that were admitted there exactly when none of these has been purged
   by another script, whose clock was later, or lost with the key, since it was admitted.
   */
  lemma CountsItsWindowExactly(instances: nat, es: seq<Event>, at: nat, server: nat, limit: nat, window: nat)
    ensures var w := Exec(Init(instances), es, limit, window);
      && (RedisScript(w.redis, at, server, limit, window).1.allowed <==> Live(Held(w, server), at, window) < limit)
      && Live(Held(w, server), at, window) <= Live(Times(w.history), at, window)
      && (Live(Held(w, server), at, window) == Live(Times(w.history), at, window) <==> NothingForgotten(w, at, server, window))
  {
    hide RedisScript, NothingForgotten, Exec;
    var w := Exec(Init(instances), es, limit, window);
    ExecHolds(Init(instances), es, limit, window);
    ScriptAllowsExactly(w, at, server, limit, window);
    HeldIsRemembered(w, at, server, window);
  }

  // ----- The bound of one script, and of a run -----

  ghost predicate Bounded(log: seq<nat>, limit: nat, window: nat) {
    forall t :: CountIn(log, t, window) <= limit
  }

  lemma {:induction false} WindowIsLive(log: seq<nat>, at: nat, t: nat, window: nat)
    requires InWindow(at, t, window)
    ensures CountIn(log, t, window) <= Live(log, at, window)
  {
    if log != [] { WindowIsLive(log[..|log| - 1], at, t, window); }
  }

  lemma CountLogged(log: seq<nat>, now: nat, a: Answer, t: nat, window: nat)
    ensures CountIn(Logged(log, now, a), t, window) ==
      CountIn(log, t, window) + if a.allowed && InWindow(now, t, window) then 1 else 0
  {
    if a.allowed { assert (log + [now])[..|log|] == log; }
  }

  lemma AskedTimes(w: World, at: nat, server: nat, limit: nat, window: nat)
    ensures Times(AskRedis(w, at, server, limit, window).history) ==
      Logged(Times(w.history), at, RedisScript(w.redis, at, server, limit, window).1)
  {
    hide RedisScript, Aged;
    var aged := Aged(w.history, at, Expires(w, server));
    AgedKeepsTimes(w.history, at, Expires(w, server));
    assert (aged + [Hit(at, 0, false)])[..|aged|] == aged;
    assert aged + [] == aged;
  }

  /** The script finds fewer than `limit` hits in its window, and some window with its clock in it is full. */
  ghost predicate Overadmits(w: World, at: nat, server: nat, limit: nat, window: nat) {
    && Live(Held(w, server), at, window) < limit
    && exists t :: InWindow(at, t, window) && CountIn(Times(w.history), t, window) == limit
  }

  /** A script takes some window past the limit exactly then. */
  lemma BoundKeptExactly(w: World, at: nat, server: nat, limit: nat, window: nat)
    requires Bounded(Times(w.history), limit, window)
    ensures Bounded(Times(AskRedis(w, at, server, limit, window).history), limit, window)
        <==> !Overadmits(w, at, server, limit, window)
  {
    hide RedisScript, CountIn, InWindow, Logged, Live, AskRedis;
    ScriptAllowsExactly(w, at, server, limit, window);
    AskedTimes(w, at, server, limit, window);
    var a, log := RedisScript(w.redis, at, server, limit, window).1, Times(w.history);
    forall t ensures CountIn(Logged(log, at, a), t, window) == CountIn(log, t, window) + if a.allowed && InWindow(at, t, window) then 1 else 0 {
      CountLogged(log, at, a, t, window);
    }
    if Overadmits(w, at, server, limit, window) {
      var t :| InWindow(at, t, window) && CountIn(log, t, window) == limit;
      assert CountIn(Logged(log, at, a), t, window) == limit + 1;
    }
  }

  ghost predicate NeverOveradmits(w: World, es: seq<Event>, limit: nat, window: nat)
    decreases |es|
  {
    es == [] || (!StepOveradmits(w, es[0], limit, window) && NeverOveradmits(Apply(w, es[0], limit, window), es[1..], limit, window))
  }

  /** The event is one that runs a script. */
  predicate RunsScript(w: World, e: Event) {
    e.Run? && IsAsked(w, e.k) && w.now <= e.server && w.calls[e.k].outcome.at <= e.server
  }

  ghost predicate StepOveradmits(w: World, e: Event, limit: nat, window: nat) {
    RunsScript(w, e) && Overadmits(w, w.calls[e.k].outcome.at, e.server, limit, window)
  }

  lemma StepBoundedExactly(w: World, e: Event, limit: nat, window: nat)
    requires Bounded(Times(w.history), limit, window)
    ensures Bounded(Times(Apply(w, e, limit, window).history), limit, window) <==> !StepOveradmits(w, e, limit, window)
  {
    hide Bounded, Overadmits, RedisScript, MemoryHit;
    if RunsScript(w, e) {
      BoundKeptExactly(w, w.calls[e.k].outcome.at, e.server, limit, window);
    }
  }

  /** What has been admitted stays admitted. */
  lemma {:induction false} BoundedBefore(w: World, es: seq<Event>, limit: nat, window: nat)
    requires Bounded(Times(Exec(w, es, limit, window).history), limit, window)
    ensures Bounded(Times(w.history), limit, window)
    decreases |es|
  {
    if es != [] {
      var v := Apply(w, es[0], limit, window);
      BoundedBefore(v, es[1..], limit, window);
      forall t ensures CountIn(Times(w.history), t, window) <= limit {
        CountGrows(w, es[0], limit, window, t);
        assert CountIn(Times(v.history), t, window) <= limit;
      }
    }
  }

  lemma CountGrows(w: World, e: Event, limit: nat, window: nat, t: nat)
    ensures CountIn(Times(w.history), t, window) <= CountIn(Times(Apply(w, e, limit, window).history), t, window)
  {
    hide RedisScript, MemoryHit, Times, CountIn, Logged;
    if e.Run? && IsAsked(w, e.k) {
      var at := w.calls[e.k].outcome.at;
      AskedTimes(w, at, e.server, limit, window);
      CountLogged(Times(w.history), at, RedisScript(w.redis, at, e.server, limit, window).1, t, window);
    }
  }

  lemma {:induction false} ExecBoundedExactly(w: World, es: seq<Event>, limit: nat, window: nat)
    requires Bounded(Times(w.history), limit, window)
    ensures Bounded(Times(Exec(w, es, limit, window).history), limit, window) <==> NeverOveradmits(w, es, limit, window)
    decreases |es|
  {
    hide Bounded, StepOveradmits, Apply, Times;
    if es != [] {
      var v := Apply(w, es[0], limit, window);
      StepBoundedExactly(w, es[0], limit, window);
      if StepOveradmits(w, es[0], limit, window) {
        if Bounded(Times(Exec(v, es[1..], limit, window).history), limit, window) {
          BoundedBefore(v, es[1..], limit, window);
        }
      } else {
        ExecBoundedExactly(v, es[1..], limit, window);
      }
    }
  }

  /** In every run, Redis admits at most the limit in every window exactly when none of its scripts overadmits. */
  lemma RedisBoundedExactly(instances: nat, es: seq<Event>, limit: nat, window: nat)
    ensures Bounded(Times(Exec(Init(instances), es, limit, window).history), limit, window)
        <==> NeverOveradmits(Init(instances), es, limit, window)
  {
    ExecBoundedExactly(Init(instances), es, limit, window);
  }

  /** A script that has forgotten nothing of its window does not overadmit. */
  lemma RememberingIsEnough(w: World, at: nat, server: nat, limit: nat, window: nat)
    requires HoldsRemembered(w, window) && NothingForgotten(w, at, server, window)
    ensures !Overadmits(w, at, server, limit, window)
  {
    HeldIsRemembered(w, at, server, window);
    hide CountIn, Live, HoldsRemembered, NothingForgotten;
    if t :| InWindow(at, t, window) && CountIn(Times(w.history), t, window) == limit {
      WindowIsLive(Times(w.history), at, t, window);
    }
  }

  // ----- The invariant -----

  ghost predicate MemoriesConsistent(w: World, limit: nat, window: nat) {
    forall i :: 0 <= i < |w.memories| ==> Consistent(w.memories[i], MemoryLog(w.calls, i), w.now, limit, window)
  }

  ghost predicate RedisLogged(w: World, window: nat) {
    forall t :: CountByRedis(w.calls, t, window) <= CountIn(Times(w.history), t, window)
  }

  predicate KnownInstances(w: World) {
    forall k :: 0 <= k < |w.calls| ==> w.calls[k].instance < |w.memories|
  }

  ghost predicate Invariant(w: World, limit: nat, window: nat) {
    && MemoriesConsistent(w, limit, window)
    && HoldsRemembered(w, window) && Bounded(Times(w.history), limit, window)
    && RedisLogged(w, window) && KnownInstances(w)
  }

  /** Scripts have forgotten nothing of their windows, and a bucket is dropped from memory only when all its hits have left the window. */
  predicate Punctual(w: World, e: Event, window: nat) {
    match e
    case Run(k, server, _) => RunsScript(w, e) ==> NothingForgotten(w, w.calls[k].outcome.at, server, window)
    case Evict(i) => i < |w.memories| ==> forall x :: x in w.memories[i] ==> Gone(x, w.now, window)
    case _ => true
  }

  predicate AlwaysPunctual(w: World, es: seq<Event>, limit: nat, window: nat)
    decreases |es|
  {
    es == [] || (Punctual(w, es[0], window) && AlwaysPunctual(Apply(w, es[0], limit, window), es[1..], limit, window))
  }

  lemma ConsistentLater(hits: seq<nat>, log: seq<nat>, last: nat, now: nat, limit: nat, window: nat)
    requires Consistent(hits, log, last, limit, window) && last <= now
    ensures Consistent(hits, log, now, limit, window)
  {
    LoggedSorted(log, last, now);
  }

  lemma {:induction false} MemoryLogConcluded(calls: seq<Call>, k: nat, outcome: Outcome, i: nat)
    requires k < |calls|
    ensures MemoryLog(Concluded(calls, k, outcome), i) == MemoryLog(calls, i)
  {
    var n := |calls| - 1;
    var after := Concluded(calls, k, outcome);
    if k < n {
      assert after[..n] == Concluded(calls[..n], k, outcome);
      MemoryLogConcluded(calls[..n], k, outcome, i);
    } else {
      assert after[..n] == calls[..n];
    }
  }

  lemma {:induction false} CountConcluded(calls: seq<Call>, k: nat, outcome: Outcome, t: nat, window: nat)
    requires k < |calls| && !calls[k].outcome.Answered?
    ensures CountByRedis(Concluded(calls, k, outcome), t, window) ==
      CountByRedis(calls, t, window) +
      if outcome.Answered? && outcome.allowed && InWindow(outcome.at, t, window) then 1 else 0
  {
    var n := |calls| - 1;
    var after := Concluded(calls, k, outcome);
    if k < n {
      assert after[..n] == Concluded(calls[..n], k, outcome);
      CountConcluded(calls[..n], k, outcome, t, window);
    } else {
      assert after[..n] == calls[..n];
    }
  }

  lemma ArriveKeeps(w: World, i: nat, at: nat, limit: nat, window: nat)
    requires Invariant(w, limit, window) && i < |w.memories| && w.now <= at
    ensures Invariant(Apply(w, Arrive(i, at), limit, window), limit, window)
  {
    hide MemoryHit, Consistent, Live, InWindow, Bounded;
    var v := Apply(w, Arrive(i, at), limit, window);
    assert v.calls[..|w.calls|] == w.calls;
    forall j | 0 <= j < |v.memories| ensures Consistent(v.memories[j], MemoryLog(v.calls, j), at, limit, window) {
      MemoryHitKeeps(w.memories[i], MemoryLog(w.calls, i), w.now, at, limit, window);
      ConsistentLater(w.memories[j], MemoryLog(w.calls, j), w.now, at, limit, window);
      assert MemoryLog(w.calls, j) + [] == MemoryLog(w.calls, j);
    }
    forall t ensures CountByRedis(v.calls, t, window) <= CountIn(Times(v.history), t, window) {
      assert CountByRedis(w.calls, t, window) <= CountIn(Times(w.history), t, window);
    }
  }

  lemma ConcludeKeepsMemories(w: World, v: World, k: nat, outcome: Outcome, limit: nat, window: nat)
    requires MemoriesConsistent(w, limit, window) && KnownInstances(w)
    requires k < |w.calls| && v.memories == w.memories && v.calls == Concluded(w.calls, k, outcome) && w.now <= v.now
    ensures MemoriesConsistent(v, limit, window) && KnownInstances(v)
  {
    hide Consistent;
    forall j | 0 <= j < |v.memories| ensures Consistent(v.memories[j], MemoryLog(v.calls, j), v.now, limit, window) {
      MemoryLogConcluded(w.calls, k, outcome, j);
      ConsistentLater(w.memories[j], MemoryLog(w.calls, j), w.now, v.now, limit, window);
    }
  }

  lemma RunKeepsLogged(w: World, k: nat, server: nat, outcome: Outcome, limit: nat, window: nat)
    requires RedisLogged(w, window) && IsAsked(w, k)
    requires var at := w.calls[k].outcome.at;
      outcome == FellBack || outcome == Answered(RedisScript(w.redis, at, server, limit, window).1.allowed, at)
    ensures RedisLogged(AskRedis(w, w.calls[k].outcome.at, server, limit, window).(calls := Concluded(w.calls, k, outcome)), window)
  {
    hide RedisScript, InWindow, Logged;
    var at := w.calls[k].outcome.at;
    var v := AskRedis(w, at, server, limit, window).(calls := Concluded(w.calls, k, outcome));
    forall t ensures CountByRedis(v.calls, t, window) <= CountIn(Times(v.history), t, window) {
      CountConcluded(w.calls, k, outcome, t, window);
      AskedTimes(w, at, server, limit, window);
      CountLogged(Times(w.history), at, RedisScript(w.redis, at, server, limit, window).1, t, window);
      assert CountByRedis(w.calls, t, window) <= CountIn(Times(w.history), t, window);
    }
  }

  lemma RunKeeps(w: World, k: nat, server: nat, lost: bool, limit: nat, window: nat)
    requires Invariant(w, limit, window) && Punctual(w, Run(k, server, lost), window)
    ensures Invariant(Apply(w, Run(k, server, lost), limit, window), limit, window)
  {
    hide MemoriesConsistent, HoldsRemembered, Bounded, RedisLogged, KnownInstances, Concluded, RedisScript, NothingForgotten, Overadmits, Times;
    var v := Apply(w, Run(k, server, lost), limit, window);
    if IsAsked(w, k) && w.now <= server && w.calls[k].outcome.at <= server {
      var at := w.calls[k].outcome.at;
      var outcome := if lost then FellBack else Answered(RedisScript(w.redis, at, server, limit, window).1.allowed, at);
      var asked := AskRedis(w, at, server, limit, window);
      RunKeepsLogged(w, k, server, outcome, limit, window);
      ConcludeKeepsMemories(w, v, k, outcome, limit, window);
      ScriptKeepsHold(w, at, server, limit, window);
      RememberingIsEnough(w, at, server, limit, window);
      BoundKeptExactly(w, at, server, limit, window);
      SameRedis(asked, v, window);
    }
  }

  lemma SameRedis(w: World, v: World, window: nat)
    requires HoldsRemembered(w, window) && v.redis == w.redis && v.history == w.history
    ensures HoldsRemembered(v, window)
  {
    hide Live;
  }

  /** A call that is concluded without a script. */
  lemma ConcludeKeeps(w: World, v: World, k: nat, outcome: Outcome, limit: nat, window: nat)
    requires Invariant(w, limit, window) && (IsWaiting(w, k) || IsAsked(w, k)) && !outcome.Answered?
    requires v == w.(now := v.now, calls := Concluded(w.calls, k, outcome)) && w.now <= v.now
    ensures Invariant(v, limit, window)
  {
    ConcludeKeepsMemories(w, v, k, outcome, limit, window);
    SameRedis(w, v, window);
    hide MemoriesConsistent, HoldsRemembered, Bounded, KnownInstances;
    forall t ensures CountByRedis(v.calls, t, window) <= CountIn(Times(v.history), t, window) {
      CountConcluded(w.calls, k, outcome, t, window);
    }
  }

  lemma EvictKeeps(w: World, i: nat, limit: nat, window: nat)
    requires Invariant(w, limit, window) && Punctual(w, Evict(i), window)
    ensures Invariant(Apply(w, Evict(i), limit, window), limit, window)
  {
    hide Live, Bounded, CountIn;
    var v := Apply(w, Evict(i), limit, window);
    if i < |w.memories| {
      EvictedIsConsistent(w.memories[i], MemoryLog(w.calls, i), w.now, limit, window);
      hide Consistent;
    }
  }

  lemma EvictedIsConsistent(hits: seq<nat>, log: seq<nat>, now: nat, limit: nat, window: nat)
    requires Consistent(hits, log, now, limit, window) && forall x :: x in hits ==> Gone(x, now, window)
    ensures Consistent([], log, now, limit, window)
  {
    hide Gone, Sorted;
    var n := |log| - |hits|;
    forall i | 0 <= i < |log| ensures Gone(log[i], now, window) {
      if i >= n { assert log[i] == hits[i - n] && log[i] in hits; }
    }
  }

  lemma ApplyKeeps(w: World, e: Event, limit: nat, window: nat)
    requires Invariant(w, limit, window) && Punctual(w, e, window)
    ensures Invariant(Apply(w, e, limit, window), limit, window)
    ensures |Apply(w, e, limit, window).memories| == |w.memories|
  {
    hide Invariant, Concluded, RedisScript, Punctual, MemoryHit;
    var v := Apply(w, e, limit, window);
    if v != w {
      match e
      case Arrive(i, at) => ArriveKeeps(w, i, at, limit, window);
      case Ask(k, at) => ConcludeKeeps(w, v, k, Asked(at), limit, window);
      case Run(k, server, lost) => RunKeeps(w, k, server, lost, limit, window);
      case Unreachable(k) => ConcludeKeeps(w, v, k, FellBack, limit, window);
      case Evict(i) => EvictKeeps(w, i, limit, window);
    }
  }

  lemma InitKeeps(instances: nat, limit: nat, window: nat)
    ensures Invariant(Init(instances), limit, window)
  {
  }

  lemma {:induction false} ExecKeeps(w: World, es: seq<Event>, limit: nat, window: nat)
    requires Invariant(w, limit, window) && AlwaysPunctual(w, es, limit, window)
    ensures Invariant(Exec(w, es, limit, window), limit, window)
    ensures |Exec(w, es, limit, window).memories| == |w.memories|
    decreases |es|
  {
    hide Invariant, Apply, Punctual;
    if es != [] {
      ApplyKeeps(w, es[0], limit, window);
      ExecKeeps(Apply(w, es[0], limit, window), es[1..], limit, window);
    }
  }

  // ----- What an eviction lets through -----

  /** All that has been allowed after some more hits on a bucket. */
  function AllowedAfter(hits: seq<nat>, log: seq<nat>, times: seq<nat>, limit: nat, window: nat): seq<nat>
    decreases |times|
  {
    if times == [] then log
    else
      var (after, a) := MemoryHit(hits, times[0], limit, window);
      AllowedAfter(after, Logged(log, times[0], a), times[1..], limit, window)
  }

  /** Times from `now` on, none before the one it follows. */
  predicate Onward(times: seq<nat>, now: nat) {
    times == [] || (now <= times[0] && Onward(times[1..], times[0]))
  }

  lemma {:induction false} ConsistentIsBounded(hits: seq<nat>, log: seq<nat>, now: nat, times: seq<nat>, limit: nat, window: nat)
    requires Consistent(hits, log, now, limit, window) && Onward(times, now)
    ensures Bounded(AllowedAfter(hits, log, times, limit, window), limit, window)
    decreases |times|
  {
    hide Consistent, MemoryHit, Logged, CountIn;
    if times == [] {
      forall t ensures CountIn(log, t, window) <= limit {
        AtMostLimit(hits, log, now, limit, window, t);
      }
    } else {
      var (after, a) := MemoryHit(hits, times[0], limit, window);
      MemoryHitKeeps(hits, log, now, times[0], limit, window);
      ConsistentIsBounded(after, Logged(log, times[0], a), times[0], times[1..], limit, window);
    }
  }

  function Burst(n: nat, now: nat): seq<nat> {
    if n == 0 then [] else Burst(n - 1, now) + [now]
  }

  lemma {:induction false} BurstIsOnward(n: nat, now: nat)
    ensures Onward(Burst(n, now), now) && |Burst(n, now)| == n && forall i :: 0 <= i < n ==> Burst(n, now)[i] == now
  {
    if n > 0 { BurstIsOnward(n - 1, now); }
    AllNowIsOnward(Burst(n, now), now);
  }

  lemma {:induction false} AllNowIsOnward(times: seq<nat>, now: nat)
    requires forall i :: 0 <= i < |times| ==> times[i] == now
    ensures Onward(times, now)
  {
    if times != [] { AllNowIsOnward(times[1..], now); }
  }

  /** While fewer than `limit` hits are in a bucket, all of `m` more hits at the same moment are allowed. */
  lemma {:induction false} BurstIsAllowed(hits: seq<nat>, log: seq<nat>, m: nat, now: nat, limit: nat, window: nat)
    requires window > 0 && |hits| + m <= limit && forall i :: 0 <= i < |hits| ==> hits[i] == now
    ensures var after := AllowedAfter(hits, log, Burst(m, now), limit, window);
      CountIn(after, now, window) == CountIn(log, now, window) + m
    decreases m
  {
    BurstIsOnward(m, now);
    if m > 0 {
      var times := Burst(m, now);
      BurstIsOnward(m - 1, now);
      assert times[1..] == Burst(m - 1, now);
      assert DropOld(hits, now, window) == hits;
      var (after, a) := MemoryHit(hits, now, limit, window);
      assert after == hits + [now] && a.allowed;
      BurstIsAllowed(after, log + [now], m - 1, now, limit, window);
      assert (log + [now])[..|log|] == log;
    }
  }

  lemma {:induction false} CountsOne(log: seq<nat>, i: nat, t: nat, window: nat)
    requires i < |log| && InWindow(log[i], t, window)
    ensures CountIn(log, t, window) >= 1
  {
    if i < |log| - 1 { CountsOne(log[..|log| - 1], i, t, window); }
  }

  /**
   After a bucket is dropped, whatever hits follow, no window of the instance goes
   past the limit, exactly when every hit in the bucket had left the window.
   */
  lemma EvictionIsHarmlessExactly(hits: seq<nat>, log: seq<nat>, now: nat, limit: nat, window: nat)
    requires Consistent(hits, log, now, limit, window)
    ensures (forall times :: Onward(times, now) ==> Bounded(AllowedAfter([], log, times, limit, window), limit, window))
        <==> forall x :: x in hits ==> Gone(x, now, window)
  {
    if forall x :: x in hits ==> Gone(x, now, window) {
      EvictedIsConsistent(hits, log, now, limit, window);
      forall times | Onward(times, now) ensures Bounded(AllowedAfter([], log, times, limit, window), limit, window) {
        ConsistentIsBounded([], log, now, times, limit, window);
      }
    } else {
      var x :| x in hits && !Gone(x, now, window);
      LiveHitIsLogged(hits, log, now, x, limit, window);
      var times := Burst(limit, now);
      BurstIsOnward(limit, now);
      BurstIsAllowed([], log, limit, now, limit, window);
      hide Consistent, CountIn, Onward, AllowedAfter;
      assert CountIn(AllowedAfter([], log, times, limit, window), now, window) > limit;
    }
  }

  lemma LiveHitIsLogged(hits: seq<nat>, log: seq<nat>, now: nat, x: nat, limit: nat, window: nat)
    requires Consistent(hits, log, now, limit, window) && x in hits && !Gone(x, now, window)
    ensures window > 0 && CountIn(log, now, window) >= 1
  {
    var k :| 0 <= k < |hits| && hits[k] == x;
    var i := |log| - |hits| + k;
    assert log[i] == x && log[i] <= log[i] <= now;
    CountsOne(log, i, now, window);
  }

  // ----- Orderly runs -----

  /**
   Scripts run in the order of their clocks, each at once or while the key lives; and
   evictions are as above.
   */
  predicate Orderly(w: World, e: Event, window: nat) {
    match e
    case Run(k, server, _) => RunsScript(w, e) ==>
      var at := w.calls[k].outcome.at;
      w.clock <= at && (server == at || !Expires(w, server))
    case _ => Punctual(w, e, window)
  }

  predicate AlwaysOrderly(w: World, es: seq<Event>, limit: nat, window: nat)
    decreases |es|
  {
    es == [] || (Orderly(w, es[0], window) && AlwaysOrderly(Apply(w, es[0], limit, window), es[1..], limit, window))
  }

  /** Hits forgotten so far had left the window by the latest clock. */
  predicate InStep(w: World, window: nat) {
    forall h :: h in w.history ==>
      && h.purgedBy <= w.clock && h.at <= w.now && h.at + window <= w.redis.expiresAt
      && (h.expired ==> h.at + window <= w.clock)
  }

  lemma {:induction false} AgedMembers(history: seq<Hit>, at: nat, expires: bool)
    ensures forall g :: g in Aged(history, at, expires) ==>
      exists h :: h in history && g == Hit(h.at, Max(h.purgedBy, at), h.expired || expires)
  {
    if history != [] {
      AgedMembers(history[..|history| - 1], at, expires);
      assert history[|history| - 1] in history;
    }
  }

  lemma OrderlyKeepsStep(w: World, e: Event, limit: nat, window: nat)
    requires InStep(w, window) && Orderly(w, e, window)
    ensures InStep(Apply(w, e, limit, window), window)
  {
    var v := Apply(w, e, limit, window);
    if RunsScript(w, e) {
      var at := w.calls[e.k].outcome.at;
      var aged := Aged(w.history, at, Expires(w, e.server));
      AgedMembers(w.history, at, Expires(w, e.server));
      ScriptExpires(w.redis, at, e.server, limit, window);
      hide RedisScript, Aged;
      forall g | g in v.history
        ensures g.purgedBy <= v.clock && g.at <= v.now && g.at + window <= v.redis.expiresAt && (g.expired ==> g.at + window <= v.clock)
      {
        if g in aged {
          var h :| h in w.history && g == Hit(h.at, Max(h.purgedBy, at), h.expired || Expires(w, e.server));
        }
      }
    } else {
      hide MemoryHit;
    }
  }

  lemma ScriptExpires(s: Scores, at: nat, server: nat, limit: nat, window: nat)
    ensures RedisScript(s, at, server, limit, window).0.expiresAt == server + window
  {
    hide Purged, Inserted;
  }

  /** A script in step has forgotten nothing of its window. */
  lemma OrderlyForgetsNothing(w: World, at: nat, server: nat, window: nat)
    requires InStep(w, window) && w.clock <= at && (server == at || !Expires(w, server))
    ensures NothingForgotten(w, at, server, window)
  {
  }

  lemma {:induction false} ExecOrderly(w: World, es: seq<Event>, limit: nat, window: nat)
    requires InStep(w, window) && AlwaysOrderly(w, es, limit, window)
    ensures AlwaysPunctual(w, es, limit, window)
    decreases |es|
  {
    hide InStep, Apply, NothingForgotten;
    if es != [] {
      OrderlyKeepsStep(w, es[0], limit, window);
      if RunsScript(w, es[0]) {
        OrderlyForgetsNothing(w, w.calls[es[0].k].outcome.at, es[0].server, window);
      }
      ExecOrderly(Apply(w, es[0], limit, window), es[1..], limit, window);
    }
  }

  /** A run in order has forgotten nothing at any of its scripts, and Redis stays within the limit. */
  lemma OrderlyRunsForgetNothing(instances: nat, es: seq<Event>, limit: nat, window: nat)
    requires AlwaysOrderly(Init(instances), es, limit, window)
    ensures AlwaysPunctual(Init(instances), es, limit, window)
    ensures Bounded(Times(Exec(Init(instances), es, limit, window).history), limit, window)
  {
    hide AlwaysPunctual, AlwaysOrderly, Exec, HoldsRemembered, Bounded;
    ExecOrderly(Init(instances), es, limit, window);
    InitKeeps(instances, limit, window);
    ExecKeeps(Init(instances), es, limit, window);
  }

  // ----- The bounds -----

  lemma {:induction false} AdmittedByAtMost(calls: seq<Call>, i: nat, t: nat, window: nat)
    ensures CountAdmittedBy(calls, i, t, window) <= CountByRedis(calls, t, window) + CountIn(MemoryLog(calls, i), t, window)
  {
    if calls != [] {
      AdmittedByAtMost(calls[..|calls| - 1], i, t, window);
      MemoryLogSnoc(calls, i, t, window);
      hide CountIn, MemoryLog;
    }
  }

  lemma MemoryLogSnoc(calls: seq<Call>, i: nat, t: nat, window: nat)
    requires calls != []
    ensures var last := calls[|calls| - 1];
      CountIn(MemoryLog(calls, i), t, window) ==
        CountIn(MemoryLog(calls[..|calls| - 1], i), t, window) + if last.instance == i && ByMemory(last, t, window) then 1 else 0
  {
    hide InWindow;
    var last, log := calls[|calls| - 1], MemoryLog(calls[..|calls| - 1], i);
    if last.instance == i && last.memoryAllowed {
      assert (log + [last.at])[..|log|] == log;
    } else {
      assert log + [] == log;
    }
  }

  lemma {:induction false} SumMemorySnoc(calls: seq<Call>, n: nat, t: nat, window: nat)
    requires calls != []
    ensures var last := calls[|calls| - 1];
      SumMemory(calls, n, t, window) ==
        SumMemory(calls[..|calls| - 1], n, t, window) + if last.instance < n && ByMemory(last, t, window) then 1 else 0
  {
    hide CountIn, MemoryLog, InWindow;
    if n > 0 {
      SumMemorySnoc(calls, n - 1, t, window);
      MemoryLogSnoc(calls, n - 1, t, window);
    }
  }

  lemma {:induction false} AdmittedAtMost(calls: seq<Call>, n: nat, t: nat, window: nat)
    requires forall k :: 0 <= k < |calls| ==> calls[k].instance < n
    ensures CountAdmitted(calls, t, window) <= CountByRedis(calls, t, window) + SumMemory(calls, n, t, window)
  {
    if calls != [] {
      AdmittedAtMost(calls[..|calls| - 1], n, t, window);
      SumMemorySnoc(calls, n, t, window);
    }
  }

  lemma {:induction false} SumMemoryAtMost(w: World, n: nat, t: nat, limit: nat, window: nat)
    requires MemoriesConsistent(w, limit, window) && n <= |w.memories|
    ensures SumMemory(w.calls, n, t, window) <= n * limit
  {
    hide Consistent;
    if n > 0 {
      SumMemoryAtMost(w, n - 1, t, limit, window);
      AtMostLimit(w.memories[n - 1], MemoryLog(w.calls, n - 1), w.now, limit, window, t);
      assert n * limit == (n - 1) * limit + limit;
    }
  }

  /**
   With any pattern of Redis failures, lost replies and delays, as long as no script
   has forgotten a hit of its window and no bucket is dropped with a hit that still
   counts: one instance admits at most twice the limit in
   any window, and all of them together at most the limit once for Redis and once
   for each instance.
   */
  lemma FleetAdmitsAtMost(instances: nat, es: seq<Event>, limit: nat, window: nat, t: nat)
    requires AlwaysPunctual(Init(instances), es, limit, window)
    ensures var calls := Exec(Init(instances), es, limit, window).calls;
      && CountByRedis(calls, t, window) <= limit
      && (forall i :: 0 <= i < instances ==> CountAdmittedBy(calls, i, t, window) <= 2 * limit)
      && CountAdmitted(calls, t, window) <= (instances + 1) * limit
  {
    hide Consistent, Exec, AlwaysPunctual, HoldsRemembered, CountIn, Times, MemoryLog;
    hide CountByRedis, CountAdmitted, CountAdmittedBy, SumMemory;
    InitKeeps(instances, limit, window);
    ExecKeeps(Init(instances), es, limit, window);
    var w := Exec(Init(instances), es, limit, window);
    assert CountIn(Times(w.history), t, window) <= limit;
    assert CountByRedis(w.calls, t, window) <= limit;
    forall i | 0 <= i < instances ensures CountAdmittedBy(w.calls, i, t, window) <= 2 * limit {
      AdmittedByAtMost(w.calls, i, t, window);
      AtMostLimit(w.memories[i], MemoryLog(w.calls, i), w.now, limit, window, t);
    }
    AdmittedAtMost(w.calls, instances, t, window);
    SumMemoryAtMost(w, instances, t, limit, window);
    assert (instances + 1) * limit == instances * limit + limit;
  }

  // ----- What is counted -----

  function AdmittedCalls(calls: seq<Call>, t: nat, window: nat): set<nat> {
    set k: nat | k < |calls| && Admitted(calls[k], t, window)
  }

  /** The counts are of calls, each once. */
  lemma {:induction false} AdmittedAre(calls: seq<Call>, t: nat, window: nat)
    ensures CountAdmitted(calls, t, window) == |AdmittedCalls(calls, t, window)|
  {
    hide Admitted, ByRedis;
    if calls != [] {
      var n := |calls| - 1;
      AdmittedAre(calls[..n], t, window);
      assert AdmittedCalls(calls, t, window) == AdmittedCalls(calls[..n], t, window) + if Admitted(calls[n], t, window) then {n} else {};
    }
  }

  function RedisCalls(calls: seq<Call>, t: nat, window: nat): set<nat> {
    set k: nat | k < |calls| && ByRedis(calls[k], t, window)
  }

  lemma {:induction false} ByRedisAre(calls: seq<Call>, t: nat, window: nat)
    ensures CountByRedis(calls, t, window) == |RedisCalls(calls, t, window)|
  {
    hide Admitted, ByRedis;
    if calls != [] {
      var n := |calls| - 1;
      ByRedisAre(calls[..n], t, window);
      assert RedisCalls(calls, t, window) == RedisCalls(calls[..n], t, window) + if ByRedis(calls[n], t, window) then {n} else {};
    }
  }

  function AdmittedCallsOf(calls: seq<Call>, i: nat, t: nat, window: nat): set<nat> {
    set k: nat | k < |calls| && calls[k].instance == i && Admitted(calls[k], t, window)
  }

  lemma {:induction false} AdmittedByAre(calls: seq<Call>, i: nat, t: nat, window: nat)
    ensures CountAdmittedBy(calls, i, t, window) == |AdmittedCallsOf(calls, i, t, window)|
  {
    hide Admitted, ByRedis;
    if calls != [] {
      var n := |calls| - 1;
      AdmittedByAre(calls[..n], i, t, window);
      assert AdmittedCallsOf(calls, i, t, window) == AdmittedCallsOf(calls[..n], i, t, window) + if calls[n].instance == i && Admitted(calls[n], t, window) then {n} else {};
    }
  }
}
