/**
 Runs of the rate limiter (src/lib/rate-limit.ts) that reach its bound, and runs
 that break it because an admitted hit was forgotten too early: by a script that
 overtook another, by the expiry of the key while a script was on its way, and by
 an instance that dropped the bucket to make room.

 In every run there is one key and one instance, the window is a second, and the
 calls are numbered in the order they arrive.  The runs are built from short pieces
 whose end states are written out, so no lemma follows more than a few steps.
 */
module RateLimitExamples {
  import opened RateLimit
  import opened RateLimitFleet

  const WINDOW := 1000

  lemma {:induction false} ExecAppend(w: World, es: seq<Event>, fs: seq<Event>, limit: nat)
    ensures Exec(w, es + fs, limit, WINDOW) == Exec(Exec(w, es, limit, WINDOW), fs, limit, WINDOW)
    decreases |es|
  {
    hide Apply;
    if es == [] {
      assert es + fs == fs;
    } else {
      assert (es + fs)[1..] == es[1..] + fs;
      ExecAppend(Apply(w, es[0], limit, WINDOW), es[1..], fs, limit);
    }
  }

  lemma ExecOne(w: World, e: Event, limit: nat)
    ensures Exec(w, [e], limit, WINDOW) == Apply(w, e, limit, WINDOW)
  {
    hide Apply;
    assert [e][1..] == [];
  }

  lemma ExecTwo(w: World, a: Event, b: Event, limit: nat)
    ensures Exec(w, [a, b], limit, WINDOW) == Apply(Apply(w, a, limit, WINDOW), b, limit, WINDOW)
  {
    hide Apply, Exec;
    ExecOne(w, a, limit);
    ExecOne(Apply(w, a, limit, WINDOW), b, limit);
    ExecAppend(w, [a], [b], limit);
    assert [a] + [b] == [a, b];
  }

  /** `n` calls at time 1, none of which has asked Redis yet. */
  function Calls(n: nat): seq<Event> {
    if n == 0 then [] else Calls(n - 1) + [Arrive(0, 1)]
  }

  predicate Ready(w: World, n: nat) {
    && |w.calls| == n && |w.memories| == 1 && w.now == 1
    && w.redis == Scores([], 0)
    && forall k :: 0 <= k < n ==> w.calls[k].outcome == Waiting
  }

  lemma {:induction false} CallsAreReady(n: nat, limit: nat)
    ensures Ready(Exec(Init(1), Calls(n), limit, WINDOW), n)
  {
    if n > 0 {
      hide MemoryHit;
      CallsAreReady(n - 1, limit);
      ExecAppend(Init(1), Calls(n - 1), [Arrive(0, 1)], limit);
      ExecOne(Exec(Init(1), Calls(n - 1), limit, WINDOW), Arrive(0, 1), limit);
      hide Exec;
    }
  }

  /** One waiting call takes its clock and its script runs, at once or later. */
  lemma Asks(w: World, k: nat, at: nat, server: nat, limit: nat)
    requires IsWaiting(w, k) && w.now <= at <= server
    ensures var v := Exec(w, [Ask(k, at), Run(k, server, false)], limit, WINDOW);
      var (s, a) := RedisScript(w.redis, at, server, limit, WINDOW);
      && v.now == server && v.redis == s && v.calls == w.calls[k := w.calls[k].(outcome := Answered(a.allowed, at))]
  {
    hide RedisScript, Exec;
    ExecTwo(w, Ask(k, at), Run(k, server, false), limit);
    var v := Apply(w, Ask(k, at), limit, WINDOW);
    assert v.calls[k].outcome == Asked(at);
  }

  lemma {:induction false} ExecThen(w: World, es: seq<Event>, k: nat, at: nat, server: nat, limit: nat)
    requires var v := Exec(w, es, limit, WINDOW); IsWaiting(v, k) && v.now <= at <= server
    ensures var v := Exec(w, es, limit, WINDOW);
      var u := Exec(w, es + [Ask(k, at), Run(k, server, false)], limit, WINDOW);
      var (s, a) := RedisScript(v.redis, at, server, limit, WINDOW);
      && u.now == server && u.redis == s && u.calls == v.calls[k := v.calls[k].(outcome := Answered(a.allowed, at))]
  {
    hide RedisScript, Exec;
    ExecAppend(w, es, [Ask(k, at), Run(k, server, false)], limit);
    Asks(Exec(w, es, limit, WINDOW), k, at, server, limit);
  }

  // ----- One script overtakes another -----

  lemma OvertakingScripts()
    ensures RedisScript(Scores([], 0), 100, 100, 2, WINDOW).0 == Scores([100], 1100)
    ensures RedisScript(Scores([], 0), 100, 100, 2, WINDOW).1.allowed
    ensures RedisScript(Scores([100], 1100), 101, 101, 2, WINDOW).0 == Scores([100, 101], 1101)
    ensures RedisScript(Scores([100], 1100), 101, 101, 2, WINDOW).1.allowed
    ensures RedisScript(Scores([100, 101], 1101), 500, 500, 2, WINDOW).0 == Scores([100, 101], 1500)
  {
    assert Purged([100], 101, WINDOW) == [100] by { assert [100][1..] == []; }
    assert [100, 101][1..] == [101] && [101][1..] == [];
    assert Purged([100, 101], 500, WINDOW) == [100, 101];
    assert Inserted([100], 101) == [100, 101];
    InsertedLength([100, 101], 500);
  }

  lemma OvertakenScripts()
    ensures RedisScript(Scores([100, 101], 1500), 1101, 1101, 2, WINDOW).0 == Scores([1101], 2101)
    ensures RedisScript(Scores([100, 101], 1500), 1101, 1101, 2, WINDOW).1.allowed
    ensures RedisScript(Scores([1101], 2101), 1099, 1101, 2, WINDOW).1.allowed
  {
    assert [100, 101][1..] == [101] && [101][1..] == [] && [1101][1..] == [];
    assert Purged([100, 101], 1101, WINDOW) == [];
    assert Purged([1101], 1099, WINDOW) == [1101];
    InsertedLength([1101], 1099);
  }

  lemma {:induction false} InsertedLength(hits: seq<nat>, x: nat)
    ensures |Inserted(hits, x)| == |hits| + 1
  {
    if hits != [] && x >= hits[0] { InsertedLength(hits[1..], x); }
  }

  const FIRST_THREE := Calls(5) + [Ask(0, 100), Run(0, 100, false)] + [Ask(1, 101), Run(1, 101, false)] + [Ask(2, 500), Run(2, 500, false)]

  lemma ThreeScripts() returns (w: World)
    ensures w == Exec(Init(1), FIRST_THREE, 2, WINDOW)
    ensures |w.calls| == 5 && w.now == 500 && w.redis == Scores([100, 101], 1500)
    ensures w.calls[0].outcome == Answered(true, 100) && w.calls[1].outcome == Answered(true, 101) && w.calls[2].outcome.Answered?
    ensures w.calls[2].outcome.at == 500 && IsWaiting(w, 3) && IsWaiting(w, 4)
  {
    hide Exec, RedisScript;
    OvertakingScripts();
    CallsAreReady(5, 2);
    var a := Calls(5);
    ExecThen(Init(1), a, 0, 100, 100, 2);
    var b := a + [Ask(0, 100), Run(0, 100, false)];
    ExecThen(Init(1), b, 1, 101, 101, 2);
    var c := b + [Ask(1, 101), Run(1, 101, false)];
    ExecThen(Init(1), c, 2, 500, 500, 2);
    w := Exec(Init(1), FIRST_THREE, 2, WINDOW);
  }

  const OVERTAKE := [Ask(3, 1099)] + [Ask(4, 1101), Run(4, 1101, false)] + [Run(3, 1101, false)]

  lemma Overtakes(w: World)
    requires |w.calls| == 5 && w.now == 500 && w.redis == Scores([100, 101], 1500) && IsWaiting(w, 3) && IsWaiting(w, 4)
    ensures var v := Exec(w, OVERTAKE, 2, WINDOW);
      && |v.calls| == 5 && v.calls[..3] == w.calls[..3]
      && v.calls[3].outcome == Answered(true, 1099) && v.calls[4].outcome == Answered(true, 1101)
  {
    hide Exec, RedisScript;
    OvertakenScripts();
    var v1 := Apply(w, Ask(3, 1099), 2, WINDOW);
    ExecOne(w, Ask(3, 1099), 2);
    ExecThen(w, [Ask(3, 1099)], 4, 1101, 1101, 2);
    var v2 := Exec(w, [Ask(3, 1099)] + [Ask(4, 1101), Run(4, 1101, false)], 2, WINDOW);
    assert v2.calls[3].outcome == Asked(1099);
    ExecOne(v2, Run(3, 1101, false), 2);
    ExecAppend(w, [Ask(3, 1099)] + [Ask(4, 1101), Run(4, 1101, false)], [Run(3, 1101, false)], 2);
  }

  lemma CountFive(calls: seq<Call>)
    requires |calls| == 5
    requires calls[0].outcome == Answered(true, 100) && calls[1].outcome == Answered(true, 101)
    requires calls[2].outcome.Answered? && calls[2].outcome.at == 500
    requires calls[3].outcome == Answered(true, 1099) && calls[4].outcome == Answered(true, 1101)
    ensures CountByRedis(calls, 1099, WINDOW) >= 3
  {
    var c4, c3, c2, c1 := calls[..4], calls[..3], calls[..2], calls[..1];
    assert c4[..3] == c3 && c3[..2] == c2 && c2[..1] == c1 && c1[..0] == [];
    assert CountByRedis(c1, 1099, WINDOW) == 1;
    assert CountByRedis(c2, 1099, WINDOW) == 2;
    assert CountByRedis(c3, 1099, WINDOW) >= 2;
    assert CountByRedis(c4, 1099, WINDOW) >= 3;
  }

  /**
   The limit is two; one script takes its clock 2 ms before another and runs after
   it.  The other has purged two hits that the first one's window still holds, so
   Redis admits three into one window.
   */
  lemma OvertakingAdmitsThree()
    ensures CountByRedis(Exec(Init(1), FIRST_THREE + OVERTAKE, 2, WINDOW).calls, 1099, WINDOW) >= 3
  {
    hide Exec, CountByRedis;
    var w := ThreeScripts();
    Overtakes(w);
    ExecAppend(Init(1), FIRST_THREE, OVERTAKE, 2);
    var v := Exec(w, OVERTAKE, 2, WINDOW);
    assert v.calls[0] == v.calls[..3][0] && v.calls[1] == v.calls[..3][1] && v.calls[2] == v.calls[..3][2];
    CountFive(v.calls);
  }

  // ----- The key expires while a script is on its way -----

  lemma ExpiringScripts()
    ensures RedisScript(Scores([], 0), 1, 1, 1, WINDOW).0 == Scores([1], 1001)
    ensures RedisScript(Scores([], 0), 1, 1, 1, WINDOW).1.allowed
    ensures RedisScript(Scores([1], 1001), 1000, 1002, 1, WINDOW).1.allowed
  {
  }

  /** The limit is one; a script that is on its way for 2 ms finds the key expired and admits a second hit into the window. */
  lemma ExpiryAdmitsTwo()
    ensures var es := Calls(2) + [Ask(0, 1), Run(0, 1, false)] + [Ask(1, 1000), Run(1, 1002, false)];
      CountByRedis(Exec(Init(1), es, 1, WINDOW).calls, 1000, WINDOW) == 2
  {
    hide Exec, RedisScript;
    ExpiringScripts();
    CallsAreReady(2, 1);
    ExecThen(Init(1), Calls(2), 0, 1, 1, 1);
    ExecThen(Init(1), Calls(2) + [Ask(0, 1), Run(0, 1, false)], 1, 1000, 1002, 1);
    var v := Exec(Init(1), Calls(2) + [Ask(0, 1), Run(0, 1, false)] + [Ask(1, 1000), Run(1, 1002, false)], 1, WINDOW);
    assert v.calls[0].outcome == Answered(true, 1) && v.calls[1].outcome == Answered(true, 1000);
    assert v.calls[..1][..0] == [] && v.calls[..1][0] == v.calls[0];
    assert CountByRedis(v.calls[..1], 1000, WINDOW) == 1;
  }

  // ----- Memory -----

  lemma MemoryHits()
    ensures MemoryHit([], 1, 1, WINDOW).0 == [1] && MemoryHit([], 1, 1, WINDOW).1.allowed
    ensures MemoryHit([1], 1, 1, WINDOW).0 == [1] && !MemoryHit([1], 1, 1, WINDOW).1.allowed
    ensures RedisScript(Scores([], 0), 1, 1, 1, WINDOW).1.allowed
  {
  }

  /** A call that Redis cannot be asked about. */
  lemma FallsBack(w: World, allowed: bool, hits: seq<nat>)
    requires |w.memories| == 1 && w.now == 1
    requires MemoryHit(w.memories[0], 1, 1, WINDOW).0 == hits && MemoryHit(w.memories[0], 1, 1, WINDOW).1.allowed == allowed
    ensures Exec(w, [Arrive(0, 1), Unreachable(|w.calls|)], 1, WINDOW) ==
      w.(memories := [hits], calls := w.calls + [Call(0, 1, allowed, FellBack)])
  {
    hide MemoryHit, Exec;
    ExecTwo(w, Arrive(0, 1), Unreachable(|w.calls|), 1);
    assert w.memories[0 := hits] == [hits];
    var v := Apply(w, Arrive(0, 1), 1, WINDOW);
    assert v.calls[|w.calls| := Call(0, 1, allowed, FellBack)] == w.calls + [Call(0, 1, allowed, FellBack)];
  }

  lemma GoesToRedis(w: World)
    requires |w.memories| == 1 && w.now == 1 && w.memories[0] == [1] && w.redis == Scores([], 0)
    ensures var k := |w.calls|;
      Exec(w, [Arrive(0, 1)] + [Ask(k, 1), Run(k, 1, false)], 1, WINDOW).calls == w.calls + [Call(0, 1, false, Answered(true, 1))]
  {
    hide MemoryHit, Exec, RedisScript;
    MemoryHits();
    var k := |w.calls|;
    ExecOne(w, Arrive(0, 1), 1);
    ExecThen(w, [Arrive(0, 1)], k, 1, 1, 1);
  }

  /** Twice the limit can happen: a hit while Redis is away, then one that only Redis has not seen. */
  lemma TwiceTheLimitHappens()
    ensures var es := [Arrive(0, 1), Unreachable(0)] + ([Arrive(0, 1)] + [Ask(1, 1), Run(1, 1, false)]);
      CountAdmittedBy(Exec(Init(1), es, 1, WINDOW).calls, 0, 1, WINDOW) == 2
  {
    hide MemoryHit, Exec, RedisScript, CountAdmittedBy;
    MemoryHits();
    FallsBack(Init(1), true, [1]);
    var w := Exec(Init(1), [Arrive(0, 1), Unreachable(0)], 1, WINDOW);
    GoesToRedis(w);
    ExecAppend(Init(1), [Arrive(0, 1), Unreachable(0)], [Arrive(0, 1)] + [Ask(1, 1), Run(1, 1, false)], 1);
    CountTwo([Call(0, 1, true, FellBack), Call(0, 1, false, Answered(true, 1))]);
    assert [] + [Call(0, 1, true, FellBack)] + [Call(0, 1, false, Answered(true, 1))] == [Call(0, 1, true, FellBack), Call(0, 1, false, Answered(true, 1))];
  }

  lemma CountTwo(calls: seq<Call>)
    requires calls == [Call(0, 1, true, FellBack), Call(0, 1, false, Answered(true, 1))]
    ensures CountAdmittedBy(calls, 0, 1, WINDOW) == 2
  {
    var init := calls[..1];
    assert init == [calls[0]] && init[..0] == [];
    assert CountAdmittedBy(init, 0, 1, WINDOW) == 1 by { assert Admitted(calls[0], 1, WINDOW); }
    assert Admitted(calls[1], 1, WINDOW);
  }

  const EVICTED_RUN := [Arrive(0, 1), Unreachable(0)] + ([Evict(0)] + ([Arrive(0, 1), Unreachable(1)] + ([Arrive(0, 1)] + [Ask(2, 1), Run(2, 1, false)])))

  /** Once the bucket is dropped with its hit still in the window, it can be three times the limit. */
  lemma EvictionAdmitsThree()
    ensures CountAdmittedBy(Exec(Init(1), EVICTED_RUN, 1, WINDOW).calls, 0, 1, WINDOW) == 3
  {
    hide MemoryHit, Exec, RedisScript, CountAdmittedBy;
    MemoryHits();
    var first, second := Call(0, 1, true, FellBack), Call(0, 1, false, Answered(true, 1));
    FallsBack(Init(1), true, [1]);
    var w1 := Exec(Init(1), [Arrive(0, 1), Unreachable(0)], 1, WINDOW);
    var w2 := Apply(w1, Evict(0), 1, WINDOW);
    assert w2.memories == [[]] && w2.calls == [first];
    ExecOne(w1, Evict(0), 1);
    FallsBack(w2, true, [1]);
    var w3 := Exec(w2, [Arrive(0, 1), Unreachable(1)], 1, WINDOW);
    GoesToRedis(w3);
    var rest := [Arrive(0, 1)] + [Ask(2, 1), Run(2, 1, false)];
    ExecAppend(w2, [Arrive(0, 1), Unreachable(1)], rest, 1);
    ExecAppend(w1, [Evict(0)], [Arrive(0, 1), Unreachable(1)] + rest, 1);
    ExecAppend(Init(1), [Arrive(0, 1), Unreachable(0)], [Evict(0)] + ([Arrive(0, 1), Unreachable(1)] + rest), 1);
    CountThree([first, first, second]);
    assert w3.calls + [second] == [first, first, second];
  }

  lemma CountThree(calls: seq<Call>)
    requires calls == [Call(0, 1, true, FellBack), Call(0, 1, true, FellBack), Call(0, 1, false, Answered(true, 1))]
    ensures CountAdmittedBy(calls, 0, 1, WINDOW) == 3
  {
    var init, one := calls[..2], calls[..1];
    assert init[..1] == one && one[..0] == [];
    assert Admitted(calls[0], 1, WINDOW) && Admitted(calls[2], 1, WINDOW);
    assert CountAdmittedBy(one, 0, 1, WINDOW) == 1;
    assert CountAdmittedBy(init, 0, 1, WINDOW) == 2;
  }
}
