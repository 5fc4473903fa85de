/**
 Runs of the click queue (src/lib/queue.ts): two Redis lists, a dead-letter list,
 any number of workers, and the database.

 A worker first moves what an earlier worker left behind back to the queue, claims
 items one by one, persists, then acknowledges.  Each command is one step; between
 two steps any other worker may run, and a worker that fails takes no further step.
 */
module ClickQueueRuns {
  import opened Prelude
  import opened ClickStore

  /** A list element: text that parses to a click, or text that does not. */
  datatype Payload = Good(text: string, click: Click) | Bad(text: string)

  datatype Stage = Claiming | Persisted | Quarantined

  datatype Worker = Worker(items: seq<Payload>, stage: Stage)

  datatype World = World(
    queue: seq<Payload>,
    processing: seq<Payload>,
    dlq: seq<Payload>,
    workers: map<nat, Worker>,
    db: Db,
    filtered: set<Click>,
    pushed: set<Payload>,
    direct: set<string>)

  datatype Event =
    | Push(payload: Payload)
    | PushDirect(click: Click, env: Env)
    | Begin(worker: nat)
    | Recover(worker: nat)
    | Claim(worker: nat)
    | Persist(worker: nat, env: Env)
    | Acknowledge(worker: nat, payload: Payload)
    | Quarantine(worker: nat)
    | AcknowledgeBad(worker: nat, payload: Payload)
    | Stop(worker: nat)

  function Init(): World {
    World([], [], [], map[], Db(map[], map[]), {}, {}, {})
  }

  function Last<T>(s: seq<T>): T
    requires s != []
  {
    s[|s| - 1]
  }

  function Front<T>(s: seq<T>): seq<T>
    requires s != []
  {
    s[..|s| - 1]
  }

  /** `LREM key 1 x`: drop the first occurrence, if any. */
  function RemoveFirst(s: seq<Payload>, x: Payload): seq<Payload> {
    if s == [] then []
    else if s[0] == x then s[1..]
    else [s[0]] + RemoveFirst(s[1..], x)
  }

  function Clicks(items: seq<Payload>): seq<Click> {
    if items == [] then []
    else Clicks(Front(items)) + if Last(items).Good? then [Last(items).click] else []
  }

  function Malformed(items: seq<Payload>): seq<Payload> {
    if items == [] then []
    else Malformed(Front(items)) + if Last(items).Bad? then [Last(items)] else []
  }

  function Unwelcome(items: seq<Click>, env: Env): set<Click> {
    set c | c in items && !Welcome(c, env)
  }

  /** `LPUSH key a b c`: each in turn becomes the head. */
  function LPushAll(list: seq<Payload>, items: seq<Payload>): seq<Payload>
    decreases |items|
  {
    if items == [] then list else LPushAll([items[0]] + list, items[1..])
  }

  lemma {:induction false} LPushAllMembers(list: seq<Payload>, items: seq<Payload>)
    ensures forall p :: p in LPushAll(list, items) <==> p in list || p in items
    decreases |items|
  {
    if items != [] {
      LPushAllMembers([items[0]] + list, items[1..]);
    }
  }

  predicate InStage(w: World, i: nat, stage: Stage) {
    i in w.workers && w.workers[i].stage == stage
  }

  function Apply(w: World, e: Event): World {
    match e
    case Push(p) => w.(queue := [p] + w.queue, pushed := w.pushed + {p})
    case PushDirect(c, env) =>
      w.(db := Committed(w.db, [c], env), filtered := w.filtered + Unwelcome([c], env), direct := w.direct + {c.id})
    case Begin(i) => if i in w.workers then w else w.(workers := w.workers[i := Worker([], Claiming)])
    case Recover(i) =>
      if InStage(w, i, Claiming) && w.workers[i].items == [] && w.processing != [] then
        w.(queue := [Last(w.processing)] + w.queue, processing := Front(w.processing))
      else w
    case Claim(i) =>
      if InStage(w, i, Claiming) && w.queue != [] then
        w.(queue := Front(w.queue), processing := [Last(w.queue)] + w.processing,
           workers := w.workers[i := Worker(w.workers[i].items + [Last(w.queue)], Claiming)])
      else w
    case Persist(i, env) =>
      if InStage(w, i, Claiming) then
        var clicks := Clicks(w.workers[i].items);
        w.(db := if clicks == [] then w.db else Committed(w.db, clicks, env),
           filtered := w.filtered + Unwelcome(clicks, env),
           workers := w.workers[i := w.workers[i].(stage := Persisted)])
      else w
    case Acknowledge(i, p) =>
      if InStage(w, i, Persisted) && p.Good? && p in w.workers[i].items then
        w.(processing := RemoveFirst(w.processing, p))
      else w
    case Quarantine(i) =>
      if InStage(w, i, Persisted) then
        w.(dlq := LPushAll(w.dlq, Malformed(w.workers[i].items)),
           workers := w.workers[i := w.workers[i].(stage := Quarantined)])
      else w
    case AcknowledgeBad(i, p) =>
      if InStage(w, i, Quarantined) && p.Bad? && p in w.workers[i].items then
        w.(processing := RemoveFirst(w.processing, p))
      else w
    case Stop(i) => w.(workers := w.workers - {i})
  }

  function Exec(w: World, es: seq<Event>): World
    decreases |es|
  {
    if es == [] then w else Exec(Apply(w, es[0]), es[1..])
  }

  // ----- No click is lost -----

  /** Dealt with: a click stored or filtered out, a malformed payload quarantined. */
  predicate Settled(w: World, p: Payload) {
    match p
    case Good(_, c) => c.id in w.db.events || c in w.filtered
    case Bad(_) => p in w.dlq
  }

  predicate Held(w: World, p: Payload) {
    p in w.queue || p in w.processing
  }

  ghost predicate NothingLost(w: World) {
    && (forall p :: p in w.pushed ==> Held(w, p) || Settled(w, p))
    && (forall i, p :: i in w.workers && p in w.workers[i].items ==>
          && (p.Good? && !w.workers[i].stage.Claiming? ==> Settled(w, p))
          && (p.Bad? && w.workers[i].stage.Quarantined? ==> Settled(w, p)))
  }

  lemma RemoveFirstKeepsOthers(s: seq<Payload>, x: Payload, p: Payload)
    requires p in s && p != x
    ensures p in RemoveFirst(s, x)
  {
  }

  lemma {:induction false} ClicksOf(items: seq<Payload>, p: Payload)
    requires p in items
    ensures p.Good? ==> p.click in Clicks(items)
    ensures p.Bad? ==> p in Malformed(items)
  {
    assert items == Front(items) + [Last(items)];
    if p != Last(items) {
      ClicksOf(Front(items), p);
    }
  }

  /** What is dealt with stays dealt with. */
  lemma SettledForever(w: World, e: Event, p: Payload)
    requires Settled(w, p)
    ensures Settled(Apply(w, e), p)
  {
    hide Committed, Clicks, Malformed, RemoveFirst, Unwelcome, LPushAll;
    match e
    case Quarantine(i) =>
      if i in w.workers {
        LPushAllMembers(w.dlq, Malformed(w.workers[i].items));
      }
    case PushDirect(c, env) => CommitStoresWelcome(w.db, [c], env);
    case Persist(i, env) =>
      if i in w.workers {
        CommitStoresWelcome(w.db, Clicks(w.workers[i].items), env);
      }
    case _ =>
  }

  lemma PersistSettles(w: World, i: nat, env: Env, p: Payload)
    requires InStage(w, i, Claiming) && p in w.workers[i].items && p.Good?
    ensures Settled(Apply(w, Persist(i, env)), p)
  {
    var clicks := Clicks(w.workers[i].items);
    ClicksOf(w.workers[i].items, p);
    CommitStoresWelcome(w.db, clicks, env);
  }

  lemma QuarantineSettles(w: World, i: nat, p: Payload)
    requires InStage(w, i, Persisted) && p in w.workers[i].items && p.Bad?
    ensures Settled(Apply(w, Quarantine(i)), p)
  {
    LPushAllMembers(w.dlq, Malformed(w.workers[i].items));
    ClicksOf(w.workers[i].items, p);
  }

  lemma HeldOrSettled(w: World, e: Event, p: Payload)
    requires NothingLost(w) && Held(w, p)
    ensures Held(Apply(w, e), p) || Settled(Apply(w, e), p)
  {
    hide Committed, Clicks, Malformed, Unwelcome, RemoveFirst, Settled;
    match e
    case Recover(i) => if w.processing != [] { assert w.processing == Front(w.processing) + [Last(w.processing)]; }
    case Claim(i) => if w.queue != [] { assert w.queue == Front(w.queue) + [Last(w.queue)]; }
    case Acknowledge(i, x) =>
      if p == x {
        if InStage(w, i, Persisted) && x.Good? && x in w.workers[i].items { SettledForever(w, e, p); }
      } else if p in w.processing {
        RemoveFirstKeepsOthers(w.processing, x, p);
      }
    case AcknowledgeBad(i, x) =>
      if p == x {
        if InStage(w, i, Quarantined) && x.Bad? && x in w.workers[i].items { SettledForever(w, e, p); }
      } else if p in w.processing {
        RemoveFirstKeepsOthers(w.processing, x, p);
      }
    case _ =>
  }

  lemma ApplyLosesNothing(w: World, e: Event)
    requires NothingLost(w)
    ensures NothingLost(Apply(w, e))
  {
    hide Held, Settled, Committed, Clicks, Malformed, Unwelcome, RemoveFirst;
    var v := Apply(w, e);
    forall p | p in v.pushed ensures Held(v, p) || Settled(v, p) {
      if p in w.pushed {
        if Held(w, p) { HeldOrSettled(w, e, p); } else { SettledForever(w, e, p); }
      } else {
        PushHolds(w, p);
      }
    }
    forall i, p | i in v.workers && p in v.workers[i].items
      ensures (p.Good? && !v.workers[i].stage.Claiming? ==> Settled(v, p))
        && (p.Bad? && v.workers[i].stage.Quarantined? ==> Settled(v, p))
    {
      WorkerSettled(w, e, i, p);
    }
  }

  lemma PushHolds(w: World, p: Payload)
    ensures Held(Apply(w, Push(p)), p)
  {
  }

  lemma WorkerSettled(w: World, e: Event, i: nat, p: Payload)
    requires NothingLost(w) && i in Apply(w, e).workers && p in Apply(w, e).workers[i].items
    ensures p.Good? && !Apply(w, e).workers[i].stage.Claiming? ==> Settled(Apply(w, e), p)
    ensures p.Bad? && Apply(w, e).workers[i].stage.Quarantined? ==> Settled(Apply(w, e), p)
  {
    hide Held, Settled, Committed, Clicks, Malformed, Unwelcome, RemoveFirst;
    var v := Apply(w, e);
    if i in w.workers && w.workers[i] == v.workers[i] {
      if Settled(w, p) { SettledForever(w, e, p); }
    } else if e.Persist? {
      if p.Good? { PersistSettles(w, i, e.env, p); }
    } else if e.Quarantine? {
      if p.Bad? { QuarantineSettles(w, i, p); } else { SettledForever(w, e, p); }
    }
  }

  lemma {:induction false} ExecLosesNothing(w: World, es: seq<Event>)
    requires NothingLost(w)
    ensures NothingLost(Exec(w, es))
    decreases |es|
  {
    hide NothingLost, Apply;
    if es != [] {
      ApplyLosesNothing(w, es[0]);
      ExecLosesNothing(Apply(w, es[0]), es[1..]);
    }
  }

  /**
   In every run, whatever fails, every payload that reached Redis is still in one
   of the two lists, or its click is stored, or some step found its click without a
   workspace or excluded, or (if malformed) it is in the dead-letter list.
   */
  lemma NoClickIsLost(es: seq<Event>, p: Payload)
    requires p in Exec(Init(), es).pushed
    ensures var w := Exec(Init(), es);
      || p in w.queue || p in w.processing
      || (p.Good? && p.click.id in w.db.events)
      || (p.Good? && exists n :: 0 <= n < |es| && TurnsAway(Exec(Init(), es[..n]), es[n], p.click))
      || (p.Bad? && p in w.dlq)
  {
    hide TurnsAway, Exec;
    ExecLosesNothing(Init(), es);
    var w := Exec(Init(), es);
    assert Held(w, p) || Settled(w, p);
    if p.Good? && p.click in w.filtered { FilteredWasUnwelcome(Init(), es, p.click); }
  }

  /** The step prepares this click, which the answers it gets leave out. */
  predicate TurnsAway(w: World, e: Event, c: Click) {
    match e
    case PushDirect(d, env) => c == d && !Welcome(c, env)
    case Persist(i, env) => InStage(w, i, Claiming) && c in Clicks(w.workers[i].items) && !Welcome(c, env)
    case _ => false
  }

  lemma StepFilters(w: World, e: Event, c: Click)
    requires c in Apply(w, e).filtered && c !in w.filtered
    ensures TurnsAway(w, e, c)
  {
    hide Committed, Clicks, Malformed, RemoveFirst, LPushAll, Welcome;
  }

  /**
   In every run, a click is filtered out only by a step that prepared it when its
   link had no workspace, or its workspace excluded its address.
   */
  lemma {:induction false} FilteredWasUnwelcome(w: World, es: seq<Event>, c: Click)
    requires c in Exec(w, es).filtered && c !in w.filtered
    ensures exists n :: 0 <= n < |es| && TurnsAway(Exec(w, es[..n]), es[n], c)
    decreases |es|
  {
    hide Apply, TurnsAway;
    var v := Apply(w, es[0]);
    if c in v.filtered {
      StepFilters(w, es[0], c);
      assert Exec(w, es[..0]) == w;
    } else {
      FilteredWasUnwelcome(v, es[1..], c);
      var n :| 0 <= n < |es[1..]| && TurnsAway(Exec(v, es[1..][..n]), es[1..][n], c);
      assert es[..n + 1][1..] == es[1..][..n] && es[..n + 1][0] == es[0];
      assert TurnsAway(Exec(w, es[..n + 1]), es[n + 1], c);
    }
  }

  // ----- Every click is counted once -----

  lemma {:induction false} ExecKeepsExact(w: World, es: seq<Event>)
    requires Exact(w.db)
    ensures Exact(Exec(w, es).db)
    decreases |es|
  {
    hide Exact, Committed, Clicks, Malformed, Unwelcome, RemoveFirst;
    if es != [] {
      match es[0] {
        case PushDirect(c, env) => CommitKeepsExact(w.db, [c], env);
        case Persist(i, env) =>
          if i in w.workers {
            CommitKeepsExact(w.db, Clicks(w.workers[i].items), env);
          }
        case _ =>
      }
      ExecKeepsExact(Apply(w, es[0]), es[1..]);
    }
  }

  /**
   In every run, with redelivery, recovery by other workers and crashes, each
   counter equals the number of distinct stored events it is about.

   A transaction of these runs is `Committed`.  The program's own computes it when no
   day holds `|` and no link or day holds NUL (`ClickAggregates.ClickDatabase.PersistBatch`);
   with such texts its glued keys can merge two counters (`DayKeyCollides`).
   */
  lemma CountersAreExact(es: seq<Event>, cell: Cell)
    ensures Value(Exec(Init(), es).db, cell) == Total(Exec(Init(), es).db.events, cell)
  {
    EmptyIsExact();
    ExecKeepsExact(Init(), es);
  }

  lemma EmptyIsExact()
    ensures Exact(Db(map[], map[]))
  {
    var none: map<string, Stored> := map[];
    forall cell ensures Total(none, cell) == 0 {
      assert (set id | id in none && Counts(cell, none[id])) == {};
    }
  }

  // ----- Nothing is invented -----

  predicate Known(w: World, p: Payload) {
    p in w.pushed
  }

  ghost predicate HasSource(w: World, id: string) {
    id in w.direct || exists p :: p in w.pushed && p.Good? && p.click.id == id
  }

  ghost predicate AllFromPushes(w: World) {
    ListsFromPushes(w) && WorkersFromPushes(w) && forall id :: id in w.db.events ==> HasSource(w, id)
  }

  lemma {:induction false} ClicksComeFrom(items: seq<Payload>, c: Click)
    requires c in Clicks(items)
    ensures exists p :: p in items && p.Good? && p.click == c
  {
    assert items == Front(items) + [Last(items)];
    if c in Clicks(Front(items)) {
      ClicksComeFrom(Front(items), c);
    } else {
      assert Last(items) in items;
    }
  }

  lemma {:induction false} MalformedComeFrom(items: seq<Payload>, p: Payload)
    requires p in Malformed(items)
    ensures p in items
  {
    assert items == Front(items) + [Last(items)];
    if p in Malformed(Front(items)) {
      MalformedComeFrom(Front(items), p);
    }
  }

  lemma RemoveFirstSubset(s: seq<Payload>, x: Payload)
    ensures forall p :: p in RemoveFirst(s, x) ==> p in s
  {
  }

  lemma SourceForever(w: World, e: Event, id: string)
    requires HasSource(w, id)
    ensures HasSource(Apply(w, e), id)
  {
    hide Committed, Clicks, Malformed, Unwelcome, RemoveFirst, LPushAll;
    if id !in w.direct {
      var p :| p in w.pushed && p.Good? && p.click.id == id;
      assert p in Apply(w, e).pushed;
    }
  }

  lemma NewEventsHaveSource(w: World, e: Event, id: string)
    requires AllFromPushes(w) && id in Apply(w, e).db.events && id !in w.db.events
    ensures HasSource(Apply(w, e), id)
  {
    hide Malformed, Unwelcome, RemoveFirst, LPushAll, Committed;
    match e
    case PushDirect(c, env) => CommitAddsOnly(w.db, [c], env, id);
    case Persist(i, env) =>
      var items := w.workers[i].items;
      CommitAddsOnly(w.db, Clicks(items), env, id);
      var c :| c in Clicks(items) && c.id == id;
      ClicksComeFrom(items, c);
      var p :| p in items && p.Good? && p.click == c;
      assert Known(w, p);
      assert p in Apply(w, e).pushed;
    case _ =>
  }

  ghost predicate ListsFromPushes(w: World) {
    forall p :: p in w.queue || p in w.processing || p in w.dlq ==> Known(w, p)
  }

  ghost predicate WorkersFromPushes(w: World) {
    forall i, p :: i in w.workers && p in w.workers[i].items ==> Known(w, p)
  }

  lemma ListsKeepSourcesOnMove(w: World, e: Event)
    requires ListsFromPushes(w) && (e.Recover? || e.Claim?)
    ensures ListsFromPushes(Apply(w, e))
  {
    var v := Apply(w, e);
    forall p | p in v.queue || p in v.processing || p in v.dlq ensures Known(v, p) {
      if p !in v.dlq { MovedWithin(w, e, p); }
      assert p in w.queue || p in w.processing || p in w.dlq;
      assert Known(w, p);
    }
  }

  lemma MovedWithin(w: World, e: Event, p: Payload)
    requires e.Recover? || e.Claim?
    requires p in Apply(w, e).queue || p in Apply(w, e).processing
    ensures p in w.queue || p in w.processing
  {
    if e.Recover? && w.processing != [] {
      assert w.processing == Front(w.processing) + [Last(w.processing)];
    } else if e.Claim? && w.queue != [] {
      assert w.queue == Front(w.queue) + [Last(w.queue)];
    }
  }

  lemma ListsKeepSources(w: World, e: Event)
    requires ListsFromPushes(w) && WorkersFromPushes(w)
    ensures ListsFromPushes(Apply(w, e))
  {
    hide Committed, Clicks, Malformed, Unwelcome, RemoveFirst, LPushAll;
    match e
    case Recover(_) => ListsKeepSourcesOnMove(w, e);
    case Claim(_) => ListsKeepSourcesOnMove(w, e);
    case Acknowledge(_, p) => RemoveFirstSubset(w.processing, p);
    case AcknowledgeBad(_, p) => RemoveFirstSubset(w.processing, p);
    case Quarantine(i) =>
      if i in w.workers {
        LPushAllMembers(w.dlq, Malformed(w.workers[i].items));
        forall p | p in Malformed(w.workers[i].items) ensures Known(w, p) {
          MalformedComeFrom(w.workers[i].items, p);
        }
      }
    case _ =>
  }

  lemma WorkersKeepSources(w: World, e: Event)
    requires ListsFromPushes(w) && WorkersFromPushes(w)
    ensures WorkersFromPushes(Apply(w, e))
  {
    hide Committed, Clicks, Malformed, Unwelcome, RemoveFirst, LPushAll;
    var v := Apply(w, e);
    forall i, p | i in v.workers && p in v.workers[i].items ensures Known(v, p) {
      if i in w.workers && p in w.workers[i].items {
        assert Known(w, p);
      } else {
        assert e == Claim(i) && p == Last(w.queue);
        assert p in w.queue;
      }
    }
  }

  lemma ApplyKeepsSources(w: World, e: Event)
    requires AllFromPushes(w)
    ensures AllFromPushes(Apply(w, e))
  {
    hide Apply, HasSource;
    var v := Apply(w, e);
    forall id | id in v.db.events ensures HasSource(v, id) {
      if id in w.db.events { SourceForever(w, e, id); } else { NewEventsHaveSource(w, e, id); }
    }
    ListsKeepSources(w, e);
    WorkersKeepSources(w, e);
  }

  lemma {:induction false} ExecKeepsSources(w: World, es: seq<Event>)
    requires AllFromPushes(w)
    ensures AllFromPushes(Exec(w, es))
    decreases |es|
  {
    hide AllFromPushes, Apply;
    if es != [] {
      ApplyKeepsSources(w, es[0]);
      ExecKeepsSources(Apply(w, es[0]), es[1..]);
    }
  }

  /** Every stored event is a click that was pushed, and the dead-letter list holds only pushed payloads. */
  lemma NothingIsInvented(es: seq<Event>)
    ensures var w := Exec(Init(), es);
      && (forall id :: id in w.db.events ==> HasSource(w, id))
      && (forall p :: p in w.dlq ==> p in w.pushed)
  {
    ExecKeepsSources(Init(), es);
  }

  // ----- Everything can be settled -----

  lemma {:induction false} ExecAppend(w: World, es: seq<Event>, fs: seq<Event>)
    ensures Exec(w, es + fs) == Exec(Exec(w, es), fs)
    decreases |es|
  {
    hide Apply;
    if es == [] {
      assert es + fs == fs;
    } else {
      assert (es + fs)[1..] == es[1..] + fs;
      ExecAppend(Apply(w, es[0]), es[1..], fs);
    }
  }

  lemma Then(w: World, e: Event, es: seq<Event>)
    ensures Exec(w, [e] + es) == Exec(Apply(w, e), es)
  {
    assert ([e] + es)[1..] == es;
  }

  lemma {:induction false} FreshWorker(workers: set<nat>) returns (i: nat)
    ensures forall k :: k in workers ==> k < i
  {
    if workers == {} {
      i := 0;
    } else {
      var k :| k in workers;
      var rest := FreshWorker(workers - {k});
      assert workers == workers - {k} + {k};
      i := if rest <= k then k + 1 else rest;
    }
  }

  /** The worker is at this stage and holds all that is in the processing list. */
  predicate HoldsAll(w: World, i: nat, stage: Stage) {
    InStage(w, i, stage) && forall p :: p in w.processing ==> p in w.workers[i].items
  }

  /** What earlier workers left behind goes back to the queue. */
  lemma {:induction false} RecoversAll(w: World, i: nat) returns (es: seq<Event>)
    requires InStage(w, i, Claiming) && w.workers[i].items == []
    ensures var v := Exec(w, es); v.processing == [] && v.pushed == w.pushed && HoldsAll(v, i, Claiming)
    decreases |w.processing|
  {
    if w.processing == [] {
      es := [];
    } else {
      var rest := RecoversAll(Apply(w, Recover(i)), i);
      es := [Recover(i)] + rest;
      Then(w, Recover(i), rest);
    }
  }

  lemma {:induction false} ClaimsAll(w: World, i: nat) returns (es: seq<Event>)
    requires HoldsAll(w, i, Claiming)
    ensures var v := Exec(w, es); v.queue == [] && v.pushed == w.pushed && HoldsAll(v, i, Claiming)
    decreases |w.queue|
  {
    if w.queue == [] {
      es := [];
    } else {
      var rest := ClaimsAll(Apply(w, Claim(i)), i);
      es := [Claim(i)] + rest;
      Then(w, Claim(i), rest);
    }
  }

  lemma RemovedOne(s: seq<Payload>, x: Payload)
    requires x in s
    ensures |RemoveFirst(s, x)| == |s| - 1
    ensures forall p :: p in RemoveFirst(s, x) ==> p in s
  {
    RemoveFirstSubset(s, x);
    if s[0] != x { RemovedOne(s[1..], x); }
  }

  /** Persisted clicks are acknowledged one by one. */
  lemma {:induction false} AcknowledgesGood(w: World, i: nat) returns (es: seq<Event>)
    requires HoldsAll(w, i, Persisted) && w.queue == []
    ensures var v := Exec(w, es);
      v.queue == [] && v.pushed == w.pushed && HoldsAll(v, i, Persisted) && forall p :: p in v.processing ==> p.Bad?
    decreases |w.processing|
  {
    if p :| p in w.processing && p.Good? {
      RemovedOne(w.processing, p);
      var rest := AcknowledgesGood(Apply(w, Acknowledge(i, p)), i);
      es := [Acknowledge(i, p)] + rest;
      Then(w, Acknowledge(i, p), rest);
    } else {
      es := [];
    }
  }

  /** Then what was malformed, once it is in the dead-letter list. */
  lemma {:induction false} AcknowledgesBad(w: World, i: nat) returns (es: seq<Event>)
    requires HoldsAll(w, i, Quarantined) && w.queue == [] && forall p :: p in w.processing ==> p.Bad?
    ensures var v := Exec(w, es); v.queue == [] && v.pushed == w.pushed && v.processing == []
    decreases |w.processing|
  {
    if w.processing == [] {
      es := [];
    } else {
      var p := w.processing[0];
      assert p in w.processing;
      RemovedOne(w.processing, p);
      var rest := AcknowledgesBad(Apply(w, AcknowledgeBad(i, p)), i);
      es := [AcknowledgeBad(i, p)] + rest;
      Then(w, AcknowledgeBad(i, p), rest);
    }
  }

  /** One worker that nobody disturbs, from beginning to end. */
  lemma PassEmptiesLists(w: World, env: Env) returns (es: seq<Event>)
    ensures var v := Exec(w, es); v.queue == [] && v.processing == [] && v.pushed == w.pushed
  {
    var i := FreshWorker(w.workers.Keys);
    assert i !in w.workers;
    var w1 := Apply(w, Begin(i));
    var a := RecoversAll(w1, i);
    var w2 := Exec(w1, a);
    var b := ClaimsAll(w2, i);
    var w3 := Exec(w2, b);
    var w4 := Apply(w3, Persist(i, env));
    assert HoldsAll(w4, i, Persisted) && w4.queue == [] && w4.pushed == w.pushed;
    var c := AcknowledgesGood(w4, i);
    var w5 := Exec(w4, c);
    var w6 := Apply(w5, Quarantine(i));
    assert HoldsAll(w6, i, Quarantined) && w6.queue == [] && w6.pushed == w.pushed;
    var d := AcknowledgesBad(w6, i);
    hide Apply, Exec;
    es := [Begin(i)] + (a + (b + ([Persist(i, env)] + (c + ([Quarantine(i)] + d)))));
    Then(w, Begin(i), a + (b + ([Persist(i, env)] + (c + ([Quarantine(i)] + d)))));
    ExecAppend(w1, a, b + ([Persist(i, env)] + (c + ([Quarantine(i)] + d))));
    ExecAppend(w2, b, [Persist(i, env)] + (c + ([Quarantine(i)] + d)));
    Then(w3, Persist(i, env), c + ([Quarantine(i)] + d));
    ExecAppend(w4, c, [Quarantine(i)] + d);
    Then(w5, Quarantine(i), d);
  }

  /**
   Whatever has happened, crashes included, the run can go on so that both lists are
   empty and every payload pushed so far is dealt with.
   */
  lemma EverythingCanBeSettled(before: seq<Event>, env: Env) returns (after: seq<Event>)
    ensures var w := Exec(Init(), before + after);
      && w.queue == [] && w.processing == []
      && forall p :: p in Exec(Init(), before).pushed ==> Settled(w, p)
  {
    hide Exec, Settled;
    var w := Exec(Init(), before);
    after := PassEmptiesLists(w, env);
    ExecAppend(Init(), before, after);
    ExecLosesNothing(Init(), before + after) by { NothingYet(); }
    var v := Exec(Init(), before + after);
    forall p | p in w.pushed ensures Settled(v, p) {
      assert Held(v, p) || Settled(v, p);
    }
  }

  lemma NothingYet()
    ensures NothingLost(Init())
  {
  }
}
