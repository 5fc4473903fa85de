/**
 Runs of the redirect read cache.

 Every `await` in src/lib/link-cache.ts is a point where something else may
 happen, so a run is any sequence of `Event`s: reads, the database answering a
 load or failing it, a load being written back, a flight being dropped, rows changing,
 invalidations (local, or delivered by the bus), the bus going up or down, and
 time passing.  An event that cannot happen in a state changes nothing.
 */
module LinkCacheRuns {
  import opened Prelude
  import opened LinkCache

  datatype Config = Config(shortTtl: nat, busTtl: nat, maxEntries: nat)

  /** One single-flight load; `loaded` is set once, when the database answers, and never if it throws. */
  datatype Flight = Flight(key: Key, startedAt: nat, loaded: Option<LoadResult>, done: bool)

  /**
   `history[k]` holds the times at which the row behind `k` changed, so its
   current version is the length.  `writtenAt[k]` is when the cached entry of
   `k` was stored, `since` when the bus last went up or down.
   */
  datatype World = World(
    config: Config,
    cache: State,
    flights: seq<Flight>,
    history: map<Key, seq<nat>>,
    writtenAt: map<Key, nat>,
    clock: nat,
    connected: bool,
    since: nat)

  datatype Event =
    | Read(key: Key)
    | Answer(flight: nat, destination: Option<string>, urlId: Option<string>, notAfter: Option<int>)
    | Fail(flight: nat)
    | WriteBack(flight: nat, jitter: nat)
    | Drop(flight: nat)
    | Mutate(key: Key)
    | Invalidate(targets: Targets)
    | BusUp
    | BusDown
    | Tick(ms: nat)

  function Init(config: Config): World {
    World(config, State(map[], [], map[], {}), [], map[], map[], 0, false, 0)
  }

  function Changes(w: World, k: Key): seq<nat> {
    if k in w.history then w.history[k] else []
  }

  function Version(w: World, k: Key): nat {
    |Changes(w, k)|
  }

  function BaseTtl(w: World): nat {
    if w.connected then w.config.busTtl else w.config.shortTtl
  }

  function HostOf(k: Key): Option<string> {
    if k.DomainKey? then Some(k.host) else None
  }

  function Flush(st: State): State {
    Evicted(st, Targets([], [], [], true))
  }

  function Apply(w: World, e: Event): World {
    match e
    case Read(k) =>
      var found := Lookup(w.cache, k, w.clock, |w.flights|);
      w.(cache := AfterLookup(w.cache, k, found),
         flights := if found.Started? then w.flights + [Flight(k, w.clock, None, false)] else w.flights)
    case Answer(f, destination, urlId, notAfter) =>
      if f < |w.flights| && w.flights[f].loaded.None? && !w.flights[f].done then
        var k := w.flights[f].key;
        var result := LoadResult(Row(Version(w, k), w.clock, w.flights[f].startedAt, destination), urlId, HostOf(k), notAfter);
        w.(flights := w.flights[f := w.flights[f].(loaded := Some(result))])
      else w
    case Fail(f) =>
      if f < |w.flights| && w.flights[f].loaded.None? then w.(flights := w.flights[f := w.flights[f].(done := true)]) else w
    case WriteBack(f, jitter) =>
      if f < |w.flights| && w.flights[f].loaded.Some? && !w.flights[f].done && 10 * jitter <= 3 * BaseTtl(w) then
        var fl := w.flights[f];
        var expiresAt := NextExpiry(w.clock, BaseTtl(w), jitter, fl.loaded.value.notAfter);
        w.(flights := w.flights[f := fl.(done := true)],
           cache := Completed(w.cache, w.config.maxEntries, f, fl.key, fl.loaded.value, expiresAt, w.clock),
           writtenAt := if f in w.cache.stale then w.writtenAt else w.writtenAt[fl.key := w.clock])
      else w
    case Drop(f) =>
      if f < |w.flights| && w.flights[f].done then w.(cache := Settled(w.cache, f, w.flights[f].key)) else w
    case Mutate(k) => w.(history := w.history[k := Changes(w, k) + [w.clock]])
    case Invalidate(t) => w.(cache := Evicted(w.cache, t))
    case BusUp => if w.connected then w else w.(connected := true, cache := Flush(w.cache), since := w.clock)
    case BusDown => if !w.connected then w else w.(connected := false, cache := Flush(w.cache), since := w.clock)
    case Tick(ms) => w.(clock := w.clock + ms)
  }

  function Exec(w: World, es: seq<Event>): World
    decreases |es|
  {
    if es == [] then w else Exec(Apply(w, es[0]), es[1..])
  }

  lemma ExecAppend(w: World, es: seq<Event>, fs: seq<Event>)
    ensures Exec(w, es + fs) == Exec(Exec(w, es), fs)
    decreases |es|
  {
    if es == [] {
      assert es + fs == fs;
    } else {
      assert (es + fs)[1..] == es[1..] + fs;
      ExecAppend(Apply(w, es[0]), es[1..], fs);
    }
  }

  // ----- What every reachable state keeps -----

  /** Registered flights are theirs and fresh, and every unfinished fresh flight is registered. */
  ghost predicate FlightsTracked(w: World) {
    && (forall k :: k in w.cache.inflight ==>
          && w.cache.inflight[k] < |w.flights|
          && w.flights[w.cache.inflight[k]].key == k
          && w.cache.inflight[k] !in w.cache.stale)
    && (forall f :: 0 <= f < |w.flights| && !w.flights[f].done && f !in w.cache.stale ==>
          w.flights[f].key in w.cache.inflight && w.cache.inflight[w.flights[f].key] == f)
    && (forall f :: f in w.cache.stale ==> f < |w.flights|)
  }

  lemma RemovalKeepsTracked(w: World, gone: set<Key>)
    requires FlightsTracked(w)
    ensures FlightsTracked(w.(cache := Removed(w.cache, gone)))
  {
    hide Without;
    var after := Removed(w.cache, gone);
    forall k | k in after.inflight ensures after.inflight[k] !in after.stale {
      assert forall g :: g in gone && g in w.cache.inflight ==> w.flights[w.cache.inflight[g]].key == g;
    }
    forall f | 0 <= f < |w.flights| && !w.flights[f].done && f !in after.stale
      ensures w.flights[f].key in after.inflight && after.inflight[w.flights[f].key] == f
    {
      assert f !in w.cache.stale;
      assert w.flights[f].key !in gone;
    }
  }

  lemma WriteBackKeepsTracked(w: World, f: nat, jitter: nat)
    requires FlightsTracked(w)
    ensures FlightsTracked(Apply(w, WriteBack(f, jitter)))
  {
    hide Removed, Displaced, NextExpiry, BaseTtl;
    if f < |w.flights| {
      RemovalKeepsTracked(w, Displaced(w.cache, w.config.maxEntries, w.flights[f].key, w.clock));
    }
  }

  lemma ReadKeepsTracked(w: World, k: Key)
    requires FlightsTracked(w)
    ensures FlightsTracked(Apply(w, Read(k)))
  {
  }

  /** A load that ends, either way, changes only its own flight. */
  lemma LoadKeepsTracked(w: World, f: nat, flight: Flight)
    requires FlightsTracked(w) && f < |w.flights|
    requires flight.key == w.flights[f].key && (flight.done || flight.done == w.flights[f].done)
    ensures FlightsTracked(w.(flights := w.flights[f := flight]))
  {
  }

  lemma DropKeepsTracked(w: World, f: nat)
    requires FlightsTracked(w)
    ensures FlightsTracked(Apply(w, Drop(f)))
  {
  }

  lemma ApplyKeepsTracked(w: World, e: Event)
    requires FlightsTracked(w)
    ensures FlightsTracked(Apply(w, e))
  {
    match e
    case Read(k) => ReadKeepsTracked(w, k);
    case Answer(f, destination, urlId, notAfter) =>
      if f < |w.flights| { LoadKeepsTracked(w, f, Apply(w, e).flights[f]); }
    case Fail(f) =>
      if f < |w.flights| { LoadKeepsTracked(w, f, w.flights[f].(done := true)); }
    case WriteBack(f, jitter) => WriteBackKeepsTracked(w, f, jitter);
    case Drop(f) => DropKeepsTracked(w, f);
    case Invalidate(t) => RemovalKeepsTracked(w, ReachedKeys(w.cache, t));
    case BusUp => RemovalKeepsTracked(w, ReachedKeys(w.cache, Targets([], [], [], true)));
    case BusDown => RemovalKeepsTracked(w, ReachedKeys(w.cache, Targets([], [], [], true)));
    case _ =>
    hide Removed, Completed, ReachedKeys, NextExpiry, Changes;
  }

  lemma {:induction false} ExecKeepsTracked(w: World, es: seq<Event>)
    requires FlightsTracked(w)
    ensures FlightsTracked(Exec(w, es))
    decreases |es|
  {
    hide FlightsTracked, Apply;
    if es != [] {
      ApplyKeepsTracked(w, es[0]);
      ExecKeepsTracked(Apply(w, es[0]), es[1..]);
    }
  }

  lemma ApplyKeepsWellFormed(w: World, e: Event)
    requires w.config.maxEntries > 0 && WellFormed(w.cache, w.config.maxEntries)
    ensures WellFormed(Apply(w, e).cache, w.config.maxEntries) && Apply(w, e).config == w.config
  {
    hide Ordered, Removed, ReachedKeys, Stored, NextExpiry;
    match e
    case Invalidate(t) => RemovedWellFormed(w.cache, ReachedKeys(w.cache, t), w.config.maxEntries);
    case BusUp => RemovedWellFormed(w.cache, ReachedKeys(w.cache, Targets([], [], [], true)), w.config.maxEntries);
    case BusDown => RemovedWellFormed(w.cache, ReachedKeys(w.cache, Targets([], [], [], true)), w.config.maxEntries);
    case WriteBack(f, jitter) =>
      if f < |w.flights| && w.flights[f].loaded.Some? {
        var r := w.flights[f].loaded.value;
        StoredWithinBound(w.cache, w.config.maxEntries, w.flights[f].key,
          Entry(r.value, NextExpiry(w.clock, BaseTtl(w), jitter, r.notAfter), r.urlId, r.host), w.clock);
      }
    case _ =>
  }

  /** In every reachable state the cache is within its bound and its order lists its keys. */
  lemma {:induction false} ReachableWellFormed(w: World, es: seq<Event>)
    requires w.config.maxEntries > 0 && WellFormed(w.cache, w.config.maxEntries)
    ensures WellFormed(Exec(w, es).cache, w.config.maxEntries) && Exec(w, es).config == w.config
    decreases |es|
  {
    hide WellFormed, Apply;
    if es != [] {
      ApplyKeepsWellFormed(w, es[0]);
      ReachableWellFormed(Apply(w, es[0]), es[1..]);
    }
  }

  // ----- Freshness -----

  /** A reader could still be handed a row of `k` older than version `floor`. */
  predicate Exposed(w: World, k: Key, floor: nat) {
    || (k in w.cache.entries && w.cache.entries[k].expiresAt > w.clock && w.cache.entries[k].value.version < floor)
    || (k in w.cache.inflight && LoadedBefore(w, w.cache.inflight[k], floor))
  }

  predicate LoadedBefore(w: World, f: nat, floor: nat) {
    f < |w.flights| && w.flights[f].loaded.Some? && w.flights[f].loaded.value.value.version < floor
  }

  /** A read of `k` that starts in `w` has, after `es`, been answered with `row`. */
  predicate Returns(w: World, k: Key, es: seq<Event>, row: Row) {
    match Lookup(w.cache, k, w.clock, |w.flights|)
    case Hit(r) => r == row
    case Joined(f) => Delivered(Exec(Apply(w, Read(k)), es), f, row)
    case Started(f) => Delivered(Exec(Apply(w, Read(k)), es), f, row)
  }

  predicate Delivered(w: World, f: nat, row: Row) {
    f < |w.flights| && w.flights[f].done && w.flights[f].loaded.Some? && w.flights[f].loaded.value.value == row
  }

  lemma RemovalKeepsUnexposed(w: World, gone: set<Key>, k: Key, floor: nat)
    requires !Exposed(w, k, floor)
    ensures !Exposed(w.(cache := Removed(w.cache, gone)), k, floor)
  {
  }

  lemma WriteBackKeepsUnexposed(w: World, f: nat, jitter: nat, k: Key, floor: nat)
    requires FlightsTracked(w) && !Exposed(w, k, floor)
    ensures !Exposed(Apply(w, WriteBack(f, jitter)), k, floor)
  {
    hide Removed, Displaced, NextExpiry, BaseTtl;
    if f < |w.flights| {
      RemovalKeepsUnexposed(w, Displaced(w.cache, w.config.maxEntries, w.flights[f].key, w.clock), k, floor);
    }
  }

  lemma ApplyKeepsUnexposed(w: World, e: Event, k: Key, floor: nat)
    requires FlightsTracked(w) && floor <= Version(w, k) && !Exposed(w, k, floor)
    ensures floor <= Version(Apply(w, e), k) && !Exposed(Apply(w, e), k, floor)
  {
    hide Removed, Completed, ReachedKeys, NextExpiry;
    match e
    case Invalidate(t) => RemovalKeepsUnexposed(w, ReachedKeys(w.cache, t), k, floor);
    case BusUp => RemovalKeepsUnexposed(w, ReachedKeys(w.cache, Targets([], [], [], true)), k, floor);
    case BusDown => RemovalKeepsUnexposed(w, ReachedKeys(w.cache, Targets([], [], [], true)), k, floor);
    case WriteBack(f, jitter) => WriteBackKeepsUnexposed(w, f, jitter, k, floor);
    case _ =>
  }

  lemma {:induction false} ExecKeepsUnexposed(w: World, es: seq<Event>, k: Key, floor: nat)
    requires FlightsTracked(w) && floor <= Version(w, k) && !Exposed(w, k, floor)
    ensures floor <= Version(Exec(w, es), k) && !Exposed(Exec(w, es), k, floor)
    decreases |es|
  {
    hide FlightsTracked, Apply, Exposed, Version;
    if es != [] {
      ApplyKeepsUnexposed(w, es[0], k, floor);
      ApplyKeepsTracked(w, es[0]);
      ExecKeepsUnexposed(Apply(w, es[0]), es[1..], k, floor);
    }
  }

  /** A flight that has not read a row older than `floor` never will: rows only move forward. */
  predicate FlightAtLeast(w: World, f: nat, k: Key, floor: nat) {
    f < |w.flights| && w.flights[f].key == k && floor <= Version(w, k) && !LoadedBefore(w, f, floor)
  }

  lemma ApplyKeepsFlight(w: World, e: Event, f: nat, k: Key, floor: nat)
    requires FlightAtLeast(w, f, k, floor)
    ensures FlightAtLeast(Apply(w, e), f, k, floor)
  {
    hide AfterLookup, Lookup, Completed, Settled, Evicted, NextExpiry, Flush;
  }

  lemma {:induction false} ExecKeepsFlight(w: World, es: seq<Event>, f: nat, k: Key, floor: nat)
    requires FlightAtLeast(w, f, k, floor)
    ensures FlightAtLeast(Exec(w, es), f, k, floor)
    decreases |es|
  {
    hide FlightAtLeast, Apply;
    if es != [] {
      ApplyKeepsFlight(w, es[0], f, k, floor);
      ExecKeepsFlight(Apply(w, es[0]), es[1..], f, k, floor);
    }
  }

  /** Nothing exposed now, nothing stale ever read. */
  lemma UnexposedReadsAreFresh(w: World, k: Key, floor: nat, es: seq<Event>, fs: seq<Event>, row: Row)
    requires FlightsTracked(w) && floor <= Version(w, k) && !Exposed(w, k, floor)
    requires Returns(Exec(w, es), k, fs, row)
    ensures row.version >= floor
  {
    hide Apply, Version, FlightsTracked;
    var v := Exec(w, es);
    ExecKeepsUnexposed(w, es, k, floor);
    ExecKeepsTracked(w, es);
    var found := Lookup(v.cache, k, v.clock, |v.flights|);
    if !found.Hit? {
      var v' := Apply(v, Read(k));
      ReadRegisters(v, k, floor);
      ExecKeepsFlight(v', fs, found.flight, k, floor);
    }
  }

  lemma ReadRegisters(w: World, k: Key, floor: nat)
    requires FlightsTracked(w) && floor <= Version(w, k) && !Exposed(w, k, floor)
    requires !Lookup(w.cache, k, w.clock, |w.flights|).Hit?
    ensures FlightAtLeast(Apply(w, Read(k)), Lookup(w.cache, k, w.clock, |w.flights|).flight, k, floor)
  {
  }

  /** The read that goes wrong when something is exposed: `es` lets a live entry lapse, `fs` finishes the load. */
  lemma ExposedReadIsStale(w: World, k: Key, floor: nat) returns (es: seq<Event>, fs: seq<Event>, row: Row)
    requires FlightsTracked(w) && Exposed(w, k, floor)
    ensures Returns(Exec(w, es), k, fs, row) && row.version < floor
  {
    if k in w.cache.entries && w.cache.entries[k].expiresAt > w.clock && w.cache.entries[k].value.version < floor {
      es, fs, row := [], [], w.cache.entries[k].value;
    } else {
      var f := w.cache.inflight[k];
      var wait: nat := if k in w.cache.entries && w.cache.entries[k].expiresAt > w.clock
                       then w.cache.entries[k].expiresAt - w.clock else 0;
      es, fs, row := [Tick(wait)], [WriteBack(f, 0)], w.flights[f].loaded.value.value;
      var v := Apply(w, Tick(wait));
      assert Exec(w, es) == v by { hide Apply; assert es[1..] == []; }
      assert Lookup(v.cache, k, v.clock, |v.flights|) == Joined(f);
      assert Apply(v, Read(k)) == v;
      WritesBack(v, f);
    }
  }

  lemma WritesBack(w: World, f: nat)
    requires f < |w.flights| && w.flights[f].loaded.Some?
    ensures Delivered(Exec(w, [WriteBack(f, 0)]), f, w.flights[f].loaded.value.value)
  {
    hide Completed, NextExpiry;
    var v := Apply(w, WriteBack(f, 0));
    assert Exec(w, [WriteBack(f, 0)]) == v by { hide Apply; assert [WriteBack(f, 0)][1..] == []; }
  }

  /** Exactly when every later read, in every continuation, is at least as new as `floor`. */
  lemma FreshnessIsExact(w: World, k: Key, floor: nat)
    requires FlightsTracked(w) && floor <= Version(w, k)
    ensures (forall es, fs, row :: Returns(Exec(w, es), k, fs, row) ==> row.version >= floor)
        <==> !Exposed(w, k, floor)
  {
    hide FlightsTracked, Version, Apply, Returns, Exposed;
    if Exposed(w, k, floor) {
      var es, fs, row := ExposedReadIsStale(w, k, floor);
      assert Returns(Exec(w, es), k, fs, row);
    } else {
      forall es, fs, row | Returns(Exec(w, es), k, fs, row) ensures row.version >= floor {
        UnexposedReadsAreFresh(w, k, floor, es, fs, row);
      }
    }
  }

  /**
   After an invalidation, no read of a key it reached returns a row older than
   the one current at that moment.  Codes and link ids are always reached,
   because the invalidation names their keys whether or not they are cached.
   */
  lemma FreshAfterInvalidation(config: Config, before: seq<Event>, t: Targets, k: Key, es: seq<Event>, fs: seq<Event>, row: Row)
    requires var w := Exec(Init(config), before);
      && (Named(t, k) || t.all || (k in w.cache.entries && CarriesTarget(t, w.cache.entries[k])))
      && Returns(Exec(Init(config), before + [Invalidate(t)] + es), k, fs, row)
    ensures row.version >= Version(Exec(Init(config), before), k)
  {
    var w := Exec(Init(config), before);
    var v := Apply(w, Invalidate(t));
    ExecAppend(Init(config), before, [Invalidate(t)]);
    ExecAppend(Init(config), before + [Invalidate(t)], es);
    assert Exec(w, [Invalidate(t)]) == v;
    ExecKeepsTracked(Init(config), before);
    ApplyKeepsTracked(w, Invalidate(t));
    InvalidationExposes(w, t, k, Version(w, k));
    TargetReaches(w.cache, t, k);
    UnexposedReadsAreFresh(v, k, Version(w, k), es, fs, row);
  }

  /** What an invalidation leaves exposed: only keys it did not reach. */
  lemma InvalidationExposes(w: World, t: Targets, k: Key, floor: nat)
    ensures Exposed(Apply(w, Invalidate(t)), k, floor)
        <==> k !in ReachedKeys(w.cache, t) && Exposed(w, k, floor)
  {
    hide Without, ReachedKeys;
  }

  lemma TargetReaches(st: State, t: Targets, k: Key)
    requires Named(t, k) || t.all || (k in st.entries && CarriesTarget(t, st.entries[k]))
    ensures k in ReachedKeys(st, t) || (k !in st.entries && k !in st.inflight)
  {
    hide CarriesTarget;
    if !t.all && Named(t, k) {
      assert k in NamedKeys(t);
    }
  }

  // ----- A finished load is joined no longer -----

  /** The registered flight of a key is the last one of that key. */
  ghost predicate LastRegistered(w: World) {
    forall k, f :: k in w.cache.inflight && 0 <= f < |w.flights| && w.flights[f].key == k ==> f <= w.cache.inflight[k]
  }

  lemma ApplyKeepsLast(w: World, e: Event)
    requires FlightsTracked(w) && LastRegistered(w)
    ensures LastRegistered(Apply(w, e))
  {
    hide Without, ReachedKeys, Displaced, NextExpiry, Changes;
  }

  /** Dropping a finished flight unregisters that flight and touches nothing else. */
  lemma DropUnregisters(w: World, f: nat)
    requires FlightsTracked(w) && f < |w.flights| && w.flights[f].done
    ensures var v := Apply(w, Drop(f));
      && (forall k :: k in v.cache.inflight ==> v.cache.inflight[k] != f)
      && (forall k :: k in w.cache.inflight && w.cache.inflight[k] != f ==> k in v.cache.inflight && v.cache.inflight[k] == w.cache.inflight[k])
      && (forall k :: k in v.cache.inflight ==> k in w.cache.inflight)
      && v.cache.entries == w.cache.entries && v.cache.order == w.cache.order && v.cache.stale == w.cache.stale
      && v == w.(cache := v.cache)
  {
  }

  /** No key is registered for the flight, which has a number already. */
  ghost predicate Unregistered(w: World, f: nat) {
    f < |w.flights| && forall k :: k in w.cache.inflight ==> w.cache.inflight[k] != f
  }

  lemma ApplyKeepsUnregistered(w: World, e: Event, f: nat)
    requires Unregistered(w, f)
    ensures Unregistered(Apply(w, e), f) && Apply(w, e).flights[f].key == w.flights[f].key
  {
    hide Without, ReachedKeys, Displaced, NextExpiry, Changes;
  }

  lemma {:induction false} ExecKeepsUnregistered(w: World, es: seq<Event>, f: nat)
    requires Unregistered(w, f)
    ensures Unregistered(Exec(w, es), f) && Exec(w, es).flights[f].key == w.flights[f].key
    decreases |es|
  {
    hide Unregistered, Apply;
    if es != [] {
      assert f < |w.flights| by { UnregisteredHasNumber(w, f); }
      ApplyKeepsUnregistered(w, es[0], f);
      assert f < |Apply(w, es[0]).flights| by { UnregisteredHasNumber(Apply(w, es[0]), f); }
      ExecKeepsUnregistered(Apply(w, es[0]), es[1..], f);
    }
  }

  lemma UnregisteredHasNumber(w: World, f: nat)
    requires Unregistered(w, f)
    ensures f < |w.flights|
  {
  }

  lemma {:induction false} ExecKeepsLast(w: World, es: seq<Event>)
    requires FlightsTracked(w) && LastRegistered(w)
    ensures LastRegistered(Exec(w, es))
    decreases |es|
  {
    hide FlightsTracked, LastRegistered, Apply;
    if es != [] {
      ApplyKeepsTracked(w, es[0]);
      ApplyKeepsLast(w, es[0]);
      ExecKeepsLast(Apply(w, es[0]), es[1..]);
    }
  }

  /**
   Once a finished load of a key has been dropped, a read of the key never joins it
   again: with no live entry it starts a new load, or joins a later one.
   */
  lemma DroppedLoadIsNotJoined(config: Config, before: seq<Event>, f: nat, after: seq<Event>)
    requires var w := Exec(Init(config), before); f < |w.flights| && w.flights[f].done
    ensures var k := Exec(Init(config), before).flights[f].key;
      var w := Exec(Init(config), before + [Drop(f)] + after);
      match Lookup(w.cache, k, w.clock, |w.flights|)
      case Hit(row) => k in w.cache.entries && w.cache.entries[k].expiresAt > w.clock && row == w.cache.entries[k].value
      case Joined(g) => k in w.cache.inflight && w.cache.inflight[k] == g && f < g < |w.flights| && w.flights[g].key == k
      case Started(g) => g == |w.flights|
  {
    hide Apply;
    var u := Exec(Init(config), before);
    ExecAppend(Init(config), before, [Drop(f)]);
    ExecAppend(Init(config), before + [Drop(f)], after);
    ExecKeepsTracked(Init(config), before) by { InitTracked(config); }
    var v := Apply(u, Drop(f));
    assert Exec(u, [Drop(f)]) == v by { assert [Drop(f)][1..] == []; }
    DropUnregisters(u, f);
    ExecKeepsUnregistered(v, after, f);
    var w := Exec(v, after);
    ExecKeepsTracked(Init(config), before + [Drop(f)] + after);
    ExecKeepsLast(Init(config), before + [Drop(f)] + after) by { InitTracked(config); }
  }

  // ----- Custom-domain keys: where freshness stops -----

  /** Cached custom-domain entries carry the host they were read for. */
  ghost predicate HostsTagged(w: World) {
    && (forall k :: k in w.cache.entries ==> w.cache.entries[k].host == HostOf(k))
    && (forall f :: 0 <= f < |w.flights| && w.flights[f].loaded.Some? ==>
          w.flights[f].loaded.value.host == HostOf(w.flights[f].key))
  }

  lemma ApplyKeepsHostsTagged(w: World, e: Event)
    requires HostsTagged(w)
    ensures HostsTagged(Apply(w, e))
  {
    hide Without, ReachedKeys, Displaced, NextExpiry;
  }

  lemma {:induction false} ExecKeepsHostsTagged(w: World, es: seq<Event>)
    requires HostsTagged(w)
    ensures HostsTagged(Exec(w, es))
    decreases |es|
  {
    hide HostsTagged, Apply;
    if es != [] {
      ApplyKeepsHostsTagged(w, es[0]);
      ExecKeepsHostsTagged(Apply(w, es[0]), es[1..]);
    }
  }

  /** A row of `k` older than `floor` sits in a live entry. */
  predicate LiveStale(w: World, k: Key, floor: nat) {
    k in w.cache.entries && w.cache.entries[k].expiresAt > w.clock && w.cache.entries[k].value.version < floor
  }

  predicate LoadingStale(w: World, k: Key, floor: nat) {
    k in w.cache.inflight && LoadedBefore(w, w.cache.inflight[k], floor)
  }

  /**
   No invalidation names a custom-domain key: ids and hosts reach one only through
   an entry that is already cached and carries them.  An invalidation of ids and
   hosts leaves a domain path open to a stale read exactly when the path has no
   cached entry that carries one of them, and an older row sits in a live entry or
   has been read by a load under way.
   */
  lemma DomainPathGap(config: Config, before: seq<Event>, t: Targets, host: string, path: string)
    requires !t.all
    ensures var w := Exec(Init(config), before);
            var k := DomainKey(host, path);
            (forall es, fs, row :: Returns(Exec(Apply(w, Invalidate(t)), es), k, fs, row) ==> row.version >= Version(w, k))
            <==> ((k in w.cache.entries && CarriesTarget(t, w.cache.entries[k]))
                    || !(LiveStale(w, k, Version(w, k)) || LoadingStale(w, k, Version(w, k))))
  {
    hide Apply, Returns, LoadedBefore, FlightsTracked, ReachedKeys, Version, CarriesTarget;
    var w := Exec(Init(config), before);
    var k := DomainKey(host, path);
    ExecKeepsTracked(Init(config), before) by { InitTracked(config); }
    ApplyKeepsTracked(w, Invalidate(t));
    InvalidationKeepsHistory(w, t, k);
    FreshnessIsExact(Apply(w, Invalidate(t)), k, Version(w, k));
    InvalidationExposes(w, t, k, Version(w, k));
    DomainReached(w.cache, t, host, path);
  }

  lemma DomainReached(st: State, t: Targets, host: string, path: string)
    requires !t.all
    ensures var k := DomainKey(host, path);
      k in ReachedKeys(st, t) <==> k in st.entries && CarriesTarget(t, st.entries[k])
  {
    hide CarriesTarget;
  }

  /** For a host of the path itself: exactly when the path is not cached and a load has read an older row. */
  lemma HostInvalidationGap(config: Config, before: seq<Event>, t: Targets, host: string, path: string)
    requires host != "" && host in t.hosts && !t.all
    ensures var w := Exec(Init(config), before);
            var k := DomainKey(host, path);
            (forall es, fs, row :: Returns(Exec(Apply(w, Invalidate(t)), es), k, fs, row) ==> row.version >= Version(w, k))
            <==> !(k !in w.cache.entries && LoadingStale(w, k, Version(w, k)))
  {
    hide Apply, Returns, LoadedBefore, ReachedKeys, Version, CarriesTarget, Exec;
    var w := Exec(Init(config), before);
    ExecKeepsHostsTagged(Init(config), before);
    HostReaches(w, t, host, path);
    DomainReached(w.cache, t, host, path);
    DomainPathGap(config, before, t, host, path);
  }

  lemma InitTracked(config: Config)
    ensures FlightsTracked(Init(config))
  {
  }

  lemma InvalidationKeepsHistory(w: World, t: Targets, k: Key)
    ensures Version(Apply(w, Invalidate(t)), k) == Version(w, k)
  {
    hide Evicted;
  }

  lemma HostReaches(w: World, t: Targets, host: string, path: string)
    requires HostsTagged(w) && host != "" && host in t.hosts && !t.all
    ensures DomainKey(host, path) in ReachedKeys(w.cache, t) <==> DomainKey(host, path) in w.cache.entries
  {
    var k := DomainKey(host, path);
    if k in w.cache.entries {
      var i :| 0 <= i < |t.hosts| && t.hosts[i] == host;
      assert Carries(w.cache.entries[k].host, t.hosts[i]);
      assert CarriesTarget(t, w.cache.entries[k]);
    }
  }

  /** Both gaps are real: the row changes and is invalidated while its first load is waiting to be written back. */
  lemma DomainLoadIsMissed(config: Config, urlId: Option<string>, t: Targets)
    requires config.shortTtl > 0 && !t.all
    ensures var k := DomainKey("go.example", "/a");
            var w := Exec(Init(config), [Read(k), Answer(0, None, urlId, None), Mutate(k), Invalidate(t), WriteBack(0, 0)]);
            Version(w, k) == 1 && Returns(w, k, [], Row(0, 0, 0, None))
  {
    hide Removed;
    var k := DomainKey("go.example", "/a");
    var w1 := Apply(Init(config), Read(k));
    var w2 := Apply(w1, Answer(0, None, urlId, None));
    var w3 := Apply(w2, Mutate(k));
    assert w3.cache == State(map[], [], map[k := 0], {});
    UncachedMissed(w3.cache, t, k);
    var w4 := Apply(w3, Invalidate(t));
    assert w4 == w3;
    RemovedNothing(w4.cache);
    assert config.maxEntries > 0 ==> Displaced(w4.cache, config.maxEntries, k, 0) == {};
    var w5 := Apply(w4, WriteBack(0, 0));
    assert w5.cache.entries[k] == Entry(Row(0, 0, 0, None), config.shortTtl, urlId, Some("go.example"));
    assert Exec(Init(config), [Read(k), Answer(0, None, urlId, None), Mutate(k), Invalidate(t), WriteBack(0, 0)]) == w5 by {
      hide Apply;
      ExecFive(Init(config), Read(k), Answer(0, None, urlId, None), Mutate(k), Invalidate(t), WriteBack(0, 0));
    }
  }

  lemma UncachedMissed(st: State, t: Targets, k: Key)
    requires st == State(map[], [], map[k := 0], {}) && k.DomainKey? && !t.all
    ensures Evicted(st, t) == st
  {
    var gone := ReachedKeys(st, t);
    assert k !in gone;
    var after := Removed(st, gone);
    assert after.entries == map[] && after.order == [] && after.inflight == st.inflight;
    assert after.stale == {};
  }

  /** A host is invalidated. */
  lemma HostInvalidationMissesLoad(config: Config)
    requires config.shortTtl > 0
    ensures var k := DomainKey("go.example", "/a");
            var w := Exec(Init(config), [Read(k), Answer(0, None, None, None), Mutate(k), Invalidate(Hosts(["go.example"])), WriteBack(0, 0)]);
            Version(w, k) == 1 && Returns(w, k, [], Row(0, 0, 0, None))
  {
    hide Apply, Exec, Returns, Version;
    DomainLoadIsMissed(config, None, Hosts(["go.example"]));
  }

  /** A link is invalidated by its code and id, and the load had found that very link. */
  lemma LinkInvalidationMissesLoad(config: Config)
    requires config.shortTtl > 0
    ensures var k := DomainKey("go.example", "/a");
            var t := Targets(["a"], ["u1"], [], false);
            var w := Exec(Init(config), [Read(k), Answer(0, None, Some("u1"), None), Mutate(k), Invalidate(t), WriteBack(0, 0)]);
            Version(w, k) == 1 && Returns(w, k, [], Row(0, 0, 0, None))
  {
    hide Apply, Exec, Returns, Version;
    DomainLoadIsMissed(config, Some("u1"), Targets(["a"], ["u1"], [], false));
  }

  lemma ExecCons(w: World, e: Event, es: seq<Event>)
    ensures Exec(w, [e] + es) == Exec(Apply(w, e), es)
    ensures es == [] ==> Exec(w, [e] + es) == Apply(w, e)
  {
    hide Apply;
    assert ([e] + es)[1..] == es;
  }

  lemma ExecFive(w: World, a: Event, b: Event, c: Event, d: Event, e: Event)
    ensures Exec(w, [a, b, c, d, e]) == Apply(Apply(Apply(Apply(Apply(w, a), b), c), d), e)
  {
    hide Apply;
    var v1, v2 := Apply(w, a), Apply(Apply(w, a), b);
    ExecCons(w, a, [b, c, d, e]);
    ExecCons(v1, b, [c, d, e]);
    ExecCons(v2, c, [d, e]);
    ExecCons(Apply(v2, c), d, [e]);
    ExecCons(Apply(Apply(v2, c), d), e, []);
    hide Exec;
    assert [a] + [b, c, d, e] == [a, b, c, d, e] && [b] + [c, d, e] == [b, c, d, e];
    assert [c] + [d, e] == [c, d, e] && [d] + [e] == [d, e] && [e] + [] == [e];
  }
}
