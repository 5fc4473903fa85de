/**
 How long a run of the redirect read cache can go on serving an overwritten row
 when the invalidation for it never arrives (src/lib/link-cache.ts).

 An entry's life is bounded by the TTL of the bus state it was stored under, plus
 at most 30 per cent of jitter; a change of bus state drops every entry, so the
 state it was stored under is the present one.  The row it holds was current when
 the database answered, at most one load time before it was stored.  `Timed` keeps
 these facts together, and every event keeps `Timed`.
 */
module LinkCacheTiming {
  import opened Prelude
  import opened LinkCache
  import opened LinkCacheRuns

  // ----- How long a missed invalidation can be served -----

  /** `row` is what the database held for `k` when it was read: any newer version was written at or after that. */
  predicate WasCurrent(w: World, k: Key, row: Row) {
    && row.version <= Version(w, k) && row.readAt <= w.clock
    && (row.version < Version(w, k) ==> row.readAt <= Changes(w, k)[row.version])
  }

  /** Every entry was stored under the present bus state, and lapses within that state's TTL and jitter. */
  predicate EntryTimed(w: World, k: Key)
    requires k in w.cache.entries
  {
    && k in w.writtenAt && w.since <= w.writtenAt[k] <= w.clock
    && w.cache.entries[k].value.readAt <= w.writtenAt[k]
    && 10 * (w.cache.entries[k].expiresAt - w.writtenAt[k]) <= 13 * BaseTtl(w)
    && WasCurrent(w, k, w.cache.entries[k].value)
  }

  ghost predicate Timed(w: World) {
    && w.since <= w.clock
    && (forall k :: k in w.cache.entries ==> EntryTimed(w, k))
    && (forall f :: 0 <= f < |w.flights| && w.flights[f].loaded.Some? ==>
          WasCurrent(w, w.flights[f].key, w.flights[f].loaded.value.value))
  }

  lemma RemovalKeepsTimed(w: World, gone: set<Key>)
    requires Timed(w)
    ensures Timed(w.(cache := Removed(w.cache, gone)))
  {
    hide Without, BaseTtl;
    var v := w.(cache := Removed(w.cache, gone));
    forall k | k in v.cache.entries ensures EntryTimed(v, k) {
      assert EntryTimed(w, k);
      assert BaseTtl(v) == BaseTtl(w) by { SameBase(w, v); }
    }
  }

  lemma SameBase(w: World, v: World)
    requires v.connected == w.connected && v.config == w.config
    ensures BaseTtl(v) == BaseTtl(w)
  {
  }

  /** Stored rows never time out later than their TTL plus its jitter allows. */
  lemma ExpiryBound(now: nat, base: nat, jitter: nat, notAfter: Option<int>)
    requires 10 * jitter <= 3 * base
    ensures 10 * (NextExpiry(now, base, jitter, notAfter) - now) <= 13 * base
  {
  }

  lemma WriteBackKeepsTimed(w: World, f: nat, jitter: nat)
    requires Timed(w)
    ensures Timed(Apply(w, WriteBack(f, jitter)))
  {
    hide Without, Displaced, NextExpiry, WasCurrent;
    var v := Apply(w, WriteBack(f, jitter));
    if v != w {
      var fl := w.flights[f];
      ExpiryBound(w.clock, BaseTtl(w), jitter, fl.loaded.value.notAfter);
      SameBase(w, v);
      forall k, row | WasCurrent(w, k, row) ensures WasCurrent(v, k, row) { SameHistory(w, v, k, row); }
      assert WasCurrent(w, fl.key, fl.loaded.value.value);
      ReadBeforeNow(w, fl.key, fl.loaded.value.value);
      forall k | k in v.cache.entries ensures EntryTimed(v, k) {
        if k in w.cache.entries {
          assert EntryTimed(w, k);
        }
      }
    }
  }

  lemma SameHistory(w: World, v: World, k: Key, row: Row)
    requires WasCurrent(w, k, row) && v.history == w.history && v.clock >= w.clock
    ensures WasCurrent(v, k, row)
  {
  }

  lemma ReadBeforeNow(w: World, k: Key, row: Row)
    requires WasCurrent(w, k, row)
    ensures row.readAt <= w.clock
  {
  }

  lemma MutateKeepsCurrent(w: World, m: Key, k: Key, row: Row)
    requires WasCurrent(w, k, row)
    ensures WasCurrent(Apply(w, Mutate(m)), k, row)
  {
  }

  lemma MutateKeepsTimed(w: World, m: Key)
    requires Timed(w)
    ensures Timed(Apply(w, Mutate(m)))
  {
    hide WasCurrent;
    var v := Apply(w, Mutate(m));
    SameBase(w, v);
    forall k, row | WasCurrent(w, k, row) ensures WasCurrent(v, k, row) { MutateKeepsCurrent(w, m, k, row); }
    forall k | k in v.cache.entries ensures EntryTimed(v, k) { assert EntryTimed(w, k); }
  }

  lemma TickKeepsTimed(w: World, ms: nat)
    requires Timed(w)
    ensures Timed(Apply(w, Tick(ms)))
  {
    hide WasCurrent;
    var v := Apply(w, Tick(ms));
    SameBase(w, v);
    forall k, row | WasCurrent(w, k, row) ensures WasCurrent(v, k, row) { SameHistory(w, v, k, row); }
    forall k | k in v.cache.entries ensures EntryTimed(v, k) { assert EntryTimed(w, k); }
  }

  lemma ReadKeepsTimed(w: World, k: Key)
    requires Timed(w)
    ensures Timed(Apply(w, Read(k)))
  {
    hide WasCurrent;
    var v := Apply(w, Read(k));
    forall k, row | WasCurrent(w, k, row) ensures WasCurrent(v, k, row) { SameHistory(w, v, k, row); }
    forall k | k in v.cache.entries ensures EntryTimed(v, k) { assert EntryTimed(w, k); }
  }

  lemma AnswerKeepsTimed(w: World, e: Event)
    requires Timed(w) && (e.Answer? || e.Fail? || e.Drop?)
    ensures Timed(Apply(w, e))
  {
    hide WasCurrent, Changes;
    var v := Apply(w, e);
    forall k, row | WasCurrent(w, k, row) ensures WasCurrent(v, k, row) { SameHistory(w, v, k, row); }
    forall k | k in v.cache.entries ensures EntryTimed(v, k) { assert EntryTimed(w, k); }
    if e.Answer? && e.flight < |w.flights| {
      NowIsCurrent(w, w.flights[e.flight].key, w.flights[e.flight].startedAt, e.destination);
      SameHistory(w, v, w.flights[e.flight].key, Row(Version(w, w.flights[e.flight].key), w.clock, w.flights[e.flight].startedAt, e.destination));
    }
  }

  lemma NowIsCurrent(w: World, k: Key, asOf: nat, destination: Option<string>)
    ensures WasCurrent(w, k, Row(Version(w, k), w.clock, asOf, destination))
  {
  }

  lemma FlushKeepsTimed(w: World, e: Event)
    requires Timed(w) && (e.BusUp? || e.BusDown?)
    ensures Timed(Apply(w, e))
  {
    hide WasCurrent, Flush;
    FlushEmpties(w.cache);
    var v := Apply(w, e);
    forall k, row | WasCurrent(w, k, row) ensures WasCurrent(v, k, row) { SameHistory(w, v, k, row); }
  }

  lemma ApplyKeepsTimed(w: World, e: Event)
    requires Timed(w)
    ensures Timed(Apply(w, e))
  {
    match e
    case Invalidate(t) => RemovalKeepsTimed(w, ReachedKeys(w.cache, t));
    case WriteBack(f, jitter) => WriteBackKeepsTimed(w, f, jitter);
    case Mutate(m) => MutateKeepsTimed(w, m);
    case Tick(ms) => TickKeepsTimed(w, ms);
    case Read(k) => ReadKeepsTimed(w, k);
    case Answer(_, _, _, _) => AnswerKeepsTimed(w, e);
    case Fail(_) => AnswerKeepsTimed(w, e);
    case Drop(_) => AnswerKeepsTimed(w, e);
    case BusUp => FlushKeepsTimed(w, e);
    case BusDown => FlushKeepsTimed(w, e);
  }

  lemma FlushEmpties(st: State)
    ensures Flush(st).entries == map[]
  {
  }

  lemma {:induction false} ExecKeepsTimed(w: World, es: seq<Event>)
    requires Timed(w)
    ensures Timed(Exec(w, es))
    decreases |es|
  {
    hide Timed, Apply;
    if es != [] {
      ApplyKeepsTimed(w, es[0]);
      ExecKeepsTimed(Apply(w, es[0]), es[1..]);
    }
  }

  /**
   Even if every invalidation is lost, a hit that serves an overwritten row
   happens less than one load time plus 1.3 TTL after the overwrite.  The TTL
   is the one of the bus state the hit is served in, because the entry was
   stored after the last change of bus state.
   */
  lemma StaleHitBound(config: Config, es: seq<Event>, k: Key)
    requires var w := Exec(Init(config), es);
      k in w.cache.entries && w.cache.entries[k].expiresAt > w.clock && w.cache.entries[k].value.version < Version(w, k)
    ensures var w := Exec(Init(config), es);
      var row := w.cache.entries[k].value;
      var overwritten := Changes(w, k)[row.version];
      && k in w.writtenAt && w.since <= w.writtenAt[k]
      && 10 * (w.clock - overwritten) < 10 * (w.writtenAt[k] - row.readAt) + 13 * BaseTtl(w)
  {
    ExecKeepsTimed(Init(config), es);
    assert EntryTimed(Exec(Init(config), es), k);
  }

  // ----- Reads that join a load -----

  /** The run has dropped the flight after it was done. */
  ghost predicate Dropped(config: Config, es: seq<Event>, f: nat) {
    exists n :: 0 <= n < |es| && es[n] == Drop(f)
      && var w := Exec(Init(config), es[..n]); f < |w.flights| && w.flights[f].done
  }

  lemma DroppedIsUnregistered(config: Config, es: seq<Event>, f: nat)
    requires Dropped(config, es, f)
    ensures Unregistered(Exec(Init(config), es), f)
  {
    hide Apply, Exec;
    var n :| 0 <= n < |es| && es[n] == Drop(f)
      && var w := Exec(Init(config), es[..n]); f < |w.flights| && w.flights[f].done;
    var w := Exec(Init(config), es[..n]);
    assert es == es[..n] + ([Drop(f)] + es[n + 1..]);
    ExecAppend(Init(config), es[..n], [Drop(f)] + es[n + 1..]);
    ExecCons(w, Drop(f), es[n + 1..]);
    ExecKeepsTracked(Init(config), es[..n]) by { InitTracked(config); }
    DropUnregisters(w, f);
    DropKeepsFlights(w, f);
    ExecKeepsUnregistered(Apply(w, Drop(f)), es[n + 1..], f);
  }

  lemma DropKeepsFlights(w: World, f: nat)
    ensures Apply(w, Drop(f)).flights == w.flights
  {
  }

  /** What a load has read it keeps, and delivers. */
  lemma ApplyKeepsLoaded(w: World, e: Event, f: nat)
    requires f < |w.flights| && w.flights[f].loaded.Some?
    ensures f < |Apply(w, e).flights| && Apply(w, e).flights[f].loaded == w.flights[f].loaded
  {
    hide AfterLookup, Lookup, Completed, Settled, Evicted, NextExpiry, Flush, Changes;
  }

  lemma {:induction false} ExecKeepsLoaded(w: World, es: seq<Event>, f: nat)
    requires f < |w.flights| && w.flights[f].loaded.Some?
    ensures f < |Exec(w, es).flights| && Exec(w, es).flights[f].loaded == w.flights[f].loaded
    decreases |es|
  {
    hide Apply;
    if es != [] {
      ApplyKeepsLoaded(w, es[0], f);
      ExecKeepsLoaded(Apply(w, es[0]), es[1..], f);
    }
  }

  /** A row older than the one current when the read starts was loaded before that. */
  lemma StaleRowWasLoaded(w: World, k: Key, fs: seq<Event>, row: Row)
    requires FlightsTracked(w) && Returns(w, k, fs, row) && row.version < Version(w, k)
    requires !Lookup(w.cache, k, w.clock, |w.flights|).Hit?
    ensures k in w.cache.inflight
    ensures var f := w.cache.inflight[k];
      && f < |w.flights| && w.flights[f].key == k && w.flights[f].loaded.Some? && w.flights[f].loaded.value.value == row
  {
    hide Apply, FlightsTracked, Version;
    var floor := Version(w, k);
    var found := Lookup(w.cache, k, w.clock, |w.flights|);
    var v := Apply(w, Read(k));
    if found.Joined? && found.flight < |w.flights| && w.flights[found.flight].loaded.Some? {
      ReadKeepsLoads(w, k, found.flight);
      ExecKeepsLoaded(v, fs, found.flight);
      RegisteredIsOwn(w, k);
    } else {
      NotLoadedYet(w, k);
      ExecKeepsFlight(v, fs, found.flight, k, floor);
    }
  }

  lemma RegisteredIsOwn(w: World, k: Key)
    requires FlightsTracked(w) && k in w.cache.inflight
    ensures w.cache.inflight[k] < |w.flights| && w.flights[w.cache.inflight[k]].key == k
  {
  }

  lemma ReadKeepsLoads(w: World, k: Key, f: nat)
    requires f < |w.flights|
    ensures f < |Apply(w, Read(k)).flights| && Apply(w, Read(k)).flights[f] == w.flights[f]
  {
  }

  /** A read that starts a load, or joins one that has read nothing yet. */
  lemma NotLoadedYet(w: World, k: Key)
    requires FlightsTracked(w) && !Lookup(w.cache, k, w.clock, |w.flights|).Hit?
    requires var found := Lookup(w.cache, k, w.clock, |w.flights|);
      found.Joined? && found.flight < |w.flights| ==> w.flights[found.flight].loaded.None?
    ensures FlightAtLeast(Apply(w, Read(k)), Lookup(w.cache, k, w.clock, |w.flights|).flight, k, Version(w, k))
  {
  }

  /**
   For every row that a read returns, hit, joined or loaded: if it was overwritten
   before the read started, then either a live entry served it, within the bound
   above, or a load did that had read it before it was overwritten and has not been
   dropped since it was done.
   */
  lemma StaleReadBound(config: Config, es: seq<Event>, k: Key, fs: seq<Event>, row: Row)
    requires var w := Exec(Init(config), es); Returns(w, k, fs, row) && row.version < Version(w, k)
    ensures var w := Exec(Init(config), es);
      var overwritten := Changes(w, k)[row.version];
      || (&& k in w.cache.entries && row == w.cache.entries[k].value && k in w.writtenAt && w.since <= w.writtenAt[k]
          && 10 * (w.clock - overwritten) < 10 * (w.writtenAt[k] - row.readAt) + 13 * BaseTtl(w))
      || (exists f :: 0 <= f < |w.flights| && w.flights[f].key == k
            && w.flights[f].loaded.Some? && w.flights[f].loaded.value.value == row
            && row.readAt <= overwritten && !Dropped(config, es, f))
  {
    hide Exec, Returns, FlightsTracked, Dropped, WasCurrent;
    var w := Exec(Init(config), es);
    ExecKeepsTracked(Init(config), es) by { InitTracked(config); }
    if Lookup(w.cache, k, w.clock, |w.flights|).Hit? {
      HitReturnsEntry(w, k, fs, row);
      StaleHitBound(config, es, k);
    } else {
      StaleRowWasLoaded(w, k, fs, row);
      var f := w.cache.inflight[k];
      ExecKeepsTimed(Init(config), es) by { InitTimed(config); }
      assert WasCurrent(w, k, row);
      OverwrittenLater(w, k, row);
      if Dropped(config, es, f) { DroppedIsUnregistered(config, es, f); }
      assert !Dropped(config, es, f);
    }
  }

  lemma InitTimed(config: Config)
    ensures Timed(Init(config))
  {
  }

  lemma HitReturnsEntry(w: World, k: Key, fs: seq<Event>, row: Row)
    requires Lookup(w.cache, k, w.clock, |w.flights|).Hit? && Returns(w, k, fs, row)
    ensures k in w.cache.entries && w.cache.entries[k].expiresAt > w.clock && row == w.cache.entries[k].value
  {
  }

  lemma OverwrittenLater(w: World, k: Key, row: Row)
    requires WasCurrent(w, k, row) && row.version < Version(w, k)
    ensures row.readAt <= Changes(w, k)[row.version]
  {
  }

  // ----- How long an entry lives, and which goes first -----

  /** A row that is written back lives for its TTL and at most 30 per cent more, unless its cap comes first; then to its cap. */
  lemma StoredForItsTtl(w: World, f: nat, jitter: nat)
    requires f < |w.flights| && w.flights[f].loaded.Some? && !w.flights[f].done && f !in w.cache.stale
    requires 10 * jitter <= 3 * if w.connected then w.config.busTtl else w.config.shortTtl
    ensures var ttl := if w.connected then w.config.busTtl else w.config.shortTtl;
      var v, key, loaded := Apply(w, WriteBack(f, jitter)), w.flights[f].key, w.flights[f].loaded.value;
      && key in v.cache.entries
      && var e := v.cache.entries[key];
         && e.value == loaded.value && e.urlId == loaded.urlId && e.host == loaded.host
         && 10 * (e.expiresAt - w.clock) <= 13 * ttl
         && (loaded.notAfter.None? ==> e.expiresAt >= w.clock + ttl)
         && (loaded.notAfter.Some? ==>
               e.expiresAt <= loaded.notAfter.value
               && (e.expiresAt == loaded.notAfter.value || e.expiresAt >= w.clock + ttl))
  {
    hide Displaced, Removed;
  }

  /** From its head on, the order lists keys by when they were stored. */
  predicate ByAge(order: seq<Key>, writtenAt: map<Key, nat>, from: nat)
    decreases |order|
  {
    order == [] || (order[0] in writtenAt && from <= writtenAt[order[0]] && ByAge(order[1..], writtenAt, writtenAt[order[0]]))
  }

  lemma {:induction false} ByAgeFrom(order: seq<Key>, writtenAt: map<Key, nat>, from: nat, earlier: nat)
    requires ByAge(order, writtenAt, from) && earlier <= from
    ensures ByAge(order, writtenAt, earlier)
  {
  }

  lemma {:induction false} WithoutByAge(order: seq<Key>, gone: set<Key>, writtenAt: map<Key, nat>, from: nat)
    requires ByAge(order, writtenAt, from)
    ensures ByAge(Without(order, gone), writtenAt, from)
    decreases |order|
  {
    if order != [] {
      WithoutByAge(order[1..], gone, writtenAt, writtenAt[order[0]]);
      if order[0] in gone {
        ByAgeFrom(Without(order[1..], gone), writtenAt, writtenAt[order[0]], from);
      } else {
        assert ([order[0]] + Without(order[1..], gone))[1..] == Without(order[1..], gone);
      }
    }
  }

  lemma {:induction false} AppendByAge(order: seq<Key>, writtenAt: map<Key, nat>, from: nat, key: Key, now: nat)
    requires ByAge(order, writtenAt, from) && key !in order && from <= now
    requires forall k :: k in writtenAt ==> writtenAt[k] <= now
    ensures ByAge(order + [key], writtenAt[key := now], from)
    decreases |order|
  {
    if order == [] {
      assert order + [key] == [key];
    } else {
      AppendByAge(order[1..], writtenAt, writtenAt[order[0]], key, now);
      assert (order + [key])[1..] == order[1..] + [key];
    }
  }

  lemma {:induction false} ListsMembers(order: seq<Key>, keys: set<Key>)
    requires Lists(order, keys)
    ensures forall k :: k in order <==> k in keys
    decreases |order|
  {
    if order != [] {
      ListsMembers(order[1..], keys - {order[0]});
      assert order == [order[0]] + order[1..];
    }
  }

  ghost predicate Aged(w: World) {
    && w.config.maxEntries > 0 && WellFormed(w.cache, w.config.maxEntries)
    && (forall k :: k in w.writtenAt ==> w.writtenAt[k] <= w.clock)
    && ByAge(w.cache.order, w.writtenAt, 0)
  }

  lemma WriteBackKeepsAged(w: World, f: nat, jitter: nat)
    requires Aged(w)
    ensures ByAge(Apply(w, WriteBack(f, jitter)).cache.order, Apply(w, WriteBack(f, jitter)).writtenAt, 0)
  {
    hide Displaced, NextExpiry, BaseTtl, Lists, Ordered;
    if f < |w.flights| && w.flights[f].loaded.Some? && !w.flights[f].done && 10 * jitter <= 3 * BaseTtl(w) && f !in w.cache.stale {
      var key, max := w.flights[f].key, w.config.maxEntries;
      var gone := Displaced(w.cache, max, key, w.clock);
      WithoutByAge(w.cache.order, gone, w.writtenAt, 0);
      NotLeft(w.cache, max, key, w.clock);
      AppendByAge(Without(w.cache.order, gone), w.writtenAt, 0, key, w.clock);
    }
  }

  lemma NotLeft(st: State, maxEntries: nat, key: Key, now: nat)
    requires maxEntries > 0 && WellFormed(st, maxEntries)
    ensures key !in Without(st.order, Displaced(st, maxEntries, key, now))
  {
    var gone := Displaced(st, maxEntries, key, now);
    DisplacedMakesRoom(st, maxEntries, key, now);
    ListsWithout(st.order, st.entries.Keys, gone);
    ListsMembers(Without(st.order, gone), st.entries.Keys - gone);
    assert (st.entries - gone).Keys == st.entries.Keys - gone;
  }

  lemma RemovalKeepsByAge(w: World, gone: set<Key>)
    requires ByAge(w.cache.order, w.writtenAt, 0)
    ensures ByAge(Removed(w.cache, gone).order, w.writtenAt, 0)
  {
    WithoutByAge(w.cache.order, gone, w.writtenAt, 0);
  }

  lemma QuietKeepsOrder(w: World, e: Event)
    requires e.Read? || e.Answer? || e.Fail? || e.Drop? || e.Mutate? || e.Tick?
    ensures Apply(w, e).cache.order == w.cache.order && Apply(w, e).writtenAt == w.writtenAt
  {
    hide Changes, Lookup;
  }

  lemma WrittenByNow(w: World, e: Event)
    requires forall k :: k in w.writtenAt ==> w.writtenAt[k] <= w.clock
    ensures forall k :: k in Apply(w, e).writtenAt ==> Apply(w, e).writtenAt[k] <= Apply(w, e).clock
  {
    hide Changes, Lookup, AfterLookup, Completed, Settled, Evicted, Flush, NextExpiry, BaseTtl;
  }

  lemma ApplyKeepsOrder(w: World, e: Event)
    requires Aged(w)
    ensures ByAge(Apply(w, e).cache.order, Apply(w, e).writtenAt, 0)
  {
    hide ByAge, Removed, ReachedKeys;
    match e
    case WriteBack(f, jitter) => WriteBackKeepsAged(w, f, jitter);
    case Invalidate(t) => RemovalKeepsByAge(w, ReachedKeys(w.cache, t));
    case BusUp => RemovalKeepsByAge(w, ReachedKeys(w.cache, Targets([], [], [], true)));
    case BusDown => RemovalKeepsByAge(w, ReachedKeys(w.cache, Targets([], [], [], true)));
    case _ => QuietKeepsOrder(w, e);
  }

  lemma ApplyKeepsAged(w: World, e: Event)
    requires Aged(w)
    ensures Aged(Apply(w, e))
  {
    ApplyKeepsWellFormed(w, e);
    WrittenByNow(w, e);
    ApplyKeepsOrder(w, e);
    hide Apply, WellFormed, ByAge;
  }

  lemma {:induction false} ExecKeepsAged(w: World, es: seq<Event>)
    requires Aged(w)
    ensures Aged(Exec(w, es))
    decreases |es|
  {
    hide Aged, Apply;
    if es != [] {
      ApplyKeepsAged(w, es[0]);
      ExecKeepsAged(Apply(w, es[0]), es[1..]);
    }
  }

  lemma {:induction false} HeadIsOldest(order: seq<Key>, writtenAt: map<Key, nat>, from: nat)
    requires ByAge(order, writtenAt, from)
    ensures forall k :: k in order ==> k in writtenAt && from <= writtenAt[k]
    decreases |order|
  {
    if order != [] {
      HeadIsOldest(order[1..], writtenAt, writtenAt[order[0]]);
      assert order == [order[0]] + order[1..];
    }
  }

  /**
   In every run, a live entry that makes room for another key goes only from a full
   cache in which nothing has lapsed, and no entry was stored before it.
   */
  lemma OldestGoesFirst(config: Config, es: seq<Event>, f: nat, jitter: nat, k: Key)
    requires config.maxEntries > 0
    requires var w := Exec(Init(config), es);
      && f < |w.flights| && k != w.flights[f].key
      && k in w.cache.entries && w.cache.entries[k].expiresAt > w.clock && k !in Apply(w, WriteBack(f, jitter)).cache.entries
    ensures var w := Exec(Init(config), es);
      && |w.cache.entries.Keys| == w.config.maxEntries
      && (forall other :: other in w.cache.entries ==>
            && w.cache.entries[other].expiresAt > w.clock
            && k in w.writtenAt && other in w.writtenAt && w.writtenAt[k] <= w.writtenAt[other])
  {
    var w := Exec(Init(config), es);
    ExecKeepsAged(Init(config), es) by { assert Aged(Init(config)); }
    KeepsConfig(Init(config), es);
    var key, max := w.flights[f].key, w.config.maxEntries;
    DisplacedMakesRoom(w.cache, max, key, w.clock);
    hide Exec, Displaced, Without, NextExpiry, BaseTtl, Lists;
    var gone := Displaced(w.cache, max, key, w.clock);
    assert k in gone;
    assert w.cache.order[0] == k && ExpiredKeys(w.cache, w.clock) == {};
    HeadFirst(w);
    forall other | other in w.cache.entries ensures w.cache.entries[other].expiresAt > w.clock {
      assert other !in ExpiredKeys(w.cache, w.clock);
    }
  }

  lemma {:induction false} KeepsConfig(w: World, es: seq<Event>)
    requires w.config.maxEntries > 0 && WellFormed(w.cache, w.config.maxEntries)
    ensures Exec(w, es).config == w.config
  {
    ReachableWellFormed(w, es);
  }

  lemma HeadFirst(w: World)
    requires Aged(w) && w.cache.order != []
    ensures forall other :: other in w.cache.entries ==>
      && w.cache.order[0] in w.writtenAt && other in w.writtenAt && w.writtenAt[w.cache.order[0]] <= w.writtenAt[other]
  {
    var order := w.cache.order;
    ListsMembers(order, w.cache.entries.Keys);
    HeadIsOldest(order[1..], w.writtenAt, w.writtenAt[order[0]]);
    assert order == [order[0]] + order[1..];
  }
}
