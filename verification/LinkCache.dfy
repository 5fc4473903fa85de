/**
 The per-process read cache of the redirect path (src/lib/link-cache.ts).

 The cache is a TTL map with insertion order, two reverse indexes and a
 single-flight table.  `State` is what the cache means; class `LinkCache` is the
 mutable object, and each of its methods is proved to produce the `State` that
 the matching function describes.  `Removed` is the one way entries leave: every
 eviction is a set of keys, whatever loop or index found them.
 */
module LinkCache {
  import opened Prelude

  /** A cache key; `KeyText` gives the string the program uses for it. */
  datatype Key =
    | CodeKey(code: string)
    | DomainKey(host: string, path: string)
    | RevisionKey(urlId: string)

  /**
   A row snapshot: which version the database held, when it answered, the clock the
   loader had taken before asking, and, for a revision, the destination found.
   */
  datatype Row = Row(version: nat, readAt: nat, asOf: nat, destination: Option<string>)

  datatype Entry = Entry(value: Row, expiresAt: int, urlId: Option<string>, host: Option<string>)

  datatype LoadResult =
    LoadResult(value: Row, urlId: Option<string>, host: Option<string>, notAfter: Option<int>)

  /** What an invalidation names. */
  datatype Targets = Targets(codes: seq<string>, ids: seq<string>, hosts: seq<string>, all: bool)

  /** `order` is the insertion order of the map; a flight is known by its number. */
  datatype State =
    State(entries: map<Key, Entry>, order: seq<Key>, inflight: map<Key, nat>, stale: set<nat>)

  // ----- Keys -----

  function KeyText(k: Key): string {
    match k
    case CodeKey(code) => "code:" + code
    case DomainKey(host, path) => "domain:" + host + ":" + path
    case RevisionKey(urlId) => "rev:" + urlId
  }

  /** Redirect paths are built as "/" + code, and a Host header holds no "/". */
  predicate Routable(k: Key) {
    k.DomainKey? ==> '/' !in k.host && k.path != "" && k.path[0] == '/'
  }

  lemma SplitAtSlash(h1: string, p1: string, h2: string, p2: string)
    requires '/' !in h1 && '/' !in h2
    requires p1 != "" && p1[0] == '/' && p2 != "" && p2[0] == '/'
    requires h1 + ":" + p1 == h2 + ":" + p2
    ensures h1 == h2 && p1 == p2
  {
    var s := h1 + ":" + p1;
    assert s[|h1| + 1] == '/' && s[|h2| + 1] == '/';
    assert forall i :: 0 <= i < |h1| + 1 ==> s[i] != '/';
    assert forall i :: 0 <= i < |h2| + 1 ==> s[i] != '/';
    assert |h1| == |h2|;
    assert h1 == s[..|h1|] && h2 == s[..|h2|];
    assert p1 == s[|h1| + 1..] && p2 == s[|h2| + 1..];
  }

  /** Two requests share a cache slot only if they ask for the same thing. */
  lemma KeyTextInjective(a: Key, b: Key)
    requires Routable(a) && Routable(b)
    requires KeyText(a) == KeyText(b)
    ensures a == b
  {
    assert KeyText(a)[0] == KeyText(b)[0];
    match a
    case CodeKey(code) =>
      assert KeyText(a)[5..] == code && KeyText(b)[5..] == b.code;
    case RevisionKey(urlId) =>
      assert KeyText(a)[4..] == urlId && KeyText(b)[4..] == b.urlId;
    case DomainKey(host, path) =>
      assert KeyText(a)[7..] == host + ":" + path;
      assert KeyText(b)[7..] == b.host + ":" + b.path;
      SplitAtSlash(host, path, b.host, b.path);
  }

  // ----- What an eviction removes -----

  /** An empty id or host is not indexed. */
  predicate Carries(tag: Option<string>, id: string) {
    id != "" && tag == Some(id)
  }

  predicate Named(t: Targets, k: Key) {
    match k
    case CodeKey(code) => code in t.codes
    case RevisionKey(urlId) => urlId in t.ids
    case DomainKey(_, _) => false
  }

  predicate CarriesTarget(t: Targets, e: Entry) {
    || (exists i | 0 <= i < |t.ids| :: Carries(e.urlId, t.ids[i]))
    || (exists i | 0 <= i < |t.hosts| :: Carries(e.host, t.hosts[i]))
  }

  function NamedKeys(t: Targets): set<Key> {
    (set c | c in t.codes :: CodeKey(c)) + (set i | i in t.ids :: RevisionKey(i))
  }

  /** Every key an invalidation reaches: the ones it names and the cached ones carrying its ids or hosts. */
  function ReachedKeys(st: State, t: Targets): set<Key> {
    if t.all then st.entries.Keys + st.inflight.Keys
    else NamedKeys(t) + set k | k in st.entries && CarriesTarget(t, st.entries[k])
  }

  function Without(order: seq<Key>, gone: set<Key>): seq<Key> {
    if order == [] then []
    else if order[0] in gone then Without(order[1..], gone)
    else [order[0]] + Without(order[1..], gone)
  }

  function Removed(st: State, gone: set<Key>): State {
    State(st.entries - gone,
          Without(st.order, gone),
          st.inflight - gone,
          st.stale + set k | k in gone && k in st.inflight :: st.inflight[k])
  }

  function Evicted(st: State, t: Targets): State {
    Removed(st, ReachedKeys(st, t))
  }

  lemma WithoutTwice(order: seq<Key>, a: set<Key>, b: set<Key>)
    ensures Without(Without(order, a), b) == Without(order, a + b)
  {
    if order != [] {
      WithoutTwice(order[1..], a, b);
      if order[0] !in a {
        assert ([order[0]] + Without(order[1..], a))[1..] == Without(order[1..], a);
      }
    }
  }

  /** Removing keys in two rounds, in either order, is removing their union at once. */
  lemma RemovedTwice(st: State, a: set<Key>, b: set<Key>)
    ensures Removed(Removed(st, a), b) == Removed(st, a + b)
  {
    WithoutTwice(st.order, a, b);
    var l, r := Removed(Removed(st, a), b), Removed(st, a + b);
    assert l.entries == r.entries;
    assert l.inflight == r.inflight;
    forall f ensures f in l.stale <==> f in r.stale {
      if f in r.stale && f !in st.stale {
        var k :| k in a + b && k in st.inflight && st.inflight[k] == f;
        if k !in a {
          assert k in b && k in st.inflight - a;
        }
      }
    }
    assert l.stale == r.stale;
  }

  lemma WithoutNothing(order: seq<Key>)
    ensures Without(order, {}) == order
  {
    if order != [] {
      WithoutNothing(order[1..]);
    }
  }

  lemma RemovedNothing(st: State)
    ensures Removed(st, {}) == st
  {
    WithoutNothing(st.order);
    assert st.entries - {} == st.entries && st.inflight - {} == st.inflight;
  }

  function Codes(codes: seq<string>): Targets { Targets(codes, [], [], false) }
  function Ids(ids: seq<string>): Targets { Targets([], ids, [], false) }
  function Hosts(hosts: seq<string>): Targets { Targets([], [], hosts, false) }

  function Plus(a: Targets, b: Targets): Targets {
    Targets(a.codes + b.codes, a.ids + b.ids, a.hosts + b.hosts, a.all || b.all)
  }

  lemma CarriesPlus(a: Targets, b: Targets, e: Entry)
    ensures CarriesTarget(Plus(a, b), e) <==> CarriesTarget(a, e) || CarriesTarget(b, e)
  {
    var t := Plus(a, b);
    forall i | 0 <= i < |a.ids| ensures t.ids[i] == a.ids[i] {}
    forall i | 0 <= i < |b.ids| ensures t.ids[|a.ids| + i] == b.ids[i] {}
    forall i | 0 <= i < |a.hosts| ensures t.hosts[i] == a.hosts[i] {}
    forall i | 0 <= i < |b.hosts| ensures t.hosts[|a.hosts| + i] == b.hosts[i] {}
  }

  lemma ReachedPlus(st: State, a: Targets, b: Targets)
    requires !a.all && !b.all
    ensures ReachedKeys(st, a) + ReachedKeys(Evicted(st, a), b) == ReachedKeys(st, Plus(a, b))
  {
    hide CarriesTarget, Without;
    var ra, rb, rp := ReachedKeys(st, a), ReachedKeys(Evicted(st, a), b), ReachedKeys(st, Plus(a, b));
    assert NamedKeys(Plus(a, b)) == NamedKeys(a) + NamedKeys(b);
    forall k ensures k in ra + rb <==> k in rp {
      if k in st.entries {
        CarriesPlus(a, b, st.entries[k]);
      }
    }
  }

  /** Two invalidations one after the other evict what one invalidation of both evicts. */
  lemma EvictedTwice(st: State, a: Targets, b: Targets)
    requires !a.all && !b.all
    ensures Evicted(Evicted(st, a), b) == Evicted(st, Plus(a, b))
  {
    hide ReachedKeys, Removed, Plus;
    RemovedTwice(st, ReachedKeys(st, a), ReachedKeys(Evicted(st, a), b));
    ReachedPlus(st, a, b);
  }

  /** What one link id reaches: its revision entry and every cached entry that resolved to it. */
  lemma ReachedById(st: State, id: string)
    ensures ReachedKeys(st, Ids([id])) == {RevisionKey(id)} + KeysCarrying(UrlTags(st.entries), id)
  {
    forall k | k in st.entries ensures CarriesTarget(Ids([id]), st.entries[k]) <==> Carries(st.entries[k].urlId, id) {
      assert Ids([id]).ids[0] == id;
    }
  }

  lemma ReachedByHost(st: State, host: string)
    ensures ReachedKeys(st, Hosts([host])) == KeysCarrying(HostTags(st.entries), host)
  {
    forall k | k in st.entries ensures CarriesTarget(Hosts([host]), st.entries[k]) <==> Carries(st.entries[k].host, host) {
      assert Hosts([host]).hosts[0] == host;
    }
  }

  lemma EvictedNothing(st: State)
    ensures Evicted(st, Targets([], [], [], false)) == st
  {
    RemovedNothing(st);
    assert ReachedKeys(st, Targets([], [], [], false)) == {};
  }

  // ----- Well-formed states -----

  /** `order` lists exactly `keys`, each once. */
  predicate Lists(order: seq<Key>, keys: set<Key>) {
    if order == [] then keys == {}
    else order[0] in keys && Lists(order[1..], keys - {order[0]})
  }

  /** The insertion order lists exactly the cached keys, and the map is within its bound. */
  predicate Ordered(order: seq<Key>, entries: map<Key, Entry>, maxEntries: nat) {
    Lists(order, entries.Keys) && |entries.Keys| <= maxEntries
  }

  predicate WellFormed(st: State, maxEntries: nat) {
    Ordered(st.order, st.entries, maxEntries)
  }

  lemma ListsLength(order: seq<Key>, keys: set<Key>)
    requires Lists(order, keys)
    ensures |order| == |keys|
  {
  }

  lemma OrderLength(st: State, maxEntries: nat)
    requires WellFormed(st, maxEntries)
    ensures |st.order| == |st.entries.Keys|
  {
    ListsLength(st.order, st.entries.Keys);
  }

  lemma {:induction false} ListsWithout(order: seq<Key>, keys: set<Key>, gone: set<Key>)
    requires Lists(order, keys)
    ensures Lists(Without(order, gone), keys - gone)
  {
    if order == [] {
      assert keys - gone == {};
    } else {
      var k := order[0];
      ListsWithout(order[1..], keys - {k}, gone);
      if k in gone {
        assert keys - {k} - gone == keys - gone;
      } else {
        assert ([k] + Without(order[1..], gone))[1..] == Without(order[1..], gone);
        assert keys - {k} - gone == keys - gone - {k};
      }
    }
  }

  lemma {:induction false} ListsAppend(order: seq<Key>, keys: set<Key>, k: Key)
    requires Lists(order, keys) && k !in keys
    ensures Lists(order + [k], keys + {k})
  {
    if order == [] {
      assert order + [k] == [k];
    } else {
      ListsAppend(order[1..], keys - {order[0]}, k);
      assert (order + [k])[1..] == order[1..] + [k];
      assert keys + {k} - {order[0]} == keys - {order[0]} + {k};
    }
  }

  lemma RemovedWellFormed(st: State, gone: set<Key>, maxEntries: nat)
    requires WellFormed(st, maxEntries)
    ensures WellFormed(Removed(st, gone), maxEntries)
    ensures Removed(st, gone).entries.Keys == st.entries.Keys - gone
  {
    ListsWithout(st.order, st.entries.Keys, gone);
    assert (st.entries - gone).Keys == st.entries.Keys - gone;
    CardinalityMonotone(st.entries.Keys - gone, st.entries.Keys);
  }

  lemma CardinalityMonotone(a: set<Key>, b: set<Key>)
    requires a <= b
    ensures |a| <= |b|
    ensures a != b ==> |a| < |b|
  {
    assert b == a + (b - a);
    assert |b| == |a| + |b - a|;
  }

  // ----- Storing a loaded value -----

  /** Base TTL for the current bus state plus jitter, capped by `notAfter`. */
  function NextExpiry(now: int, base: nat, jitter: nat, notAfter: Option<int>): int {
    var expiry := now + base + jitter;
    if notAfter.Some? && notAfter.value < expiry then notAfter.value else expiry
  }

  function ExpiredKeys(st: State, now: int): set<Key> {
    set k | k in st.entries && st.entries[k].expiresAt <= now
  }

  /** What makes room for `key`: its old entry, or every expired entry, or failing that also the oldest. */
  function Displaced(st: State, maxEntries: nat, key: Key, now: int): set<Key> {
    if key in st.entries then {key}
    else if |st.entries.Keys| < maxEntries then {}
    else
      var expired := ExpiredKeys(st, now);
      var left := Without(st.order, expired);
      if |left| >= maxEntries && left != [] then expired + {left[0]} else expired
  }

  function Inserted(st: State, key: Key, e: Entry): State {
    st.(entries := st.entries[key := e], order := st.order + [key])
  }

  function Stored(st: State, maxEntries: nat, key: Key, e: Entry, now: int): State {
    Inserted(Removed(st, Displaced(st, maxEntries, key, now)), key, e)
  }

  /** Making room leaves space for one more, and drops a live entry only when there is nothing expired to drop. */
  lemma DisplacedMakesRoom(st: State, maxEntries: nat, key: Key, now: int)
    requires maxEntries > 0 && WellFormed(st, maxEntries)
    ensures |(st.entries - Displaced(st, maxEntries, key, now)).Keys| < maxEntries
    ensures key !in st.entries - Displaced(st, maxEntries, key, now)
    ensures forall k :: k in Displaced(st, maxEntries, key, now) && k != key && k in st.entries && st.entries[k].expiresAt > now
              ==> |st.entries.Keys| == maxEntries && ExpiredKeys(st, now) == {} && k == st.order[0]
    ensures Displaced(st, maxEntries, key, now) <= st.entries.Keys
  {
    var all := st.entries.Keys;
    var gone := Displaced(st, maxEntries, key, now);
    var expired := ExpiredKeys(st, now);
    assert (st.entries - gone).Keys == all - gone;
    CardinalityMonotone(all - gone, all);
    if key !in st.entries && |st.entries.Keys| >= maxEntries {
      var rest := Without(st.order, expired);
      ListsWithout(st.order, all, expired);
      ListsLength(rest, all - expired);
      CardinalityMonotone(all - expired, all);
      if |rest| >= maxEntries {
        assert expired == {};
        WithoutNothing(st.order);
        assert rest[0] in all && rest[0] !in all - gone;
      }
    }
  }

  /** Storing never lets the cache grow past its maximum. */
  lemma StoredWithinBound(st: State, maxEntries: nat, key: Key, e: Entry, now: int)
    requires maxEntries > 0 && WellFormed(st, maxEntries)
    ensures WellFormed(Stored(st, maxEntries, key, e, now), maxEntries)
    ensures key !in Removed(st, Displaced(st, maxEntries, key, now)).entries
  {
    var gone := Displaced(st, maxEntries, key, now);
    DisplacedMakesRoom(st, maxEntries, key, now);
    RemovedWellFormed(st, gone, maxEntries);
    var left := Removed(st, gone);
    ListsAppend(left.order, left.entries.Keys, key);
    assert (left.entries[key := e]).Keys == left.entries.Keys + {key};
  }

  // ----- Reverse indexes -----

  function UrlTags(entries: map<Key, Entry>): map<Key, Option<string>> {
    map k | k in entries :: entries[k].urlId
  }

  function HostTags(entries: map<Key, Entry>): map<Key, Option<string>> {
    map k | k in entries :: entries[k].host
  }

  function KeysCarrying(tags: map<Key, Option<string>>, id: string): set<Key> {
    set k | k in tags && Carries(tags[k], id)
  }

  /** A key is listed under an id exactly when its cached entry carries it, and no listed set is empty. */
  ghost predicate Exact(index: map<string, set<Key>>, tags: map<Key, Option<string>>) {
    && (forall id :: id in index ==> index[id] == KeysCarrying(tags, id) && index[id] != {})
    && (forall id, k :: k in tags && Carries(tags[k], id) ==> id in index)
  }

  function AddToIndex(index: map<string, set<Key>>, tag: Option<string>, key: Key): map<string, set<Key>> {
    if tag.None? || tag.value == "" then index
    else index[tag.value := (if tag.value in index then index[tag.value] else {}) + {key}]
  }

  function RemoveFromIndex(index: map<string, set<Key>>, tag: Option<string>, key: Key): map<string, set<Key>> {
    if tag.None? || tag.value == "" || tag.value !in index then index
    else
      var keys := index[tag.value] - {key};
      if keys == {} then index - {tag.value} else index[tag.value := keys]
  }

  lemma LookupExact(index: map<string, set<Key>>, tags: map<Key, Option<string>>, id: string)
    requires Exact(index, tags)
    ensures KeysCarrying(tags, id) == if id in index then index[id] else {}
  {
  }

  lemma RemoveKeepsIndexExact(index: map<string, set<Key>>, tags: map<Key, Option<string>>, key: Key)
    requires Exact(index, tags) && key in tags
    ensures Exact(RemoveFromIndex(index, tags[key], key), tags - {key})
  {
    var after := RemoveFromIndex(index, tags[key], key);
    forall id | id in after
      ensures after[id] == KeysCarrying(tags - {key}, id) && after[id] != {}
    {
      assert KeysCarrying(tags - {key}, id) == KeysCarrying(tags, id) - {key};
    }
    forall id, k | k in tags - {key} && Carries((tags - {key})[k], id)
      ensures id in after
    {
      assert Carries(tags[k], id);
      assert k in index[id] - {key};
    }
  }

  lemma AddKeepsIndexExact(index: map<string, set<Key>>, tags: map<Key, Option<string>>, tag: Option<string>, key: Key)
    requires Exact(index, tags) && key !in tags
    ensures Exact(AddToIndex(index, tag, key), tags[key := tag])
  {
    var after := AddToIndex(index, tag, key);
    var tags' := tags[key := tag];
    forall id | id in after
      ensures after[id] == KeysCarrying(tags', id) && after[id] != {}
    {
      LookupExact(index, tags, id);
      assert KeysCarrying(tags', id) == KeysCarrying(tags, id) + (if Carries(tag, id) then {key} else {});
    }
  }

  lemma RemoveKeepsExact(urlIndex: map<string, set<Key>>, hostIndex: map<string, set<Key>>, entries: map<Key, Entry>, key: Key)
    requires Exact(urlIndex, UrlTags(entries)) && Exact(hostIndex, HostTags(entries)) && key in entries
    ensures Exact(RemoveFromIndex(urlIndex, entries[key].urlId, key), UrlTags(entries - {key}))
    ensures Exact(RemoveFromIndex(hostIndex, entries[key].host, key), HostTags(entries - {key}))
  {
    hide Exact, RemoveFromIndex;
    RemoveKeepsIndexExact(urlIndex, UrlTags(entries), key);
    RemoveKeepsIndexExact(hostIndex, HostTags(entries), key);
    assert UrlTags(entries - {key}) == UrlTags(entries) - {key};
    assert HostTags(entries - {key}) == HostTags(entries) - {key};
  }

  lemma AddKeepsExact(urlIndex: map<string, set<Key>>, hostIndex: map<string, set<Key>>, entries: map<Key, Entry>, key: Key, e: Entry)
    requires Exact(urlIndex, UrlTags(entries)) && Exact(hostIndex, HostTags(entries)) && key !in entries
    ensures Exact(AddToIndex(urlIndex, e.urlId, key), UrlTags(entries[key := e]))
    ensures Exact(AddToIndex(hostIndex, e.host, key), HostTags(entries[key := e]))
  {
    hide Exact, AddToIndex;
    AddKeepsIndexExact(urlIndex, UrlTags(entries), e.urlId, key);
    AddKeepsIndexExact(hostIndex, HostTags(entries), e.host, key);
    assert UrlTags(entries[key := e]) == UrlTags(entries)[key := e.urlId];
    assert HostTags(entries[key := e]) == HostTags(entries)[key := e.host];
  }

  // ----- The mutable cache -----

  /** What a read finds. */
  datatype Found = Hit(value: Row) | Joined(flight: nat) | Started(flight: nat)

  class LinkCache {
    var cache: map<Key, Entry>
    var order: seq<Key>
    var inflight: map<Key, nat>
    var stale: set<nat>
    var urlIndex: map<string, set<Key>>
    var hostIndex: map<string, set<Key>>
    var nextFlight: nat
    const maxEntries: nat

    function Abs(): State
      reads this
    {
      State(cache, order, inflight, stale)
    }

    ghost predicate Valid()
      reads this
    {
      && maxEntries > 0 && Ordered(order, cache, maxEntries)
      && Exact(urlIndex, UrlTags(cache)) && Exact(hostIndex, HostTags(cache))
    }

    constructor (max: nat)
      requires max > 0
      ensures Valid() && maxEntries == max && Abs() == State(map[], [], map[], {}) && nextFlight == 0
    {
      cache, order, inflight, stale := map[], [], map[], {};
      urlIndex, hostIndex := map[], map[];
      nextFlight := 0;
      maxEntries := max;
    }

    /** Take one cached key out of the map and both indexes. */
    method DropEntry(key: Key)
      requires Valid() && key in cache
      modifies this`cache, this`order, this`urlIndex, this`hostIndex
      ensures Valid()
      ensures cache == old(cache) - {key} && order == Without(old(order), {key})
    {
      hide Ordered, Exact, RemoveFromIndex, UrlTags, HostTags, Without;
      RemovedWellFormed(Abs(), {key}, maxEntries);
      RemoveKeepsExact(urlIndex, hostIndex, cache, key);
      var entry := cache[key];
      cache := cache - {key};
      order := Without(order, {key});
      urlIndex := RemoveFromIndex(urlIndex, entry.urlId, key);
      hostIndex := RemoveFromIndex(hostIndex, entry.host, key);
    }

    /** The key goes, wherever it is held or listed; if it is being loaded, the result will be thrown away. */
    method DeleteKey(key: Key)
      requires Valid()
      modifies this
      ensures Valid() && nextFlight == old(nextFlight)
      ensures Abs() == Removed(old(Abs()), {key})
    {
      hide Ordered, Exact, UrlTags, HostTags, Without, Removed;
      ghost var st := Abs();
      RemovedOne(st, key);
      AbsentKey(st, maxEntries, key);
      if key in cache {
        DropEntry(key);
      }
      assert cache == st.entries - {key} && order == Without(st.order, {key});
      if key in inflight {
        stale := stale + {inflight[key]};
        inflight := inflight - {key};
      }
      assert Abs() == Removed(st, {key});
    }

    /** The loop behind every multi-key eviction. */
    method DeleteKeys(keys: set<Key>)
      requires Valid()
      modifies this
      ensures Valid() && nextFlight == old(nextFlight)
      ensures Abs() == Removed(old(Abs()), keys)
    {
      hide Ordered, Exact;
      var todo := keys;
      assert keys - todo == {};
      RemovedNothing(Abs());
      while todo != {}
        invariant Valid() && todo <= keys && nextFlight == old(nextFlight)
        invariant Abs() == Removed(old(Abs()), keys - todo)
      {
        var k :| k in todo;
        DeleteKey(k);
        RemovedTwice(old(Abs()), keys - todo, {k});
        assert keys - todo + {k} == keys - (todo - {k});
        todo := todo - {k};
      }
      assert keys - todo == keys;
    }

    method FlushAll()
      requires Valid()
      modifies this
      ensures Valid() && nextFlight == old(nextFlight)
      ensures Abs() == Removed(old(Abs()), old(cache.Keys + inflight.Keys))
      ensures cache == map[] && urlIndex == map[] && hostIndex == map[] && inflight == map[]
    {
      hide Ordered, Exact, Removed;
      RemovedAll(Abs(), maxEntries);
      EmptyValid(maxEntries);
      stale := stale + set k | k in inflight :: inflight[k];
      cache, order, inflight := map[], [], map[];
      urlIndex, hostIndex := map[], map[];
    }

    /** Evict by link id: the revision entry, and whatever the id index lists. */
    method EvictId(id: string)
      requires Valid()
      modifies this
      ensures Valid() && nextFlight == old(nextFlight)
      ensures Abs() == Evicted(old(Abs()), Ids([id]))
    {
      hide Ordered, Removed, UrlTags, KeysCarrying, ReachedKeys;
      ghost var st := Abs();
      DeleteKey(RevisionKey(id));
      LookupExact(urlIndex, UrlTags(cache), id);
      hide Exact;
      var found := if id in urlIndex then urlIndex[id] else {};
      DeleteKeys(found);
      RemovedTwice(st, {RevisionKey(id)}, found);
      ReachedById(st, id);
      CarryingAfterRemoval(st, {RevisionKey(id)}, id);
    }

    method EvictHost(host: string)
      requires Valid()
      modifies this
      ensures Valid() && nextFlight == old(nextFlight)
      ensures Abs() == Evicted(old(Abs()), Hosts([host]))
    {
      hide Ordered, Removed, HostTags, KeysCarrying, ReachedKeys;
      LookupExact(hostIndex, HostTags(cache), host);
      hide Exact;
      ReachedByHost(Abs(), host);
      var found := if host in hostIndex then hostIndex[host] else {};
      DeleteKeys(found);
    }

    /**
     Evict everything the targets reach.  The program walks codes, ids and hosts
     and follows the reverse indexes; the result is the single removal of
     `ReachedKeys`, computed on the cache as it was before the call.
     */
    method EvictLocal(t: Targets)
      requires Valid()
      modifies this
      ensures Valid() && nextFlight == old(nextFlight)
      ensures Abs() == Evicted(old(Abs()), t)
    {
      hide Ordered, Exact, Removed, ReachedKeys;
      if t.all {
        FlushReaches(Abs(), t);
        FlushAll();
        return;
      }
      ghost var st := Abs();
      EvictedNothing(st);
      for i := 0 to |t.codes|
        invariant Valid() && nextFlight == old(nextFlight)
        invariant Abs() == Evicted(st, Codes(t.codes[..i]))
      {
        DeleteKey(CodeKey(t.codes[i]));
        EvictedTwice(st, Codes(t.codes[..i]), Codes([t.codes[i]]));
        ReachedByCode(Evicted(st, Codes(t.codes[..i])), t.codes[i]);
        assert t.codes[..i + 1] == t.codes[..i] + [t.codes[i]];
        assert Plus(Codes(t.codes[..i]), Codes([t.codes[i]])) == Codes(t.codes[..i + 1]);
      }
      assert t.codes[..|t.codes|] == t.codes;
      for i := 0 to |t.ids|
        invariant Valid() && nextFlight == old(nextFlight)
        invariant Abs() == Evicted(st, Targets(t.codes, t.ids[..i], [], false))
      {
        EvictId(t.ids[i]);
        EvictedTwice(st, Targets(t.codes, t.ids[..i], [], false), Ids([t.ids[i]]));
        assert t.ids[..i + 1] == t.ids[..i] + [t.ids[i]];
        assert t.codes + [] == t.codes;
        assert Plus(Targets(t.codes, t.ids[..i], [], false), Ids([t.ids[i]])) == Targets(t.codes, t.ids[..i + 1], [], false);
      }
      assert t.ids[..|t.ids|] == t.ids;
      for i := 0 to |t.hosts|
        invariant Valid() && nextFlight == old(nextFlight)
        invariant Abs() == Evicted(st, Targets(t.codes, t.ids, t.hosts[..i], false))
      {
        EvictHost(t.hosts[i]);
        EvictedTwice(st, Targets(t.codes, t.ids, t.hosts[..i], false), Hosts([t.hosts[i]]));
        assert t.hosts[..i + 1] == t.hosts[..i] + [t.hosts[i]];
        assert t.codes + [] == t.codes && t.ids + [] == t.ids;
      }
      assert t.hosts[..|t.hosts|] == t.hosts;
    }

    /** Drop the key's old entry, or else sweep expired entries, or else drop the oldest. */
    method MakeRoom(key: Key, now: int)
      requires Valid()
      modifies this
      ensures Valid() && nextFlight == old(nextFlight)
      ensures Abs() == Removed(old(Abs()), Displaced(old(Abs()), maxEntries, key, now))
    {
      hide Ordered, Exact, UrlTags, HostTags, Removed;
      ghost var st := Abs();
      RemovedNothing(st);
      if key in cache {
        DeleteKey(key);
      } else if |cache.Keys| >= maxEntries {
        var expired := ExpiredKeys(Abs(), now);
        DeleteKeys(expired);
        RemovedOrder(st, expired);
        OrderLength(Abs(), maxEntries);
        if |cache.Keys| >= maxEntries {
          RemovedTwice(st, expired, {order[0]});
          DeleteKey(order[0]);
        }
      }
    }

    /** Store a loaded value under `key`, making room first. */
    method SetCache(key: Key, result: LoadResult, now: int, base: nat, jitter: nat)
      requires Valid()
      modifies this
      ensures Valid() && nextFlight == old(nextFlight)
      ensures Abs() == Stored(old(Abs()), maxEntries, key,
                Entry(result.value, NextExpiry(now, base, jitter, result.notAfter), result.urlId, result.host), now)
    {
      hide Ordered, Exact, AddToIndex, UrlTags, HostTags, Removed, NextExpiry, Displaced;
      var e := Entry(result.value, NextExpiry(now, base, jitter, result.notAfter), result.urlId, result.host);
      StoredWithinBound(Abs(), maxEntries, key, e, now);
      MakeRoom(key, now);
      AddKeepsExact(urlIndex, hostIndex, cache, key, e);
      cache := cache[key := e];
      order := order + [key];
      urlIndex := AddToIndex(urlIndex, e.urlId, key);
      hostIndex := AddToIndex(hostIndex, e.host, key);
    }

    /** The synchronous part of a read: serve a live entry, join a load, or start one. */
    method ReadThrough(key: Key, now: int) returns (found: Found)
      requires Valid()
      modifies this
      ensures Valid()
      ensures found == Lookup(old(Abs()), key, now, old(nextFlight))
      ensures Abs() == AfterLookup(old(Abs()), key, found)
      ensures nextFlight == old(nextFlight) + if found.Started? then 1 else 0
    {
      if key in cache && cache[key].expiresAt > now {
        return Hit(cache[key].value);
      }
      if key in inflight {
        return Joined(inflight[key]);
      }
      found := Started(nextFlight);
      inflight := inflight[key := nextFlight];
      nextFlight := nextFlight + 1;
    }

    /** The loader of `flight` returned: a stale flight writes nothing. */
    method CompleteLoad(flight: nat, key: Key, result: LoadResult, now: int, base: nat, jitter: nat)
      requires Valid()
      modifies this
      ensures Valid() && nextFlight == old(nextFlight)
      ensures Abs() == Completed(old(Abs()), maxEntries, flight, key, result, NextExpiry(now, base, jitter, result.notAfter), now)
    {
      if flight !in stale {
        SetCache(key, result, now, base, jitter);
      }
    }

    /** The flight's `finally`: drop it from the table only if it is still the one registered. */
    method Settle(flight: nat, key: Key)
      requires Valid()
      modifies this
      ensures Valid() && nextFlight == old(nextFlight)
      ensures Abs() == Settled(old(Abs()), flight, key)
    {
      if key in inflight && inflight[key] == flight {
        inflight := inflight - {key};
      }
    }
  }

  function Lookup(st: State, key: Key, now: int, nextFlight: nat): Found {
    if key in st.entries && st.entries[key].expiresAt > now then Hit(st.entries[key].value)
    else if key in st.inflight then Joined(st.inflight[key])
    else Started(nextFlight)
  }

  function AfterLookup(st: State, key: Key, found: Found): State {
    if found.Started? then st.(inflight := st.inflight[key := found.flight]) else st
  }

  function Completed(st: State, maxEntries: nat, flight: nat, key: Key, result: LoadResult, expiresAt: int, now: int): State {
    if flight in st.stale then st
    else Stored(st, maxEntries, key, Entry(result.value, expiresAt, result.urlId, result.host), now)
  }

  function Settled(st: State, flight: nat, key: Key): State {
    if key in st.inflight && st.inflight[key] == flight then st.(inflight := st.inflight - {key}) else st
  }

  lemma AbsentFromOrder(order: seq<Key>, keys: set<Key>, key: Key)
    requires Lists(order, keys) && key !in keys
    ensures Without(order, {key}) == order
  {
    if order != [] {
      AbsentFromOrder(order[1..], keys - {order[0]}, key);
    }
  }

  lemma AbsentKey(st: State, maxEntries: nat, key: Key)
    requires WellFormed(st, maxEntries)
    ensures key !in st.entries ==> Without(st.order, {key}) == st.order && st.entries - {key} == st.entries
  {
    if key !in st.entries {
      AbsentFromOrder(st.order, st.entries.Keys, key);
      assert st.entries - {key} == st.entries;
    }
  }

  lemma ReachedByCode(st: State, code: string)
    ensures ReachedKeys(st, Codes([code])) == {CodeKey(code)}
  {
  }

  lemma RemovedAll(st: State, maxEntries: nat)
    requires WellFormed(st, maxEntries)
    ensures Removed(st, st.entries.Keys + st.inflight.Keys)
         == State(map[], [], map[], st.stale + set k | k in st.inflight :: st.inflight[k])
  {
    var gone := st.entries.Keys + st.inflight.Keys;
    ListsWithout(st.order, st.entries.Keys, gone);
    assert st.entries.Keys - gone == {};
    assert st.entries - gone == map[] && st.inflight - gone == map[];
  }

  lemma EmptyValid(maxEntries: nat)
    ensures Ordered([], map[], maxEntries) && Exact(map[], UrlTags(map[])) && Exact(map[], HostTags(map[]))
  {
  }

  lemma RemovedOrder(st: State, gone: set<Key>)
    ensures Removed(st, gone).order == Without(st.order, gone)
  {
  }

  lemma FlushReaches(st: State, t: Targets)
    requires t.all
    ensures ReachedKeys(st, t) == st.entries.Keys + st.inflight.Keys
  {
  }

  lemma CarryingAfterRemoval(st: State, gone: set<Key>, id: string)
    ensures gone + KeysCarrying(UrlTags(Removed(st, gone).entries), id) == gone + KeysCarrying(UrlTags(st.entries), id)
  {
  }

  /** One removal, field by field. */
  lemma RemovedOne(st: State, key: Key)
    ensures Removed(st, {key})
         == State(st.entries - {key}, Without(st.order, {key}), st.inflight - {key},
                  st.stale + if key in st.inflight then {st.inflight[key]} else {})
    ensures key !in st.inflight ==> st.inflight - {key} == st.inflight
  {
  }
}
