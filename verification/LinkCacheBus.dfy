/**
 The invalidation bus (src/lib/link-cache-bus.ts): how a set of targets becomes
 messages of bounded size, and what another instance does with them.  The JSON
 text of a message is not modelled; a message is the object it carries.

 The targets are cleaned, then cut into messages of at most 500 keys; a message may
 hold keys of several kinds.  Messages of one invalidation may arrive in any order
 and more than once, and other evictions may fall between them.
 */
module LinkCacheBus {
  import opened Prelude
  import opened LinkCache

  const MAX_KEYS_PER_MESSAGE := 500
  const MAX_VALUE_LENGTH := 2048

  datatype Kind = KCode | KId | KHost
  datatype Item = Item(kind: Kind, value: string)

  datatype Message = Message(origin: string, targets: Targets)

  predicate Usable(value: string) {
    0 < |value| <= MAX_VALUE_LENGTH
  }

  function Cleaned(values: seq<string>): seq<string> {
    if values == [] then []
    else
      var last := values[|values| - 1];
      var init := Cleaned(values[..|values| - 1]);
      if Usable(last) && last !in init then init + [last] else init
  }

  /** Cleaning keeps the usable values, each exactly once. */
  lemma {:induction false} CleanedIs(values: seq<string>)
    ensures forall v :: v in Cleaned(values) <==> v in values && 0 < |v| <= 2048
    ensures forall i, j :: 0 <= i < j < |Cleaned(values)| ==> Cleaned(values)[i] != Cleaned(values)[j]
  {
    if values != [] {
      CleanedIs(values[..|values| - 1]);
      assert values == values[..|values| - 1] + [values[|values| - 1]];
    }
  }

  function CleanedTargets(t: Targets): Targets {
    Targets(Cleaned(t.codes), Cleaned(t.ids), Cleaned(t.hosts), false)
  }

  function Tagged(kind: Kind, values: seq<string>): seq<Item> {
    seq(|values|, i requires 0 <= i < |values| => Item(kind, values[i]))
  }

  /** The items a message of these targets holds. */
  function Items(t: Targets): seq<Item> {
    Tagged(KCode, t.codes) + Tagged(KId, t.ids) + Tagged(KHost, t.hosts)
  }

  /** Group items back into targets. */
  function Grouped(items: seq<Item>): Targets {
    if items == [] then Targets([], [], [], false)
    else
      var rest := Grouped(items[..|items| - 1]);
      var last := items[|items| - 1];
      match last.kind
      case KCode => rest.(codes := rest.codes + [last.value])
      case KId => rest.(ids := rest.ids + [last.value])
      case KHost => rest.(hosts := rest.hosts + [last.value])
  }

  method Clean(values: seq<string>) returns (out: seq<string>)
    ensures out == Cleaned(values)
  {
    out := [];
    for i := 0 to |values|
      invariant out == Cleaned(values[..i])
    {
      assert values[..i + 1][..i] == values[..i];
      if Usable(values[i]) && values[i] !in out {
        out := out + [values[i]];
      }
    }
    assert values[..|values|] == values;
  }

  /** Targets carried by a list of messages, taken together. */
  function Carried(messages: seq<Message>): Targets {
    if messages == [] then Targets([], [], [], false)
    else Plus(Carried(messages[..|messages| - 1]), messages[|messages| - 1].targets)
  }

  lemma {:induction false} GroupedAppend(a: seq<Item>, b: seq<Item>)
    ensures Grouped(a + b) == Plus(Grouped(a), Grouped(b))
  {
    if b == [] {
      assert a + b == a;
      var g := Grouped(a);
      assert g.codes + [] == g.codes && g.ids + [] == g.ids && g.hosts + [] == g.hosts;
      GroupedNotAll(a);
    } else {
      assert (a + b)[..|a + b| - 1] == a + b[..|b| - 1];
      GroupedAppend(a, b[..|b| - 1]);
      var x, y := Grouped(a), Grouped(b[..|b| - 1]);
      var v := b[|b| - 1].value;
      assert x.codes + y.codes + [v] == x.codes + (y.codes + [v]);
      assert x.ids + y.ids + [v] == x.ids + (y.ids + [v]);
      assert x.hosts + y.hosts + [v] == x.hosts + (y.hosts + [v]);
    }
  }

  lemma GroupedNotAll(items: seq<Item>)
    ensures !Grouped(items).all
  {
  }

  lemma {:induction false} GroupedTagged(kind: Kind, values: seq<string>)
    ensures Grouped(Tagged(kind, values))
         == match kind case KCode => Codes(values) case KId => Ids(values) case KHost => Hosts(values)
  {
    if values == [] {
      assert Tagged(kind, values) == [];
    } else {
      var init, last := values[..|values| - 1], values[|values| - 1];
      GroupedTagged(kind, init);
      assert Tagged(kind, values)[..|values| - 1] == Tagged(kind, init);
      assert init + [last] == values;
    }
  }

  /** Listing and grouping are inverse. */
  lemma GroupedItems(t: Targets)
    requires !t.all
    ensures Grouped(Items(t)) == t
  {
    GroupedTagged(KCode, t.codes);
    GroupedTagged(KId, t.ids);
    GroupedTagged(KHost, t.hosts);
    GroupedAppend(Tagged(KCode, t.codes), Tagged(KId, t.ids));
    GroupedAppend(Tagged(KCode, t.codes) + Tagged(KId, t.ids), Tagged(KHost, t.hosts));
    assert t.codes + [] == t.codes && [] + t.ids == t.ids && t.ids + [] == t.ids && [] + t.hosts == t.hosts;
  }

  function Size(t: Targets): nat {
    |t.codes| + |t.ids| + |t.hosts|
  }

  /** A message the bus may carry: stamped, neither empty nor over the limit, and holding usable values only. */
  predicate WellMade(m: Message, origin: string) {
    m.origin == origin && !m.targets.all && 0 < Size(m.targets) <= 500 && AllUsable(m.targets)
  }

  lemma CarriedAppend(messages: seq<Message>, m: Message)
    ensures Carried(messages + [m]) == Plus(Carried(messages), m.targets)
  {
    assert (messages + [m])[..|messages|] == messages;
  }

  /** Messages of at most 500 keys each that together carry exactly the cleaned targets. */
  method EncodeInvalidation(t: Targets, origin: string) returns (messages: seq<Message>)
    ensures t.all ==> messages == [Message(origin, Targets([], [], [], true))]
    ensures !t.all ==> Carried(messages) == CleanedTargets(t)
    ensures !t.all ==> forall m :: m in messages ==> WellMade(m, origin)
  {
    if t.all {
      return [Message(origin, Targets([], [], [], true))];
    }
    hide Grouped, Carried, Items, WellMade, Cleaned, ItemsAreUsable;
    var codes := Clean(t.codes);
    var ids := Clean(t.ids);
    var hosts := Clean(t.hosts);
    var cleaned := Targets(codes, ids, hosts, false);
    var queue := Items(cleaned);
    ItemsUsable(t, cleaned);
    messages := [];
    EmptyCarried();
    var i := 0;
    while i < |queue|
      invariant 0 <= i <= |queue|
      invariant Carried(messages) == Grouped(queue[..i])
      invariant forall m :: m in messages ==> WellMade(m, origin)
    {
      var end := if i + MAX_KEYS_PER_MESSAGE <= |queue| then i + MAX_KEYS_PER_MESSAGE else |queue|;
      var chunk := queue[i..end];
      ChunkWellMade(queue, i, end, origin);
      ChunkCarried(messages, queue, i, end, origin);
      messages := messages + [Message(origin, Grouped(chunk))];
      i := end;
    }
    assert queue[..|queue|] == queue;
    GroupedItems(cleaned);
  }

  lemma ChunkCarried(messages: seq<Message>, queue: seq<Item>, i: nat, end: nat, origin: string)
    requires i <= end <= |queue| && Carried(messages) == Grouped(queue[..i])
    ensures Carried(messages + [Message(origin, Grouped(queue[i..end]))]) == Grouped(queue[..end])
  {
    hide Grouped, Carried;
    GroupedAppend(queue[..i], queue[i..end]);
    assert queue[..end] == queue[..i] + queue[i..end];
    CarriedAppend(messages, Message(origin, Grouped(queue[i..end])));
  }

  lemma EmptyCarried()
    ensures Carried([]) == Grouped([])
  {
  }

  lemma ChunkWellMade(queue: seq<Item>, lo: nat, hi: nat, origin: string)
    requires lo < hi <= |queue| && hi - lo <= MAX_KEYS_PER_MESSAGE
    requires ItemsAreUsable(queue)
    ensures WellMade(Message(origin, Grouped(queue[lo..hi])), origin)
  {
    GroupedSize(queue[lo..hi]);
    GroupedNotAll(queue[lo..hi]);
    GroupedUsable(queue[lo..hi]);
  }

  predicate ItemsAreUsable(items: seq<Item>) {
    forall i :: 0 <= i < |items| ==> Usable(items[i].value)
  }

  predicate AllUsable(t: Targets) {
    && (forall v :: v in t.codes ==> Usable(v))
    && (forall v :: v in t.ids ==> Usable(v))
    && (forall v :: v in t.hosts ==> Usable(v))
  }

  lemma ItemsUsable(t: Targets, cleaned: Targets)
    requires cleaned == CleanedTargets(t)
    ensures ItemsAreUsable(Items(cleaned))
  {
    CleanedIs(t.codes);
    CleanedIs(t.ids);
    CleanedIs(t.hosts);
  }

  lemma GroupedUsable(items: seq<Item>)
    requires ItemsAreUsable(items)
    ensures AllUsable(Grouped(items))
  {
  }

  lemma GroupedSize(items: seq<Item>)
    ensures var g := Grouped(items); |g.codes| + |g.ids| + |g.hosts| == |items|
  {
  }

  // ----- The receiving side -----

  /** Own messages and messages that name nothing are dropped. */
  function Decoded(m: Message, self: string): Option<Targets> {
    if m.origin == self then None
    else if m.targets.all then Some(Targets([], [], [], true))
    else
      var t := CleanedTargets(m.targets);
      if t.codes == [] && t.ids == [] && t.hosts == [] then None else Some(t)
  }

  function Delivered(st: State, m: Message, self: string): State {
    match Decoded(m, self)
    case None => st
    case Some(t) => Evicted(st, t)
  }

  function DeliveredAll(st: State, messages: seq<Message>, self: string): State {
    if messages == [] then st
    else Delivered(DeliveredAll(st, messages[..|messages| - 1], self), messages[|messages| - 1], self)
  }

  /** Same members, whatever the order or repetition. */
  ghost predicate SameTargets(a: Targets, b: Targets) {
    && (forall v :: v in a.codes <==> v in b.codes)
    && (forall v :: v in a.ids <==> v in b.ids)
    && (forall v :: v in a.hosts <==> v in b.hosts)
    && a.all == b.all
  }

  lemma CarriesSame(a: Targets, b: Targets, e: Entry)
    requires SameTargets(a, b) && CarriesTarget(a, e)
    ensures CarriesTarget(b, e)
  {
    if i :| 0 <= i < |a.ids| && Carries(e.urlId, a.ids[i]) {
      assert a.ids[i] in b.ids;
      var j :| 0 <= j < |b.ids| && b.ids[j] == a.ids[i];
      assert Carries(e.urlId, b.ids[j]);
    } else {
      var i :| 0 <= i < |a.hosts| && Carries(e.host, a.hosts[i]);
      assert a.hosts[i] in b.hosts;
      var j :| 0 <= j < |b.hosts| && b.hosts[j] == a.hosts[i];
      assert Carries(e.host, b.hosts[j]);
    }
  }

  lemma SameReach(st: State, a: Targets, b: Targets)
    requires SameTargets(a, b)
    ensures Evicted(st, a) == Evicted(st, b)
  {
    hide Removed;
    if !a.all {
      assert NamedKeys(a) == NamedKeys(b);
      forall k | k in st.entries ensures CarriesTarget(a, st.entries[k]) <==> CarriesTarget(b, st.entries[k]) {
        if CarriesTarget(a, st.entries[k]) {
          CarriesSame(a, b, st.entries[k]);
        }
        if CarriesTarget(b, st.entries[k]) {
          CarriesSame(b, a, st.entries[k]);
        }
      }
      assert ReachedKeys(st, a) == ReachedKeys(st, b);
    }
  }

  /** Delivering messages one by one evicts what their targets evict taken together. */
  lemma {:induction false} DeliveredTogether(st: State, messages: seq<Message>, self: string)
    requires forall m :: m in messages ==> m.origin != self && !m.targets.all && AllUsable(m.targets)
    ensures DeliveredAll(st, messages, self) == Evicted(st, Carried(messages)) && !Carried(messages).all
  {
    hide Evicted;
    if messages == [] {
      EvictedNothing(st);
    } else {
      var init, last := messages[..|messages| - 1], messages[|messages| - 1];
      DeliveredTogether(st, init, self);
      var mid := DeliveredAll(st, init, self);
      assert last in messages;
      CleanedSame(last.targets);
      SameReach(mid, CleanedTargets(last.targets), last.targets);
      EvictedTwice(st, Carried(init), last.targets);
      if Decoded(last, self).None? {
        NothingToEvict(mid, last.targets);
      }
    }
  }

  lemma CleanedSame(t: Targets)
    requires AllUsable(t) && !t.all
    ensures SameTargets(CleanedTargets(t), t)
  {
    CleanedIs(t.codes);
    CleanedIs(t.ids);
    CleanedIs(t.hosts);
  }

  lemma NothingToEvict(st: State, t: Targets)
    requires !t.all && AllUsable(t)
    requires Cleaned(t.codes) == [] && Cleaned(t.ids) == [] && Cleaned(t.hosts) == []
    ensures Evicted(st, t) == st
  {
    EmptyWhenCleanedEmpty(t.codes);
    EmptyWhenCleanedEmpty(t.ids);
    EmptyWhenCleanedEmpty(t.hosts);
    EvictedNothing(st);
  }

  lemma EmptyWhenCleanedEmpty(values: seq<string>)
    requires Cleaned(values) == [] && forall v :: v in values ==> Usable(v)
    ensures values == []
  {
    if values != [] { SomethingIsCleaned(values); }
  }

  lemma SomethingIsCleaned(values: seq<string>)
    requires values != [] && forall v :: v in values ==> Usable(v)
    ensures Cleaned(values) != []
  {
    CleanedIs(values);
    assert values[0] in values && values[0] in Cleaned(values);
  }

  function Values(t: Targets, kind: Kind): seq<string> {
    match kind
    case KCode => t.codes
    case KId => t.ids
    case KHost => t.hosts
  }

  lemma {:induction false} CarriedValues(messages: seq<Message>, kind: Kind, v: string)
    ensures v in Values(Carried(messages), kind) <==> exists m :: m in messages && v in Values(m.targets, kind)
  {
    if messages != [] {
      var init, last := messages[..|messages| - 1], messages[|messages| - 1];
      CarriedValues(init, kind, v);
      assert messages == init + [last];
      assert Values(Carried(messages), kind) == Values(Carried(init), kind) + Values(last.targets, kind);
    }
  }

  /**
   Whatever order the messages of one invalidation arrive in, and however often
   each is repeated, another instance ends up exactly as if it had evicted the
   cleaned targets itself.
   */
  lemma AnyOrderEvictsSame(st: State, t: Targets, sent: seq<Message>, arrived: seq<Message>, origin: string, self: string)
    requires !t.all && Carried(sent) == CleanedTargets(t)
    requires forall m :: m in sent ==> WellMade(m, origin)
    requires origin != self && forall m :: m in sent <==> m in arrived
    ensures DeliveredAll(st, arrived, self) == Evicted(st, CleanedTargets(t))
  {
    hide Evicted, Cleaned, AllUsable;
    DeliveredTogether(st, arrived, self);
    DeliveredTogether(st, sent, self);
    SameCarried(sent, arrived);
    SameReach(st, Carried(arrived), Carried(sent));
  }

  lemma SameCarried(a: seq<Message>, b: seq<Message>)
    requires forall m :: m in a <==> m in b
    requires !Carried(a).all && !Carried(b).all
    ensures SameTargets(Carried(b), Carried(a))
  {
    forall kind, v ensures v in Values(Carried(a), kind) <==> v in Values(Carried(b), kind) {
      CarriedValues(a, kind, v);
      CarriedValues(b, kind, v);
    }
    hide Carried;
    assert Values(Carried(a), KCode) == Carried(a).codes && Values(Carried(b), KCode) == Carried(b).codes;
    assert Values(Carried(a), KId) == Carried(a).ids && Values(Carried(b), KId) == Carried(b).ids;
    assert Values(Carried(a), KHost) == Carried(a).hosts && Values(Carried(b), KHost) == Carried(b).hosts;
  }

  // ----- What is ignored, and what flushes -----

  /** An instance takes no notice of its own messages, however many. */
  lemma {:induction false} OwnMessagesAreDropped(st: State, messages: seq<Message>, self: string)
    requires forall m :: m in messages ==> m.origin == self
    ensures DeliveredAll(st, messages, self) == st
  {
    if messages != [] {
      var init, last := messages[..|messages| - 1], messages[|messages| - 1];
      assert last in messages;
      OwnMessagesAreDropped(st, init, self);
    }
  }

  /** A flush from elsewhere empties the cache and makes every load under way stale. */
  lemma FlushIsDelivered(st: State, m: Message, self: string, maxEntries: nat)
    requires WellFormed(st, maxEntries) && m.targets.all && m.origin != self
    ensures Delivered(st, m, self) == State(map[], [], map[], st.stale + set k | k in st.inflight :: st.inflight[k])
  {
    FlushReaches(st, Targets([], [], [], true));
    RemovedAll(st, maxEntries);
    hide Removed;
  }

  /** Any other message from elsewhere evicts its usable targets and nothing more. */
  lemma OtherMessagesEvict(st: State, m: Message, self: string)
    requires !m.targets.all && m.origin != self
    ensures Delivered(st, m, self) == Evicted(st, CleanedTargets(m.targets))
  {
    EvictedNothing(st);
    hide Evicted, Cleaned;
  }

  /** Usable values that are all different come through as they are, in their order. */
  lemma {:induction false} CleanedKeepsOrder(values: seq<string>)
    requires forall v :: v in values ==> Usable(v)
    requires forall i, j :: 0 <= i < j < |values| ==> values[i] != values[j]
    ensures Cleaned(values) == values
  {
    if values != [] {
      var init, last := values[..|values| - 1], values[|values| - 1];
      assert forall v :: v in init ==> v in values;
      CleanedKeepsOrder(init);
      assert values == init + [last] && last !in init;
    }
  }
}
