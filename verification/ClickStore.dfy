/**
 Persisting a batch of clicks (`persistBatch` in src/lib/queue.ts, with
 src/lib/click-ingestion.ts and src/lib/click-dimensions.ts).

 A `Cell` names one counter column of one row: a link total, a (link, day)
 total, a variant total, a dimension total, or a usage bucket.  `Counts` says
 which stored events a cell is about.  Everything the transaction adds up is
 proved to be the number of stored events its cell counts.
 */
module ClickStore {
  import opened Prelude
  import opened JsText

  datatype Click = Click(
    id: string,
    urlId: string,
    shortCode: string,
    dateKey: string,
    variantId: Option<string>,
    trafficType: Option<string>,
    country: Option<string>,
    deviceType: Option<string>,
    referrerHost: Option<string>,
    ip: Option<string>,
    privacySignal: bool,
    usageReserved: bool,
    nonBillable: bool)

  /** `excludedIps`: the addresses that the workspace's exclusion list covers. */
  datatype Policy =
    Policy(excludedIps: set<string>, aggregateOnly: bool, honorSignals: bool, storeReferrer: bool, hashIp: bool)

  /**
   What the database answers around one transaction: the workspace of each link
   when the batch is prepared and again inside the transaction, and the month.
   */
  datatype Env = Env(
    workspaceOf: map<string, string>,
    policyOf: map<string, Policy>,
    workspaceInTx: map<string, string>,
    period: string)

  /** A stored event, with the workspace and month its usage is charged to. */
  datatype Stored = Stored(click: Click, billedTo: Option<string>, period: string)

  datatype Dimension = Country | Device | Referrer

  datatype Cell =
    | UrlTotal(url: string)
    | DayTotal(url: string, dateKey: string)
    | VariantTotal(variant: string)
    | DimensionTotal(url: string, dateKey: string, dimension: Dimension, key: string)
    | UsageBucket(workspace: string, period: string)

  datatype Db = Db(events: map<string, Stored>, counters: map<Cell, nat>)

  // ----- What a counter means -----

  const UNKNOWN := "unknown"
  const MAX_KEY_LENGTH := 255

  function CleanKey(value: Option<string>): string {
    var trimmed := if value.Some? then Trim(value.value) else "";
    if trimmed == "" then UNKNOWN
    else if |trimmed| > MAX_KEY_LENGTH then trimmed[..MAX_KEY_LENGTH] else trimmed
  }

  function DimensionKey(c: Click, d: Dimension): string {
    match d
    case Country => CleanKey(c.country)
    case Device => CleanKey(c.deviceType)
    case Referrer => CleanKey(c.referrerHost)
  }

  predicate Human(c: Click) {
    c.trafficType.None? || c.trafficType.value == "human"
  }

  predicate Counts(cell: Cell, s: Stored) {
    match cell
    case UrlTotal(url) => s.click.urlId == url
    case DayTotal(url, dateKey) => s.click.urlId == url && s.click.dateKey == dateKey
    case VariantTotal(variant) => variant != "" && s.click.variantId == Some(variant)
    case DimensionTotal(url, dateKey, d, key) =>
      Human(s.click) && s.click.urlId == url && s.click.dateKey == dateKey && DimensionKey(s.click, d) == key
    case UsageBucket(workspace, period) =>
      s.billedTo == Some(workspace) && s.period == period && !s.click.nonBillable && !s.click.usageReserved
  }

  function Value(db: Db, cell: Cell): nat {
    if cell in db.counters then db.counters[cell] else 0
  }

  /** How many stored events a cell is about. */
  function Total(events: map<string, Stored>, cell: Cell): nat {
    |set id | id in events && Counts(cell, events[id])|
  }

  function Tally(items: seq<Stored>, cell: Cell): nat {
    if items == [] then 0
    else Tally(items[..|items| - 1], cell) + if Counts(cell, items[|items| - 1]) then 1 else 0
  }

  /** Every counter equals the number of distinct persisted events it is about. */
  ghost predicate Exact(db: Db) {
    forall cell :: Value(db, cell) == Total(db.events, cell)
  }

  // ----- Preparing a batch -----

  /** What is hashed in place of an address; the hash itself is injective. */
  function HashedIp(ip: string, ws: string): string {
    ws + ":" + ip
  }

  /** The privacy policy decides whether a click is kept and which fields survive. */
  function Sanitized(c: Click, p: Policy, ws: string): Option<Click> {
    if c.ip.Some? && c.ip.value in p.excludedIps then None
    else if p.aggregateOnly || (p.honorSignals && c.privacySignal) then
      Some(c.(privacySignal := false, ip := None, trafficType := Some("human"),
              country := None, deviceType := None, referrerHost := None))
    else
      Some(c.(ip := if p.hashIp && c.ip.Some? then Some(HashedIp(c.ip.value, ws)) else None,
              referrerHost := if p.storeReferrer then c.referrerHost else None))
  }

  const DEFAULT_POLICY := Policy({}, false, false, true, true)

  /** Kept only when the link has a workspace and its policy keeps the click. */
  function PreparedOne(c: Click, env: Env): Option<Click> {
    if c.urlId !in env.workspaceOf || env.workspaceOf[c.urlId] == "" then None
    else
      var ws := env.workspaceOf[c.urlId];
      Sanitized(c, if ws in env.policyOf then env.policyOf[ws] else DEFAULT_POLICY, ws)
  }

  function Prepared(items: seq<Click>, env: Env): seq<Click> {
    if items == [] then []
    else
      var rest := Prepared(items[..|items| - 1], env);
      var last := PreparedOne(items[|items| - 1], env);
      if last.Some? then rest + [last.value] else rest
  }

  method PrepareClicks(items: seq<Click>, env: Env) returns (out: seq<Click>)
    ensures out == Prepared(items, env)
  {
    out := [];
    for i := 0 to |items|
      invariant out == Prepared(items[..i], env)
    {
      assert items[..i + 1][..i] == items[..i];
      var ws := if items[i].urlId in env.workspaceOf then env.workspaceOf[items[i].urlId] else "";
      if ws != "" {
        var safe := Sanitized(items[i], if ws in env.policyOf then env.policyOf[ws] else DEFAULT_POLICY, ws);
        if safe.Some? {
          out := out + [safe.value];
        }
      }
    }
    assert items[..|items|] == items;
  }

  /** One click per id: the position of the first, the fields of the last (a JavaScript Map filled in order). */
  function Deduped(items: seq<Click>): seq<Click> {
    if items == [] then []
    else Put(Deduped(items[..|items| - 1]), items[|items| - 1])
  }

  function Put(items: seq<Click>, c: Click): seq<Click> {
    if items == [] then [c]
    else if items[0].id == c.id then [c] + items[1..]
    else [items[0]] + Put(items[1..], c)
  }

  ghost predicate DistinctIds(items: seq<Click>) {
    forall i, j :: 0 <= i < j < |items| ==> items[i].id != items[j].id
  }

  ghost predicate HasId(items: seq<Click>, id: string) {
    exists i :: 0 <= i < |items| && items[i].id == id
  }

  lemma {:induction false} PutIds(items: seq<Click>, c: Click)
    ensures forall id :: HasId(Put(items, c), id) <==> HasId(items, id) || id == c.id
    ensures DistinctIds(items) ==> DistinctIds(Put(items, c))
    ensures forall x :: x in Put(items, c) ==> x in items || x == c
  {
    var r := Put(items, c);
    if items == [] {
      assert r[0] == c;
    } else if items[0].id == c.id {
      forall id ensures HasId(r, id) <==> HasId(items, id) {
        if i :| 0 <= i < |r| && r[i].id == id { assert items[i].id == id; }
        if i :| 0 <= i < |items| && items[i].id == id { assert r[i].id == id; }
      }
    } else {
      PutIds(items[1..], c);
      var rest := Put(items[1..], c);
      forall id ensures HasId(r, id) <==> HasId(items, id) || id == c.id {
        HasIdCons(items[0], rest, id);
        HasIdCons(items[0], items[1..], id);
        assert items == [items[0]] + items[1..];
      }
      if DistinctIds(items) {
        assert !HasId(items[1..], items[0].id);
        forall i, j | 0 <= i < j < |r| ensures r[i].id != r[j].id {
          if i == 0 { assert rest[j - 1] == r[j]; } else { assert rest[i - 1] == r[i] && rest[j - 1] == r[j]; }
        }
      }
    }
  }

  lemma HasIdCons(c: Click, items: seq<Click>, id: string)
    ensures HasId([c] + items, id) <==> c.id == id || HasId(items, id)
  {
    var all := [c] + items;
    if i :| 0 <= i < |all| && all[i].id == id {
      if i > 0 { assert items[i - 1].id == id; }
    }
    if i :| 0 <= i < |items| && items[i].id == id { assert all[i + 1].id == id; }
    assert all[0] == c;
  }

  /** Deduplication keeps every id, once, and invents nothing. */
  lemma {:induction false} DedupedIds(items: seq<Click>)
    ensures DistinctIds(Deduped(items))
    ensures forall id :: HasId(Deduped(items), id) <==> HasId(items, id)
    ensures forall x :: x in Deduped(items) ==> x in items
  {
    if items != [] {
      var init, last := items[..|items| - 1], items[|items| - 1];
      DedupedIds(init);
      PutIds(Deduped(init), last);
      assert items == init + [last];
      forall id ensures HasId(items, id) <==> HasId(init, id) || id == last.id {
        if i :| 0 <= i < |items| && items[i].id == id { assert i < |init| ==> init[i].id == id; }
        if i :| 0 <= i < |init| && init[i].id == id { assert items[i].id == id; }
        assert items[|init|] == last;
      }
    }
  }

  // ----- Inserting -----

  function Billed(c: Click, env: Env): Stored {
    Stored(c,
           if c.urlId in env.workspaceInTx && env.workspaceInTx[c.urlId] != "" then Some(env.workspaceInTx[c.urlId]) else None,
           env.period)
  }

  /** `INSERT ... ON CONFLICT DO NOTHING RETURNING id`: the items whose id was not stored yet. */
  function NewItems(events: map<string, Stored>, items: seq<Click>, env: Env): seq<Stored> {
    if items == [] then []
    else
      var rest := NewItems(events, items[..|items| - 1], env);
      var last := items[|items| - 1];
      if last.id in events then rest else rest + [Billed(last, env)]
  }

  function Inserted(events: map<string, Stored>, items: seq<Stored>): map<string, Stored> {
    if items == [] then events
    else Inserted(events, items[..|items| - 1])[items[|items| - 1].click.id := items[|items| - 1]]
  }

  ghost predicate FreshIds(events: map<string, Stored>, items: seq<Stored>) {
    && (forall i :: 0 <= i < |items| ==> items[i].click.id !in events)
    && (forall i, j :: 0 <= i < j < |items| ==> items[i].click.id != items[j].click.id)
  }

  lemma {:induction false} NewItemsMembers(events: map<string, Stored>, items: seq<Click>, env: Env)
    ensures forall s :: s in NewItems(events, items, env) ==> s.click in items && s == Billed(s.click, env)
    ensures forall c :: c in items && c.id !in events ==> Billed(c, env) in NewItems(events, items, env)
  {
    if items != [] {
      var init, last := items[..|items| - 1], items[|items| - 1];
      NewItemsMembers(events, init, env);
      assert items == init + [last];
    }
  }

  lemma {:induction false} NewItemsFresh(events: map<string, Stored>, items: seq<Click>, env: Env)
    requires DistinctIds(items)
    ensures FreshIds(events, NewItems(events, items, env))
    ensures forall s :: s in NewItems(events, items, env) ==> s.click in items && s == Billed(s.click, env)
    ensures forall c :: c in items && c.id !in events ==> Billed(c, env) in NewItems(events, items, env)
  {
    NewItemsMembers(events, items, env);
    if items != [] {
      var init, last := items[..|items| - 1], items[|items| - 1];
      NewItemsFresh(events, init, env);
      var rest := NewItems(events, init, env);
      forall i | 0 <= i < |rest| ensures rest[i].click.id != last.id {
        assert rest[i] in rest;
        var j :| 0 <= j < |init| && init[j] == rest[i].click;
        assert items[j].id != items[|items| - 1].id;
      }
    }
  }

  ghost predicate StoresId(items: seq<Stored>, id: string) {
    exists i :: 0 <= i < |items| && items[i].click.id == id
  }

  lemma StoresIdSnoc(items: seq<Stored>, s: Stored, id: string)
    ensures StoresId(items + [s], id) <==> StoresId(items, id) || s.click.id == id
  {
    var all := items + [s];
    if i :| 0 <= i < |all| && all[i].click.id == id {
      assert i < |items| ==> items[i].click.id == id;
    }
    if i :| 0 <= i < |items| && items[i].click.id == id {
      assert all[i].click.id == id;
    }
    assert all[|items|] == s;
  }

  lemma {:induction false} InsertedKeys(events: map<string, Stored>, items: seq<Stored>)
    ensures forall id :: id in Inserted(events, items) <==> id in events || StoresId(items, id)
    ensures forall id :: id in events && !StoresId(items, id) ==> Inserted(events, items)[id] == events[id]
  {
    if items != [] {
      hide StoresId;
      var init, last := items[..|items| - 1], items[|items| - 1];
      InsertedKeys(events, init);
      assert items == init + [last];
      forall id ensures StoresId(items, id) <==> StoresId(init, id) || last.click.id == id {
        StoresIdSnoc(init, last, id);
      }
    } else {
      forall id ensures !StoresId(items, id) {}
    }
  }

  /** Inserting fresh ids raises each total by exactly the number of new events the cell is about. */
  lemma {:induction false} TotalGrowsByTally(events: map<string, Stored>, items: seq<Stored>, cell: Cell)
    requires FreshIds(events, items)
    ensures Total(Inserted(events, items), cell) == Total(events, cell) + Tally(items, cell)
  {
    hide Counts;
    if items != [] {
      var init, last := items[..|items| - 1], items[|items| - 1];
      TotalGrowsByTally(events, init, cell);
      InsertedKeys(events, init);
      var before := Inserted(events, init);
      assert last.click.id !in before;
      TotalOfOneMore(before, last, cell);
    }
  }

  lemma TotalOfOneMore(events: map<string, Stored>, s: Stored, cell: Cell)
    requires s.click.id !in events
    ensures Total(events[s.click.id := s], cell) == Total(events, cell) + if Counts(cell, s) then 1 else 0
  {
    hide Counts;
    var after := events[s.click.id := s];
    var old_ := set id | id in events && Counts(cell, events[id]);
    var new_ := set id | id in after && Counts(cell, after[id]);
    assert new_ == old_ + if Counts(cell, s) then {s.click.id} else {};
  }

  // ----- The transaction, as a function -----

  function CellsOf(s: Stored): set<Cell> {
    var c := s.click;
    {UrlTotal(c.urlId), DayTotal(c.urlId, c.dateKey)}
    + (if c.variantId.Some? && c.variantId.value != "" then {VariantTotal(c.variantId.value)} else {})
    + (if Human(c) then
         {DimensionTotal(c.urlId, c.dateKey, Country, DimensionKey(c, Country)),
          DimensionTotal(c.urlId, c.dateKey, Device, DimensionKey(c, Device)),
          DimensionTotal(c.urlId, c.dateKey, Referrer, DimensionKey(c, Referrer))}
       else {})
    + (if s.billedTo.Some? && !c.nonBillable && !c.usageReserved then {UsageBucket(s.billedTo.value, s.period)} else {})
  }

  lemma CellsOfIsCounts(s: Stored, cell: Cell)
    ensures cell in CellsOf(s) <==> Counts(cell, s)
  {
    hide CleanKey, Human;
    match cell
    case DimensionTotal(_, _, d, _) =>
      match d { case Country => case Device => case Referrer => }
    case _ =>
  }

  function TouchedCells(items: seq<Stored>): set<Cell> {
    if items == [] then {} else TouchedCells(items[..|items| - 1]) + CellsOf(items[|items| - 1])
  }

  lemma {:induction false} UntouchedTally(items: seq<Stored>, cell: Cell)
    ensures Tally(items, cell) > 0 ==> cell in TouchedCells(items)
  {
    hide Counts, CellsOf;
    if items != [] {
      UntouchedTally(items[..|items| - 1], cell);
      CellsOfIsCounts(items[|items| - 1], cell);
    }
  }

  function Batch(db: Db, items: seq<Click>, env: Env): seq<Stored> {
    NewItems(db.events, Deduped(Prepared(items, env)), env)
  }

  function Committed(db: Db, items: seq<Click>, env: Env): Db {
    var new_ := Batch(db, items, env);
    Db(Inserted(db.events, new_),
       map cell | cell in db.counters.Keys + TouchedCells(new_) :: Value(db, cell) + Tally(new_, cell))
  }

  lemma CommittedValue(db: Db, items: seq<Click>, env: Env, cell: Cell)
    ensures Value(Committed(db, items, env), cell) == Value(db, cell) + Tally(Batch(db, items, env), cell)
  {
    hide Tally, TouchedCells, Batch;
    UntouchedTally(Batch(db, items, env), cell);
  }

  lemma BatchFresh(db: Db, items: seq<Click>, env: Env)
    ensures FreshIds(db.events, Batch(db, items, env))
  {
    DedupedIds(Prepared(items, env));
    NewItemsFresh(db.events, Deduped(Prepared(items, env)), env);
  }

  /**
   One transaction keeps every counter exact, however the batch repeats ids
   within itself or repeats clicks stored before.
   */
  lemma CommitKeepsExact(db: Db, items: seq<Click>, env: Env)
    requires Exact(db)
    ensures Exact(Committed(db, items, env))
  {
    hide Value, Total, Tally, Batch, Inserted;
    BatchFresh(db, items, env);
    forall cell ensures Value(Committed(db, items, env), cell) == Total(Committed(db, items, env).events, cell) {
      CommittedValue(db, items, env, cell);
      TotalGrowsByTally(db.events, Batch(db, items, env), cell);
      CommittedEvents(db, items, env);
    }
  }

  lemma CommittedEvents(db: Db, items: seq<Click>, env: Env)
    ensures Committed(db, items, env).events == Inserted(db.events, Batch(db, items, env))
  {
  }

  // ----- Which clicks a commit stores -----

  /** The click's link has a workspace, and that workspace's policy, if it has one, does not exclude the address. */
  predicate Welcome(c: Click, env: Env) {
    && c.urlId in env.workspaceOf && env.workspaceOf[c.urlId] != ""
    && (env.workspaceOf[c.urlId] in env.policyOf && c.ip.Some? ==>
          c.ip.value !in env.policyOf[env.workspaceOf[c.urlId]].excludedIps)
  }

  lemma PreparedExactly(c: Click, env: Env)
    ensures PreparedOne(c, env).Some? <==> Welcome(c, env)
  {
  }

  /** After a commit every welcome click of the batch is stored, and nothing stored before is changed. */
  lemma CommitStoresWelcome(db: Db, items: seq<Click>, env: Env)
    ensures forall c :: c in items && Welcome(c, env) ==> c.id in Committed(db, items, env).events
    ensures forall id :: id in db.events ==> id in Committed(db, items, env).events && Committed(db, items, env).events[id] == db.events[id]
  {
    var prepared := Prepared(items, env);
    var unique := Deduped(prepared);
    var new_ := Batch(db, items, env);
    DedupedIds(prepared);
    NewItemsFresh(db.events, unique, env);
    InsertedKeys(db.events, new_);
    forall c | c in items && Welcome(c, env) ensures c.id in Committed(db, items, env).events {
      PreparedExactly(c, env);
      PreparedKeepsId(items, env, c);
      assert HasId(unique, c.id);
      var i :| 0 <= i < |unique| && unique[i].id == c.id;
      if c.id !in db.events {
        assert unique[i] in unique;
        assert Billed(unique[i], env) in new_;
        var j :| 0 <= j < |new_| && new_[j] == Billed(unique[i], env);
        assert StoresId(new_, c.id);
      }
    }
  }

  lemma {:induction false} PreparedKeepsId(items: seq<Click>, env: Env, c: Click)
    requires c in items && PreparedOne(c, env).Some?
    ensures HasId(Prepared(items, env), c.id)
  {
    var init, last := items[..|items| - 1], items[|items| - 1];
    assert items == init + [last];
    var r := Prepared(items, env);
    if last == c {
      assert r[|r| - 1] == PreparedOne(c, env).value;
    } else {
      PreparedKeepsId(init, env, c);
      var i :| 0 <= i < |Prepared(init, env)| && Prepared(init, env)[i].id == c.id;
      assert r[i].id == c.id;
    }
  }

  /** The policy that applies to a click keeps only what is counted. */
  predicate Anonymous(c: Click, env: Env)
    requires Welcome(c, env)
  {
    var ws := env.workspaceOf[c.urlId];
    ws in env.policyOf && (env.policyOf[ws].aggregateOnly || (env.policyOf[ws].honorSignals && c.privacySignal))
  }

  /** What becomes of a click, field by field. */
  predicate StoredFrom(s: Stored, c: Click, env: Env)
    requires Welcome(c, env)
  {
    var ws := env.workspaceOf[c.urlId];
    && s.click.id == c.id && s.click.urlId == c.urlId && s.click.shortCode == c.shortCode && s.click.dateKey == c.dateKey
    && s.click.variantId == c.variantId && s.click.usageReserved == c.usageReserved && s.click.nonBillable == c.nonBillable
    && s.period == env.period
    && (s.billedTo.Some? <==> c.urlId in env.workspaceInTx && env.workspaceInTx[c.urlId] != "")
    && (s.billedTo.Some? ==> s.billedTo.value == env.workspaceInTx[c.urlId])
    && (Anonymous(c, env) ==>
          s.click.ip.None? && s.click.country.None? && s.click.deviceType.None? && s.click.referrerHost.None?
          && s.click.trafficType == Some("human") && !s.click.privacySignal)
    && (!Anonymous(c, env) ==>
          && s.click.country == c.country && s.click.deviceType == c.deviceType && s.click.trafficType == c.trafficType
          && s.click.privacySignal == c.privacySignal
          && (s.click.referrerHost == if ws in env.policyOf && !env.policyOf[ws].storeReferrer then None else c.referrerHost)
          && (s.click.ip.Some? <==> c.ip.Some? && (ws in env.policyOf ==> env.policyOf[ws].hashIp))
          && (s.click.ip.Some? ==> s.click.ip.value == HashedIp(c.ip.value, ws)))
  }

  lemma BilledIsStoredFrom(c: Click, env: Env)
    requires PreparedOne(c, env).Some?
    ensures Welcome(c, env) && StoredFrom(Billed(PreparedOne(c, env).value, env), c, env)
  {
    PreparedExactly(c, env);
    var ws := env.workspaceOf[c.urlId];
    var p := if ws in env.policyOf then env.policyOf[ws] else DEFAULT_POLICY;
    assert PreparedOne(c, env) == Sanitized(c, p, ws);
    assert Anonymous(c, env) <==> p.aggregateOnly || (p.honorSignals && c.privacySignal);
    hide PreparedOne, Welcome, Anonymous, HashedIp;
  }

  /** A commit stores a new id only for a welcome click of the batch, and of it what the workspace's policy allows. */
  lemma CommitAddsOnly(db: Db, items: seq<Click>, env: Env, id: string)
    requires id in Committed(db, items, env).events && id !in db.events
    ensures exists c :: c in items && c.id == id && Welcome(c, env) && StoredFrom(Committed(db, items, env).events[id], c, env)
  {
    var unique := Deduped(Prepared(items, env));
    var new_ := Batch(db, items, env);
    DedupedIds(Prepared(items, env));
    NewItemsFresh(db.events, unique, env);
    InsertedKeys(db.events, new_);
    assert StoresId(new_, id);
    InsertedIsOne(db.events, new_, id);
    var i :| 0 <= i < |new_| && new_[i].click.id == id && Inserted(db.events, new_)[id] == new_[i];
    assert new_[i] in new_;
    PreparedIds(items, env, new_[i].click);
    var c :| c in items && PreparedOne(c, env) == Some(new_[i].click);
    BilledIsStoredFrom(c, env);
  }

  lemma {:induction false} InsertedIsOne(events: map<string, Stored>, items: seq<Stored>, id: string)
    requires StoresId(items, id)
    ensures id in Inserted(events, items)
    ensures exists i :: 0 <= i < |items| && items[i].click.id == id && Inserted(events, items)[id] == items[i]
  {
    var init, last := items[..|items| - 1], items[|items| - 1];
    if last.click.id != id {
      assert items == init + [last];
      StoresIdSnoc(init, last, id);
      InsertedIsOne(events, init, id);
      var i :| 0 <= i < |init| && init[i].click.id == id && Inserted(events, init)[id] == init[i];
      assert items[i] == init[i];
    }
  }

  lemma {:induction false} PreparedIds(items: seq<Click>, env: Env, c: Click)
    requires c in Prepared(items, env)
    ensures exists d :: d in items && PreparedOne(d, env) == Some(c)
  {
    var init, last := items[..|items| - 1], items[|items| - 1];
    assert items == init + [last];
    if c in Prepared(init, env) {
      PreparedIds(init, env, c);
    } else {
      assert last in items && PreparedOne(last, env) == Some(c);
    }
  }

  // ----- Repeats within a batch -----

  lemma {:induction false} PutKeepsOthers(items: seq<Click>, c: Click, x: Click)
    requires x in items && x.id != c.id
    ensures x in Put(items, c)
  {
    if items[0].id != c.id && x != items[0] { PutKeepsOthers(items[1..], c, x); }
  }

  lemma {:induction false} PutHas(items: seq<Click>, c: Click)
    ensures c in Put(items, c)
  {
    if items != [] && items[0].id != c.id { PutHas(items[1..], c); }
  }

  /** Of clicks with the same id the last one is kept. */
  lemma {:induction false} LastOfIdIsKept(items: seq<Click>, i: nat)
    requires i < |items| && forall j :: i < j < |items| ==> items[j].id != items[i].id
    ensures items[i] in Deduped(items)
  {
    var init, last := items[..|items| - 1], items[|items| - 1];
    if i == |items| - 1 {
      PutHas(Deduped(init), last);
    } else {
      LastOfIdIsKept(init, i);
      PutKeepsOthers(Deduped(init), last, items[i]);
    }
  }

  // ----- Dimensions -----

  /** What a dimension counts a click under: its own field, trimmed and cut; or `unknown`. */
  lemma DimensionKeysAre(c: Click)
    ensures c.country.None? ==> DimensionKey(c, Country) == "unknown"
    ensures c.deviceType.None? ==> DimensionKey(c, Device) == "unknown"
    ensures c.referrerHost.None? ==> DimensionKey(c, Referrer) == "unknown"
    ensures c.country.Some? ==> KeyOf(c.country.value, DimensionKey(c, Country))
    ensures c.deviceType.Some? ==> KeyOf(c.deviceType.value, DimensionKey(c, Device))
    ensures c.referrerHost.Some? ==> KeyOf(c.referrerHost.value, DimensionKey(c, Referrer))
  {
  }

  /** Clicks of robots are counted under no dimension; people's, and those of unknown kind, are. */
  lemma OnlyPeopleAreBrokenDown(s: Stored, d: Dimension, key: string)
    ensures s.click.trafficType.Some? && s.click.trafficType.value != "human" ==>
      forall cell: Cell :: cell.DimensionTotal? ==> !Counts(cell, s)
    ensures s.click.trafficType.None? || s.click.trafficType.value == "human" ==>
      (Counts(DimensionTotal(s.click.urlId, s.click.dateKey, d, key), s) <==> key == DimensionKey(s.click, d))
  {
    hide DimensionKey;
  }

  predicate KeyOf(value: string, key: string) {
    && (Trim(value) == "" ==> key == "unknown")
    && (0 < |Trim(value)| <= 255 ==> key == Trim(value))
    && (|Trim(value)| > 255 ==> |key| == 255 && key <= Trim(value))
  }
}
