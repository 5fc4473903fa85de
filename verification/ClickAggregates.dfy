/**
 The grouping loops of `persistBatch` and the transaction that applies them
 (src/lib/queue.ts, src/lib/click-dimensions.ts), as code over mutable counters,
 proved to have the effect `Committed` describes.

 The program groups by strings it glues together (`urlId|dateKey`, and the
 dimension fields with NUL between them).  `Separable` is exactly what makes
 different rows get different strings.
 */
module ClickAggregates {
  import opened Prelude
  import opened ClickStore

  // ----- Grouping keys -----

  function DayKey(url: string, dateKey: string): string {
    url + "|" + dateKey
  }

  function DimensionName(d: Dimension): string {
    match d
    case Country => "country"
    case Device => "device"
    case Referrer => "referrer"
  }

  function DimensionId(url: string, dateKey: string, d: Dimension, key: string): string {
    url + "\0" + dateKey + "\0" + DimensionName(d) + "\0" + key
  }

  /** A row's id: the link, the day, the dimension's name and the key, with NUL between them. */
  lemma RowIdsAre(url: string, dateKey: string, key: string)
    ensures DimensionId(url, dateKey, Country, key) == url + "\0" + dateKey + "\0" + "country" + "\0" + key
    ensures DimensionId(url, dateKey, Device, key) == url + "\0" + dateKey + "\0" + "device" + "\0" + key
    ensures DimensionId(url, dateKey, Referrer, key) == url + "\0" + dateKey + "\0" + "referrer" + "\0" + key
  {
  }

  /** No "|" in a day, and no NUL (PostgreSQL text cannot hold one) in a link id or day. */
  predicate Separable(c: Click) {
    '|' !in c.dateKey && '\0' !in c.dateKey && '\0' !in c.urlId
  }

  predicate AllSeparable(items: seq<Stored>) {
    forall i :: 0 <= i < |items| ==> Separable(items[i].click)
  }

  lemma SplitAtFirst(a: string, b: string, c: string, d: string, sep: char)
    requires sep !in a && sep !in c && a + [sep] + b == c + [sep] + d
    ensures a == c && b == d
  {
    var s := a + [sep] + b;
    assert s[|a|] == sep && s[|c|] == sep;
    assert forall i :: 0 <= i < |a| ==> s[i] == a[i];
    assert forall i :: 0 <= i < |c| ==> s[i] == c[i];
    assert |a| == |c|;
    assert a == s[..|a|] && c == s[..|c|];
    assert b == s[|a| + 1..] && d == s[|c| + 1..];
  }

  lemma SplitAtLast(a: string, b: string, c: string, d: string, sep: char)
    requires sep !in b && sep !in d && a + [sep] + b == c + [sep] + d
    ensures a == c && b == d
  {
    var s := a + [sep] + b;
    assert |s| == |a| + 1 + |b| == |c| + 1 + |d|;
    assert s[|a|] == sep && s[|c|] == sep;
    assert forall i :: |a| < i < |s| ==> s[i] == b[i - |a| - 1];
    assert forall i :: |c| < i < |s| ==> s[i] == d[i - |c| - 1];
    assert |a| == |c|;
    assert a == s[..|a|] && c == s[..|c|];
    assert b == s[|a| + 1..] && d == s[|c| + 1..];
  }

  /** Separable clicks share a day key only if they share the link and the day. */
  lemma DayKeyInjective(u1: string, d1: string, u2: string, d2: string)
    requires '|' !in d1 && '|' !in d2 && DayKey(u1, d1) == DayKey(u2, d2)
    ensures u1 == u2 && d1 == d2
  {
    SplitAtLast(u1, d1, u2, d2, '|');
  }

  lemma DimensionIdInjective(u1: string, d1: string, m1: Dimension, k1: string, u2: string, d2: string, m2: Dimension, k2: string)
    requires '\0' !in u1 && '\0' !in u2 && '\0' !in d1 && '\0' !in d2
    requires DimensionId(u1, d1, m1, k1) == DimensionId(u2, d2, m2, k2)
    ensures u1 == u2 && d1 == d2 && m1 == m2 && k1 == k2
  {
    hide DimensionName;
    var n1, n2 := DimensionName(m1), DimensionName(m2);
    var r1, r2 := n1 + ['\0'] + k1, n2 + ['\0'] + k2;
    assert DimensionId(u1, d1, m1, k1) == u1 + ['\0'] + (d1 + ['\0'] + r1);
    assert DimensionId(u2, d2, m2, k2) == u2 + ['\0'] + (d2 + ['\0'] + r2);
    SplitAtFirst(u1, d1 + ['\0'] + r1, u2, d2 + ['\0'] + r2, '\0');
    SplitAtFirst(d1, r1, d2, r2, '\0');
    NamesDiffer(m1, m2);
    SplitAtFirst(n1, k1, n2, k2, '\0');
  }

  lemma NamesDiffer(a: Dimension, b: Dimension)
    ensures '\0' !in DimensionName(a) && '\0' !in DimensionName(b)
    ensures DimensionName(a) == DimensionName(b) ==> a == b
  {
    assert |DimensionName(Country)| != |DimensionName(Device)|;
    assert DimensionName(Country)[0] != DimensionName(Referrer)[0];
    assert DimensionName(Device)[0] != DimensionName(Referrer)[0];
  }

  /** The separator as it stands in one half of a glued key. */
  lemma {:induction false} SplitAt(s: string, c: char) returns (a: string, b: string)
    requires c in s
    ensures s == a + [c] + b
  {
    var i :| 0 <= i < |s| && s[i] == c;
    a, b := s[..i], s[i + 1..];
  }

  /** A link and day share their key with another link and day exactly when one of them holds the separator. */
  lemma DayKeyCollides(url: string, dateKey: string)
    ensures (exists u, d :: (u, d) != (url, dateKey) && DayKey(u, d) == DayKey(url, dateKey)) <==> '|' in url || '|' in dateKey
  {
    var key := DayKey(url, dateKey);
    if '|' in dateKey {
      var a, b := SplitAt(dateKey, '|');
      assert DayKey(url + "|" + a, b) == key;
      assert |b| < |dateKey|;
    } else if '|' in url {
      var a, b := SplitAt(url, '|');
      assert DayKey(a, b + "|" + dateKey) == key;
      assert |a| < |url|;
    } else if u, d :| (u, d) != (url, dateKey) && DayKey(u, d) == key {
      OnlyOneBar(u, d, url, dateKey);
    }
  }

  lemma OnlyOneBar(u: string, d: string, url: string, dateKey: string)
    requires '|' !in url && '|' !in dateKey && DayKey(u, d) == DayKey(url, dateKey)
    ensures u == url && d == dateKey
  {
    var key := DayKey(url, dateKey);
    assert key[|u|] == '|';
    assert forall i :: 0 <= i < |key| && i != |url| ==> key[i] != '|';
    assert |u| == |url|;
    assert u == key[..|u|] && url == key[..|url|];
    assert d == key[|u| + 1..] && dateKey == key[|url| + 1..];
  }

  // ----- Counting by key -----

  function DayCount(items: seq<Stored>, k: string): nat {
    if items == [] then 0
    else
      var c := items[|items| - 1].click;
      DayCount(items[..|items| - 1], k) + if DayKey(c.urlId, c.dateKey) == k then 1 else 0
  }

  lemma {:induction false} DayCountIsTally(items: seq<Stored>, url: string, dateKey: string)
    requires AllSeparable(items) && '|' !in dateKey
    ensures DayCount(items, DayKey(url, dateKey)) == Tally(items, DayTotal(url, dateKey))
  {
    if items != [] {
      var init, c := items[..|items| - 1], items[|items| - 1].click;
      DayCountIsTally(init, url, dateKey);
      if DayKey(c.urlId, c.dateKey) == DayKey(url, dateKey) {
        DayKeyInjective(c.urlId, c.dateKey, url, dateKey);
      }
    }
  }

  datatype UrlEntry = UrlEntry(count: nat, shortCode: string)
  datatype DayEntry = DayEntry(urlId: string, dateKey: string, count: nat)

  function CountOf<K>(m: map<K, nat>, k: K): nat {
    if k in m then m[k] else 0
  }

  function UrlCounts(m: map<string, UrlEntry>): map<string, nat> {
    map u | u in m :: m[u].count
  }

  function DayCounts(m: map<string, DayEntry>): map<string, nat> {
    map k | k in m :: m[k].count
  }

  /** Counts per link, and per link and day, of a batch. */
  method AggregateClicks(items: seq<Stored>) returns (perUrl: map<string, UrlEntry>, perDay: map<string, DayEntry>)
    ensures forall u :: CountOf(UrlCounts(perUrl), u) == Tally(items, UrlTotal(u))
    ensures forall k :: CountOf(DayCounts(perDay), k) == DayCount(items, k)
    ensures forall k :: k in perDay ==> DayKey(perDay[k].urlId, perDay[k].dateKey) == k
    ensures AllSeparable(items) ==> forall k :: k in perDay ==> '|' !in perDay[k].dateKey
    ensures forall u :: u in perUrl ==> perUrl[u].count > 0
  {
    hide DayKey;
    perUrl, perDay := map[], map[];
    for i := 0 to |items|
      invariant forall u :: CountOf(UrlCounts(perUrl), u) == Tally(items[..i], UrlTotal(u))
      invariant forall k :: CountOf(DayCounts(perDay), k) == DayCount(items[..i], k)
      invariant forall k :: k in perDay ==> DayKey(perDay[k].urlId, perDay[k].dateKey) == k
      invariant AllSeparable(items) ==> forall k :: k in perDay ==> '|' !in perDay[k].dateKey
      invariant forall u :: u in perUrl ==> perUrl[u].count > 0
    {
      var item := items[i].click;
      assert items[..i + 1][..i] == items[..i];
      var u := item.urlId;
      perUrl := perUrl[u := if u in perUrl then perUrl[u].(count := perUrl[u].count + 1) else UrlEntry(1, item.shortCode)];
      var k := DayKey(item.urlId, item.dateKey);
      assert AllSeparable(items) ==> Separable(items[i].click);
      perDay := perDay[k := if k in perDay then perDay[k].(count := perDay[k].count + 1) else DayEntry(item.urlId, item.dateKey, 1)];
    }
    assert items[..|items|] == items;
  }

  method CountVariants(items: seq<Stored>) returns (counts: map<string, nat>)
    ensures forall v :: CountOf(counts, v) == Tally(items, VariantTotal(v))
  {
    counts := map[];
    for i := 0 to |items|
      invariant forall v :: CountOf(counts, v) == Tally(items[..i], VariantTotal(v))
    {
      assert items[..i + 1][..i] == items[..i];
      var id := items[i].click.variantId;
      if id.Some? && id.value != "" {
        counts := counts[id.value := CountOf(counts, id.value) + 1];
      }
    }
    assert items[..|items|] == items;
  }

  predicate Billable(s: Stored, workspace: string) {
    !s.click.nonBillable && s.billedTo == Some(workspace)
  }

  function BillableCount(items: seq<Stored>, workspace: string): nat {
    if items == [] then 0
    else BillableCount(items[..|items| - 1], workspace) + if Billable(items[|items| - 1], workspace) then 1 else 0
  }

  function ReservedCount(items: seq<Stored>, workspace: string): nat {
    if items == [] then 0
    else
      var s := items[|items| - 1];
      ReservedCount(items[..|items| - 1], workspace) + if Billable(s, workspace) && s.click.usageReserved then 1 else 0
  }

  /** What is measured is what was not reserved beforehand. */
  lemma {:induction false} MeasuredIsTally(items: seq<Stored>, workspace: string, period: string)
    requires forall i :: 0 <= i < |items| ==> items[i].period == period
    ensures BillableCount(items, workspace) - ReservedCount(items, workspace) == Tally(items, UsageBucket(workspace, period))
  {
    if items != [] {
      MeasuredIsTally(items[..|items| - 1], workspace, period);
    }
  }

  method CountWorkspaces(items: seq<Stored>) returns (workspaceCounts: map<string, nat>, reservedCounts: map<string, nat>)
    ensures forall ws :: CountOf(workspaceCounts, ws) == BillableCount(items, ws)
    ensures forall ws :: CountOf(reservedCounts, ws) == ReservedCount(items, ws)
  {
    workspaceCounts, reservedCounts := map[], map[];
    for i := 0 to |items|
      invariant forall ws :: CountOf(workspaceCounts, ws) == BillableCount(items[..i], ws)
      invariant forall ws :: CountOf(reservedCounts, ws) == ReservedCount(items[..i], ws)
    {
      assert items[..i + 1][..i] == items[..i];
      var s := items[i];
      if !s.click.nonBillable && s.billedTo.Some? {
        var ws := s.billedTo.value;
        workspaceCounts := workspaceCounts[ws := CountOf(workspaceCounts, ws) + 1];
        if s.click.usageReserved {
          reservedCounts := reservedCounts[ws := CountOf(reservedCounts, ws) + 1];
        }
      }
    }
    assert items[..|items|] == items;
  }

  datatype DimensionRow = DimensionRow(urlId: string, dateKey: string, dimension: Dimension, key: string, clicks: nat)

  function RowClicks(rows: map<string, DimensionRow>): map<string, nat> {
    map id | id in rows :: rows[id].clicks
  }

  function RowId(c: Click, d: Dimension): string {
    DimensionId(c.urlId, c.dateKey, d, DimensionKey(c, d))
  }

  function Has(c: Click, d: Dimension, id: string): nat {
    if Human(c) && RowId(c, d) == id then 1 else 0
  }

  function DimensionCount(items: seq<Stored>, id: string): nat {
    if items == [] then 0
    else
      var c := items[|items| - 1].click;
      DimensionCount(items[..|items| - 1], id) + Has(c, Country, id) + Has(c, Device, id) + Has(c, Referrer, id)
  }

  lemma {:induction false} DimensionCountIsTally(items: seq<Stored>, url: string, dateKey: string, d: Dimension, key: string)
    requires AllSeparable(items) && '\0' !in url && '\0' !in dateKey
    ensures DimensionCount(items, DimensionId(url, dateKey, d, key)) == Tally(items, DimensionTotal(url, dateKey, d, key))
  {
    hide DimensionKey, DimensionId, Human;
    if items != [] {
      var init, c := items[..|items| - 1], items[|items| - 1].click;
      DimensionCountIsTally(init, url, dateKey, d, key);
      HasExactly(c, url, dateKey, d, key, Country);
      HasExactly(c, url, dateKey, d, key, Device);
      HasExactly(c, url, dateKey, d, key, Referrer);
    }
  }

  lemma HasExactly(c: Click, url: string, dateKey: string, d: Dimension, key: string, e: Dimension)
    requires Separable(c) && '\0' !in url && '\0' !in dateKey
    ensures Has(c, e, DimensionId(url, dateKey, d, key))
         == if Human(c) && e == d && c.urlId == url && c.dateKey == dateKey && DimensionKey(c, d) == key then 1 else 0
  {
    hide DimensionKey, DimensionId, Human;
    if RowId(c, e) == DimensionId(url, dateKey, d, key) {
      DimensionIdInjective(c.urlId, c.dateKey, e, DimensionKey(c, e), url, dateKey, d, key);
    }
  }

  ghost predicate RowsNamed(rows: map<string, DimensionRow>) {
    forall id :: id in rows ==>
      && DimensionId(rows[id].urlId, rows[id].dateKey, rows[id].dimension, rows[id].key) == id
      && '\0' !in rows[id].urlId && '\0' !in rows[id].dateKey
  }

  function AddRow(rows: map<string, DimensionRow>, c: Click, d: Dimension): map<string, DimensionRow> {
    var id := RowId(c, d);
    rows[id := if id in rows then rows[id].(clicks := rows[id].clicks + 1)
               else DimensionRow(c.urlId, c.dateKey, d, DimensionKey(c, d), 1)]
  }

  lemma AddRowCounts(rows: map<string, DimensionRow>, c: Click, d: Dimension)
    requires RowsNamed(rows) && Separable(c) && Human(c)
    ensures RowsNamed(AddRow(rows, c, d))
    ensures forall id :: CountOf(RowClicks(AddRow(rows, c, d)), id) == CountOf(RowClicks(rows), id) + Has(c, d, id)
  {
    hide DimensionKey, DimensionId, Human;
  }

  /** One row per link, day, dimension and key, counting human clicks only. */
  method AggregateDimensions(items: seq<Stored>) returns (rows: map<string, DimensionRow>)
    requires AllSeparable(items)
    ensures RowsNamed(rows)
    ensures forall id :: CountOf(RowClicks(rows), id) == DimensionCount(items, id)
  {
    hide DimensionKey, DimensionId, AddRow, RowsNamed, RowClicks;
    rows := map[];
    NoRows();
    for i := 0 to |items|
      invariant RowsNamed(rows)
      invariant forall id :: CountOf(RowClicks(rows), id) == DimensionCount(items[..i], id)
    {
      var c := items[i].click;
      assert items[..i + 1][..i] == items[..i];
      assert Separable(c);
      if Human(c) {
        AddRowCounts(rows, c, Country);
        rows := AddRow(rows, c, Country);
        AddRowCounts(rows, c, Device);
        rows := AddRow(rows, c, Device);
        AddRowCounts(rows, c, Referrer);
        rows := AddRow(rows, c, Referrer);
      }
    }
    assert items[..|items|] == items;
  }

  lemma NoRows()
    ensures RowsNamed(map[]) && forall id :: CountOf(RowClicks(map[]), id) == 0
  {
  }

  // ----- The transaction -----

  predicate SeparableClicks(items: seq<Click>) {
    forall i :: 0 <= i < |items| ==> Separable(items[i])
  }

  lemma {:induction false} PreparedSeparable(items: seq<Click>, env: Env)
    requires SeparableClicks(items)
    ensures SeparableClicks(Prepared(items, env))
  {
    hide Separable;
    if items != [] {
      var last := items[|items| - 1];
      PreparedSeparable(items[..|items| - 1], env);
      SanitizedSeparable(last, env);
    }
  }

  lemma SanitizedSeparable(c: Click, env: Env)
    requires Separable(c)
    ensures PreparedOne(c, env).Some? ==> Separable(PreparedOne(c, env).value)
  {
  }

  lemma BatchSeparable(db: Db, items: seq<Click>, env: Env)
    requires SeparableClicks(items)
    ensures AllSeparable(Batch(db, items, env))
    ensures forall s :: s in Batch(db, items, env) ==> s.period == env.period
  {
    var prepared := Prepared(items, env);
    var unique := Deduped(prepared);
    PreparedSeparable(items, env);
    DedupedIds(prepared);
    NewItemsFresh(db.events, unique, env);
    var new_ := Batch(db, items, env);
    forall i | 0 <= i < |new_| ensures Separable(new_[i].click) {
      assert new_[i] in new_;
      assert new_[i].click in prepared;
    }
  }

  method InsertIgnoringConflicts(events: map<string, Stored>, items: seq<Click>, env: Env)
    returns (after: map<string, Stored>, inserted: seq<Stored>)
    requires DistinctIds(items)
    ensures inserted == NewItems(events, items, env)
    ensures after == Inserted(events, inserted)
  {
    hide DistinctIds, NewItems, Inserted;
    NothingInserted(events, items, env);
    after, inserted := events, [];
    for i := 0 to |items|
      invariant inserted == NewItems(events, items[..i], env)
      invariant after == Inserted(events, inserted)
    {
      InsertStep(events, items, i, env);
      if items[i].id !in after {
        var s := Billed(items[i], env);
        inserted := inserted + [s];
        after := after[s.click.id := s];
      }
    }
    assert items[..|items|] == items;
  }

  lemma NothingInserted(events: map<string, Stored>, items: seq<Click>, env: Env)
    ensures NewItems(events, items[..0], env) == [] && Inserted(events, []) == events
  {
  }

  lemma InsertStep(events: map<string, Stored>, items: seq<Click>, i: nat, env: Env)
    requires DistinctIds(items) && i < |items|
    ensures var earlier, s := NewItems(events, items[..i], env), Billed(items[i], env);
      && s.click.id == items[i].id
      && NewItems(events, items[..i + 1], env) ==
         (if items[i].id in Inserted(events, earlier) then earlier else earlier + [s])
      && Inserted(events, earlier + [s]) == Inserted(events, earlier)[s.click.id := s]
  {
    hide DistinctIds;
    NotYetInserted(events, items, i, env);
    assert items[..i + 1][..i] == items[..i];
    var earlier, s := NewItems(events, items[..i], env), Billed(items[i], env);
    assert (earlier + [s])[..|earlier|] == earlier;
  }

  /** The batch itself never makes a later item conflict, because its ids are distinct. */
  lemma NotYetInserted(events: map<string, Stored>, items: seq<Click>, i: nat, env: Env)
    requires DistinctIds(items) && i < |items|
    ensures items[i].id in Inserted(events, NewItems(events, items[..i], env)) <==> items[i].id in events
  {
    var earlier := NewItems(events, items[..i], env);
    NewItemsFresh(events, items[..i], env);
    InsertedKeys(events, earlier);
    forall j | 0 <= j < |earlier| ensures earlier[j].click.id != items[i].id {
      assert earlier[j] in earlier;
      var k :| 0 <= k < i && items[..i][k] == earlier[j].click;
      assert items[k].id != items[i].id;
    }
  }

  /** Deduplicate as the program does: later clicks overwrite, keeping the first position. */
  method DedupeClickIds(items: seq<Click>) returns (out: seq<Click>)
    ensures out == Deduped(items)
  {
    out := [];
    for i := 0 to |items|
      invariant out == Deduped(items[..i])
    {
      assert items[..i + 1][..i] == items[..i];
      out := Put(out, items[i]);
    }
    assert items[..|items|] == items;
  }

  ghost predicate SameCounts(a: map<Cell, nat>, b: Db) {
    forall cell :: CountOf(a, cell) == Value(b, cell)
  }

  class ClickDatabase {
    var events: map<string, Stored>
    var counters: map<Cell, nat>
    var inactive: set<string>
    const maxClicks: map<string, nat>

    constructor (maxClicks: map<string, nat>)
      ensures events == map[] && counters == map[] && inactive == {} && this.maxClicks == maxClicks
    {
      events, counters, inactive := map[], map[], {};
      this.maxClicks := maxClicks;
    }

    function Abs(): Db
      reads this
    {
      Db(events, counters)
    }

    predicate CapReached(url: string)
      reads this
    {
      AtCap(url, CountOf(counters, UrlTotal(url)))
    }

    predicate AtCap(url: string, clicks: nat) {
      url in maxClicks && maxClicks[url] > 0 && clicks >= maxClicks[url]
    }

    /** Raise link totals, and switch off every updated link that is now at its cap. */
    method IncrementUrls(perUrl: map<string, UrlEntry>)
      modifies this`counters, this`inactive
      ensures forall cell :: CountOf(counters, cell) == CountOf(old(counters), cell)
                + if cell.UrlTotal? then CountOf(UrlCounts(perUrl), cell.url) else 0
      ensures forall u :: u in inactive <==> u in old(inactive) || (u in perUrl && CapReached(u))
    {
      var todo := perUrl.Keys;
      while todo != {}
        invariant todo <= perUrl.Keys
        invariant forall cell :: CountOf(counters, cell) == CountOf(old(counters), cell)
                      + if cell.UrlTotal? && cell.url !in todo then CountOf(UrlCounts(perUrl), cell.url) else 0
        invariant forall u :: u in inactive <==> u in old(inactive) || (u in perUrl && u !in todo && CapReached(u))
      {
        var u :| u in todo;
        todo := todo - {u};
        counters := counters[UrlTotal(u) := CountOf(counters, UrlTotal(u)) + perUrl[u].count];
        if u in maxClicks && maxClicks[u] > 0 && counters[UrlTotal(u)] >= maxClicks[u] {
          inactive := inactive + {u};
        }
      }
    }

    /** The same for the grouped clicks of a batch: the updated links are those it has clicks for. */
    method IncrementLinks(perUrl: map<string, UrlEntry>, ghost inserted: seq<Stored>)
      requires forall u :: u in perUrl ==> perUrl[u].count > 0
      requires forall u :: CountOf(UrlCounts(perUrl), u) == Tally(inserted, UrlTotal(u))
      modifies this`counters, this`inactive
      ensures forall cell :: CountOf(counters, cell) == CountOf(old(counters), cell)
                + if cell.UrlTotal? then Tally(inserted, cell) else 0
      ensures forall u :: u in inactive <==>
                u in old(inactive) || (Tally(inserted, UrlTotal(u)) > 0 && AtCap(u, CountOf(counters, UrlTotal(u))))
    {
      hide UrlCounts, Tally;
      CountedIsKeyed(perUrl);
      IncrementUrls(perUrl);
    }

    method IncrementDays(perDay: map<string, DayEntry>)
      requires forall k :: k in perDay ==> DayKey(perDay[k].urlId, perDay[k].dateKey) == k && '|' !in perDay[k].dateKey
      modifies this`counters
      ensures forall cell :: CountOf(counters, cell) == CountOf(old(counters), cell)
                + if cell.DayTotal? && '|' !in cell.dateKey then CountOf(DayCounts(perDay), DayKey(cell.url, cell.dateKey)) else 0
    {
      var todo := perDay.Keys;
      while todo != {}
        invariant todo <= perDay.Keys
        invariant forall cell :: CountOf(counters, cell) == CountOf(old(counters), cell)
                      + if cell.DayTotal? && '|' !in cell.dateKey && DayKey(cell.url, cell.dateKey) !in todo
                        then CountOf(DayCounts(perDay), DayKey(cell.url, cell.dateKey)) else 0
      {
        hide DayKey;
        var k :| k in todo;
        todo := todo - {k};
        var e := perDay[k];
        forall u, d | '|' !in d && DayKey(u, d) == k ensures u == e.urlId && d == e.dateKey {
          DayKeyInjective(u, d, e.urlId, e.dateKey);
        }
        counters := counters[DayTotal(e.urlId, e.dateKey) := CountOf(counters, DayTotal(e.urlId, e.dateKey)) + e.count];
      }
    }

    method IncrementVariants(counts: map<string, nat>)
      modifies this`counters
      ensures forall cell :: CountOf(counters, cell) == CountOf(old(counters), cell)
                + if cell.VariantTotal? then CountOf(counts, cell.variant) else 0
    {
      var todo := counts.Keys;
      while todo != {}
        invariant todo <= counts.Keys
        invariant forall cell :: CountOf(counters, cell) == CountOf(old(counters), cell)
                      + if cell.VariantTotal? && cell.variant !in todo then CountOf(counts, cell.variant) else 0
      {
        var v :| v in todo;
        todo := todo - {v};
        counters := counters[VariantTotal(v) := CountOf(counters, VariantTotal(v)) + counts[v]];
      }
    }

    /** Usage grows by the clicks that no lease had reserved. */
    method IncrementUsage(workspaceCounts: map<string, nat>, reservedCounts: map<string, nat>, period: string)
      requires forall ws :: CountOf(reservedCounts, ws) <= CountOf(workspaceCounts, ws)
      modifies this`counters
      ensures forall cell :: CountOf(counters, cell) == CountOf(old(counters), cell)
                + if cell.UsageBucket? && cell.period == period
                  then CountOf(workspaceCounts, cell.workspace) - CountOf(reservedCounts, cell.workspace) else 0
    {
      var todo := workspaceCounts.Keys;
      while todo != {}
        invariant todo <= workspaceCounts.Keys
        invariant forall cell :: CountOf(counters, cell) == CountOf(old(counters), cell)
                      + if cell.UsageBucket? && cell.period == period && cell.workspace !in todo
                        then CountOf(workspaceCounts, cell.workspace) - CountOf(reservedCounts, cell.workspace) else 0
      {
        var ws :| ws in todo;
        todo := todo - {ws};
        var measured := workspaceCounts[ws] - CountOf(reservedCounts, ws);
        if measured > 0 {
          counters := counters[UsageBucket(ws, period) := CountOf(counters, UsageBucket(ws, period)) + measured];
        }
      }
    }

    method UpsertDimensions(rows: map<string, DimensionRow>)
      requires RowsNamed(rows)
      modifies this`counters
      ensures forall cell :: CountOf(counters, cell) == CountOf(old(counters), cell)
                + if cell.DimensionTotal? && '\0' !in cell.url && '\0' !in cell.dateKey
                  then CountOf(RowClicks(rows), DimensionId(cell.url, cell.dateKey, cell.dimension, cell.key)) else 0
    {
      var todo := rows.Keys;
      while todo != {}
        invariant todo <= rows.Keys
        invariant forall cell :: CountOf(counters, cell) == CountOf(old(counters), cell)
                      + if cell.DimensionTotal? && '\0' !in cell.url && '\0' !in cell.dateKey
                          && DimensionId(cell.url, cell.dateKey, cell.dimension, cell.key) !in todo
                        then CountOf(RowClicks(rows), DimensionId(cell.url, cell.dateKey, cell.dimension, cell.key)) else 0
      {
        hide DimensionId;
        var id :| id in todo;
        todo := todo - {id};
        var r := rows[id];
        forall u, d, m, k | '\0' !in u && '\0' !in d && DimensionId(u, d, m, k) == id
          ensures u == r.urlId && d == r.dateKey && m == r.dimension && k == r.key
        {
          DimensionIdInjective(u, d, m, k, r.urlId, r.dateKey, r.dimension, r.key);
        }
        var cell := DimensionTotal(r.urlId, r.dateKey, r.dimension, r.key);
        counters := counters[cell := CountOf(counters, cell) + r.clicks];
      }
    }

    /** Usage, days and dimensions: what is updated after the links. */
    method ApplyRollups(inserted: seq<Stored>, period: string, perDay: map<string, DayEntry>)
      requires AllSeparable(inserted) && forall s :: s in inserted ==> s.period == period
      requires forall k :: CountOf(DayCounts(perDay), k) == DayCount(inserted, k)
      requires forall k :: k in perDay ==> DayKey(perDay[k].urlId, perDay[k].dateKey) == k && '|' !in perDay[k].dateKey
      modifies this`counters
      ensures forall cell :: CountOf(counters, cell) == CountOf(old(counters), cell)
                + if cell.UrlTotal? || cell.VariantTotal? then 0 else Tally(inserted, cell)
    {
      hide DayKey, DimensionId, Tally, Counts, RowsNamed, UrlCounts, DayCounts, RowClicks, AllSeparable;
      var workspaceCounts, reservedCounts := CountWorkspaces(inserted);
      forall ws ensures CountOf(reservedCounts, ws) <= CountOf(workspaceCounts, ws) {
        MeasuredIsTally(inserted, ws, period);
      }
      IncrementUsage(workspaceCounts, reservedCounts, period);
      IncrementDays(perDay);
      var rows := AggregateDimensions(inserted);
      UpsertDimensions(rows);
      forall cell ensures CountOf(counters, cell) == CountOf(old(counters), cell)
                            + if cell.UrlTotal? || cell.VariantTotal? then 0 else Tally(inserted, cell) {
        CellSum(inserted, period, cell);
      }
    }

    /** Every grouping loop and every update, for the newly inserted events. */
    method ApplyCounters(inserted: seq<Stored>, period: string)
      requires AllSeparable(inserted) && forall s :: s in inserted ==> s.period == period
      modifies this`counters, this`inactive
      ensures forall cell :: CountOf(counters, cell) == CountOf(old(counters), cell) + Tally(inserted, cell)
      ensures forall u :: u in inactive <==> u in old(inactive) || (Tally(inserted, UrlTotal(u)) > 0 && CapReached(u))
    {
      hide DayKey, Tally, UrlCounts, DayCounts, AllSeparable, AtCap, DayCount;
      var perUrl, perDay := AggregateClicks(inserted);
      var variants := CountVariants(inserted);
      IncrementVariants(variants);
      IncrementLinks(perUrl, inserted);
      ApplyRollups(inserted, period, perDay);
    }

    /**
     The whole transaction.  It stores what `Committed` stores and leaves every
     counter at the value `Committed` gives it, so `CommitKeepsExact` applies.
     */
    method PersistBatch(items: seq<Click>, env: Env)
      requires SeparableClicks(items)
      modifies this
      ensures events == Committed(old(Abs()), items, env).events
      ensures SameCounts(counters, Committed(old(Abs()), items, env))
      ensures forall u :: u in inactive <==>
                || u in old(inactive)
                || ((exists s :: s in Batch(old(Abs()), items, env) && s.click.urlId == u)
                    && u in maxClicks && 0 < maxClicks[u] <= Value(Committed(old(Abs()), items, env), UrlTotal(u)))
    {
      hide Committed, Tally, Counts, AllSeparable, Separable;
      ghost var db := Abs();
      var prepared := PrepareClicks(items, env);
      var unique := DedupeClickIds(prepared);
      DedupedIds(prepared);
      var after, inserted := InsertIgnoringConflicts(events, unique, env);
      assert inserted == Batch(db, items, env);
      hide Batch;
      BatchSeparable(db, items, env);
      CommittedEvents(db, items, env);
      events := after;
      ApplyCounters(inserted, env.period);
      forall cell ensures CountOf(counters, cell) == Value(Committed(db, items, env), cell) {
        CommittedValue(db, items, env, cell);
      }
      forall u ensures Tally(inserted, UrlTotal(u)) > 0 <==> exists s :: s in inserted && s.click.urlId == u {
        TalliedIsInserted(inserted, u);
        if s :| s in inserted && s.click.urlId == u { InsertedTouchesUrl(inserted, s); }
      }
    }
  }

  lemma CountedIsKeyed(perUrl: map<string, UrlEntry>)
    requires forall u :: u in perUrl ==> perUrl[u].count > 0
    ensures forall u :: CountOf(UrlCounts(perUrl), u) > 0 <==> u in perUrl
  {
  }

  /** What the five updates add to a cell is what the batch holds for it. */
  lemma CellSum(items: seq<Stored>, period: string, cell: Cell)
    requires AllSeparable(items) && forall s :: s in items ==> s.period == period
    ensures match cell
      case UrlTotal(_) => true
      case VariantTotal(_) => true
      case DayTotal(u, d) => Tally(items, cell) == if '|' !in d then DayCount(items, DayKey(u, d)) else 0
      case DimensionTotal(u, d, m, k) =>
        Tally(items, cell) == if '\0' !in u && '\0' !in d then DimensionCount(items, DimensionId(u, d, m, k)) else 0
      case UsageBucket(ws, p) => Tally(items, cell) == if p == period then BillableCount(items, ws) - ReservedCount(items, ws) else 0
  {
    hide DayKey, DimensionId;
    match cell
    case DayTotal(u, d) =>
      if '|' !in d { DayCountIsTally(items, u, d); } else { NoneCounted(items, period, cell); }
    case DimensionTotal(u, d, m, k) =>
      if '\0' !in u && '\0' !in d { DimensionCountIsTally(items, u, d, m, k); } else { NoneCounted(items, period, cell); }
    case UsageBucket(ws, p) =>
      if p == period { MeasuredIsTally(items, ws, p); } else { NoneCounted(items, period, cell); }
    case _ =>
  }

  lemma {:induction false} NoneCounted(items: seq<Stored>, period: string, cell: Cell)
    requires AllSeparable(items) && forall s :: s in items ==> s.period == period
    requires forall s: Stored :: Separable(s.click) && s.period == period ==> !Counts(cell, s)
    ensures Tally(items, cell) == 0
  {
    hide Counts, Separable;
    if items != [] {
      assert items[|items| - 1] in items;
      NoneCounted(items[..|items| - 1], period, cell);
    }
  }

  lemma {:induction false} InsertedTouchesUrl(items: seq<Stored>, s: Stored)
    requires s in items
    ensures Tally(items, UrlTotal(s.click.urlId)) > 0
  {
    if items[|items| - 1] != s {
      assert items == items[..|items| - 1] + [items[|items| - 1]];
      InsertedTouchesUrl(items[..|items| - 1], s);
    }
  }

  lemma {:induction false} TalliedIsInserted(items: seq<Stored>, u: string)
    ensures Tally(items, UrlTotal(u)) > 0 ==> exists s :: s in items && s.click.urlId == u
  {
    if items != [] {
      var init, last := items[..|items| - 1], items[|items| - 1];
      assert items == init + [last];
      TalliedIsInserted(init, u);
      assert last in items;
    }
  }
}
