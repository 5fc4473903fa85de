/**
 The in-memory limiter's table of buckets (`InMemoryBackend` in
 src/lib/rate-limit.ts): a JavaScript map, so entries are kept in the order they
 were first inserted, bounded by dropping the least recently touched one.

 `RateLimit` says what a hit does to its own bucket; here it is what a hit does to all
 the others.  Which buckets are dropped depends only on when each was last touched, and
 among equals on which was inserted first.  Keys are not empty.
 */
module RateLimitMemory {
  import opened Prelude
  import opened RateLimit

  datatype Entry = Entry(key: string, hits: seq<nat>, touchedAt: nat)

  /** Where a key is, or the length of the list if it is nowhere. */
  function IndexOf(entries: seq<Entry>, key: string): (i: nat)
    ensures i <= |entries|
    ensures i < |entries| ==> entries[i].key == key
  {
    if entries == [] || entries[0].key == key then 0 else 1 + IndexOf(entries[1..], key)
  }

  predicate Has(entries: seq<Entry>, key: string) {
    IndexOf(entries, key) < |entries|
  }

  function HitsOf(entries: seq<Entry>, key: string): seq<nat> {
    if Has(entries, key) then entries[IndexOf(entries, key)].hits else []
  }

  function Put(entries: seq<Entry>, key: string, hits: seq<nat>, now: nat): seq<Entry> {
    if Has(entries, key) then entries[IndexOf(entries, key) := Entry(key, hits, now)] else entries
  }

  function Removed(entries: seq<Entry>, i: nat): seq<Entry>
    requires i < |entries|
  {
    entries[..i] + entries[i + 1..]
  }

  /** The first of the least recently touched. */
  function Oldest(entries: seq<Entry>): (i: nat)
    requires entries != []
    ensures i < |entries|
  {
    var n := |entries| - 1;
    if n == 0 then 0
    else
      var o := Oldest(entries[..n]);
      if entries[n].touchedAt < entries[o].touchedAt then n else o
  }

  function Shrunk(entries: seq<Entry>, max: nat): seq<Entry> {
    if |entries| <= max then entries else Shrunk(Removed(entries, Oldest(entries)), max)
  }

  /** The table while a hit on `key` is being decided. */
  function Entered(entries: seq<Entry>, key: string, now: nat, max: nat): seq<Entry> {
    if Has(entries, key) then entries else Shrunk(entries + [Entry(key, [], now)], max)
  }

  function AfterHit(entries: seq<Entry>, key: string, now: nat, limit: nat, window: nat, max: nat): seq<Entry> {
    Put(Entered(entries, key, now, max), key, MemoryHit(HitsOf(entries, key), now, limit, window).0, now)
  }

  class InMemoryBackend {
    var buckets: seq<Entry>
    const maxBuckets: nat

    constructor (maxBuckets: nat)
      ensures buckets == [] && this.maxBuckets == maxBuckets
    {
      buckets := [];
      this.maxBuckets := maxBuckets;
    }

    method FindOldest() returns (oldest: nat)
      requires buckets != []
      ensures oldest == Oldest(buckets)
    {
      oldest := 0;
      assert buckets[..1][..1] == buckets[..1];
      for n := 1 to |buckets|
        invariant oldest == Oldest(buckets[..n])
      {
        assert buckets[..n + 1][..n] == buckets[..n];
        if buckets[n].touchedAt < buckets[oldest].touchedAt {
          oldest := n;
        }
      }
      assert buckets[..|buckets|] == buckets;
    }

    method EvictIfNeeded()
      modifies this
      ensures buckets == Shrunk(old(buckets), maxBuckets)
    {
      while |buckets| > maxBuckets
        invariant Shrunk(buckets, maxBuckets) == Shrunk(old(buckets), maxBuckets)
        decreases |buckets|
      {
        var oldest := FindOldest();
        buckets := Removed(buckets, oldest);
      }
    }

    method Hit(key: string, now: nat, limit: nat, window: nat) returns (answer: Answer)
      requires key != ""
      modifies this
      ensures buckets == AfterHit(old(buckets), key, now, limit, window, maxBuckets)
      ensures answer == MemoryHit(HitsOf(old(buckets), key), now, limit, window).1
    {
      var hits := HitsOf(buckets, key);
      if !Has(buckets, key) {
        buckets := buckets + [Entry(key, [], now)];
        EvictIfNeeded();
      }
      ghost var was := hits;
      while hits != [] && hits[0] + window <= now
        invariant DropOld(hits, now, window) == DropOld(was, now, window)
        decreases |hits|
      {
        hits := hits[1..];
      }
      if |hits| >= limit {
        var wait := if hits == [] then None else Some(Seconds(hits[0] + window - now));
        answer := Answer(false, 0, wait, wait);
      } else {
        hits := hits + [now];
        answer := Answer(true, limit - |hits|, Some(0), Some(Seconds(hits[0] + window - now)));
      }
      buckets := Put(buckets, key, hits, now);
    }
  }

  // ----- What eviction can and cannot do -----

  lemma {:induction false} IndexOfAbsent(entries: seq<Entry>, key: string)
    ensures Has(entries, key) <==> Among(entries, key)
  {
    if entries != [] && entries[0].key != key {
      IndexOfAbsent(entries[1..], key);
      assert forall i :: 1 <= i < |entries| ==> entries[i] == entries[1..][i - 1];
    }
  }

  lemma {:induction false} OldestIsLeast(entries: seq<Entry>)
    requires entries != []
    ensures forall i :: 0 <= i < |entries| ==> entries[Oldest(entries)].touchedAt <= entries[i].touchedAt
    ensures forall i :: 0 <= i < Oldest(entries) ==> entries[Oldest(entries)].touchedAt < entries[i].touchedAt
  {
    var n := |entries| - 1;
    if n > 0 {
      OldestIsLeast(entries[..n]);
    }
  }

  /** A hit that does not insert a key evicts none; one that does evicts at most one. */
  lemma EvictsAtMostOne(entries: seq<Entry>, key: string, now: nat, max: nat)
    requires |entries| <= max
    ensures var after := Entered(entries, key, now, max);
      && |after| <= max
      && (Has(entries, key) ==> after == entries)
      && (!Has(entries, key) && |entries| < max ==> after == entries + [Entry(key, [], now)])
      && (!Has(entries, key) && |entries| == max ==>
            after == Removed(entries + [Entry(key, [], now)], Oldest(entries + [Entry(key, [], now)])))
  {
    hide Oldest;
    var longer := entries + [Entry(key, [], now)];
    if |longer| > max {
      var cut := Removed(longer, Oldest(longer));
      assert Shrunk(longer, max) == Shrunk(cut, max);
      assert |cut| == max;
      assert Shrunk(cut, max) == cut;
    }
  }

  ghost predicate Among(entries: seq<Entry>, key: string) {
    exists i :: 0 <= i < |entries| && entries[i].key == key
  }

  /** Updating a bucket touches nothing else. */
  lemma PutChangesOne(entries: seq<Entry>, key: string, hits: seq<nat>, now: nat)
    requires Among(entries, key)
    ensures var after := Put(entries, key, hits, now);
      && Entry(key, hits, now) in after
      && (forall e :: e in after && e.key != key ==> e in entries)
      && (forall e :: e in entries && e.key != key ==> e in after)
  {
    IndexOfAbsent(entries, key);
    var i, after := IndexOf(entries, key), Put(entries, key, hits, now);
    assert after[i] == Entry(key, hits, now);
    forall e | e in entries && e.key != key ensures e in after {
      var j :| 0 <= j < |entries| && entries[j] == e;
      assert after[j] == e;
    }
  }

  lemma {:induction false} NewestIsNotOldest(entries: seq<Entry>, entry: Entry)
    requires entries != [] && forall i :: 0 <= i < |entries| ==> entries[i].touchedAt <= entry.touchedAt
    ensures Oldest(entries + [entry]) < |entries|
  {
    var longer := entries + [entry];
    OldestIsLeast(longer);
    assert longer[0] == entries[0];
    assert longer[|entries|] == entry;
  }

  /** The bucket that makes room was touched no later than any that stays. */
  lemma EnteredKeeps(entries: seq<Entry>, key: string, now: nat, max: nat)
    requires |entries| <= max && max > 0
    requires forall i :: 0 <= i < |entries| ==> entries[i].touchedAt <= now
    ensures var after := Entered(entries, key, now, max);
      && |after| <= max && Among(after, key)
      && (forall e :: e in after && e.key != key ==> e in entries)
      && (forall e, f :: e in entries && e !in after && f in after ==> e.touchedAt <= f.touchedAt)
  {
    hide Oldest;
    EvictsAtMostOne(entries, key, now, max);
    var after, entry := Entered(entries, key, now, max), Entry(key, [], now);
    if Has(entries, key) {
      assert entries[IndexOf(entries, key)].key == key;
    } else {
      var longer := entries + [entry];
      assert longer[|entries|].key == key;
      if |entries| == max {
        NewestIsNotOldest(entries, entry);
        OldestIsLeast(longer);
        var o := Oldest(longer);
        assert after == Removed(longer, o) && after[|after| - 1] == entry;
        forall e, f | e in entries && e !in after && f in after ensures e.touchedAt <= f.touchedAt {
          var j :| 0 <= j < |entries| && entries[j] == e;
          assert longer[j] == e;
          StaysOrGoes(longer, o, j);
        }
      }
    }
  }

  lemma StaysOrGoes(entries: seq<Entry>, o: nat, j: nat)
    requires o < |entries| && j < |entries|
    ensures j != o ==> entries[j] in Removed(entries, o)
  {
    if j < o { assert Removed(entries, o)[j] == entries[j]; }
    if j > o { assert Removed(entries, o)[j - 1] == entries[j]; }
  }

  /**
   With room for at least one bucket and a clock that does not go back, the key
   being hit keeps its bucket, every other bucket that stays is unchanged, and a
   bucket that goes was touched no later than any that stays.
   */
  lemma HitKeepsOthers(entries: seq<Entry>, key: string, now: nat, limit: nat, window: nat, max: nat)
    requires |entries| <= max && max > 0
    requires forall i :: 0 <= i < |entries| ==> entries[i].touchedAt <= now
    ensures var after := AfterHit(entries, key, now, limit, window, max);
      && |after| <= max
      && Entry(key, MemoryHit(HitsOf(entries, key), now, limit, window).0, now) in after
      && (forall e :: e in after && e.key != key ==> e in entries)
      && (forall e, f :: e in entries && e.key != key && e !in after && f in after && f.key != key ==> e.touchedAt <= f.touchedAt)
  {
    hide MemoryHit, Entered, Put;
    EnteredKeeps(entries, key, now, max);
    PutChangesOne(Entered(entries, key, now, max), key, MemoryHit(HitsOf(entries, key), now, limit, window).0, now);
    PutLength(Entered(entries, key, now, max), key, MemoryHit(HitsOf(entries, key), now, limit, window).0, now);
  }

  lemma PutLength(entries: seq<Entry>, key: string, hits: seq<nat>, now: nat)
    ensures |Put(entries, key, hits, now)| == |entries|
  {
  }

  lemma {:induction false} IndexAfterPut(entries: seq<Entry>, key: string, hits: seq<nat>, now: nat)
    requires Has(entries, key)
    ensures IndexOf(Put(entries, key, hits, now), key) == IndexOf(entries, key)
  {
    if entries[0].key != key {
      IndexAfterPut(entries[1..], key, hits, now);
      assert Put(entries, key, hits, now)[1..] == Put(entries[1..], key, hits, now);
    }
  }

  /** The next hit on a key finds what this one left; one on a key that has no bucket finds nothing. */
  lemma NextHitSeesThis(entries: seq<Entry>, key: string, now: nat, limit: nat, window: nat, max: nat)
    requires |entries| <= max && max > 0
    requires forall i :: 0 <= i < |entries| ==> entries[i].touchedAt <= now
    ensures HitsOf(AfterHit(entries, key, now, limit, window, max), key) == MemoryHit(HitsOf(entries, key), now, limit, window).0
    ensures !Among(entries, key) ==> HitsOf(entries, key) == []
  {
    hide MemoryHit, Entered;
    EnteredKeeps(entries, key, now, max);
    var entered := Entered(entries, key, now, max);
    IndexOfAbsent(entered, key);
    IndexOfAbsent(entries, key);
    IndexAfterPut(entered, key, MemoryHit(HitsOf(entries, key), now, limit, window).0, now);
  }
}
