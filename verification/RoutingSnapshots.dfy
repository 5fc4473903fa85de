/**
 The chain of published routing configurations and a replica that follows it
 (`publishRoutingSnapshot`, `shouldAcceptRoutingSnapshot` in
 src/lib/routing-config.ts).

 A hash is an injective wrapper of the text it is taken of; a signature is a
 wrapper of what it signs.  Published snapshots reach the replica late, twice, in
 any order, or never.
 */
module RoutingSnapshots {
  import opened Prelude
  import opened CanonicalJson

  datatype Hash = Hash(text: Text)

  datatype Signature = Signature(previous: Option<Hash>, content: Hash)

  datatype Snapshot = Snapshot(
    version: nat,
    payload: Text,
    contentHash: Hash,
    previousHash: Option<Hash>,
    signature: Signature)

  datatype Held = Held(version: nat, contentHash: Hash)

  predicate Verified(s: Snapshot) {
    Hash(s.payload) == s.contentHash && s.signature == Signature(s.previousHash, s.contentHash)
  }

  predicate ShouldAccept(current: Option<Held>, incoming: Snapshot) {
    && Verified(incoming)
    && (current.Some? ==> incoming.version > current.value.version && incoming.previousHash == Some(current.value.contentHash))
  }

  class RoutingLog {
    var snapshots: seq<Snapshot>

    constructor ()
      ensures snapshots == []
    {
      snapshots := [];
    }

    /** Publication is serialised by a lock; the latest snapshot is the last one. */
    method Publish(payload: Json) returns (created: Snapshot)
      modifies this
      ensures snapshots == old(snapshots) + [created]
      ensures created == Next(old(snapshots), payload)
    {
      var body := Canon(payload);
      var previous := None;
      var version := 1;
      if snapshots != [] {
        var latest := snapshots[|snapshots| - 1];
        previous := Some(latest.contentHash);
        version := latest.version + 1;
      }
      created := Snapshot(version, body, Hash(body), previous, Signature(previous, Hash(body)));
      snapshots := snapshots + [created];
    }
  }

  function LatestHash(log: seq<Snapshot>): Option<Hash> {
    if log == [] then None else Some(log[|log| - 1].contentHash)
  }

  function Next(log: seq<Snapshot>, payload: Json): Snapshot {
    var hash := Hash(Canon(payload));
    Snapshot(if log == [] then 1 else log[|log| - 1].version + 1, Canon(payload), hash, LatestHash(log), Signature(LatestHash(log), hash))
  }

  // ----- Runs -----

  datatype World = World(published: seq<Json>, log: seq<Snapshot>, replica: Option<Held>)

  datatype Event = Publish(payload: Json) | Deliver(k: nat)

  const START := World([], [], None)

  function Apply(w: World, e: Event): World {
    match e
    case Publish(j) => w.(published := w.published + [j], log := w.log + [Next(w.log, j)])
    case Deliver(k) =>
      if k < |w.log| && ShouldAccept(w.replica, w.log[k]) then
        w.(replica := Some(Held(w.log[k].version, w.log[k].contentHash)))
      else w
  }

  function Exec(w: World, es: seq<Event>): World
    decreases |es|
  {
    if es == [] then w else Exec(Apply(w, es[0]), es[1..])
  }

  /** Snapshot `k` is signed, has version `k + 1`, and names the hash of the one before. */
  ghost predicate Chained(published: seq<Json>, log: seq<Snapshot>) {
    |published| == |log| && forall k :: 0 <= k < |log| ==> Linked(published, log, k)
  }

  predicate Linked(published: seq<Json>, log: seq<Snapshot>, k: nat)
    requires k < |log| == |published|
  {
    && log[k].payload == Canon(published[k])
    && Verified(log[k])
    && log[k].version == k + 1
    && log[k].previousHash == if k == 0 then None else Some(log[k - 1].contentHash)
  }

  predicate Holds(w: World, m: nat) {
    m < |w.log| && w.replica == Some(Held(w.log[m].version, w.log[m].contentHash))
  }

  ghost predicate WellFormed(w: World) {
    Chained(w.published, w.log) && (w.replica.Some? ==> exists m :: Holds(w, m))
  }

  lemma NextKeepsChain(published: seq<Json>, log: seq<Snapshot>, j: Json)
    requires Chained(published, log)
    ensures Chained(published + [j], log + [Next(log, j)])
  {
    hide Canon;
    var texts, after := published + [j], log + [Next(log, j)];
    var n := |log|;
    if n > 0 { assert Linked(published, log, n - 1); }
    forall k | 0 <= k < |after| ensures Linked(texts, after, k) {
      if k < n {
        assert Linked(published, log, k);
        assert after[k] == log[k] && texts[k] == published[k] && (k > 0 ==> after[k - 1] == log[k - 1]);
      } else {
        assert after[k] == Next(log, j) && texts[k] == j && (k > 0 ==> after[k - 1] == log[k - 1]);
      }
    }
  }

  lemma ApplyKeepsWellFormed(w: World, e: Event)
    requires WellFormed(w)
    ensures WellFormed(Apply(w, e))
  {
    hide Canon;
    var v := Apply(w, e);
    match e
    case Publish(j) =>
      NextKeepsChain(w.published, w.log, j);
      if w.replica.Some? {
        var m :| Holds(w, m);
        assert Holds(v, m);
      }
    case Deliver(k) =>
      if k < |w.log| && ShouldAccept(w.replica, w.log[k]) { assert Holds(v, k); }
  }

  lemma {:induction false} ExecKeepsWellFormed(w: World, es: seq<Event>)
    requires WellFormed(w)
    ensures WellFormed(Exec(w, es))
    decreases |es|
  {
    hide WellFormed, Apply;
    if es != [] {
      ApplyKeepsWellFormed(w, es[0]);
      ExecKeepsWellFormed(Apply(w, es[0]), es[1..]);
    }
  }

  /**
   In every reachable state, a replica that holds snapshot `m` accepts snapshot
   `k` exactly when `k` is later and the configuration just before `k` is the
   same, up to the order of object keys, as the one it holds.
   */
  lemma AcceptedExactly(es: seq<Event>, m: nat, k: nat)
    requires forall j :: j in Exec(START, es).published ==> Valid(j)
    requires Holds(Exec(START, es), m) && k < |Exec(START, es).log|
    ensures var w := Exec(START, es);
      && |w.published| == |w.log|
      && (ShouldAccept(w.replica, w.log[k]) <==> m < k && Same(w.published[k - 1], w.published[m]))
  {
    hide Canon, Same, Valid;
    ExecKeepsWellFormed(START, es);
    var w := Exec(START, es);
    hide Exec;
    assert Linked(w.published, w.log, m) && Linked(w.published, w.log, k);
    if m < k {
      assert Linked(w.published, w.log, k - 1);
      CanonExactly(w.published[k - 1], w.published[m]);
    }
  }

  /** If all configurations differ, only the very next snapshot is accepted. */
  lemma OnlyNextIsAccepted(es: seq<Event>, m: nat, k: nat)
    requires var p := Exec(START, es).published;
      && (forall j :: j in p ==> Valid(j))
      && (forall a, b :: 0 <= a < b < |p| ==> !Same(p[b], p[a]))
    requires Holds(Exec(START, es), m) && k < |Exec(START, es).log|
    ensures ShouldAccept(Exec(START, es).replica, Exec(START, es).log[k]) <==> k == m + 1
  {
    hide Canon, Same, Valid;
    AcceptedExactly(es, m, k);
    var p := Exec(START, es).published;
    CanonExactly(p[m], p[m]);
  }

  function VersionHeld(w: World): nat {
    if w.replica.Some? then w.replica.value.version else 0
  }

  /** Whatever is delivered, the replica's version never falls. */
  lemma {:induction false} VersionNeverFalls(w: World, es: seq<Event>)
    ensures VersionHeld(w) <= VersionHeld(Exec(w, es))
    decreases |es|
  {
    if es != [] {
      assert VersionHeld(w) <= VersionHeld(Apply(w, es[0]));
      VersionNeverFalls(Apply(w, es[0]), es[1..]);
    }
  }

  /** Nothing is accepted whose content does not hash to what it says, or that is not signed as it says. */
  lemma OnlySignedIsAccepted(current: Option<Held>, s: Snapshot)
    requires ShouldAccept(current, s)
    ensures s.contentHash == Hash(s.payload) && s.signature == Signature(s.previousHash, Hash(s.payload))
  {
  }

  // ----- Catching up -----

  /** Deliveries in order, from snapshot `from` to the last. */
  function InOrder(from: nat, n: nat): seq<Event>
    decreases n - from
  {
    if from >= n then [] else [Deliver(from)] + InOrder(from + 1, n)
  }

  lemma {:induction false} CatchesUpFrom(w: World, from: nat)
    requires WellFormed(w) && from <= |w.log|
    requires if from == 0 then w.replica.None? else Holds(w, from - 1)
    ensures var v := Exec(w, InOrder(from, |w.log|)); v.log == w.log && (w.log != [] ==> Holds(v, |w.log| - 1))
    decreases |w.log| - from
  {
    hide Canon;
    if from < |w.log| {
      assert Linked(w.published, w.log, from);
      if from > 0 { assert Linked(w.published, w.log, from - 1); }
      var v := Apply(w, Deliver(from));
      assert Holds(v, from);
      ApplyKeepsWellFormed(w, Deliver(from));
      CatchesUpFrom(v, from + 1);
      assert InOrder(from, |w.log|)[1..] == InOrder(from + 1, |w.log|);
    }
  }

  /**
   In every run, a replica that is given the snapshots after its own in order, or all
   of them if it has none, ends with the latest, whose version is their number.
   */
  lemma CatchesUp(es: seq<Event>, from: nat)
    requires var w := Exec(START, es);
      from <= |w.log| && if from == 0 then w.replica.None? else Holds(w, from - 1)
    ensures var w := Exec(START, es);
      var v := Exec(w, InOrder(from, |w.log|));
      |w.log| == |w.published| && (w.log != [] ==> Holds(v, |w.log| - 1) && VersionHeld(v) == |w.published|)
  {
    hide Canon;
    ExecKeepsWellFormed(START, es);
    var w := Exec(START, es);
    CatchesUpFrom(w, from);
    if w.log != [] { assert Linked(w.published, w.log, |w.log| - 1); }
    hide Exec;
  }
}
