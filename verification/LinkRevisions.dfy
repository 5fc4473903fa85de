/**
 Scheduled destination revisions (`getLatestRevision`, src/lib/link-cache.ts).

 A revision takes effect at a given time without any write happening then, so
 nothing invalidates the cache.  Capping the entry at the next `effectiveAt` is
 what keeps a cached answer equal to the uncached one.
 */
module LinkRevisions {
  import opened Prelude
  import opened LinkCache
  import opened LinkCacheRuns

  datatype Revision = Revision(effectiveAt: int, destination: string)

  /** The uncached query: the revision in effect at `t`, the earlier row on a tie. */
  function InEffect(revs: seq<Revision>, t: int): Option<Revision> {
    if revs == [] then None
    else
      var best := InEffect(revs[..|revs| - 1], t);
      var last := revs[|revs| - 1];
      if last.effectiveAt <= t && (best.None? || best.value.effectiveAt < last.effectiveAt) then Some(last) else best
  }

  lemma DestinationIs(revs: seq<Revision>, t: int)
    ensures DestinationAt(revs, t).None? <==> forall r :: r in revs ==> r.effectiveAt > t
    ensures DestinationAt(revs, t).Some? ==>
      exists r :: r in revs && r.destination == DestinationAt(revs, t).value && r.effectiveAt <= t
        && forall other :: other in revs && other.effectiveAt <= t ==> other.effectiveAt <= r.effectiveAt
  {
    InEffectIsLatest(revs, t);
  }

  /** What the uncached call returns at `t`. */
  function DestinationAt(revs: seq<Revision>, t: int): Option<string> {
    if InEffect(revs, t).None? then None else Some(InEffect(revs, t).value.destination)
  }

  /** The second query: when the next revision takes effect after `t`. */
  function NextEffective(revs: seq<Revision>, t: int): Option<int> {
    if revs == [] then None
    else
      var best := NextEffective(revs[..|revs| - 1], t);
      var at := revs[|revs| - 1].effectiveAt;
      if t < at && (best.None? || at < best.value) then Some(at) else best
  }

  /** `InEffect` is a revision with the greatest `effectiveAt` not after `t`, and is missing only if there is none. */
  lemma {:induction false} InEffectIsLatest(revs: seq<Revision>, t: int)
    ensures InEffect(revs, t).Some? ==> InEffect(revs, t).value in revs && InEffect(revs, t).value.effectiveAt <= t
    ensures forall r :: r in revs && r.effectiveAt <= t
              ==> InEffect(revs, t).Some? && r.effectiveAt <= InEffect(revs, t).value.effectiveAt
  {
    if revs != [] {
      InEffectIsLatest(revs[..|revs| - 1], t);
      assert revs == revs[..|revs| - 1] + [revs[|revs| - 1]];
    }
  }

  lemma {:induction false} NextIsARevision(revs: seq<Revision>, from: int)
    ensures NextEffective(revs, from).Some? ==>
              from < NextEffective(revs, from).value && exists r :: r in revs && r.effectiveAt == NextEffective(revs, from).value
  {
    if revs != [] {
      NextIsARevision(revs[..|revs| - 1], from);
      assert revs == revs[..|revs| - 1] + [revs[|revs| - 1]];
      assert revs[|revs| - 1] in revs;
    }
  }

  lemma {:induction false} NothingNewBeforeNext(revs: seq<Revision>, from: int, t: int)
    requires from <= t
    requires NextEffective(revs, from).None? || t < NextEffective(revs, from).value
    ensures InEffect(revs, t) == InEffect(revs, from)
  {
    if revs != [] {
      NothingNewBeforeNext(revs[..|revs| - 1], from, t);
    }
  }

  /** The answer stays the same until the next `effectiveAt`, and changes there. */
  lemma AnswerLastsUntilNext(revs: seq<Revision>, from: int, t: int)
    requires from <= t
    ensures InEffect(revs, t) == InEffect(revs, from)
        <==> NextEffective(revs, from).None? || t < NextEffective(revs, from).value
  {
    if NextEffective(revs, from).None? || t < NextEffective(revs, from).value {
      NothingNewBeforeNext(revs, from, t);
    } else {
      NextIsARevision(revs, from);
      InEffectIsLatest(revs, from);
      InEffectIsLatest(revs, t);
    }
  }

  /** In this run every load of the link's revision asked the (unchanging) table with the clock it had taken. */
  predicate AsksTable(w: World, es: seq<Event>, id: string, revs: seq<Revision>)
    decreases |es|
  {
    es != [] ==>
      && (es[0].Answer? && es[0].flight < |w.flights| && w.flights[es[0].flight].key == RevisionKey(id) ==>
            && es[0].destination == DestinationAt(revs, w.flights[es[0].flight].startedAt)
            && es[0].notAfter == NextEffective(revs, w.flights[es[0].flight].startedAt))
      && AsksTable(Apply(w, es[0]), es[1..], id, revs)
  }

  predicate CapsAt(expiresAt: int, next: Option<int>) {
    next.Some? ==> expiresAt <= next.value
  }

  ghost predicate Capped(w: World, id: string, revs: seq<Revision>) {
    var k := RevisionKey(id);
    && (k in w.cache.entries ==>
          && w.cache.entries[k].value.asOf <= w.clock
          && w.cache.entries[k].value.destination == DestinationAt(revs, w.cache.entries[k].value.asOf)
          && CapsAt(w.cache.entries[k].expiresAt, NextEffective(revs, w.cache.entries[k].value.asOf)))
    && (forall f :: 0 <= f < |w.flights| && w.flights[f].key == k ==>
          && w.flights[f].startedAt <= w.clock
          && (w.flights[f].loaded.Some? ==>
                && w.flights[f].loaded.value.value.asOf == w.flights[f].startedAt
                && w.flights[f].loaded.value.value.destination == DestinationAt(revs, w.flights[f].startedAt)
                && w.flights[f].loaded.value.notAfter == NextEffective(revs, w.flights[f].startedAt)))
  }

  lemma ApplyKeepsCapped(w: World, e: Event, id: string, revs: seq<Revision>)
    requires Capped(w, id, revs)
    requires e.Answer? && e.flight < |w.flights| && w.flights[e.flight].key == RevisionKey(id) ==>
               && e.destination == DestinationAt(revs, w.flights[e.flight].startedAt)
               && e.notAfter == NextEffective(revs, w.flights[e.flight].startedAt)
    ensures Capped(Apply(w, e), id, revs)
  {
    hide NextEffective, DestinationAt, Without, ReachedKeys, Displaced, BaseTtl, Version;
  }

  lemma {:induction false} ExecKeepsCapped(w: World, es: seq<Event>, id: string, revs: seq<Revision>)
    requires Capped(w, id, revs) && AsksTable(w, es, id, revs)
    ensures Capped(Exec(w, es), id, revs)
    decreases |es|
  {
    hide Capped, Apply;
    if es != [] {
      ApplyKeepsCapped(w, es[0], id, revs);
      ExecKeepsCapped(Apply(w, es[0]), es[1..], id, revs);
    }
  }

  /** In every run, a cache hit for a link's revision gives the destination the table gives at the time of the hit. */
  lemma CachedRevisionIsInEffect(config: Config, es: seq<Event>, id: string, revs: seq<Revision>)
    requires AsksTable(Init(config), es, id, revs)
    requires var w := Exec(Init(config), es);
      Lookup(w.cache, RevisionKey(id), w.clock, |w.flights|).Hit?
    ensures var w := Exec(Init(config), es);
      Lookup(w.cache, RevisionKey(id), w.clock, |w.flights|).value.destination == DestinationAt(revs, w.clock)
  {
    var w := Exec(Init(config), es);
    ExecKeepsCapped(Init(config), es, id, revs);
    AnswerLastsUntilNext(revs, w.cache.entries[RevisionKey(id)].value.asOf, w.clock);
  }
}
