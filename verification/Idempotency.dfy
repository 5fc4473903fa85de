/**
 Claims on one idempotency key (src/lib/idempotency.ts): any number of requests
 with the same workspace and key, interleaved between every two awaits.

 `owner` in a row is not stored by the program; it names the request the row came
 from.  Different keys are different rows and share nothing.
 */
module Idempotency {
  import opened Prelude

  const PENDING_TTL_MS := 30000

  /** What a key is bound to. */
  datatype Request = Request(verb: string, path: string, bodyHash: string)

  /** Status 0: claimed, not finished. */
  datatype Row = Row(request: Request, status: nat, response: string, expiresAt: nat, owner: nat)

  datatype Refusal = InProgress | Reused

  datatype Phase =
    | Arrived
    | Looked(existing: Option<Row>)
    | Creating(until: nat)
    | TakingOver(since: nat, until: nat)
    | Running(until: nat)
    | Stored(until: nat)
    | Cleaning(until: nat)
    | Replayed(row: Row)
    | Refused(why: Refusal)
    | Ended

  datatype World = World(now: nat, row: Option<Row>, requests: map<nat, Request>, phases: map<nat, Phase>)

  datatype Event =
    | Arrive(id: nat, request: Request)
    | Look(id: nat)
    | Decide(id: nat)
    | Create(id: nat)
    | TakeOver(id: nat)
    | Store(id: nat, status: nat, response: string, expiresAt: nat)
    | End(id: nat, cleanup: bool)
    | Cleanup(id: nat)
    | Crash(id: nat)
    | Tick(now: nat)

  const EMPTY := World(0, None, map[], map[])

  function PhaseOf(w: World, id: nat): Phase {
    if id in w.phases && id in w.requests then w.phases[id] else Ended
  }

  function Moved(w: World, id: nat, p: Phase): World {
    w.(phases := w.phases[id := p])
  }

  /** The process goes on with what it read, and reads its clock. */
  function Decision(existing: Option<Row>, request: Request, now: nat): Phase {
    match existing
    case None => Creating(now + PENDING_TTL_MS)
    case Some(row) =>
      if row.expiresAt <= now then TakingOver(now, now + PENDING_TTL_MS)
      else if row.status == 0 then Refused(InProgress)
      else if row.request.verb != request.verb || row.request.path != request.path then Refused(Reused)
      else if row.request.bodyHash != request.bodyHash then Refused(Reused)
      else Replayed(row)
  }

  function Apply(w: World, e: Event): World {
    match e
    case Arrive(id, request) =>
      if id in w.requests then w
      else w.(requests := w.requests[id := request], phases := w.phases[id := Arrived])
    case Look(id) => if PhaseOf(w, id).Arrived? then Moved(w, id, Looked(w.row)) else w
    case Decide(id) =>
      if PhaseOf(w, id).Looked? then Moved(w, id, Decision(PhaseOf(w, id).existing, w.requests[id], w.now)) else w
    case Create(id) =>
      if PhaseOf(w, id).Creating? then
        var until := PhaseOf(w, id).until;
        if w.row.Some? then Moved(w, id, Refused(InProgress))
        else Moved(w, id, Running(until)).(row := Some(Row(w.requests[id], 0, "", until, id)))
      else w
    case TakeOver(id) =>
      if PhaseOf(w, id).TakingOver? then
        var p := PhaseOf(w, id);
        if w.row.Some? && w.row.value.expiresAt <= p.since then
          Moved(w, id, Running(p.until)).(row := Some(Row(w.requests[id], 0, "", p.until, id)))
        else Moved(w, id, Refused(InProgress))
      else w
    case Store(id, status, response, expiresAt) =>
      if PhaseOf(w, id).Running? then
        Moved(w, id, Stored(PhaseOf(w, id).until)).(row := Some(Row(w.requests[id], status, response, expiresAt, id)))
      else w
    case End(id, cleanup) =>
      if Active(PhaseOf(w, id)) then Moved(w, id, if cleanup then Cleaning(PhaseOf(w, id).until) else Ended) else w
    case Cleanup(id) =>
      if PhaseOf(w, id).Cleaning? then
        var v := Moved(w, id, Ended);
        if w.row.Some? && w.row.value.status == 0 then v.(row := None) else v
      else w
    case Crash(id) =>
      if Active(PhaseOf(w, id)) || PhaseOf(w, id).Cleaning? then Moved(w, id, Ended) else w
    case Tick(now) => if w.now <= now then w.(now := now) else w
  }

  function Exec(w: World, es: seq<Event>): World
    decreases |es|
  {
    if es == [] then w else Exec(Apply(w, es[0]), es[1..])
  }

  /** The handler runs, or has stored its response and has not returned. */
  predicate Active(p: Phase) {
    p.Running? || p.Stored?
  }

  // ----- Exclusion -----

  predicate Owns(w: World, id: nat) {
    w.row.Some? && w.row.value.owner == id && (PhaseOf(w, id).Running? ==> w.row.value.status == 0)
  }

  /** Every handler that is active owns the row; so there is at most one. */
  ghost predicate ActiveOwns(w: World) {
    forall id :: Active(PhaseOf(w, id)) ==> Owns(w, id)
  }

  /** The conditional update finds the row expired. */
  predicate TakesOver(w: World, id: nat) {
    PhaseOf(w, id).TakingOver? && w.row.Some? && w.row.value.expiresAt <= PhaseOf(w, id).since
  }

  /** A takeover, or a late cleanup, takes the row away from a handler that is active. */
  predicate Breaks(w: World, e: Event) {
    match e
    case TakeOver(id) => TakesOver(w, id) && Active(PhaseOf(w, w.row.value.owner))
    case Cleanup(id) =>
      PhaseOf(w, id).Cleaning? && w.row.Some? && w.row.value.status == 0 && Active(PhaseOf(w, w.row.value.owner))
    case _ => false
  }

  lemma StepKeepsOwner(w: World, e: Event, id: nat)
    requires ActiveOwns(w) && !Breaks(w, e) && Active(PhaseOf(Apply(w, e), id))
    ensures Owns(Apply(w, e), id)
  {
    hide Decision;
    assert Active(PhaseOf(w, id)) ==> Owns(w, id);
    match e
    case Create(other) => assert id == other || PhaseOf(Apply(w, e), id) == PhaseOf(w, id);
    case TakeOver(other) => assert id == other || PhaseOf(Apply(w, e), id) == PhaseOf(w, id);
    case Store(other, _, _, _) => assert Active(PhaseOf(w, other)) ==> Owns(w, other);
    case End(other, _) => assert id == other || PhaseOf(Apply(w, e), id) == PhaseOf(w, id);
    case Cleanup(other) => assert id == other || PhaseOf(Apply(w, e), id) == PhaseOf(w, id);
    case Decide(other) => DecisionIsNotActive(w, other);
    case _ =>
  }

  lemma DecisionIsNotActive(w: World, id: nat)
    ensures PhaseOf(w, id).Looked? ==> !Active(Decision(PhaseOf(w, id).existing, w.requests[id], w.now))
  {
  }

  lemma BreakingLosesOwner(w: World, e: Event)
    requires ActiveOwns(w) && Breaks(w, e)
    ensures !ActiveOwns(Apply(w, e))
  {
    var v, owner := Apply(w, e), w.row.value.owner;
    assert Active(PhaseOf(v, owner)) && !Owns(v, owner);
  }

  /**
   A step leaves every active handler the owner of the row exactly when it is not a
   takeover from, or a late cleanup under, a handler that is still active.
   */
  lemma ExclusionExactly(w: World, e: Event)
    requires ActiveOwns(w)
    ensures ActiveOwns(Apply(w, e)) <==> !Breaks(w, e)
  {
    hide Breaks, Apply, Owns;
    if Breaks(w, e) {
      BreakingLosesOwner(w, e);
    } else {
      forall id | Active(PhaseOf(Apply(w, e), id)) ensures Owns(Apply(w, e), id) { StepKeepsOwner(w, e, id); }
    }
  }

  /** A takeover admits a second active handler exactly when the expired row's owner is still active. */
  lemma TakeoverAdmitsSecondExactly(w: World, id: nat)
    requires ActiveOwns(w) && TakesOver(w, id)
    ensures var v := Apply(w, TakeOver(id));
      (exists other :: other != id && Active(PhaseOf(v, other))) <==> Active(PhaseOf(w, w.row.value.owner))
  {
    var v, owner := Apply(w, TakeOver(id)), w.row.value.owner;
    if Active(PhaseOf(w, owner)) { assert Active(PhaseOf(v, owner)); }
    if other :| other != id && Active(PhaseOf(v, other)) { assert Active(PhaseOf(w, other)) && Owns(w, other); }
  }

  predicate NeverBreaks(w: World, es: seq<Event>)
    decreases |es|
  {
    es == [] || (!Breaks(w, es[0]) && NeverBreaks(Apply(w, es[0]), es[1..]))
  }

  lemma {:induction false} ExecKeepsOwner(w: World, es: seq<Event>)
    requires ActiveOwns(w) && NeverBreaks(w, es)
    ensures ActiveOwns(Exec(w, es))
    decreases |es|
  {
    hide ActiveOwns, Apply, Breaks;
    if es != [] {
      ExclusionExactly(w, es[0]);
      ExecKeepsOwner(Apply(w, es[0]), es[1..]);
    }
  }

  /** If the row is never taken from an active handler, at most one handler is active for the key, in every interleaving. */
  lemma OneHandlerAtATime(es: seq<Event>, i: nat, k: nat)
    requires NeverBreaks(EMPTY, es)
    requires Active(PhaseOf(Exec(EMPTY, es), i)) && Active(PhaseOf(Exec(EMPTY, es), k))
    ensures i == k
  {
    hide Exec, NeverBreaks;
    ExecKeepsOwner(EMPTY, es);
    var w := Exec(EMPTY, es);
    assert Owns(w, i) && Owns(w, k);
  }

  /** A response that is stored and has not expired. */
  predicate Kept(w: World) {
    w.row.Some? && w.row.value.status != 0 && w.now < w.row.value.expiresAt
  }

  ghost predicate SinceNow(w: World) {
    forall id :: PhaseOf(w, id).TakingOver? ==> PhaseOf(w, id).since <= w.now
  }

  lemma StepKeepsSince(w: World, e: Event)
    requires SinceNow(w)
    ensures SinceNow(Apply(w, e))
  {
    var v := Apply(w, e);
    forall id | PhaseOf(v, id).TakingOver? ensures PhaseOf(v, id).since <= v.now {
      assert PhaseOf(w, id).TakingOver? ==> PhaseOf(w, id).since <= w.now;
    }
  }

  lemma {:induction false} ExecKeepsSince(w: World, es: seq<Event>)
    requires SinceNow(w)
    ensures SinceNow(Exec(w, es))
    decreases |es|
  {
    hide SinceNow, Apply;
    if es != [] {
      StepKeepsSince(w, es[0]);
      ExecKeepsSince(Apply(w, es[0]), es[1..]);
    }
  }

  lemma StepKeepsResponse(w: World, e: Event)
    requires ActiveOwns(w) && SinceNow(w) && Kept(w)
    ensures Apply(w, e).row == w.row
  {
    hide Decision;
    match e
    case TakeOver(id) => assert PhaseOf(w, id).TakingOver? ==> PhaseOf(w, id).since <= w.now;
    case Store(id, _, _, _) => assert Active(PhaseOf(w, id)) ==> Owns(w, id);
    case _ =>
  }

  lemma {:induction false} ResponseIsKept(w: World, es: seq<Event>)
    requires ActiveOwns(w) && SinceNow(w) && Kept(w) && NeverBreaks(w, es)
    requires Exec(w, es).now < w.row.value.expiresAt
    ensures Exec(w, es).row == w.row
    decreases |es|
  {
    hide ActiveOwns, SinceNow, Apply, Breaks;
    if es != [] {
      ExclusionExactly(w, es[0]);
      StepKeepsSince(w, es[0]);
      StepKeepsResponse(w, es[0]);
      ClockOnly(Apply(w, es[0]), es[1..]);
      ResponseIsKept(Apply(w, es[0]), es[1..]);
    }
  }

  lemma {:induction false} ClockOnly(w: World, es: seq<Event>)
    ensures w.now <= Exec(w, es).now
    decreases |es|
  {
    if es != [] {
      assert w.now <= Apply(w, es[0]).now;
      ClockOnly(Apply(w, es[0]), es[1..]);
    }
  }

  /** Then, too, nothing overwrites or deletes a stored response before it expires. */
  lemma StoredResponseSurvives(before: seq<Event>, after: seq<Event>)
    requires NeverBreaks(EMPTY, before) && NeverBreaks(Exec(EMPTY, before), after)
    requires Kept(Exec(EMPTY, before))
    requires Exec(Exec(EMPTY, before), after).now < Exec(EMPTY, before).row.value.expiresAt
    ensures Exec(Exec(EMPTY, before), after).row == Exec(EMPTY, before).row
  {
    hide Exec, NeverBreaks;
    ExecKeepsOwner(EMPTY, before);
    ExecKeepsSince(EMPTY, before);
    ResponseIsKept(Exec(EMPTY, before), after);
  }

  // ----- Handlers that are not slower than their claims -----

  predicate HasDeadline(p: Phase) {
    p.Creating? || p.TakingOver? || Active(p) || p.Cleaning?
  }

  predicate NoDeadlinePasses(w: World, now: nat) {
    forall id :: id in w.phases && HasDeadline(PhaseOf(w, id)) ==> now < PhaseOf(w, id).until
  }

  /**
   No claim, from the reading of its clock to the end of its cleanup, outlives the
   pending time; a stored response is kept at least until its claim would have ended.
   */
  predicate Timely(w: World, e: Event) {
    match e
    case Tick(now) => NoDeadlinePasses(w, now)
    case Store(id, _, _, expiresAt) => PhaseOf(w, id).Running? ==> PhaseOf(w, id).until <= expiresAt
    case _ => true
  }

  predicate AlwaysTimely(w: World, es: seq<Event>)
    decreases |es|
  {
    es == [] || (Timely(w, es[0]) && AlwaysTimely(Apply(w, es[0]), es[1..]))
  }

  /** The row is the claim's own, and outlives it. */
  predicate Holds(w: World, id: nat)
    requires HasDeadline(PhaseOf(w, id))
  {
    w.row.Some? && w.row.value.owner == id && PhaseOf(w, id).until <= w.row.value.expiresAt
  }

  predicate PhaseFits(w: World, id: nat) {
    var p := PhaseOf(w, id);
    && (Active(p) || p.Cleaning? ==> Holds(w, id))
    && (HasDeadline(p) ==> w.now < p.until)
    && (p.TakingOver? ==> p.since <= w.now)
  }

  ghost predicate Fits(w: World) {
    forall id :: PhaseFits(w, id)
  }

  lemma StepKeepsFit(w: World, e: Event, id: nat)
    requires Fits(w) && Timely(w, e)
    ensures PhaseFits(Apply(w, e), id)
  {
    assert PhaseFits(w, id);
    match e
    case Decide(_) =>
    case Tick(_) =>
    case Create(other) => StepKeepsFitAt(w, e, other, id);
    case TakeOver(other) => StepKeepsFitAt(w, e, other, id);
    case Store(other, _, _, _) => StepKeepsFitAt(w, e, other, id);
    case End(other, _) => StepKeepsFitAt(w, e, other, id);
    case Cleanup(other) => StepKeepsFitAt(w, e, other, id);
    case _ =>
  }

  lemma StepKeepsFitAt(w: World, e: Event, other: nat, id: nat)
    requires Fits(w) && Timely(w, e)
    requires e.Create? || e.TakeOver? || e.Store? || e.End? || e.Cleanup?
    requires other == e.id
    ensures PhaseFits(Apply(w, e), id)
  {
    hide Decision;
    assert PhaseFits(w, id) && PhaseFits(w, other);
  }

  lemma FittingDoesNotBreak(w: World, e: Event)
    requires Fits(w)
    ensures !Breaks(w, e)
  {
    match e
    case TakeOver(id) =>
      assert PhaseFits(w, id);
      if w.row.Some? { assert PhaseFits(w, w.row.value.owner); }
    case Cleanup(id) => assert PhaseFits(w, id);
    case _ =>
  }

  /** Handlers that end, and clean up, within the pending time of their claims never lose the row while active. */
  lemma {:induction false} TimelyNeverBreaks(w: World, es: seq<Event>)
    requires Fits(w) && AlwaysTimely(w, es)
    ensures NeverBreaks(w, es)
    decreases |es|
  {
    hide Fits, Apply, Timely, Breaks, PhaseFits;
    if es != [] {
      FittingDoesNotBreak(w, es[0]);
      forall id ensures PhaseFits(Apply(w, es[0]), id) { StepKeepsFit(w, es[0], id); }
      FitsMeans(Apply(w, es[0]));
      TimelyNeverBreaks(Apply(w, es[0]), es[1..]);
    }
  }

  lemma FitsMeans(w: World)
    requires forall id :: PhaseFits(w, id)
    ensures Fits(w)
  {
  }

  /** So, if every handler ends and is cleaned up after within the pending time of its claim, at most one runs. */
  lemma TimelyHandlersExclude(es: seq<Event>, i: nat, k: nat)
    requires AlwaysTimely(EMPTY, es)
    requires Active(PhaseOf(Exec(EMPTY, es), i)) && Active(PhaseOf(Exec(EMPTY, es), k))
    ensures i == k
  {
    hide Exec, AlwaysTimely, NeverBreaks;
    TimelyNeverBreaks(EMPTY, es);
    OneHandlerAtATime(es, i, k);
  }

  // ----- A request that comes while a response is kept -----

  predicate StillLooking(w: World, id: nat, existing: Option<Row>, request: Request) {
    PhaseOf(w, id) == Looked(existing) && id in w.requests && w.requests[id] == request
  }

  lemma {:induction false} LooksUntilItDecides(w: World, es: seq<Event>, id: nat, existing: Option<Row>, request: Request)
    requires StillLooking(w, id, existing, request) && Decide(id) !in es
    ensures StillLooking(Exec(w, es), id, existing, request)
    decreases |es|
  {
    if es != [] {
      assert es[0] in es && es[0] != Decide(id);
      LookingStep(w, es[0], id, existing, request);
      LooksUntilItDecides(Apply(w, es[0]), es[1..], id, existing, request);
    }
  }

  lemma LookingStep(w: World, e: Event, id: nat, existing: Option<Row>, request: Request)
    requires StillLooking(w, id, existing, request) && e != Decide(id)
    ensures StillLooking(Apply(w, e), id, existing, request)
  {
    hide Decision;
  }

  predicate Final(p: Phase) {
    p.Replayed? || p.Refused?
  }

  lemma {:induction false} FinalStays(w: World, es: seq<Event>, id: nat)
    requires Final(PhaseOf(w, id))
    ensures PhaseOf(Exec(w, es), id) == PhaseOf(w, id)
    decreases |es|
  {
    if es != [] {
      FinalStep(w, es[0], id);
      FinalStays(Apply(w, es[0]), es[1..], id);
    }
  }

  lemma FinalStep(w: World, e: Event, id: nat)
    requires Final(PhaseOf(w, id))
    ensures PhaseOf(Apply(w, e), id) == PhaseOf(w, id)
  {
    hide Decision;
  }

  /**
   A request that looks while a response is kept and decides before it expires ends
   with that response if it is the same request, and is refused if it is another,
   whatever happens in between and afterwards.
   */
  lemma KeptIsReplayedExactly(before: seq<Event>, between: seq<Event>, after: seq<Event>, id: nat)
    requires var w := Exec(EMPTY, before); Kept(w) && PhaseOf(w, id).Arrived?
    requires Decide(id) !in between
    requires var w := Exec(EMPTY, before); Exec(Apply(w, Look(id)), between).now < w.row.value.expiresAt
    ensures var w := Exec(EMPTY, before);
      var v := Exec(Apply(Exec(Apply(w, Look(id)), between), Decide(id)), after);
      PhaseOf(v, id) == if w.requests[id] == w.row.value.request then Replayed(w.row.value) else Refused(Reused)
  {
    var w := Exec(EMPTY, before);
    var looked := Apply(w, Look(id));
    assert StillLooking(looked, id, w.row, w.requests[id]);
    LooksUntilItDecides(looked, between, id, w.row, w.requests[id]);
    var decided := Apply(Exec(looked, between), Decide(id));
    hide Exec;
    assert Final(PhaseOf(decided, id));
    FinalStays(decided, after, id);
  }

  // ----- What a replay replays -----

  predicate RowIsOf(requests: map<nat, Request>, row: Row) {
    row.owner in requests && requests[row.owner] == row.request
  }

  predicate ReplayFits(w: World, id: nat) {
    var p := PhaseOf(w, id);
    && (p.Looked? && p.existing.Some? ==> RowIsOf(w.requests, p.existing.value))
    && (p.Replayed? ==> id in w.requests && p.row.status != 0 && p.row.request == w.requests[id] && RowIsOf(w.requests, p.row))
  }

  ghost predicate ReplaysFit(w: World) {
    (w.row.Some? ==> RowIsOf(w.requests, w.row.value)) && forall id :: ReplayFits(w, id)
  }

  lemma StepKeepsReplays(w: World, e: Event)
    requires ReplaysFit(w)
    ensures ReplaysFit(Apply(w, e))
  {
    var v := Apply(w, e);
    forall id ensures ReplayFits(v, id) { assert ReplayFits(w, id); }
  }

  lemma {:induction false} ExecKeepsReplays(w: World, es: seq<Event>)
    requires ReplaysFit(w)
    ensures ReplaysFit(Exec(w, es))
    decreases |es|
  {
    hide ReplaysFit, Apply;
    if es != [] {
      StepKeepsReplays(w, es[0]);
      ExecKeepsReplays(Apply(w, es[0]), es[1..]);
    }
  }

  /**
   In every run, however slow its handlers: a request is answered from a stored
   row only with a finished response to a request with the same method, path and
   body hash.
   */
  lemma ReplayIsOfTheSameRequest(es: seq<Event>, id: nat)
    requires PhaseOf(Exec(EMPTY, es), id).Replayed?
    ensures var w := Exec(EMPTY, es);
      var row := PhaseOf(w, id).row;
      row.status != 0 && id in w.requests && row.owner in w.requests && w.requests[row.owner] == w.requests[id]
  {
    hide Exec;
    ExecKeepsReplays(EMPTY, es);
    assert ReplayFits(Exec(EMPTY, es), id);
  }

  // ----- Without that assumption -----

  lemma ExecCons(w: World, e: Event, es: seq<Event>)
    ensures Exec(w, [e] + es) == Exec(Apply(w, e), es)
  {
    assert ([e] + es)[1..] == es;
  }

  /** What a request does up to its claim. */
  function Claim(id: nat, r: Request, last: Event): seq<Event> {
    [Arrive(id, r), Look(id), Decide(id), last]
  }

  function AfterClaim(w: World, id: nat, r: Request, last: Event): World {
    Apply(Apply(Apply(Apply(w, Arrive(id, r)), Look(id)), Decide(id)), last)
  }

  lemma ExecClaim(w: World, id: nat, r: Request, last: Event, es: seq<Event>)
    ensures Exec(w, Claim(id, r, last) + es) == Exec(AfterClaim(w, id, r, last), es)
  {
    hide Apply;
    var a, b, c := Apply(w, Arrive(id, r)), Apply(Apply(w, Arrive(id, r)), Look(id)), Apply(Apply(Apply(w, Arrive(id, r)), Look(id)), Decide(id));
    assert Claim(id, r, last) + es == [Arrive(id, r)] + ([Look(id)] + ([Decide(id)] + ([last] + es)));
    ExecCons(w, Arrive(id, r), [Look(id)] + ([Decide(id)] + ([last] + es)));
    ExecCons(a, Look(id), [Decide(id)] + ([last] + es));
    ExecCons(b, Decide(id), [last] + es);
    ExecCons(c, last, es);
  }

  /** A new request finds no row and claims the key. */
  lemma ClaimsFree(w: World, id: nat, r: Request)
    requires id !in w.requests && w.row.None?
    ensures AfterClaim(w, id, r, Create(id)) == w.(
      row := Some(Row(r, 0, "", w.now + 30000, id)),
      requests := w.requests[id := r],
      phases := w.phases[id := Running(w.now + PENDING_TTL_MS)])
  {
    var a := Apply(w, Arrive(id, r));
    var b := Apply(a, Look(id));
    assert PhaseOf(b, id) == Looked(None);
    var c := Apply(b, Decide(id));
    assert PhaseOf(c, id) == Creating(w.now + PENDING_TTL_MS);
  }

  /** A new request finds an expired row and takes the key over. */
  lemma ClaimsExpired(w: World, id: nat, r: Request)
    requires id !in w.requests && w.row.Some? && w.row.value.expiresAt <= w.now
    ensures AfterClaim(w, id, r, TakeOver(id)) == w.(
      row := Some(Row(r, 0, "", w.now + 30000, id)),
      requests := w.requests[id := r],
      phases := w.phases[id := Running(w.now + PENDING_TTL_MS)])
  {
    var a := Apply(w, Arrive(id, r));
    var b := Apply(a, Look(id));
    assert PhaseOf(b, id) == Looked(w.row);
    var c := Apply(b, Decide(id));
    assert PhaseOf(c, id) == TakingOver(w.now, w.now + PENDING_TTL_MS);
  }

  /** Two handlers at once. */
  predicate BothActive(w: World, i: nat, k: nat) {
    i != k && Active(PhaseOf(w, i)) && Active(PhaseOf(w, k))
  }

  /** Handler 1 has taken over, and the cleanup of handler 0 is still to come: it removes the claim, and a third one runs. */
  lemma CleanupLetsThirdIn(w: World, r: Request) returns (es: seq<Event>)
    requires PhaseOf(w, 0).Cleaning? && PhaseOf(w, 1).Running? && 2 !in w.requests
    requires w.row.Some? && w.row.value.status == 0
    ensures BothActive(Exec(w, es), 1, 2)
  {
    var w4 := Apply(w, Cleanup(0));
    assert w4.row == None && PhaseOf(w4, 1).Running?;
    var w5 := AfterClaim(w4, 2, r, Create(2));
    ClaimsFree(w4, 2, r);
    assert BothActive(w5, 1, 2);
    es := [Cleanup(0)] + (Claim(2, r, Create(2)) + []);
    ExecNothing(w5);
    hide Apply, AfterClaim, Exec, Claim, PhaseOf, Active;
    ExecCons(w, Cleanup(0), Claim(2, r, Create(2)) + []);
    ExecClaim(w4, 2, r, Create(2), []);
  }

  /** The first claim, then time. */
  lemma ClaimedAndLater(r: Request, now: nat)
    ensures Exec(EMPTY, Claim(0, r, Create(0)) + ([Tick(now)] + [])) ==
      World(now, Some(Row(r, 0, "", PENDING_TTL_MS, 0)), map[0 := r], map[0 := Running(PENDING_TTL_MS)])
  {
    ClaimsFree(EMPTY, 0, r);
    var w1 := AfterClaim(EMPTY, 0, r, Create(0));
    var w2 := Apply(w1, Tick(now));
    ExecNothing(w2);
    hide Apply, AfterClaim, Exec, Claim, PhaseOf, Active;
    ExecClaim(EMPTY, 0, r, Create(0), [Tick(now)] + []);
    ExecCons(w1, Tick(now), []);
  }

  lemma {:induction false} ExecAppend(w: World, es: seq<Event>, fs: seq<Event>)
    ensures Exec(w, es + fs) == Exec(Exec(w, es), fs)
    decreases |es|
  {
    hide Apply;
    if es == [] {
      assert es + fs == fs;
    } else {
      assert (es + fs)[1..] == es[1..] + fs;
      ExecAppend(Apply(w, es[0]), es[1..], fs);
    }
  }

  /** A handler slower than its claim lets a second one in. */
  lemma SlowHandlerBreaksExclusion(r: Request)
    ensures exists es :: BothActive(Exec(EMPTY, es), 0, 1)
  {
    ClaimedAndLater(r, PENDING_TTL_MS);
    var first := Claim(0, r, Create(0)) + ([Tick(PENDING_TTL_MS)] + []);
    var w2 := Exec(EMPTY, first);
    ClaimsExpired(w2, 1, r);
    var w3 := AfterClaim(w2, 1, r, TakeOver(1));
    assert BothActive(w3, 0, 1);
    ExecNothing(w3);
    hide Apply, AfterClaim, Exec, Claim, PhaseOf, Active, BothActive;
    ExecClaim(w2, 1, r, TakeOver(1), []);
    ExecAppend(EMPTY, first, Claim(1, r, TakeOver(1)) + []);
  }

  /**
   A handler that ends in time is enough, if its cleanup comes after the claim has
   been taken over: the cleanup removes the second claim, and a third handler runs
   beside the second.
   */
  lemma LateCleanupBreaksExclusion(r: Request)
    ensures exists es :: BothActive(Exec(EMPTY, es), 1, 2)
  {
    hide Apply, Exec, BothActive;
    ClaimedAndLater(r, PENDING_TTL_MS - 100);
    var first := Claim(0, r, Create(0)) + ([Tick(PENDING_TTL_MS - 100)] + []);
    var last := EndsInTime(Exec(EMPTY, first), r);
    ExecAppend(EMPTY, first, last);
  }

  /** The handler ends before its claim does; what follows puts two others beside each other. */
  lemma EndsInTime(w: World, r: Request) returns (es: seq<Event>)
    requires w == World(PENDING_TTL_MS - 100, Some(Row(r, 0, "", PENDING_TTL_MS, 0)), map[0 := r], map[0 := Running(PENDING_TTL_MS)])
    ensures BothActive(Exec(w, es), 1, 2)
  {
    var w2 := Apply(w, End(0, true));
    var w3 := Apply(w2, Tick(PENDING_TTL_MS));
    ClaimsExpired(w3, 1, r);
    var w4 := AfterClaim(w3, 1, r, TakeOver(1));
    assert PhaseOf(w4, 0).Cleaning? && PhaseOf(w4, 1).Running?;
    hide Apply, AfterClaim, Exec, Claim, BothActive;
    var last := CleanupLetsThirdIn(w4, r);
    var rest := Claim(1, r, TakeOver(1)) + last;
    ExecClaim(w3, 1, r, TakeOver(1), last);
    ExecCons(w2, Tick(PENDING_TTL_MS), rest);
    es := [End(0, true)] + ([Tick(PENDING_TTL_MS)] + rest);
    ExecCons(w, End(0, true), [Tick(PENDING_TTL_MS)] + rest);
  }

  lemma ExecNothing(w: World)
    ensures Exec(w, []) == w
  {
  }

  /** A handler ends from either state, and cleans up if it is told to. */
  lemma HandlersEnd(w: World, id: nat, cleanup: bool)
    requires PhaseOf(w, id).Running? || PhaseOf(w, id).Stored?
    ensures var p := PhaseOf(Apply(w, End(id, cleanup)), id); if cleanup then p.Cleaning? else p.Ended?
  {
  }

  // ----- What a break leads to -----

  /** Neither takes a row nor deletes one. */
  predicate Quiet(e: Event) {
    !e.TakeOver? && !e.Cleanup?
  }

  lemma {:induction false} QuietNeverBreaks(w: World, es: seq<Event>)
    requires forall e :: e in es ==> Quiet(e)
    ensures NeverBreaks(w, es)
    decreases |es|
  {
    hide Apply;
    if es != [] {
      assert es[0] in es && forall e :: e in es[1..] ==> e in es;
      QuietNeverBreaks(Apply(w, es[0]), es[1..]);
    }
  }

  lemma {:induction false} AboveAll(ids: set<nat>) returns (bound: nat)
    ensures forall id :: id in ids ==> id < bound
  {
    if ids == {} {
      bound := 0;
    } else {
      var id :| id in ids;
      var rest := AboveAll(ids - {id});
      assert ids == ids - {id} + {id};
      bound := if rest <= id then id + 1 else rest;
    }
  }

  /** A row deleted under an active handler lets the next request in beside it. */
  lemma BrokenCleanupLetsOneIn(w: World, e: Event) returns (es: seq<Event>, id: nat)
    requires e.Cleanup? && Breaks(w, e)
    ensures NeverBreaks(Apply(w, e), es) && BothActive(Exec(Apply(w, e), es), w.row.value.owner, id)
  {
    var v, owner, r := Apply(w, e), w.row.value.owner, Request("", "", "");
    id := AboveAll(v.requests.Keys);
    assert id !in v.requests && v.row.None? && Active(PhaseOf(v, owner));
    ClaimsFree(v, id, r);
    var u := AfterClaim(v, id, r, Create(id));
    assert BothActive(u, owner, id);
    es := Claim(id, r, Create(id)) + [];
    QuietNeverBreaks(v, es);
    ExecNothing(u);
    hide Apply, AfterClaim, Exec, Claim, PhaseOf, Active, Breaks, NeverBreaks;
    ExecClaim(v, id, r, Create(id), []);
  }

  /** A takeover from an active handler is itself what lets the second in. */
  lemma BrokenTakeoverLetsOneIn(w: World, e: Event) returns (es: seq<Event>)
    requires ActiveOwns(w) && e.TakeOver? && Breaks(w, e)
    ensures NeverBreaks(Apply(w, e), es) && BothActive(Exec(Apply(w, e), es), w.row.value.owner, e.id)
  {
    es := [];
    ExecNothing(Apply(w, e));
  }

  /** Some way to go on, taking no row from an active handler, has two handlers active at once. */
  ghost predicate TwoCanGetIn(w: World) {
    exists es, i, k :: NeverBreaks(w, es) && BothActive(Exec(w, es), i, k)
  }

  /**
   A step can be followed, with no further such step, by two active handlers exactly
   when it takes the row from an active handler.
   */
  lemma TwoGetInExactly(w: World, e: Event)
    requires ActiveOwns(w)
    ensures TwoCanGetIn(Apply(w, e)) <==> Breaks(w, e)
  {
    hide Exec, Apply, NeverBreaks, ActiveOwns, BothActive;
    if Breaks(w, e) {
      if e.Cleanup? {
        var es, id := BrokenCleanupLetsOneIn(w, e);
      } else {
        var es := BrokenTakeoverLetsOneIn(w, e);
      }
    } else {
      ExclusionExactly(w, e);
      if es, i, k :| NeverBreaks(Apply(w, e), es) && BothActive(Exec(Apply(w, e), es), i, k) {
        ExecKeepsOwner(Apply(w, e), es);
        OwnersAreOne(Exec(Apply(w, e), es), i, k);
      }
    }
  }

  lemma OwnersAreOne(w: World, i: nat, k: nat)
    requires ActiveOwns(w)
    ensures !BothActive(w, i, k)
  {
    assert Active(PhaseOf(w, i)) ==> Owns(w, i);
    assert Active(PhaseOf(w, k)) ==> Owns(w, k);
  }
}
