/**
 Admission of billable clicks from leased quota units (src/lib/click-admission.ts,
 with the two transactions it runs in src/lib/tenant-usage.ts).

 Any number of instances draw blocks of units from one usage bucket a month and
 spend them from memory.  Each stretch of code between two awaits, each database
 transaction, each failure and each passing of time is one step.  A month is a
 number; an `Instance` is what one process holds for one tenant.
 */
module ClickAdmission {
  import opened Prelude

  const LEASE_TTL_MS := 5000
  const UNLIMITED_TTL_MS := 5000
  const MAX_LEASE_UNITS := 25
  const HEADROOM_DIVISOR := 20
  const MAX_ACQUIRE_ATTEMPTS := 50

  datatype Lease = Lease(periodKey: nat, remaining: nat, expiresAt: nat, exhausted: bool)

  datatype Answer = Unlimited | Granted(units: nat, period: nat)

  /** `Answered` and `Failed`: the transaction is over, the process has not resumed yet. */
  datatype Flight =
    | Idle
    | Running(previous: Option<Lease>, demand: nat)
    | Answered(answer: Answer)
    | Failed(previous: Option<Lease>)

  datatype Instance = Instance(lease: Option<Lease>, unlimitedUntil: nat, flight: Flight, waiting: nat)

  datatype Verdict = Reserved | Unreserved | Rejected | Waits

  /** Units a process is handing back to the database. */
  datatype HandBack = HandBack(owner: nat, period: nat, amount: nat)

  const FRESH := Instance(None, 0, Idle, 0)

  // ----- One instance, between two awaits -----

  predicate CanTake(lease: Option<Lease>, now: nat, period: nat) {
    lease.Some? && lease.value.remaining > 0 && lease.value.expiresAt > now && lease.value.periodKey == period
  }

  function Taken(lease: Option<Lease>): Option<Lease>
    requires lease.Some? && lease.value.remaining > 0
  {
    Some(lease.value.(remaining := lease.value.remaining - 1))
  }

  /** Detach the lease and open the transaction, unless one is already open. */
  function Acquiring(a: Instance): Instance {
    if a.flight.Idle? then
      a.(lease := None, flight := Running(a.lease, if a.waiting > 1 then a.waiting else 1))
    else a
  }

  function Admit(a: Instance, now: nat, period: nat): (Instance, Verdict) {
    if a.unlimitedUntil > now then (a, Unreserved)
    else if CanTake(a.lease, now, period) then (a.(lease := Taken(a.lease)), Reserved)
    else if a.lease.Some? && a.lease.value.exhausted && a.lease.value.expiresAt > now && a.flight.Idle? then (a, Rejected)
    else (Acquiring(a.(waiting := a.waiting + 1)), Waits)
  }

  function DoneWaiting(a: Instance): Instance {
    a.(waiting := if a.waiting > 1 then a.waiting - 1 else 0)
  }

  /** A waiting admission goes on after the acquisition of its attempt settled; attempts count from zero. */
  function Resume(a: Instance, attempt: nat, now: nat, period: nat): (Instance, Verdict) {
    if a.unlimitedUntil > now then (DoneWaiting(a), Unreserved)
    else if CanTake(a.lease, now, period) then (DoneWaiting(a.(lease := Taken(a.lease))), Reserved)
    else if a.lease.Some? && a.lease.value.exhausted then (DoneWaiting(a), Rejected)
    else if attempt + 1 >= MAX_ACQUIRE_ATTEMPTS then (DoneWaiting(a), Rejected)
    else (Acquiring(a), Waits)
  }

  /** The acquiring process goes on after its transaction. */
  function Finished(a: Instance, now: nat, period: nat): Instance {
    match a.flight
    case Answered(Unlimited) => a.(unlimitedUntil := now + UNLIMITED_TTL_MS, flight := Idle)
    case Answered(Granted(units, _)) =>
      a.(unlimitedUntil := 0, flight := Idle, lease := Some(Lease(period, units, now + LEASE_TTL_MS, units == 0)))
    case Failed(previous) =>
      a.(flight := Idle, lease := if previous.Some? then Some(previous.value.(expiresAt := 0)) else a.lease)
    case _ => a
  }

  /** A unit comes back: into the lease, or to the database. */
  function Returned(a: Instance, period: nat, self: nat): (Instance, seq<HandBack>) {
    if a.lease.Some? && a.lease.value.periodKey == period then
      (a.(lease := Some(a.lease.value.(remaining := a.lease.value.remaining + 1))), [])
    else (a, [HandBack(self, period, 1)])
  }

  function Swept(a: Instance, now: nat, self: nat): (Instance, seq<HandBack>) {
    var b := a.(unlimitedUntil := if a.unlimitedUntil <= now then 0 else a.unlimitedUntil);
    if a.lease.Some? && a.lease.value.expiresAt <= now && a.flight.Idle? then
      (b.(lease := None),
       if a.lease.value.remaining > 0 then [HandBack(self, a.lease.value.periodKey, a.lease.value.remaining)] else [])
    else (b, [])
  }

  // ----- The database -----

  function Get(m: map<nat, nat>, p: nat): nat {
    if p in m then m[p] else 0
  }

  function Plus(m: map<nat, nat>, p: nat, n: nat): map<nat, nat> {
    m[p := Get(m, p) + n]
  }

  /** Decrement where the quantity allows it; otherwise no row matches. */
  function Minus(m: map<nat, nat>, p: nat, n: nat): map<nat, nat> {
    if n <= Get(m, p) then m[p := Get(m, p) - n] else m
  }

  function Grant(limit: nat, used: nat, demand: nat): nat {
    if limit <= used then 0
    else
      var headroom := limit - used;
      var byHeadroom := headroom / HEADROOM_DIVISOR;
      var wanted := if byHeadroom < demand then demand else byHeadroom;
      var atLeastOne := if wanted < 1 then 1 else wanted;
      var capped := if atLeastOne > MAX_LEASE_UNITS then MAX_LEASE_UNITS else atLeastOne;
      if capped > headroom then headroom else capped
  }

  function AfterRelease(buckets: map<nat, nat>, previous: Option<Lease>): map<nat, nat> {
    if previous.Some? && previous.value.remaining > 0 then
      Minus(buckets, previous.value.periodKey, previous.value.remaining)
    else buckets
  }

  /** The lease transaction: hand the old units back, then grant new ones. */
  function Reserve(buckets: map<nat, nat>, quota: Option<nat>, period: nat, previous: Option<Lease>, demand: nat)
    : (map<nat, nat>, Answer)
  {
    var released := AfterRelease(buckets, previous);
    match quota
    case None => (released, Unlimited)
    case Some(limit) =>
      var grant := Grant(limit, Get(released, period), demand);
      (Plus(released, period, grant), Granted(grant, period))
  }

  /**
   Grants never exceed the headroom, never exceed 25, are never zero while there
   is headroom, cover the waiting callers when they can, and shrink to single
   units near the limit.
   */
  lemma GrantIsExact(limit: nat, used: nat, demand: nat)
    ensures var g := Grant(limit, used, demand);
      && (g == 0 <==> used >= limit)
      && g <= 25
      && (g > 0 ==> used + g <= limit)
      && (demand <= 25 && used + demand <= limit ==> g >= demand)
      && (g > demand && g > 1 ==> 20 * g <= limit - used)
      && (g < 25 && used + g < limit ==> 20 * (g + 1) > limit - used)
  {
  }

  // ----- All instances -----

  datatype World = World(
    now: nat,
    period: nat,
    quota: Option<nat>,
    buckets: map<nat, nat>,
    instances: seq<Instance>,
    releases: seq<HandBack>,
    spent: map<nat, nat>,
    measured: map<nat, nat>,
    stranded: map<nat, nat>,
    waiters: map<nat, Waiter>)

  /** What has become of the acquisition an admission awaits. */
  datatype Awaited = Pending | Acquired | Thrown

  /** An admission that waits: in which process, at which attempt, and for what. */
  datatype Waiter = Waiter(instance: nat, attempt: nat, awaited: Awaited)

  /**
   `Arrive`: an admission with its own number starts.  `Wake`, `Throw`: it goes on
   after its acquisition, or fails with it.
   `Return(i, p)`: a click admitted in month `p` is handed back.
   `Measure`: the click queue counts unreserved clicks.
   `Crash`: a process is replaced by a fresh one; its open hand-backs are lost with it.
   */
  datatype Event =
    | Arrive(i: nat, id: nat)
    | Wake(i: nat, id: nat)
    | Throw(i: nat, id: nat)
    | Commit(i: nat)
    | Abort(i: nat)
    | Finish(i: nat)
    | Return(i: nat, admittedIn: nat)
    | Sweep(i: nat)
    | ReleaseCommits(k: nat)
    | ReleaseFails(k: nat)
    | Measure(n: nat)
    | Crash(i: nat)
    | Tick(now: nat, period: nat)
    | SetQuota(quota: Option<nat>)

  function Init(n: nat, quota: Option<nat>): World {
    World(0, 0, quota, map[], seq(n, _ => FRESH), [], map[], map[], map[], map[])
  }

  function Spend(w: World, i: nat, step: (Instance, Verdict)): World
    requires i < |w.instances|
  {
    w.(instances := w.instances[i := step.0],
       spent := if step.1.Reserved? then Plus(w.spent, w.period, 1) else w.spent)
  }

  predicate WaitsAt(w: World, i: nat, id: nat, awaited: Awaited) {
    id in w.waiters && w.waiters[id].instance == i && w.waiters[id].awaited == awaited
  }

  /** All that wait in a process await its one open acquisition, and hear of its end together. */
  function Told(waiters: map<nat, Waiter>, i: nat, flight: Flight): map<nat, Waiter> {
    if !flight.Answered? && !flight.Failed? then waiters
    else
      map id | id in waiters :: var x := waiters[id];
        if x.instance == i && x.awaited.Pending? then x.(awaited := if flight.Failed? then Thrown else Acquired) else x
  }

  /** After a verdict an admission waits for its next attempt or is over. */
  function Settled(waiters: map<nat, Waiter>, i: nat, id: nat, attempt: nat, verdict: Verdict): map<nat, Waiter> {
    if verdict.Waits? then waiters[id := Waiter(i, attempt, Pending)] else waiters - {id}
  }

  function Release(w: World, i: nat, step: (Instance, seq<HandBack>)): World
    requires i < |w.instances|
  {
    w.(instances := w.instances[i := step.0], releases := w.releases + step.1)
  }

  function LeaseStranded(m: map<nat, nat>, lease: Option<Lease>): map<nat, nat> {
    if lease.Some? then Plus(m, lease.value.periodKey, lease.value.remaining) else m
  }

  function FlightStranded(m: map<nat, nat>, flight: Flight): map<nat, nat> {
    match flight
    case Idle => m
    case Running(previous, _) => LeaseStranded(m, previous)
    case Failed(previous) => LeaseStranded(m, previous)
    case Answered(Unlimited) => m
    case Answered(Granted(units, period)) => Plus(m, period, units)
  }

  function OwnStranded(m: map<nat, nat>, releases: seq<HandBack>, i: nat): map<nat, nat> {
    if releases == [] then m
    else
      var last := releases[|releases| - 1];
      var rest := OwnStranded(m, releases[..|releases| - 1], i);
      if last.owner == i then Plus(rest, last.period, last.amount) else rest
  }

  function OthersOf(releases: seq<HandBack>, i: nat): seq<HandBack> {
    if releases == [] then []
    else
      var last := releases[|releases| - 1];
      OthersOf(releases[..|releases| - 1], i) + if last.owner == i then [] else [last]
  }

  /** Everything a process has, lost: its lease, its open transaction, its open hand-backs, its waiting admissions. */
  function Crashed(w: World, i: nat): World
    requires i < |w.instances|
  {
    var a := w.instances[i];
    w.(instances := w.instances[i := FRESH],
       releases := OthersOf(w.releases, i),
       stranded := OwnStranded(FlightStranded(LeaseStranded(w.stranded, a.lease), a.flight), w.releases, i),
       waiters := map id | id in w.waiters && w.waiters[id].instance != i :: w.waiters[id])
  }

  function ApplyAt(w: World, e: Event, i: nat): World
    requires i < |w.instances|
  {
    var a := w.instances[i];
    match e
    case Arrive(_, id) =>
      if id in w.waiters then w
      else
        var step := Admit(a, w.now, w.period);
        Spend(w, i, step).(waiters := Settled(w.waiters, i, id, 0, step.1))
    case Wake(_, id) =>
      if WaitsAt(w, i, id, Acquired) then
        var step := Resume(a, w.waiters[id].attempt, w.now, w.period);
        Spend(w, i, step).(waiters := Settled(w.waiters, i, id, w.waiters[id].attempt + 1, step.1))
      else w
    case Throw(_, id) =>
      if WaitsAt(w, i, id, Thrown) then w.(instances := w.instances[i := DoneWaiting(a)], waiters := w.waiters - {id})
      else w
    case Commit(_) =>
      if a.flight.Running? then
        var (buckets, answer) := Reserve(w.buckets, w.quota, w.period, a.flight.previous, a.flight.demand);
        w.(buckets := buckets, instances := w.instances[i := a.(flight := Answered(answer))])
      else w
    case Abort(_) =>
      if a.flight.Running? then w.(instances := w.instances[i := a.(flight := Failed(a.flight.previous))]) else w
    case Finish(_) =>
      w.(instances := w.instances[i := Finished(a, w.now, w.period)], waiters := Told(w.waiters, i, a.flight))
    case Return(_, p) =>
      if Get(w.spent, p) > 0 then Release(w.(spent := Minus(w.spent, p, 1)), i, Returned(a, w.period, i)) else w
    case Sweep(_) => Release(w, i, Swept(a, w.now, i))
    case Crash(_) => Crashed(w, i)
    case _ => w
  }

  function Without(releases: seq<HandBack>, k: nat): seq<HandBack>
    requires k < |releases|
  {
    releases[..k] + releases[k + 1..]
  }

  function ApplyGlobal(w: World, e: Event): World {
    match e
    case ReleaseCommits(k) =>
      if k < |w.releases| then
        w.(buckets := Minus(w.buckets, w.releases[k].period, w.releases[k].amount), releases := Without(w.releases, k))
      else w
    case ReleaseFails(k) =>
      if k < |w.releases| then
        w.(stranded := Plus(w.stranded, w.releases[k].period, w.releases[k].amount), releases := Without(w.releases, k))
      else w
    case Measure(n) => w.(buckets := Plus(w.buckets, w.period, n), measured := Plus(w.measured, w.period, n))
    case Tick(now, period) => if w.now <= now && w.period <= period then w.(now := now, period := period) else w
    case SetQuota(quota) => w.(quota := quota)
    case _ => w
  }

  predicate AtInstance(e: Event) {
    !e.ReleaseCommits? && !e.ReleaseFails? && !e.Measure? && !e.Tick? && !e.SetQuota?
  }

  function Apply(w: World, e: Event): World {
    if AtInstance(e) then
      if e.i < |w.instances| then ApplyAt(w, e, e.i) else w
    else ApplyGlobal(w, e)
  }

  function Exec(w: World, es: seq<Event>): World
    decreases |es|
  {
    if es == [] then w else Exec(Apply(w, es[0]), es[1..])
  }

  // ----- Where every unit is -----

  function LeaseUnits(lease: Option<Lease>, p: nat): nat {
    if lease.Some? && lease.value.periodKey == p then lease.value.remaining else 0
  }

  function FlightUnits(flight: Flight, p: nat): nat {
    match flight
    case Idle => 0
    case Running(previous, _) => LeaseUnits(previous, p)
    case Failed(previous) => LeaseUnits(previous, p)
    case Answered(Unlimited) => 0
    case Answered(Granted(units, period)) => if period == p then units else 0
  }

  function Units(a: Instance, p: nat): nat {
    LeaseUnits(a.lease, p) + FlightUnits(a.flight, p)
  }

  function AllUnits(instances: seq<Instance>, p: nat): nat {
    if instances == [] then 0
    else AllUnits(instances[..|instances| - 1], p) + Units(instances[|instances| - 1], p)
  }

  function ReleaseUnits(releases: seq<HandBack>, p: nat): nat {
    if releases == [] then 0
    else
      var last := releases[|releases| - 1];
      ReleaseUnits(releases[..|releases| - 1], p) + if last.period == p then last.amount else 0
  }

  /** Units on their way: held in memory, in an open transaction, or being handed back. */
  function InHand(w: World, p: nat): nat {
    AllUnits(w.instances, p) + ReleaseUnits(w.releases, p)
  }

  predicate Balanced(w: World, p: nat) {
    Get(w.buckets, p) == Get(w.measured, p) + Get(w.spent, p) + InHand(w, p) + Get(w.stranded, p)
  }

  ghost predicate Conserved(w: World) {
    forall p :: Balanced(w, p)
  }

  /** No lease is held while a transaction is open: `Finished` overwrites none. */
  predicate Detached(a: Instance) {
    !a.flight.Idle? ==> a.lease.None?
  }

  ghost predicate AllDetached(w: World) {
    forall i :: 0 <= i < |w.instances| ==> Detached(w.instances[i])
  }

  /**
   The month changed between a grant's transaction and the moment its lease is
   dated, or between a click's admission and its return.
   */
  predicate Straddles(w: World, e: Event) {
    match e
    case Finish(i) =>
      && i < |w.instances|
      && w.instances[i].flight.Answered? && w.instances[i].flight.answer.Granted?
      && w.instances[i].flight.answer.units > 0
      && w.instances[i].flight.answer.period != w.period
    case Return(i, p) => i < |w.instances| && Get(w.spent, p) > 0 && p != w.period
    case _ => false
  }

  lemma {:induction false} AllUnitsUpdate(s: seq<Instance>, i: nat, a: Instance, p: nat)
    requires i < |s|
    ensures AllUnits(s[i := a], p) == AllUnits(s, p) - Units(s[i], p) + Units(a, p)
  {
    var n := |s| - 1;
    if i < n {
      assert s[i := a][..n] == s[..n][i := a];
      AllUnitsUpdate(s[..n], i, a, p);
    } else {
      assert s[i := a][..n] == s[..n];
    }
  }

  lemma {:induction false} AllUnitsHas(s: seq<Instance>, i: nat, p: nat)
    requires i < |s|
    ensures Units(s[i], p) <= AllUnits(s, p)
  {
    if i < |s| - 1 {
      AllUnitsHas(s[..|s| - 1], i, p);
    }
  }

  lemma {:induction false} ReleaseUnitsConcat(s: seq<HandBack>, t: seq<HandBack>, p: nat)
    ensures ReleaseUnits(s + t, p) == ReleaseUnits(s, p) + ReleaseUnits(t, p)
  {
    if t == [] {
      assert s + t == s;
    } else {
      assert (s + t)[..|s + t| - 1] == s + t[..|t| - 1];
      ReleaseUnitsConcat(s, t[..|t| - 1], p);
    }
  }

  lemma ReleaseUnitsOne(r: HandBack, p: nat)
    ensures ReleaseUnits([r], p) == if r.period == p then r.amount else 0
  {
    assert [r][..0] == [];
  }

  lemma ReleaseUnitsWithout(s: seq<HandBack>, k: nat, p: nat)
    requires k < |s|
    ensures ReleaseUnits(s, p) == ReleaseUnits(Without(s, k), p) + if s[k].period == p then s[k].amount else 0
  {
    assert s == s[..k] + ([s[k]] + s[k + 1..]);
    ReleaseUnitsConcat(s[..k], [s[k]] + s[k + 1..], p);
    ReleaseUnitsConcat([s[k]], s[k + 1..], p);
    ReleaseUnitsConcat(s[..k], s[k + 1..], p);
    ReleaseUnitsOne(s[k], p);
  }

  // ----- Each step keeps the balance -----

  lemma SpendKeeps(w: World, i: nat, step: (Instance, Verdict), p: nat)
    requires i < |w.instances| && Balanced(w, p)
    requires Units(step.0, p) == Units(w.instances[i], p) - if step.1.Reserved? && p == w.period then 1 else 0
    ensures Balanced(Spend(w, i, step), p)
  {
    AllUnitsUpdate(w.instances, i, step.0, p);
    hide AllUnits, Units;
  }

  lemma ReleaseKeeps(w: World, i: nat, step: (Instance, seq<HandBack>), p: nat)
    requires i < |w.instances|
    requires Units(step.0, p) + ReleaseUnits(step.1, p) ==
      Units(w.instances[i], p) + Get(w.buckets, p) - Get(w.measured, p) - Get(w.spent, p) - InHand(w, p) - Get(w.stranded, p)
    ensures Balanced(Release(w, i, step), p)
  {
    AllUnitsUpdate(w.instances, i, step.0, p);
    ReleaseUnitsConcat(w.releases, step.1, p);
    hide AllUnits, Units;
  }

  /** Which admissions wait is no part of the balance. */
  lemma WaitersDoNotMatter(w: World, waiters: map<nat, Waiter>, p: nat)
    ensures Balanced(w.(waiters := waiters), p) <==> Balanced(w, p)
  {
    hide AllUnits, ReleaseUnits;
  }

  lemma ArriveKeeps(w: World, i: nat, id: nat, p: nat)
    requires i < |w.instances| && AllDetached(w) && Balanced(w, p)
    ensures Balanced(Apply(w, Arrive(i, id)), p) && Balanced(Apply(w, Wake(i, id)), p) && Balanced(Apply(w, Throw(i, id)), p)
  {
    hide Balanced, AllUnits, Settled;
    var a := w.instances[i];
    assert Detached(a);
    SpendKeeps(w, i, Admit(a, w.now, w.period), p);
    SpendKeeps(w, i, (DoneWaiting(a), Waits), p);
    forall attempt ensures Balanced(Spend(w, i, Resume(a, attempt, w.now, w.period)), p) {
      SpendKeeps(w, i, Resume(a, attempt, w.now, w.period), p);
    }
    hide Spend, Admit, Resume;
    forall v: World, waiters | Balanced(v, p) ensures Balanced(v.(waiters := waiters), p) { WaitersDoNotMatter(v, waiters, p); }
  }

  lemma CommitKeeps(w: World, i: nat, p: nat)
    requires i < |w.instances| && AllDetached(w) && Conserved(w)
    ensures Balanced(Apply(w, Commit(i)), p)
  {
    hide AllUnits;
    var a := w.instances[i];
    if a.flight.Running? {
      var (buckets, answer) := Reserve(w.buckets, w.quota, w.period, a.flight.previous, a.flight.demand);
      var b := a.(flight := Answered(answer));
      ReleaseAllowed(w, i);
      hide Grant;
      assert Balanced(w, p);
      AllUnitsUpdate(w.instances, i, b, p);
    } else {
      assert Balanced(w, p);
    }
  }

  /** The guard on handing an old lease back never fails. */
  lemma ReleaseAllowed(w: World, i: nat)
    requires i < |w.instances| && Conserved(w)
    ensures var f := w.instances[i].flight;
      f.Running? && f.previous.Some? ==> f.previous.value.remaining <= Get(w.buckets, f.previous.value.periodKey)
  {
    hide AllUnits;
    var f := w.instances[i].flight;
    if f.Running? && f.previous.Some? {
      var p := f.previous.value.periodKey;
      assert Balanced(w, p);
      AllUnitsHas(w.instances, i, p);
    }
  }

  lemma AbortKeeps(w: World, i: nat, p: nat)
    requires i < |w.instances| && Balanced(w, p)
    ensures Balanced(Apply(w, Abort(i)), p)
  {
    hide AllUnits;
    var a := w.instances[i];
    if a.flight.Running? {
      AllUnitsUpdate(w.instances, i, a.(flight := Failed(a.flight.previous)), p);
    }
  }

  lemma FinishKeeps(w: World, i: nat, p: nat)
    requires i < |w.instances| && AllDetached(w) && Balanced(w, p) && !Straddles(w, Finish(i))
    ensures Balanced(Apply(w, Finish(i)), p)
  {
    hide AllUnits;
    var a := w.instances[i];
    assert Detached(a);
    AllUnitsUpdate(w.instances, i, Finished(a, w.now, w.period), p);
  }

  lemma ReturnKeeps(w: World, i: nat, q: nat, p: nat)
    requires i < |w.instances| && Balanced(w, p) && !Straddles(w, Return(i, q))
    ensures Balanced(Apply(w, Return(i, q)), p)
  {
    hide AllUnits;
    var a := w.instances[i];
    if Get(w.spent, q) > 0 {
      var v := w.(spent := Minus(w.spent, q, 1));
      var step := Returned(a, w.period, i);
      ReleaseUnitsOne(HandBack(i, w.period, 1), p);
      ReleaseKeeps(v, i, step, p);
    }
  }

  lemma SweepKeeps(w: World, i: nat, p: nat)
    requires i < |w.instances| && Balanced(w, p)
    ensures Balanced(Apply(w, Sweep(i)), p)
  {
    hide AllUnits;
    var a := w.instances[i];
    if a.lease.Some? {
      ReleaseUnitsOne(HandBack(i, a.lease.value.periodKey, a.lease.value.remaining), p);
    }
    ReleaseKeeps(w, i, Swept(a, w.now, i), p);
  }

  lemma CrashKeeps(w: World, i: nat, p: nat)
    requires i < |w.instances| && Balanced(w, p)
    ensures Balanced(Apply(w, Crash(i)), p)
  {
    var a := w.instances[i];
    AllUnitsUpdate(w.instances, i, FRESH, p);
    CrashStrandsUnits(w.stranded, a, p);
    OwnOrOthers(FlightStranded(LeaseStranded(w.stranded, a.lease), a.flight), w.releases, i, p);
    hide AllUnits, FlightStranded, LeaseStranded, OwnStranded, OthersOf, ReleaseUnits;
  }

  /** Hand-backs are lost with their owner, or go on. */
  lemma {:induction false} OwnOrOthers(m: map<nat, nat>, releases: seq<HandBack>, i: nat, p: nat)
    ensures Get(OwnStranded(m, releases, i), p) + ReleaseUnits(OthersOf(releases, i), p) == Get(m, p) + ReleaseUnits(releases, p)
  {
    if releases != [] {
      var init, last := releases[..|releases| - 1], releases[|releases| - 1];
      OwnOrOthers(m, init, i, p);
      if last.owner == i {
        assert OthersOf(init, i) + [] == OthersOf(init, i);
      } else {
        ReleaseUnitsConcat(OthersOf(init, i), [last], p);
        ReleaseUnitsOne(last, p);
      }
    }
  }

  lemma CrashStrandsUnits(m: map<nat, nat>, a: Instance, p: nat)
    ensures Get(FlightStranded(LeaseStranded(m, a.lease), a.flight), p) == Get(m, p) + Units(a, p)
  {
  }

  lemma GlobalKeeps(w: World, e: Event, p: nat)
    requires !AtInstance(e) && Conserved(w)
    ensures Balanced(Apply(w, e), p)
  {
    hide AllUnits, ReleaseUnits, Without;
    assert Balanced(w, p);
    match e
    case ReleaseCommits(k) =>
      if k < |w.releases| {
        var r := w.releases[k];
        assert Balanced(w, r.period);
        ReleaseUnitsWithout(w.releases, k, r.period);
        ReleaseUnitsWithout(w.releases, k, p);
      }
    case ReleaseFails(k) =>
      if k < |w.releases| { ReleaseUnitsWithout(w.releases, k, p); }
    case _ =>
  }

  lemma StepKeeps(w: World, e: Event, p: nat)
    requires AllDetached(w) && Conserved(w) && !Straddles(w, e)
    ensures Balanced(Apply(w, e), p)
  {
    assert Balanced(w, p);
    if !AtInstance(e) {
      GlobalKeeps(w, e, p);
    } else if e.i < |w.instances| {
      hide Balanced, Straddles;
      match e
      case Arrive(i, id) => ArriveKeeps(w, i, id, p);
      case Wake(i, id) => ArriveKeeps(w, i, id, p);
      case Throw(i, id) => ArriveKeeps(w, i, id, p);
      case Commit(i) => CommitKeeps(w, i, p);
      case Abort(i) => AbortKeeps(w, i, p);
      case Finish(i) => FinishKeeps(w, i, p);
      case Return(i, q) => ReturnKeeps(w, i, q, p);
      case Sweep(i) => SweepKeeps(w, i, p);
      case Crash(i) => CrashKeeps(w, i, p);
    }
  }

  lemma StepKeepsDetached(w: World, e: Event)
    requires AllDetached(w)
    ensures AllDetached(Apply(w, e)) && |Apply(w, e).instances| == |w.instances|
  {
    OtherInstances(w, e);
    if AtInstance(e) && e.i < |w.instances| {
      assert Detached(w.instances[e.i]);
      StaysDetached(w, e);
    }
    hide Apply;
  }

  /** A step changes at most the process it is at. */
  lemma OtherInstances(w: World, e: Event)
    ensures |Apply(w, e).instances| == |w.instances|
    ensures forall j :: 0 <= j < |w.instances| && (AtInstance(e) ==> j != e.i) ==> Apply(w, e).instances[j] == w.instances[j]
  {
    hide Admit, Resume, Finished, Returned, Swept, Reserve, OwnStranded, OthersOf, FlightStranded, LeaseStranded;
    hide Settled, Without, WaitsAt, Plus, Minus, Get;
  }

  lemma StaysDetached(w: World, e: Event)
    requires AtInstance(e) && e.i < |w.instances| && Detached(w.instances[e.i])
    ensures |Apply(w, e).instances| == |w.instances| && Detached(Apply(w, e).instances[e.i])
  {
    hide OwnStranded, OthersOf, FlightStranded, LeaseStranded, Reserve, Settled, WaitsAt, Plus, Minus, Get;
  }

  /** A step that straddles two months moves a unit to a month it was not taken from. */
  lemma StraddleBreaks(w: World, e: Event)
    requires AllDetached(w) && Conserved(w) && Straddles(w, e)
    ensures !Conserved(Apply(w, e))
  {
    hide AllUnits, ReleaseUnits;
    var v := Apply(w, e);
    var a := w.instances[e.i];
    match e
    case Finish(i) =>
      assert Detached(a);
      assert Balanced(w, w.period);
      AllUnitsUpdate(w.instances, i, Finished(a, w.now, w.period), w.period);
      assert !Balanced(v, w.period);
    case Return(i, q) =>
      assert Balanced(w, q);
      AllUnitsUpdate(w.instances, i, Returned(a, w.period, i).0, q);
      ReleaseUnitsConcat(w.releases, Returned(a, w.period, i).1, q);
      ReleaseUnitsOne(HandBack(i, w.period, 1), q);
      ReleaseUnitsEmpty(q);
      assert !Balanced(v, q);
  }

  lemma ReleaseUnitsEmpty(p: nat)
    ensures ReleaseUnits([], p) == 0
  {
  }

  /** A step keeps every unit accounted for exactly when it does not straddle two months. */
  lemma ConservedExactly(w: World, e: Event)
    requires AllDetached(w) && Conserved(w)
    ensures Conserved(Apply(w, e)) <==> !Straddles(w, e)
  {
    hide Straddles, Apply, Balanced;
    if Straddles(w, e) {
      StraddleBreaks(w, e);
    } else {
      forall p ensures Balanced(Apply(w, e), p) { StepKeeps(w, e, p); }
    }
  }

  // ----- Runs -----

  predicate NeverStraddles(w: World, es: seq<Event>)
    decreases |es|
  {
    es == [] || (!Straddles(w, es[0]) && NeverStraddles(Apply(w, es[0]), es[1..]))
  }

  lemma {:induction false} ExecConserves(w: World, es: seq<Event>)
    requires AllDetached(w) && Conserved(w) && NeverStraddles(w, es)
    ensures AllDetached(Exec(w, es)) && Conserved(Exec(w, es))
    decreases |es|
  {
    hide AllDetached, Conserved, Apply, Straddles;
    if es != [] {
      ConservedExactly(w, es[0]);
      StepKeepsDetached(w, es[0]);
      ExecConserves(Apply(w, es[0]), es[1..]);
    }
  }

  lemma {:induction false} FreshUnits(n: nat, p: nat)
    ensures AllUnits(seq(n, _ => FRESH), p) == 0
  {
    if n > 0 {
      assert seq(n, _ => FRESH)[..n - 1] == seq(n - 1, _ => FRESH);
      FreshUnits(n - 1, p);
    }
  }

  lemma InitConserved(n: nat, quota: Option<nat>)
    ensures AllDetached(Init(n, quota)) && Conserved(Init(n, quota))
  {
    forall p ensures Balanced(Init(n, quota), p) { FreshUnits(n, p); }
  }

  predicate QuotaWithin(quota: Option<nat>, limit: nat) {
    quota.Some? ==> quota.value <= limit
  }

  predicate QuotasWithin(es: seq<Event>, limit: nat) {
    forall e :: e in es ==> e.SetQuota? ==> QuotaWithin(e.quota, limit)
  }

  ghost predicate BucketsWithin(w: World, limit: nat) {
    forall p :: Get(w.buckets, p) <= Get(w.measured, p) + limit
  }

  lemma StepKeepsWithin(w: World, e: Event, limit: nat)
    requires BucketsWithin(w, limit) && QuotaWithin(w.quota, limit)
    requires e.SetQuota? ==> QuotaWithin(e.quota, limit)
    ensures BucketsWithin(Apply(w, e), limit) && QuotaWithin(Apply(w, e).quota, limit)
  {
    hide Get, ApplyAt;
    var v := Apply(w, e);
    forall p ensures Get(v.buckets, p) <= Get(v.measured, p) + limit { BucketStep(w, e, limit, p); }
    QuotaStep(w, e);
  }

  lemma QuotaStep(w: World, e: Event)
    ensures Apply(w, e).quota == if e.SetQuota? then e.quota else w.quota
  {
  }

  lemma BucketStep(w: World, e: Event, limit: nat, p: nat)
    requires BucketsWithin(w, limit) && QuotaWithin(w.quota, limit)
    ensures Get(Apply(w, e).buckets, p) <= Get(Apply(w, e).measured, p) + limit
  {
    hide Reserve, Admit, Resume, Finished, Returned, Swept, FlightStranded, LeaseStranded, Without;
    assert Get(w.buckets, p) <= Get(w.measured, p) + limit;
    if e.Commit? && e.i < |w.instances| && w.instances[e.i].flight.Running? {
      var f := w.instances[e.i].flight;
      ReserveStaysWithin(w.buckets, w.quota, w.period, f.previous, f.demand, limit, p);
    }
  }

  /** The lease transaction takes a bucket above what it held only up to the quota. */
  lemma ReserveStaysWithin(
    buckets: map<nat, nat>, quota: Option<nat>, period: nat, previous: Option<Lease>, demand: nat, limit: nat, p: nat)
    requires QuotaWithin(quota, limit)
    ensures var after := Get(Reserve(buckets, quota, period, previous, demand).0, p);
      after <= Get(buckets, p) || after <= limit
  {
    var released := AfterRelease(buckets, previous);
    if quota.Some? {
      GrantIsExact(quota.value, Get(released, period), demand);
    }
    hide Grant;
  }

  lemma {:induction false} ExecKeepsWithin(w: World, es: seq<Event>, limit: nat)
    requires BucketsWithin(w, limit) && QuotaWithin(w.quota, limit) && QuotasWithin(es, limit)
    ensures BucketsWithin(Exec(w, es), limit)
    decreases |es|
  {
    hide BucketsWithin, Apply, QuotaWithin;
    if es != [] {
      assert es[0] in es;
      StepKeepsWithin(w, es[0], limit);
      ExecKeepsWithin(Apply(w, es[0]), es[1..], limit);
    }
  }

  /**
   In every run whose grants and returns stay within their month, every unit of
   a month's bucket is measured usage, a spent click, in a process's hands, on
   its way back, or lost with a process; handing units back is never refused;
   and the clicks admitted on reserved units, together with all units still out,
   never exceed the highest quota the tenant had.
   */
  lemma UnitsAreConserved(n: nat, quota: Option<nat>, es: seq<Event>, limit: nat)
    requires NeverStraddles(Init(n, quota), es)
    requires QuotaWithin(quota, limit) && QuotasWithin(es, limit)
    ensures var w := Exec(Init(n, quota), es);
      && (forall p ::
            && Get(w.buckets, p) == Get(w.measured, p) + Get(w.spent, p) + InHand(w, p) + Get(w.stranded, p)
            && Get(w.spent, p) + InHand(w, p) + Get(w.stranded, p) <= limit)
      && (forall k :: 0 <= k < |w.releases| ==> w.releases[k].amount <= Get(w.buckets, w.releases[k].period))
  {
    var w := Exec(Init(n, quota), es);
    InitConserved(n, quota);
    ExecConserves(Init(n, quota), es);
    ExecKeepsWithin(Init(n, quota), es, limit);
    hide InHand, Exec, NeverStraddles;
    forall p
      ensures Get(w.buckets, p) == Get(w.measured, p) + Get(w.spent, p) + InHand(w, p) + Get(w.stranded, p)
        && Get(w.spent, p) + InHand(w, p) + Get(w.stranded, p) <= limit
    {
      assert Balanced(w, p);
    }
    forall k | 0 <= k < |w.releases| ensures w.releases[k].amount <= Get(w.buckets, w.releases[k].period) {
      assert Balanced(w, w.releases[k].period);
      ReleaseHasUnits(w, k);
    }
  }

  lemma ReleaseHasUnits(w: World, k: nat)
    requires k < |w.releases|
    ensures w.releases[k].amount <= InHand(w, w.releases[k].period)
  {
    ReleaseUnitsWithout(w.releases, k, w.releases[k].period);
  }

  predicate Quiet(w: World) {
    w.releases == [] && forall i :: 0 <= i < |w.instances| ==> w.instances[i].lease.None? && w.instances[i].flight.Idle?
  }

  predicate Loses(e: Event) {
    e.Crash? || e.ReleaseFails?
  }

  lemma {:induction false} QuietHoldsNothing(s: seq<Instance>, p: nat)
    requires forall i :: 0 <= i < |s| ==> s[i].lease.None? && s[i].flight.Idle?
    ensures AllUnits(s, p) == 0
  {
    if s != [] {
      QuietHoldsNothing(s[..|s| - 1], p);
    }
  }

  lemma {:induction false} NothingStranded(w: World, es: seq<Event>)
    requires w.stranded == map[] && forall e :: e in es ==> !Loses(e)
    ensures Exec(w, es).stranded == map[]
    decreases |es|
  {
    hide Admit, Resume, Returned, Swept, Reserve, Without;
    if es != [] {
      assert es[0] in es && !Loses(es[0]);
      NothingStranded(Apply(w, es[0]), es[1..]);
    }
  }

  /** Once all leases are handed back, and nothing was lost, the bucket is exactly what was used. */
  lemma QuietBucketIsExact(n: nat, quota: Option<nat>, es: seq<Event>, p: nat)
    requires NeverStraddles(Init(n, quota), es)
    requires forall e :: e in es ==> !Loses(e)
    requires Quiet(Exec(Init(n, quota), es))
    ensures var w := Exec(Init(n, quota), es);
      Get(w.buckets, p) == Get(w.measured, p) + Get(w.spent, p)
  {
    var w := Exec(Init(n, quota), es);
    InitConserved(n, quota);
    ExecConserves(Init(n, quota), es);
    NothingStranded(Init(n, quota), es);
    QuietHoldsNothing(w.instances, p);
    assert Balanced(w, p);
  }

  // ----- When a click is turned away -----

  /** The lease transaction finds the month's bucket at its limit. */
  predicate FindsFull(w: World, e: Event) {
    && e.Commit? && e.i < |w.instances| && w.instances[e.i].flight.Running? && w.quota.Some?
    && w.quota.value <= Get(AfterRelease(w.buckets, w.instances[e.i].flight.previous), w.period)
  }

  predicate NeverFindsFull(w: World, es: seq<Event>)
    decreases |es|
  {
    es == [] || (!FindsFull(w, es[0]) && NeverFindsFull(Apply(w, es[0]), es[1..]))
  }

  predicate Hopeful(lease: Option<Lease>) {
    lease.Some? ==> !lease.value.exhausted
  }

  predicate NotTurnedAway(a: Instance) {
    && Hopeful(a.lease)
    && (a.flight.Running? || a.flight.Failed? ==> Hopeful(a.flight.previous))
    && (a.flight.Answered? && a.flight.answer.Granted? ==> a.flight.answer.units > 0)
  }

  ghost predicate NobodyTurnedAway(w: World) {
    forall i :: 0 <= i < |w.instances| ==> NotTurnedAway(w.instances[i])
  }

  /** Waiting admissions are somewhere, and have attempts left. */
  ghost predicate WaitersKnown(w: World) {
    forall id :: id in w.waiters ==>
      w.waiters[id].instance < |w.instances| && w.waiters[id].attempt < MAX_ACQUIRE_ATTEMPTS
  }

  lemma StepTurnsNobodyAway(w: World, e: Event)
    requires NobodyTurnedAway(w) && WaitersKnown(w) && !FindsFull(w, e)
    ensures NobodyTurnedAway(Apply(w, e)) && WaitersKnown(Apply(w, e))
  {
    OtherInstances(w, e);
    if AtInstance(e) && e.i < |w.instances| {
      InstanceNotTurnedAway(w, e);
      WaitersStayKnown(w, e);
    }
  }

  lemma WaitersStayKnown(w: World, e: Event)
    requires WaitersKnown(w) && AtInstance(e) && e.i < |w.instances|
    ensures WaitersKnown(Apply(w, e))
  {
    hide Admit, Reserve, Returned, Swept, Finished, OwnStranded, OthersOf, FlightStranded, LeaseStranded, CanTake, Acquiring;
  }

  lemma InstanceNotTurnedAway(w: World, e: Event)
    requires AtInstance(e) && e.i < |w.instances| && NotTurnedAway(w.instances[e.i]) && !FindsFull(w, e)
    ensures |Apply(w, e).instances| == |w.instances| && NotTurnedAway(Apply(w, e).instances[e.i])
  {
    var a := w.instances[e.i];
    CommitNotTurnedAway(w, e.i);
    LocalStepsTurnNobodyAway(a, if e.Wake? && e.id in w.waiters then w.waiters[e.id].attempt else 0, w.now, w.period, e.i);
    hide Admit, Resume, DoneWaiting, Finished, Returned, Swept, Reserve, Settled, WaitsAt, OwnStranded, OthersOf, FlightStranded, LeaseStranded;
  }

  lemma LocalStepsTurnNobodyAway(a: Instance, attempt: nat, now: nat, period: nat, self: nat)
    requires NotTurnedAway(a)
    ensures NotTurnedAway(Admit(a, now, period).0) && NotTurnedAway(Resume(a, attempt, now, period).0)
    ensures NotTurnedAway(DoneWaiting(a)) && NotTurnedAway(Finished(a, now, period))
    ensures NotTurnedAway(Returned(a, period, self).0) && NotTurnedAway(Swept(a, now, self).0)
  {
  }

  lemma CommitNotTurnedAway(w: World, i: nat)
    requires i < |w.instances| && NotTurnedAway(w.instances[i])
    ensures !FindsFull(w, Commit(i)) ==> NotTurnedAway(Apply(w, Commit(i)).instances[i])
  {
    var a := w.instances[i];
    if a.flight.Running? && w.quota.Some? {
      GrantIsExact(w.quota.value, Get(AfterRelease(w.buckets, a.flight.previous), w.period), a.flight.demand);
    }
    hide Grant, AfterRelease;
  }

  lemma {:induction false} ExecTurnsNobodyAway(w: World, es: seq<Event>)
    requires NobodyTurnedAway(w) && WaitersKnown(w) && NeverFindsFull(w, es)
    ensures NobodyTurnedAway(Exec(w, es)) && WaitersKnown(Exec(w, es))
    decreases |es|
  {
    hide NobodyTurnedAway, WaitersKnown, Apply, FindsFull;
    if es != [] {
      StepTurnsNobodyAway(w, es[0]);
      ExecTurnsNobodyAway(Apply(w, es[0]), es[1..]);
    }
  }

  /** An admission whose acquisition has settled would be told no if it went on now. */
  predicate TurnsAway(w: World, id: nat) {
    && id in w.waiters && w.waiters[id].instance < |w.instances| && w.waiters[id].awaited.Acquired?
    && Resume(w.instances[w.waiters[id].instance], w.waiters[id].attempt, w.now, w.period).1.Rejected?
  }

  /**
   While no lease transaction has found the tenant at its limit, no click is
   rejected on arrival, and a waiting one exactly when its fiftieth acquisition has
   settled and left nothing for it.
   */
  lemma RejectsExactly(n: nat, quota: Option<nat>, es: seq<Event>, id: nat)
    requires NeverFindsFull(Init(n, quota), es)
    ensures var w := Exec(Init(n, quota), es);
      && (forall a :: a in w.instances ==> !Admit(a, w.now, w.period).1.Rejected?)
      && (TurnsAway(w, id) <==>
            && id in w.waiters && w.waiters[id].awaited.Acquired? && w.waiters[id].instance < |w.instances|
            && w.waiters[id].attempt + 1 == 50
            && var a := w.instances[w.waiters[id].instance];
               a.unlimitedUntil <= w.now && !CanTake(a.lease, w.now, w.period))
  {
    hide Exec, NeverFindsFull, CanTake, Acquiring, DoneWaiting;
    ExecTurnsNobodyAway(Init(n, quota), es);
    var w := Exec(Init(n, quota), es);
    forall a | a in w.instances ensures !Admit(a, w.now, w.period).1.Rejected? {
      assert NotTurnedAway(a);
    }
    if id in w.waiters {
      assert NotTurnedAway(w.instances[w.waiters[id].instance]);
    }
  }

  // ----- A tenant at its limit -----

  /** The process knows the tenant to be at its limit until then. */
  predicate KnowsFull(w: World, i: nat, until: nat) {
    && i < |w.instances|
    && var a := w.instances[i];
       && a.flight.Idle? && a.unlimitedUntil <= w.now
       && a.lease.Some? && a.lease.value.exhausted && a.lease.value.remaining == 0 && a.lease.value.expiresAt == until
  }

  lemma StepKeepsFull(w: World, e: Event, i: nat, until: nat)
    requires KnowsFull(w, i, until) && w.now < until && e != Crash(i) && !(e.Return? && e.i == i)
    ensures KnowsFull(Apply(w, e), i, until)
  {
    OtherInstances(w, e);
    ClockOnly(w, e);
    if AtInstance(e) && e.i == i { OwnStepKeepsFull(w, e, until); }
    hide Apply;
  }

  lemma OwnStepKeepsFull(w: World, e: Event, until: nat)
    requires AtInstance(e) && KnowsFull(w, e.i, until) && w.now < until && !e.Crash? && !e.Return?
    ensures KnowsFull(Apply(w, e), e.i, until)
  {
    hide Reserve, Settled, WaitsAt, Told, Plus;
  }

  lemma {:induction false} ExecKeepsFull(w: World, es: seq<Event>, i: nat, until: nat)
    requires KnowsFull(w, i, until) && Exec(w, es).now < until
    requires forall e :: e in es ==> e != Crash(i) && !(e.Return? && e.i == i)
    ensures KnowsFull(Exec(w, es), i, until)
    decreases |es|
  {
    hide KnowsFull, Apply;
    if es != [] {
      ClockNeverFalls(w, es);
      assert es[0] in es;
      StepKeepsFull(w, es[0], i, until);
      ExecKeepsFull(Apply(w, es[0]), es[1..], i, until);
    }
  }

  /**
   Once a process has finished a grant of nothing, then as long as its lease lasts,
   it does not crash and no click comes back to it, every click that arrives there or
   goes on there is rejected.
   */
  lemma AtLimitRejects(w: World, i: nat, period: nat, after: seq<Event>, attempt: nat)
    requires i < |w.instances| && w.instances[i].flight == Answered(Granted(0, period))
    requires forall e :: e in after ==> e != Crash(i) && !(e.Return? && e.i == i)
    requires Exec(Apply(w, Finish(i)), after).now < w.now + 5000
    ensures var v := Exec(Apply(w, Finish(i)), after);
      && i < |v.instances|
      && Admit(v.instances[i], v.now, v.period).1 == Rejected
      && Resume(v.instances[i], attempt, v.now, v.period).1 == Rejected
  {
    var u := Apply(w, Finish(i));
    assert KnowsFull(u, i, w.now + LEASE_TTL_MS);
    hide Apply, Exec;
    ExecKeepsFull(u, after, i, w.now + LEASE_TTL_MS);
  }

  /** Once such a lease has lapsed, the next click asks again. */
  lemma LapsedLeaseAsksAgain(a: Instance, now: nat, period: nat)
    requires a.unlimitedUntil <= now && a.lease.Some? && a.lease.value.expiresAt <= now
    ensures Admit(a, now, period).1 == Waits && !Admit(a, now, period).0.flight.Idle?
  {
  }

  /** A hand-back that gets through is taken off its month and off the list; one that fails is written off. */
  lemma HandBacksArrive(n: nat, quota: Option<nat>, es: seq<Event>, limit: nat, k: nat)
    requires NeverStraddles(Init(n, quota), es) && QuotaWithin(quota, limit) && QuotasWithin(es, limit)
    requires k < |Exec(Init(n, quota), es).releases|
    ensures var w := Exec(Init(n, quota), es);
      var r := w.releases[k];
      var back, lost := Apply(w, ReleaseCommits(k)), Apply(w, ReleaseFails(k));
      && Get(back.buckets, r.period) + r.amount == Get(w.buckets, r.period) && back.stranded == w.stranded
      && Get(lost.stranded, r.period) == Get(w.stranded, r.period) + r.amount && lost.buckets == w.buckets
      && back.releases == lost.releases == w.releases[..k] + w.releases[k + 1..]
  {
    UnitsAreConserved(n, quota, es, limit);
    hide Exec;
  }

  // ----- A tenant without a limit -----

  /** No lease is granted to the process, and it does not crash. */
  predicate StaysUnlimited(w: World, es: seq<Event>, i: nat)
    decreases |es|
  {
    es == [] || (!EndsUnlimited(w, es[0], i) && StaysUnlimited(Apply(w, es[0]), es[1..], i))
  }

  predicate EndsUnlimited(w: World, e: Event, i: nat) {
    || e == Crash(i)
    || (e == Finish(i) && i < |w.instances| && w.instances[i].flight.Answered? && w.instances[i].flight.answer.Granted?)
  }

  predicate UnlimitedUntil(w: World, i: nat, until: nat) {
    i < |w.instances| && w.instances[i].unlimitedUntil >= until
  }

  lemma LocalStepsKeepUnlimited(a: Instance, attempt: nat, now: nat, period: nat, self: nat)
    ensures Admit(a, now, period).0.unlimitedUntil == a.unlimitedUntil
    ensures Resume(a, attempt, now, period).0.unlimitedUntil == a.unlimitedUntil
    ensures DoneWaiting(a).unlimitedUntil == a.unlimitedUntil
    ensures Returned(a, period, self).0.unlimitedUntil == a.unlimitedUntil
    ensures a.unlimitedUntil > now ==> Swept(a, now, self).0.unlimitedUntil == a.unlimitedUntil
    ensures !(a.flight.Answered? && a.flight.answer.Granted?) && a.unlimitedUntil <= now + UNLIMITED_TTL_MS ==>
      Finished(a, now, period).unlimitedUntil >= a.unlimitedUntil
  {
  }

  /** No process takes itself to be unlimited for longer than one answer lasts. */
  ghost predicate UnlimitedSoon(w: World) {
    forall i :: 0 <= i < |w.instances| ==> w.instances[i].unlimitedUntil <= w.now + UNLIMITED_TTL_MS
  }

  lemma ClockOnly(w: World, e: Event)
    ensures w.now <= Apply(w, e).now
  {
    hide Admit, Resume, DoneWaiting, Finished, Returned, Swept, Reserve, Settled, WaitsAt, OwnStranded, OthersOf;
    hide FlightStranded, LeaseStranded, Told;
  }

  lemma {:induction false} ClockNeverFalls(w: World, es: seq<Event>)
    ensures w.now <= Exec(w, es).now
    decreases |es|
  {
    if es != [] {
      ClockOnly(w, es[0]);
      hide Apply;
      ClockNeverFalls(Apply(w, es[0]), es[1..]);
    }
  }

  lemma StepKeepsSoon(w: World, e: Event)
    requires UnlimitedSoon(w)
    ensures UnlimitedSoon(Apply(w, e))
  {
    OtherInstances(w, e);
    ClockOnly(w, e);
    if AtInstance(e) && e.i < |w.instances| { InstanceStaysSoon(w, e); }
    hide Apply;
  }

  lemma InstanceStaysSoon(w: World, e: Event)
    requires AtInstance(e) && e.i < |w.instances| && w.instances[e.i].unlimitedUntil <= w.now + UNLIMITED_TTL_MS
    ensures e.i < |Apply(w, e).instances| && Apply(w, e).instances[e.i].unlimitedUntil <= w.now + UNLIMITED_TTL_MS
  {
    var a := w.instances[e.i];
    LocalStepsKeepUnlimited(a, if e.Wake? && e.id in w.waiters then w.waiters[e.id].attempt else 0, w.now, w.period, e.i);
    hide Admit, Resume, DoneWaiting, Returned, Reserve, Settled, WaitsAt, OwnStranded, OthersOf, FlightStranded, LeaseStranded, Told;
  }

  lemma StepKeepsUnlimited(w: World, e: Event, i: nat, until: nat)
    requires UnlimitedUntil(w, i, until) && UnlimitedSoon(w) && !EndsUnlimited(w, e, i) && w.now < until
    ensures UnlimitedUntil(Apply(w, e), i, until)
  {
    var a := w.instances[i];
    OtherInstances(w, e);
    LocalStepsKeepUnlimited(a, if e.Wake? && e.id in w.waiters then w.waiters[e.id].attempt else 0, w.now, w.period, i);
    if AtInstance(e) && e.i == i {
      hide Admit, Resume, DoneWaiting, Finished, Returned, Swept, Reserve, Settled, WaitsAt, OwnStranded, OthersOf;
      hide FlightStranded, LeaseStranded, Told;
    } else {
      hide Apply;
    }
  }

  lemma {:induction false} ExecKeepsUnlimited(w: World, es: seq<Event>, i: nat, until: nat)
    requires UnlimitedUntil(w, i, until) && UnlimitedSoon(w) && StaysUnlimited(w, es, i) && Exec(w, es).now < until
    ensures UnlimitedUntil(Exec(w, es), i, until)
    decreases |es|
  {
    hide UnlimitedUntil, UnlimitedSoon, EndsUnlimited, Apply;
    if es != [] {
      ClockNeverFalls(w, es);
      StepKeepsUnlimited(w, es[0], i, until);
      StepKeepsSoon(w, es[0]);
      ExecKeepsUnlimited(Apply(w, es[0]), es[1..], i, until);
    }
  }

  lemma {:induction false} ExecKeepsSoon(w: World, es: seq<Event>)
    requires UnlimitedSoon(w)
    ensures UnlimitedSoon(Exec(w, es))
    decreases |es|
  {
    hide UnlimitedSoon, Apply;
    if es != [] {
      StepKeepsSoon(w, es[0]);
      ExecKeepsSoon(Apply(w, es[0]), es[1..]);
    }
  }

  /**
   In every run: for the time that an unlimited answer lasts, while the process is
   granted no lease and does not crash, every click that arrives there or goes on
   there is admitted without a unit.
   */
  lemma UnlimitedAdmits(n: nat, quota: Option<nat>, before: seq<Event>, i: nat, after: seq<Event>, attempt: nat)
    requires var w := Exec(Init(n, quota), before);
      && i < |w.instances| && w.instances[i].flight == Answered(Unlimited)
      && StaysUnlimited(Apply(w, Finish(i)), after, i)
      && Exec(Apply(w, Finish(i)), after).now < w.now + 5000
    ensures var v := Exec(Apply(Exec(Init(n, quota), before), Finish(i)), after);
      && i < |v.instances|
      && Admit(v.instances[i], v.now, v.period).1 == Unreserved
      && Resume(v.instances[i], attempt, v.now, v.period).1 == Unreserved
  {
    hide Exec, StaysUnlimited, Init;
    var w := Exec(Init(n, quota), before);
    ExecKeepsSoon(Init(n, quota), before) by { InitSoon(n, quota); }
    StepKeepsSoon(w, Finish(i));
    var u := Apply(w, Finish(i));
    assert UnlimitedUntil(u, i, w.now + UNLIMITED_TTL_MS);
    hide Apply;
    ExecKeepsUnlimited(u, after, i, w.now + UNLIMITED_TTL_MS);
    hide Acquiring, CanTake, DoneWaiting;
  }

  lemma InitSoon(n: nat, quota: Option<nat>)
    ensures UnlimitedSoon(Init(n, quota))
  {
  }

  predicate NoQuotaSet(es: seq<Event>) {
    forall e :: e in es ==> !e.SetQuota?
  }

  /** There is no quota, and no process holds or is about to hold a lease. */
  ghost predicate NoLeases(w: World) {
    w.quota.None? && forall i :: 0 <= i < |w.instances| ==> Leaseless(w.instances[i])
  }

  predicate Leaseless(a: Instance) {
    && a.lease.None?
    && (a.flight.Running? || a.flight.Failed? ==> a.flight.previous.None?)
    && (a.flight.Answered? ==> a.flight.answer.Unlimited?)
  }

  lemma StepKeepsLeaseless(w: World, e: Event)
    requires NoLeases(w) && !e.SetQuota?
    ensures NoLeases(Apply(w, e))
  {
    OtherInstances(w, e);
    QuotaOnly(w, e);
    if AtInstance(e) && e.i < |w.instances| {
      assert Leaseless(w.instances[e.i]);
      LocalStepsKeepLeaseless(w.instances[e.i], if e.Wake? && e.id in w.waiters then w.waiters[e.id].attempt else 0, w.now, w.period, e.i);
      InstanceStaysLeaseless(w, e);
    }
    hide Apply, Leaseless;
  }

  lemma LocalStepsKeepLeaseless(a: Instance, attempt: nat, now: nat, period: nat, self: nat)
    requires Leaseless(a)
    ensures Leaseless(Admit(a, now, period).0) && Leaseless(Resume(a, attempt, now, period).0)
    ensures Leaseless(DoneWaiting(a)) && Leaseless(Finished(a, now, period))
    ensures Leaseless(Returned(a, period, self).0) && Leaseless(Swept(a, now, self).0)
  {
  }

  lemma InstanceStaysLeaseless(w: World, e: Event)
    requires AtInstance(e) && e.i < |w.instances| && Leaseless(w.instances[e.i]) && w.quota.None?
    requires var a := w.instances[e.i];
      var attempt := if e.Wake? && e.id in w.waiters then w.waiters[e.id].attempt else 0;
      && Leaseless(Admit(a, w.now, w.period).0) && Leaseless(Resume(a, attempt, w.now, w.period).0)
      && Leaseless(DoneWaiting(a)) && Leaseless(Finished(a, w.now, w.period))
      && Leaseless(Returned(a, w.period, e.i).0) && Leaseless(Swept(a, w.now, e.i).0)
    ensures e.i < |Apply(w, e).instances| && Leaseless(Apply(w, e).instances[e.i])
  {
    hide Admit, Resume, DoneWaiting, Finished, Returned, Swept, Settled, OwnStranded, OthersOf;
    hide FlightStranded, LeaseStranded, Told, AfterRelease;
  }

  lemma QuotaOnly(w: World, e: Event)
    requires !e.SetQuota?
    ensures Apply(w, e).quota == w.quota
  {
    hide Admit, Resume, DoneWaiting, Finished, Returned, Swept, Reserve, Settled, WaitsAt, OwnStranded, OthersOf;
    hide FlightStranded, LeaseStranded, Told;
  }

  lemma {:induction false} ExecKeepsLeaseless(w: World, es: seq<Event>)
    requires NoLeases(w) && NoQuotaSet(es)
    ensures NoLeases(Exec(w, es))
    decreases |es|
  {
    hide NoLeases, Apply;
    if es != [] {
      assert es[0] in es;
      StepKeepsLeaseless(w, es[0]);
      ExecKeepsLeaseless(Apply(w, es[0]), es[1..]);
    }
  }

  /** Without a quota, a click that goes on the moment its acquisition is finished is admitted, at whatever attempt. */
  lemma NoQuotaAdmits(n: nat, es: seq<Event>, i: nat, attempt: nat)
    requires NoQuotaSet(es)
    requires var w := Exec(Init(n, None), es); i < |w.instances| && w.instances[i].flight.Answered?
    ensures var v := Apply(Exec(Init(n, None), es), Finish(i));
      i < |v.instances| && Resume(v.instances[i], attempt, v.now, v.period).1 == Unreserved
  {
    ExecKeepsLeaseless(Init(n, None), es);
    var w := Exec(Init(n, None), es);
    assert Leaseless(w.instances[i]);
    assert StaysUnlimited(Apply(w, Finish(i)), [], i);
    assert Exec(Apply(w, Finish(i)), []) == Apply(w, Finish(i));
    hide Exec, StaysUnlimited;
    UnlimitedAdmits(n, None, es, i, [], attempt);
  }

  // ----- What a crash can lose -----

  function LeaseSize(lease: Option<Lease>): nat {
    if lease.Some? then lease.value.remaining else 0
  }

  function Holding(a: Instance): nat {
    LeaseSize(a.lease) + match a.flight
      case Running(previous, _) => LeaseSize(previous)
      case Failed(previous) => LeaseSize(previous)
      case Answered(Granted(units, _)) => units
      case _ => 0
  }

  /** Units a process has taken out of its lease and is still handing back. */
  function PendingOf(releases: seq<HandBack>, i: nat): nat {
    if releases == [] then 0
    else
      var last := releases[|releases| - 1];
      PendingOf(releases[..|releases| - 1], i) + if last.owner == i then last.amount else 0
  }

  /** What a crash of process `i` would lose, over all months. */
  function Outstanding(w: World, i: nat): nat
    requires i < |w.instances|
  {
    Holding(w.instances[i]) + PendingOf(w.releases, i)
  }

  predicate OneLease(w: World, i: nat)
    requires i < |w.instances|
  {
    Detached(w.instances[i]) && Outstanding(w, i) <= MAX_LEASE_UNITS
  }

  ghost predicate OneLeaseEach(w: World) {
    forall i :: 0 <= i < |w.instances| ==> OneLease(w, i)
  }

  function GrantAt(w: World, i: nat): nat
    requires i < |w.instances| && w.instances[i].flight.Running?
  {
    var f := w.instances[i].flight;
    if w.quota.None? then 0 else Grant(w.quota.value, Get(AfterRelease(w.buckets, f.previous), w.period), f.demand)
  }

  /**
   A click is handed back to a process that has 25 units out already, or a process
   is granted more than it may have beside what it is still handing back.
   */
  predicate Overfills(w: World, e: Event) {
    match e
    case Return(i, p) => i < |w.instances| && Get(w.spent, p) > 0 && Outstanding(w, i) == MAX_LEASE_UNITS
    case Commit(i) =>
      && i < |w.instances| && w.instances[i].flight.Running?
      && GrantAt(w, i) + PendingOf(w.releases, i) > MAX_LEASE_UNITS
    case _ => false
  }

  lemma {:induction false} PendingConcat(s: seq<HandBack>, t: seq<HandBack>, i: nat)
    ensures PendingOf(s + t, i) == PendingOf(s, i) + PendingOf(t, i)
  {
    if t == [] {
      assert s + t == s;
    } else {
      assert (s + t)[..|s + t| - 1] == s + t[..|t| - 1];
      PendingConcat(s, t[..|t| - 1], i);
    }
  }

  lemma PendingOne(r: HandBack, i: nat)
    ensures PendingOf([r], i) == if r.owner == i then r.amount else 0
  {
    assert [r][..0] == [];
  }

  lemma PendingWithout(s: seq<HandBack>, k: nat, i: nat)
    requires k < |s|
    ensures PendingOf(Without(s, k), i) <= PendingOf(s, i)
  {
    assert s == s[..k] + ([s[k]] + s[k + 1..]);
    PendingConcat(s[..k], [s[k]] + s[k + 1..], i);
    PendingConcat([s[k]], s[k + 1..], i);
    PendingConcat(s[..k], s[k + 1..], i);
  }

  lemma {:induction false} PendingOthers(s: seq<HandBack>, i: nat, j: nat)
    ensures PendingOf(OthersOf(s, i), j) == if j == i then 0 else PendingOf(s, j)
  {
    if s != [] {
      var init, last := s[..|s| - 1], s[|s| - 1];
      PendingOthers(init, i, j);
      if last.owner == i {
        assert OthersOf(init, i) + [] == OthersOf(init, i);
      } else {
        PendingConcat(OthersOf(init, i), [last], j);
        PendingOne(last, j);
      }
    }
  }

  /** What one step does to what its own process has out. */
  lemma OutstandingStep(w: World, e: Event)
    requires AtInstance(e) && e.i < |w.instances| && OneLease(w, e.i)
    ensures |Apply(w, e).instances| == |w.instances|
    ensures OneLease(Apply(w, e), e.i) <==> !Overfills(w, e)
  {
    if e.Return? {
      ReturnStep(w, e);
    } else if e.Commit? {
      hide Grant, PendingOf, Get, AfterRelease;
    } else {
      assert !Overfills(w, e);
      hide Overfills, Apply, OneLease;
      if e.Sweep? {
        SweepStep(w, e);
      } else if e.Crash? {
        CrashStep(w, e);
      } else {
        MovingStep(w, e);
      }
    }
  }

  lemma ReturnStep(w: World, e: Event)
    requires e.Return? && e.i < |w.instances| && OneLease(w, e.i)
    ensures |Apply(w, e).instances| == |w.instances|
    ensures OneLease(Apply(w, e), e.i) <==> !Overfills(w, e)
  {
    hide PendingOf, Get, Minus;
    PendingConcat(w.releases, Returned(w.instances[e.i], w.period, e.i).1, e.i);
    PendingOne(HandBack(e.i, w.period, 1), e.i);
    PendingNone(e.i);
  }

  lemma SweepStep(w: World, e: Event)
    requires e.Sweep? && e.i < |w.instances| && OneLease(w, e.i)
    ensures |Apply(w, e).instances| == |w.instances| && OneLease(Apply(w, e), e.i)
  {
    hide PendingOf;
    var a := w.instances[e.i];
    PendingConcat(w.releases, Swept(a, w.now, e.i).1, e.i);
    if a.lease.Some? { PendingOne(HandBack(e.i, a.lease.value.periodKey, a.lease.value.remaining), e.i); }
    PendingNone(e.i);
  }

  lemma CrashStep(w: World, e: Event)
    requires e.Crash? && e.i < |w.instances|
    ensures |Apply(w, e).instances| == |w.instances| && OneLease(Apply(w, e), e.i)
  {
    hide PendingOf, OthersOf, OwnStranded, FlightStranded, LeaseStranded;
    PendingOthers(w.releases, e.i, e.i);
  }

  /** Admitting, waiting, giving up a transaction and resuming only move units within a process, or spend one. */
  lemma MovingStep(w: World, e: Event)
    requires e.Arrive? || e.Wake? || e.Throw? || e.Abort? || e.Finish?
    requires e.i < |w.instances| && OneLease(w, e.i)
    ensures |Apply(w, e).instances| == |w.instances| && OneLease(Apply(w, e), e.i)
  {
    hide PendingOf, Get, Settled, WaitsAt;
  }

  lemma PendingNone(i: nat)
    ensures PendingOf([], i) == 0
  {
  }

  lemma OutstandingElsewhere(w: World, e: Event, j: nat)
    requires j < |w.instances| && (AtInstance(e) ==> e.i != j) && OneLease(w, j)
    ensures |Apply(w, e).instances| == |w.instances|
    ensures OneLease(Apply(w, e), j)
  {
    hide Grant, PendingOf, OthersOf, OwnStranded, Get, FlightStranded, LeaseStranded, AfterRelease, Reserve, Without;
    if AtInstance(e) && e.i < |w.instances| {
      var i, a := e.i, w.instances[e.i];
      match e
      case Return(_, _) =>
        PendingConcat(w.releases, Returned(a, w.period, i).1, j);
        PendingOne(HandBack(i, w.period, 1), j);
        PendingNone(j);
      case Sweep(_) =>
        PendingConcat(w.releases, Swept(a, w.now, i).1, j);
        if a.lease.Some? { PendingOne(HandBack(i, a.lease.value.periodKey, a.lease.value.remaining), j); }
        PendingNone(j);
      case Crash(_) => PendingOthers(w.releases, i, j);
      case _ =>
    } else if e.ReleaseCommits? && e.k < |w.releases| {
      PendingWithout(w.releases, e.k, j);
    } else if e.ReleaseFails? && e.k < |w.releases| {
      PendingWithout(w.releases, e.k, j);
    }
  }

  /** A step leaves every process with at most one lease's worth of units out exactly when it does not overfill. */
  lemma OneLeaseExactly(w: World, e: Event)
    requires OneLeaseEach(w)
    ensures OneLeaseEach(Apply(w, e)) <==> !Overfills(w, e)
  {
    hide OneLease, Apply;
    var v := Apply(w, e);
    if AtInstance(e) && e.i < |w.instances| { OutstandingStep(w, e); } else { OverfillsSomewhere(w, e); }
    forall j | 0 <= j < |w.instances| && (AtInstance(e) ==> e.i != j)
      ensures |v.instances| == |w.instances| && OneLease(v, j)
    {
      OutstandingElsewhere(w, e, j);
    }
    NoInstances(w, e);
  }

  lemma OverfillsSomewhere(w: World, e: Event)
    requires !(AtInstance(e) && e.i < |w.instances|)
    ensures !Overfills(w, e)
  {
  }

  lemma NoInstances(w: World, e: Event)
    ensures |Apply(w, e).instances| == |w.instances|
  {
    hide Reserve, Admit, Resume, Returned, Swept, Finished, OthersOf, OwnStranded, FlightStranded, LeaseStranded;
  }

  predicate NeverOverfills(w: World, es: seq<Event>)
    decreases |es|
  {
    es == [] || (!Overfills(w, es[0]) && NeverOverfills(Apply(w, es[0]), es[1..]))
  }

  lemma {:induction false} ExecKeepsOneLease(w: World, es: seq<Event>)
    requires OneLeaseEach(w) && NeverOverfills(w, es)
    ensures OneLeaseEach(Exec(w, es))
    decreases |es|
  {
    hide OneLeaseEach, Apply, Overfills;
    if es != [] {
      OneLeaseExactly(w, es[0]);
      ExecKeepsOneLease(Apply(w, es[0]), es[1..]);
    }
  }

  /** What a crash adds to a month's lost units is what the process held, was granted or was handing back there. */
  lemma CrashStrandsExactly(w: World, i: nat, p: nat)
    requires i < |w.instances|
    ensures Get(Apply(w, Crash(i)).stranded, p) + ReleaseUnits(OthersOf(w.releases, i), p) ==
      Get(w.stranded, p) + Units(w.instances[i], p) + ReleaseUnits(w.releases, p)
  {
    var a := w.instances[i];
    CrashStrandsUnits(w.stranded, a, p);
    OwnOrOthers(FlightStranded(LeaseStranded(w.stranded, a.lease), a.flight), w.releases, i, p);
    hide FlightStranded, LeaseStranded, OwnStranded, OthersOf, ReleaseUnits, Units;
  }

  lemma {:induction false} OwnUnitsAtMost(releases: seq<HandBack>, i: nat, p: nat)
    ensures ReleaseUnits(releases, p) <= ReleaseUnits(OthersOf(releases, i), p) + PendingOf(releases, i)
  {
    if releases != [] {
      var init, last := releases[..|releases| - 1], releases[|releases| - 1];
      OwnUnitsAtMost(init, i, p);
      if last.owner == i {
        assert OthersOf(init, i) + [] == OthersOf(init, i);
      } else {
        ReleaseUnitsConcat(OthersOf(init, i), [last], p);
        ReleaseUnitsOne(last, p);
      }
    }
  }

  /**
   In a run no step of which overfills, no process ever has more than 25 units out
   in its lease, its open transaction and its open hand-backs together, so a crash
   loses at most 25 in any month.
   */
  lemma CrashLosesOneLease(n: nat, quota: Option<nat>, es: seq<Event>, i: nat, p: nat)
    requires i < |Exec(Init(n, quota), es).instances| && NeverOverfills(Init(n, quota), es)
    ensures var w := Exec(Init(n, quota), es);
      && Outstanding(w, i) <= MAX_LEASE_UNITS
      && Get(Apply(w, Crash(i)).stranded, p) <= Get(w.stranded, p) + Outstanding(w, i)
  {
    hide Apply, Exec, NeverOverfills;
    ExecKeepsOneLease(Init(n, quota), es);
    var w := Exec(Init(n, quota), es);
    assert OneLease(w, i);
    CrashStrandsExactly(w, i, p);
    OwnUnitsAtMost(w.releases, i, p);
    hide ReleaseUnits, OthersOf, PendingOf;
  }

  /** No click comes back, and no lease is granted to a process that is still handing units back. */
  predicate Plain(w: World, e: Event) {
    !e.Return? && (e.Commit? ==> PendingOf(w.releases, e.i) == 0)
  }

  predicate AlwaysPlain(w: World, es: seq<Event>)
    decreases |es|
  {
    es == [] || (Plain(w, es[0]) && AlwaysPlain(Apply(w, es[0]), es[1..]))
  }

  lemma PlainStepsDoNotOverfill(w: World, e: Event)
    requires Plain(w, e)
    ensures !Overfills(w, e)
  {
    if e.Commit? && e.i < |w.instances| && w.instances[e.i].flight.Running? && w.quota.Some? {
      var f := w.instances[e.i].flight;
      GrantIsExact(w.quota.value, Get(AfterRelease(w.buckets, f.previous), w.period), f.demand);
    }
    hide Grant;
  }

  lemma {:induction false} PlainRunsDoNotOverfill(w: World, es: seq<Event>)
    requires AlwaysPlain(w, es)
    ensures NeverOverfills(w, es)
    decreases |es|
  {
    hide Apply, Overfills, Plain;
    if es != [] {
      PlainStepsDoNotOverfill(w, es[0]);
      PlainRunsDoNotOverfill(Apply(w, es[0]), es[1..]);
    }
  }

  /** In such a run a crash at any point loses at most one lease. */
  lemma PlainRunsLoseOneLease(n: nat, quota: Option<nat>, es: seq<Event>, i: nat, p: nat)
    requires i < |Exec(Init(n, quota), es).instances| && AlwaysPlain(Init(n, quota), es)
    ensures var w := Exec(Init(n, quota), es);
      Get(Apply(w, Crash(i)).stranded, p) <= Get(w.stranded, p) + MAX_LEASE_UNITS
  {
    hide Apply, Exec, AlwaysPlain, NeverOverfills;
    PlainRunsDoNotOverfill(Init(n, quota), es);
    CrashLosesOneLease(n, quota, es, i, p);
  }

  // ----- How much is asked for -----

  function WaitingAt(waiters: map<nat, Waiter>, i: nat): set<nat> {
    set id | id in waiters && waiters[id].instance == i
  }

  /** Each process has counted the admissions that wait in it. */
  ghost predicate WaitingCounted(w: World) {
    && (forall id :: id in w.waiters ==> w.waiters[id].instance < |w.instances|)
    && (forall i :: 0 <= i < |w.instances| ==> w.instances[i].waiting == |WaitingAt(w.waiters, i)|)
  }

  lemma OneMoreWaits(waiters: map<nat, Waiter>, id: nat, x: Waiter, i: nat)
    ensures WaitingAt(waiters[id := x], i) == if x.instance == i then WaitingAt(waiters, i) + {id} else WaitingAt(waiters, i) - {id}
  {
  }

  lemma OneLessWaits(waiters: map<nat, Waiter>, id: nat, i: nat)
    ensures WaitingAt(waiters - {id}, i) == WaitingAt(waiters, i) - {id}
  {
  }

  lemma ToldWait(waiters: map<nat, Waiter>, j: nat, flight: Flight, i: nat)
    ensures WaitingAt(Told(waiters, j, flight), i) == WaitingAt(waiters, i)
  {
  }

  /** How many wait after one local step, by its verdict. */
  lemma WaitingSteps(a: Instance, attempt: nat, now: nat, period: nat, self: nat)
    ensures Admit(a, now, period).0.waiting == a.waiting + if Admit(a, now, period).1.Waits? then 1 else 0
    ensures a.waiting > 0 ==> Resume(a, attempt, now, period).0.waiting == a.waiting - if Resume(a, attempt, now, period).1.Waits? then 0 else 1
    ensures a.waiting > 0 ==> DoneWaiting(a).waiting == a.waiting - 1
    ensures Finished(a, now, period).waiting == a.waiting
    ensures Returned(a, period, self).0.waiting == a.waiting && Swept(a, now, self).0.waiting == a.waiting
  {
  }

  lemma SettledWait(waiters: map<nat, Waiter>, i: nat, id: nat, attempt: nat, verdict: Verdict)
    ensures WaitingAt(Settled(waiters, i, id, attempt, verdict), i) ==
      if verdict.Waits? then WaitingAt(waiters, i) + {id} else WaitingAt(waiters, i) - {id}
  {
    OneMoreWaits(waiters, id, Waiter(i, attempt, Pending), i);
    OneLessWaits(waiters, id, i);
    hide WaitingAt;
  }

  lemma ArriveCounted(w: World, i: nat, id: nat)
    requires WaitingCounted(w) && i < |w.instances|
    ensures var v := Apply(w, Arrive(i, id)); i < |v.instances| && v.instances[i].waiting == |WaitingAt(v.waiters, i)|
  {
    var step := Admit(w.instances[i], w.now, w.period);
    WaitingSteps(w.instances[i], 0, w.now, w.period, i);
    SettledWait(w.waiters, i, id, 0, step.1);
    var at := WaitingAt(w.waiters, i);
    if id !in w.waiters { assert id !in at && at - {id} == at && |at + {id}| == |at| + 1; }
    hide Admit, WaitingAt, Settled;
  }

  lemma WakeCounted(w: World, i: nat, id: nat)
    requires WaitingCounted(w) && i < |w.instances|
    ensures var v := Apply(w, Wake(i, id)); i < |v.instances| && v.instances[i].waiting == |WaitingAt(v.waiters, i)|
  {
    var at := WaitingAt(w.waiters, i);
    if WaitsAt(w, i, id, Acquired) {
      var attempt := w.waiters[id].attempt;
      WaitingSteps(w.instances[i], attempt, w.now, w.period, i);
      SettledWait(w.waiters, i, id, attempt + 1, Resume(w.instances[i], attempt, w.now, w.period).1);
      assert id in at && at + {id} == at && |at - {id}| == |at| - 1;
    }
    hide Resume, WaitingAt, Settled;
  }

  lemma ThrowCounted(w: World, i: nat, id: nat)
    requires WaitingCounted(w) && i < |w.instances|
    ensures var v := Apply(w, Throw(i, id)); i < |v.instances| && v.instances[i].waiting == |WaitingAt(v.waiters, i)|
  {
    var at := WaitingAt(w.waiters, i);
    if WaitsAt(w, i, id, Thrown) {
      OneLessWaits(w.waiters, id, i);
      assert id in at && |at - {id}| == |at| - 1;
    }
    hide WaitingAt;
  }

  lemma OwnWaitingCounted(w: World, e: Event)
    requires WaitingCounted(w) && AtInstance(e) && e.i < |w.instances|
    ensures e.i < |Apply(w, e).instances| && Apply(w, e).instances[e.i].waiting == |WaitingAt(Apply(w, e).waiters, e.i)|
  {
    if e.Arrive? {
      ArriveCounted(w, e.i, e.id);
    } else if e.Wake? {
      WakeCounted(w, e.i, e.id);
    } else if e.Throw? {
      ThrowCounted(w, e.i, e.id);
    } else {
      QuietCounted(w, e);
    }
    hide Apply, WaitingAt, WaitingCounted;
  }

  lemma QuietCounted(w: World, e: Event)
    requires WaitingCounted(w) && AtInstance(e) && e.i < |w.instances| && !e.Arrive? && !e.Wake? && !e.Throw?
    ensures e.i < |Apply(w, e).instances| && Apply(w, e).instances[e.i].waiting == |WaitingAt(Apply(w, e).waiters, e.i)|
  {
    var a := w.instances[e.i];
    WaitingSteps(a, 0, w.now, w.period, e.i);
    ToldWait(w.waiters, e.i, a.flight, e.i);
    NobodyAfterCrash(w, e.i);
    hide Finished, Returned, Swept, Reserve, OwnStranded, OthersOf, FlightStranded, LeaseStranded, Told, WaitingAt;
  }

  lemma NobodyAfterCrash(w: World, i: nat)
    requires i < |w.instances|
    ensures WaitingAt(Crashed(w, i).waiters, i) == {}
  {
  }

  lemma OthersWaitAsBefore(w: World, e: Event, i: nat)
    requires WaitingCounted(w) && i < |w.instances| && (AtInstance(e) ==> e.i != i)
    ensures WaitingAt(Apply(w, e).waiters, i) == WaitingAt(w.waiters, i)
  {
    hide Admit, Resume, DoneWaiting, Finished, Returned, Swept, Reserve, OwnStranded, OthersOf, FlightStranded, LeaseStranded;
    hide Plus, Minus, Get, Without;
  }

  lemma WaitersStaySomewhere(w: World, e: Event)
    requires WaitingCounted(w)
    ensures forall id :: id in Apply(w, e).waiters ==> Apply(w, e).waiters[id].instance < |w.instances|
  {
    hide Admit, Resume, DoneWaiting, Finished, Returned, Swept, Reserve, OwnStranded, OthersOf, FlightStranded, LeaseStranded;
    hide Plus, Minus, Get, Without;
  }

  lemma StepKeepsCounted(w: World, e: Event)
    requires WaitingCounted(w)
    ensures WaitingCounted(Apply(w, e))
  {
    OtherInstances(w, e);
    WaitersStaySomewhere(w, e);
    var v := Apply(w, e);
    forall i | 0 <= i < |v.instances| ensures v.instances[i].waiting == |WaitingAt(v.waiters, i)| {
      if AtInstance(e) && e.i == i { OwnWaitingCounted(w, e); } else { OthersWaitAsBefore(w, e, i); }
      hide WaitingAt, Apply;
    }
    hide Apply, WaitingAt;
  }

  lemma {:induction false} ExecKeepsCounted(w: World, es: seq<Event>)
    requires WaitingCounted(w)
    ensures WaitingCounted(Exec(w, es))
    decreases |es|
  {
    hide WaitingCounted, Apply;
    if es != [] {
      StepKeepsCounted(w, es[0]);
      ExecKeepsCounted(Apply(w, es[0]), es[1..]);
    }
  }

  /**
   In every run: a click that has to wait where no transaction is open opens one that
   hands the old lease back and asks for as many units as clicks wait there.
   */
  lemma AsksForAllThatWait(n: nat, quota: Option<nat>, es: seq<Event>, i: nat, id: nat)
    requires var w := Exec(Init(n, quota), es);
      && i < |w.instances| && w.instances[i].flight.Idle? && id !in w.waiters
      && Admit(w.instances[i], w.now, w.period).1.Waits?
    ensures var w := Exec(Init(n, quota), es);
      var v := Apply(w, Arrive(i, id));
      && i < |v.instances| && v.instances[i].lease.None?
      && v.instances[i].flight == Running(w.instances[i].lease, |WaitingAt(v.waiters, i)|)
  {
    hide Exec;
    var w := Exec(Init(n, quota), es);
    ExecKeepsCounted(Init(n, quota), es) by { NobodyWaitsYet(n, quota); }
    StepKeepsCounted(w, Arrive(i, id));
    hide WaitingAt, CanTake;
  }

  lemma NobodyWaitsYet(n: nat, quota: Option<nat>)
    ensures WaitingCounted(Init(n, quota))
  {
  }
}
