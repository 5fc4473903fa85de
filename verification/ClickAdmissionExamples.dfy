/**
 Runs in which click admission (src/lib/click-admission.ts) does not do what its
 comments promise.

 A click is handed back into a lease that is still full, because the lease it was
 taken from had expired and been replaced: one process then holds 26 units.  An
 expired lease is swept and, before its hand-back is through, replaced: a crash
 then loses 49.  The month changes between the transaction that grants a unit and
 the line that dates its lease: two clicks are admitted in a month whose quota is
 one.  A click that wakes too late after each of 50 renewals is turned away though
 nothing was ever spent.  Each run is cut into short pieces, and the state after
 each piece is written out.
 */
module ClickAdmissionExamples {
  import opened Prelude
  import opened ClickAdmission

  function Thrice(w: World, a: Event, b: Event, c: Event): World {
    Apply(Apply(Apply(w, a), b), c)
  }

  predicate ThriceStraddles(w: World, a: Event, b: Event, c: Event) {
    Straddles(w, a) || Straddles(Apply(w, a), b) || Straddles(Apply(Apply(w, a), b), c)
  }

  lemma ExecCons(w: World, e: Event, es: seq<Event>)
    ensures Exec(w, [e] + es) == Exec(Apply(w, e), es)
    ensures NeverStraddles(w, [e] + es) <==> !Straddles(w, e) && NeverStraddles(Apply(w, e), es)
  {
    assert ([e] + es)[1..] == es;
  }

  lemma ExecThree(w: World, a: Event, b: Event, c: Event, es: seq<Event>)
    ensures Exec(w, [a, b, c] + es) == Exec(Thrice(w, a, b, c), es)
    ensures NeverStraddles(w, [a, b, c] + es) <==> !ThriceStraddles(w, a, b, c) && NeverStraddles(Thrice(w, a, b, c), es)
  {
    hide Apply, Straddles;
    ExecCons(w, a, [b, c] + es);
    ExecCons(Apply(w, a), b, [c] + es);
    ExecCons(Apply(Apply(w, a), b), c, es);
    assert [a] + ([b, c] + es) == [a, b, c] + es;
    assert [b] + ([c] + es) == [b, c] + es;
  }

  /** What one lone instance looks like once its first lease is there. */
  function Leased(quota: nat, units: nat): World {
    World(0, 0, Some(quota), map[0 := units], [Instance(Some(Lease(0, units, 5000, false)), 0, Idle, 1)], [],
      map[], map[], map[], map[0 := Waiter(0, 0, Acquired)])
  }

  lemma FirstLease(quota: nat)
    requires quota > 0
    ensures var units := Grant(quota, 0, 1);
      && Thrice(Init(1, Some(quota)), Arrive(0, 0), Commit(0), Finish(0)) == Leased(quota, units)
      && !ThriceStraddles(Init(1, Some(quota)), Arrive(0, 0), Commit(0), Finish(0))
  {
    GrantIsExact(quota, 0, 1);
    hide Grant;
    var w1 := Apply(Init(1, Some(quota)), Arrive(0, 0));
    assert w1.instances == [Instance(None, 0, Running(None, 1), 1)];
    var w2 := Apply(w1, Commit(0));
    assert w2.instances == [Instance(None, 0, Answered(Granted(Grant(quota, 0, 1), 0)), 1)];
  }

  /** A lone instance with an expired lease of 24 units that has admitted one click. */
  const RENEWING := World(6000, 0, Some(1000), map[0 := 25],
    [Instance(None, 0, Running(Some(Lease(0, 24, 5000, false)), 1), 1)], [], map[0 := 1], map[], map[], map[1 := Waiter(0, 0, Pending)])

  lemma RenewsLease()
    ensures Thrice(Leased(1000, 25), Wake(0, 0), Tick(6000, 0), Arrive(0, 1)) == RENEWING
    ensures !ThriceStraddles(Leased(1000, 25), Wake(0, 0), Tick(6000, 0), Arrive(0, 1))
  {
    var w1 := Apply(Leased(1000, 25), Wake(0, 0));
    assert w1.instances == [Instance(Some(Lease(0, 24, 5000, false)), 0, Idle, 0)];
  }

  const OVERFULL := Instance(Some(Lease(0, MAX_LEASE_UNITS + 1, 11000, false)), 0, Idle, 1)

  lemma ReturnsToFullLease()
    ensures Thrice(RENEWING, Commit(0), Finish(0), Return(0, 0)).instances == [OVERFULL]
    ensures !ThriceStraddles(RENEWING, Commit(0), Finish(0), Return(0, 0))
  {
    var w1 := Apply(RENEWING, Commit(0));
    assert w1.instances == [Instance(None, 0, Answered(Granted(25, 0)), 1)];
    var w2 := Apply(w1, Finish(0));
    assert w2.instances == [Instance(Some(Lease(0, 25, 11000, false)), 0, Idle, 1)];
  }

  lemma RenewingRun()
    ensures exists es :: NeverStraddles(RENEWING, es) && OVERFULL in Exec(RENEWING, es).instances
  {
    ReturnsToFullLease();
    var w9 := Thrice(RENEWING, Commit(0), Finish(0), Return(0, 0));
    assert Exec(w9, []) == w9 && NeverStraddles(w9, []);
    hide Exec, NeverStraddles, Thrice, ThriceStraddles;
    ExecThree(RENEWING, Commit(0), Finish(0), Return(0, 0), []);
  }

  lemma LeasedRun()
    ensures exists es :: NeverStraddles(Leased(1000, 25), es) && OVERFULL in Exec(Leased(1000, 25), es).instances
  {
    RenewsLease();
    RenewingRun();
    hide Exec, NeverStraddles, Thrice, ThriceStraddles, Leased;
    var es :| NeverStraddles(RENEWING, es) && OVERFULL in Exec(RENEWING, es).instances;
    ExecThree(Leased(1000, 25), Wake(0, 0), Tick(6000, 0), Arrive(0, 1), es);
  }

  /** With returns a process can hold more than one lease: a click admitted from an earlier lease comes back into a full one. */
  lemma ReturnsCanFillALeaseBeyondItsSize()
    ensures exists es, quota ::
              NeverStraddles(Init(1, quota), es) && OVERFULL in Exec(Init(1, quota), es).instances
  {
    FirstLease(1000);
    LeasedRun();
    hide Exec, NeverStraddles, Thrice, ThriceStraddles, Init, Leased;
    var es :| NeverStraddles(Leased(1000, 25), es) && OVERFULL in Exec(Leased(1000, 25), es).instances;
    ExecThree(Init(1, Some(1000)), Arrive(0, 0), Commit(0), Finish(0), es);
  }

  // ----- A lease that is swept and replaced -----

  /** The expired lease is on its way back to the database. */
  const SWEPT := World(6000, 0, Some(1000), map[0 := 25], [Instance(None, 0, Idle, 0)], [HandBack(0, 0, 24)],
    map[0 := 1], map[], map[], map[])

  /** Its successor is there, and it still is. */
  const REPLACED := World(6000, 0, Some(1000), map[0 := 50], [Instance(Some(Lease(0, 25, 11000, false)), 0, Idle, 1)],
    [HandBack(0, 0, 24)], map[0 := 1], map[], map[], map[1 := Waiter(0, 0, Acquired)])

  lemma SweepsLease()
    ensures Thrice(Leased(1000, 25), Wake(0, 0), Tick(6000, 0), Sweep(0)) == SWEPT
    ensures !ThriceStraddles(Leased(1000, 25), Wake(0, 0), Tick(6000, 0), Sweep(0))
  {
    WakeTakes(Leased(1000, 25), 0);
    var w1 := Apply(Leased(1000, 25), Wake(0, 0));
    assert w1.instances == [Instance(Some(Lease(0, 24, 5000, false)), 0, Idle, 0)] && w1.waiters == map[];
    assert w1.spent == map[0 := 1];
    hide Resume, Admit, Reserve, Finished;
    var w2 := Apply(w1, Tick(6000, 0));
    assert Swept(w2.instances[0], 6000, 0).1 == [HandBack(0, 0, 24)];
  }

  lemma ReplacesLease()
    ensures Thrice(SWEPT, Arrive(0, 1), Commit(0), Finish(0)) == REPLACED
    ensures !ThriceStraddles(SWEPT, Arrive(0, 1), Commit(0), Finish(0))
  {
    var w1 := Apply(SWEPT, Arrive(0, 1));
    assert w1 == SWEPT.(instances := [Instance(None, 0, Running(None, 1), 1)], waiters := map[1 := Waiter(0, 0, Pending)]);
    assert Grant(1000, 25, 1) == 25;
    var w2 := Apply(w1, Commit(0));
    assert w2.instances == [Instance(None, 0, Answered(Granted(25, 0)), 1)] && w2.buckets == map[0 := 50];
  }

  lemma LosesBoth()
    ensures Get(Apply(REPLACED, Crash(0)).stranded, 0) == 49 && !Straddles(REPLACED, Crash(0))
  {
    assert [HandBack(0, 0, 24)][..0] == [];
    assert OwnStranded(map[0 := 25], [HandBack(0, 0, 24)], 0) == map[0 := 49];
  }

  predicate NoReturns(es: seq<Event>) {
    forall e :: e in es ==> !e.Return?
  }

  /** A run with no click handed back, inside one month, that ends with 49 units lost. */
  ghost predicate Loses49(w: World) {
    exists es :: NoReturns(es) && NeverStraddles(w, es) && Get(Exec(w, es).stranded, 0) == 49
  }

  lemma CrashingRun()
    ensures Loses49(REPLACED)
  {
    LosesBoth();
    var w := Apply(REPLACED, Crash(0));
    var none: seq<Event> := [];
    assert Exec(w, none) == w && NeverStraddles(w, none);
    hide Exec, NeverStraddles, Apply;
    ExecCons(REPLACED, Crash(0), none);
    assert NoReturns([Crash(0)] + none);
  }

  lemma EarlierLoses(w: World, a: Event, b: Event, c: Event)
    requires !a.Return? && !b.Return? && !c.Return? && !ThriceStraddles(w, a, b, c) && Loses49(Thrice(w, a, b, c))
    ensures Loses49(w)
  {
    hide Exec, NeverStraddles, Thrice, ThriceStraddles, Get;
    var es :| NoReturns(es) && NeverStraddles(Thrice(w, a, b, c), es) && Get(Exec(Thrice(w, a, b, c), es).stranded, 0) == 49;
    ExecThree(w, a, b, c, es);
    assert NoReturns([a, b, c] + es);
  }

  /** No click comes back in this run, and a crash loses 49 units: a swept lease and the one that replaced it. */
  lemma SweptLeaseIsLostToo()
    ensures exists es :: NoReturns(es) && NeverStraddles(Init(1, Some(1000)), es)
              && Get(Exec(Init(1, Some(1000)), es).stranded, 0) == 49
  {
    FirstLease(1000);
    SweepsLease();
    ReplacesLease();
    CrashingRun();
    hide Loses49, Thrice, ThriceStraddles, Init, Leased;
    EarlierLoses(SWEPT, Arrive(0, 1), Commit(0), Finish(0));
    EarlierLoses(Leased(1000, 25), Wake(0, 0), Tick(6000, 0), Sweep(0));
    EarlierLoses(Init(1, Some(1000)), Arrive(0, 0), Commit(0), Finish(0));
    Lost49Means(Init(1, Some(1000)));
  }

  lemma Lost49Means(w: World)
    requires Loses49(w)
    ensures exists es :: NoReturns(es) && NeverStraddles(w, es) && Get(Exec(w, es).stranded, 0) == 49
  {
  }

  // ----- Fifty renewals -----

  /** A lone click is at attempt `k`, and each lease so far had expired when it woke. */
  function Round(k: nat): World {
    var previous := if k == 0 then None else Some(Lease(0, 25, 6000 * k - 1000, false));
    World(6000 * k, 0, Some(1000), if k == 0 then map[] else map[0 := 25],
      [Instance(None, 0, Running(previous, 1), 1)], [], map[], map[], map[], map[0 := Waiter(0, k, Pending)])
  }

  /** Its lease is granted, dated and expired before the click wakes. */
  function Expired(k: nat): World {
    World(6000 * k + 6000, 0, Some(1000), map[0 := 25],
      [Instance(Some(Lease(0, 25, 6000 * k + 5000, false)), 0, Idle, 1)], [], map[], map[], map[], map[0 := Waiter(0, k, Acquired)])
  }

  /** The lease transaction of round `k` is committed. */
  function Committed(k: nat): World {
    Round(k).(buckets := map[0 := 25], instances := [Instance(None, 0, Answered(Granted(25, 0)), 1)])
  }

  lemma RoundCommits(k: nat)
    ensures Apply(Round(k), Commit(0)) == Committed(k) && !FindsFull(Round(k), Commit(0))
  {
    assert Grant(1000, 0, 1) == 25;
    hide Grant;
    var w0 := Round(k);
    var f := w0.instances[0].flight;
    var released := AfterRelease(w0.buckets, f.previous);
    assert Get(released, 0) == 0 && Plus(released, 0, 25) == map[0 := 25];
  }

  lemma RoundExpires(k: nat)
    ensures Thrice(Round(k), Commit(0), Finish(0), Tick(6000 * k + 6000, 0)) == Expired(k)
    ensures !FindsFull(Round(k), Commit(0))
  {
    RoundCommits(k);
    hide FindsFull, Reserve;
    var w2 := Apply(Committed(k), Finish(0));
    assert w2.instances == Expired(k).instances;
  }

  lemma ExpiredWakes(k: nat)
    requires k + 1 < MAX_ACQUIRE_ATTEMPTS
    ensures Apply(Expired(k), Wake(0, 0)) == Round(k + 1)
  {
    var w := Apply(Expired(k), Wake(0, 0));
    assert w.waiters == map[0 := Waiter(0, k + 1, Pending)];
    assert w.instances == Round(k + 1).instances;
  }

  lemma {:induction false} FullAppend(w: World, es: seq<Event>, fs: seq<Event>)
    ensures Exec(w, es + fs) == Exec(Exec(w, es), fs)
    ensures NeverFindsFull(w, es + fs) <==> NeverFindsFull(w, es) && NeverFindsFull(Exec(w, es), fs)
    decreases |es|
  {
    hide Apply, FindsFull;
    if es == [] {
      assert es + fs == fs;
    } else {
      assert (es + fs)[1..] == es[1..] + fs;
      FullAppend(Apply(w, es[0]), es[1..], fs);
    }
  }

  lemma FullOne(w: World, e: Event)
    requires !FindsFull(w, e)
    ensures Exec(w, [e]) == Apply(w, e) && NeverFindsFull(w, [e])
  {
    hide Apply, FindsFull;
    assert [e][1..] == [];
  }

  lemma FullThree(w: World, a: Event, b: Event, c: Event)
    requires !FindsFull(w, a) && !b.Commit? && !c.Commit?
    ensures Exec(w, [a, b, c]) == Thrice(w, a, b, c) && NeverFindsFull(w, [a, b, c])
  {
    hide Apply, Exec, NeverFindsFull;
    FullOne(w, a);
    FullOne(Apply(w, a), b);
    FullOne(Apply(Apply(w, a), b), c);
    FullAppend(w, [a], [b]);
    FullAppend(w, [a] + [b], [c]);
    assert [a] + [b] + [c] == [a, b, c];
  }

  lemma RoundRun(before: seq<Event>, k: nat) returns (es: seq<Event>)
    requires NeverFindsFull(Init(1, Some(1000)), before) && Exec(Init(1, Some(1000)), before) == Round(k)
    ensures NeverFindsFull(Init(1, Some(1000)), es) && Exec(Init(1, Some(1000)), es) == Expired(k)
  {
    hide Apply, Round, Expired, Init, Thrice, Exec, NeverFindsFull, FindsFull;
    RoundExpires(k);
    var tick := Tick(6000 * k + 6000, 0);
    FullThree(Round(k), Commit(0), Finish(0), tick);
    FullAppend(Init(1, Some(1000)), before, [Commit(0), Finish(0), tick]);
    es := before + [Commit(0), Finish(0), tick];
  }

  lemma {:induction false} ReachesRound(k: nat) returns (es: seq<Event>)
    requires k < MAX_ACQUIRE_ATTEMPTS
    ensures NeverFindsFull(Init(1, Some(1000)), es) && Exec(Init(1, Some(1000)), es) == Round(k)
  {
    hide Apply, Round, Expired, Init, Exec, NeverFindsFull;
    if k == 0 {
      es := [Arrive(0, 0)];
      ArrivesFirst();
    } else {
      var before := ReachesRound(k - 1);
      var waited := RoundRun(before, k - 1);
      ExpiredWakes(k - 1);
      FullOne(Expired(k - 1), Wake(0, 0));
      FullAppend(Init(1, Some(1000)), waited, [Wake(0, 0)]);
      es := waited + [Wake(0, 0)];
    }
  }

  lemma ArrivesFirst()
    ensures NeverFindsFull(Init(1, Some(1000)), [Arrive(0, 0)]) && Exec(Init(1, Some(1000)), [Arrive(0, 0)]) == Round(0)
  {
    FullOne(Init(1, Some(1000)), Arrive(0, 0));
    hide Exec, NeverFindsFull;
    var w := Apply(Init(1, Some(1000)), Arrive(0, 0));
    assert w.instances == Round(0).instances;
  }

  /** A click is turned away after fifty renewals, though nothing was spent and no transaction found the tenant at its limit. */
  lemma FiftyRenewalsReject()
    ensures exists es ::
              var w := Exec(Init(1, Some(1000)), es);
              && NeverFindsFull(Init(1, Some(1000)), es) && w.spent == map[] && |w.instances| == 1
              && w.waiters == map[0 := Waiter(0, MAX_ACQUIRE_ATTEMPTS - 1, Acquired)]
              && TurnsAway(w, 0)
  {
    hide Apply, Round, Init, Exec, NeverFindsFull;
    var before := ReachesRound(MAX_ACQUIRE_ATTEMPTS - 1);
    var es := RoundRun(before, MAX_ACQUIRE_ATTEMPTS - 1);
    var w := Expired(MAX_ACQUIRE_ATTEMPTS - 1);
    assert w.spent == map[] && |w.instances| == 1;
    assert w.waiters == map[0 := Waiter(0, MAX_ACQUIRE_ATTEMPTS - 1, Acquired)];
    assert TurnsAway(w, 0);
  }

  // ----- What a month boundary can do -----

  /** The grant was committed in month 0, its lease dated month 1, its unit spent there. */
  const MISDATED := World(0, 1, Some(1), map[0 := 1],
    [Instance(Some(Lease(1, 0, 5000, false)), 0, Idle, 0)], [], map[1 := 1], map[], map[], map[])

  const ACROSS_MIDNIGHT := World(0, 1, Some(1), map[0 := 1],
    [Instance(None, 0, Answered(Granted(1, 0)), 1)], [], map[], map[], map[], map[0 := Waiter(0, 0, Pending)])

  const DATED := ACROSS_MIDNIGHT.(
    instances := [Instance(Some(Lease(1, 1, 5000, false)), 0, Idle, 1)], waiters := map[0 := Waiter(0, 0, Acquired)])

  lemma CrossesMidnight()
    ensures Thrice(Init(1, Some(1)), Arrive(0, 0), Commit(0), Tick(0, 1)) == ACROSS_MIDNIGHT
  {
    var w1 := Apply(Init(1, Some(1)), Arrive(0, 0));
    assert w1 == ONE_WAITS by { assert w1.instances == ONE_WAITS.instances; }
    OneIsGranted();
    hide Apply;
    assert ACROSS_MIDNIGHT == ACROSS_MIDNIGHT.(period := 0).(period := 1);
    TickedTo(ACROSS_MIDNIGHT.(period := 0), 0, 1);
  }

  const ONE_WAITS := World(0, 0, Some(1), map[],
    [Instance(None, 0, Running(None, 1), 1)], [], map[], map[], map[], map[0 := Waiter(0, 0, Pending)])

  lemma OneIsGranted()
    ensures Apply(ONE_WAITS, Commit(0)) == ACROSS_MIDNIGHT.(period := 0)
  {
    assert Grant(1, 0, 1) == 1;
    hide Grant;
    assert Apply(ONE_WAITS, Commit(0)).instances == ACROSS_MIDNIGHT.instances;
  }

  lemma TickedTo(w: World, now: nat, period: nat)
    requires w.now <= now && w.period <= period
    ensures Apply(w, Tick(now, period)) == w.(now := now, period := period)
  {
  }

  lemma DatesMisdated()
    ensures Apply(ACROSS_MIDNIGHT, Finish(0)) == DATED
  {
    assert Apply(ACROSS_MIDNIGHT, Finish(0)).instances == DATED.instances;
    hide Reserve, Admit, Resume;
  }

  lemma SpendsMisdated()
    ensures Apply(Apply(ACROSS_MIDNIGHT, Finish(0)), Wake(0, 0)) == MISDATED
  {
    DatesMisdated();
    WakesMisdated();
    hide Apply;
  }

  lemma WakeTakes(w: World, id: nat)
    requires |w.instances| == 1 && WaitsAt(w, 0, id, Acquired)
    requires w.instances[0].unlimitedUntil <= w.now && CanTake(w.instances[0].lease, w.now, w.period)
    ensures var a := w.instances[0];
      Apply(w, Wake(0, id)) == w.(
        instances := [DoneWaiting(a.(lease := Taken(a.lease)))], spent := Plus(w.spent, w.period, 1), waiters := w.waiters - {id})
  {
    var a := w.instances[0];
    assert w.instances[0 := DoneWaiting(a.(lease := Taken(a.lease)))] == [DoneWaiting(a.(lease := Taken(a.lease)))];
  }

  lemma WakesMisdated()
    ensures Apply(DATED, Wake(0, 0)) == MISDATED
  {
    var w := DATED;
    WakeTakes(w, 0);
    hide Apply;
    assert Plus(w.spent, 1, 1) == map[1 := 1] && w.waiters - {0} == map[];
  }

  /**
   A lease granted in one month and dated in the next admits clicks nobody
   reserved: with a quota of one unit, two clicks are admitted in month 1.
   */
  lemma MonthBoundaryCanOverAdmit()
    ensures exists es :: Get(Exec(Init(1, Some(1)), es).spent, 1) == 2
  {
    CrossesMidnight();
    SpendsMisdated();
    SecondClick(MISDATED);
    hide Apply, Thrice, Exec;
    var w := ACROSS_MIDNIGHT;
    ExecCons(Apply(w, Finish(0)), Wake(0, 0), SECOND_CLICK);
    ExecCons(w, Finish(0), [Wake(0, 0)] + SECOND_CLICK);
    ExecThree(Init(1, Some(1)), Arrive(0, 0), Commit(0), Tick(0, 1), [Finish(0)] + ([Wake(0, 0)] + SECOND_CLICK));
  }

  const SECOND_CLICK := [Arrive(0, 0), Commit(0), Finish(0)] + [Wake(0, 0)]

  lemma SecondClick(w: World)
    requires w == World(0, 1, Some(1), map[0 := 1], [Instance(Some(Lease(1, 0, 5000, false)), 0, Idle, 0)], [], map[1 := 1], map[], map[], map[])
    ensures Get(Exec(w, SECOND_CLICK).spent, 1) == 2
  {
    var w3 := Thrice(w, Arrive(0, 0), Commit(0), Finish(0));
    SecondLease(w);
    ExecThree(w, Arrive(0, 0), Commit(0), Finish(0), [Wake(0, 0)]);
    hide Thrice;
    ExecCons(w3, Wake(0, 0), []);
    assert [Wake(0, 0)] + [] == [Wake(0, 0)];
  }

  lemma SecondLease(w: World)
    requires w == World(0, 1, Some(1), map[0 := 1], [Instance(Some(Lease(1, 0, 5000, false)), 0, Idle, 0)], [], map[1 := 1], map[], map[], map[])
    ensures var v := Thrice(w, Arrive(0, 0), Commit(0), Finish(0));
      && v.now == 0 && v.period == 1 && v.instances == [Instance(Some(Lease(1, 1, 5000, false)), 0, Idle, 1)]
      && v.spent == map[1 := 1] && v.waiters == map[0 := Waiter(0, 0, Acquired)]
  {
    hide Apply;
    SecondAcquire(w);
    var w1 := w.(instances := [ACQUIRING], waiters := map[0 := Waiter(0, 0, Pending)]);
    SecondGrant(w1);
    var w2 := Apply(w1, Commit(0));
    SecondFinish(w2);
  }

  lemma SecondFinish(w: World)
    requires w.now == 0 && w.period == 1 && w.instances == [Instance(None, 0, Answered(Granted(1, 1)), 1)]
    requires w.waiters == map[0 := Waiter(0, 0, Pending)]
    ensures Apply(w, Finish(0)) == w.(
      instances := [Instance(Some(Lease(1, 1, 5000, false)), 0, Idle, 1)], waiters := map[0 := Waiter(0, 0, Acquired)])
  {
    hide Reserve, Admit, Resume;
  }

  const ACQUIRING := Instance(None, 0, Running(Some(Lease(1, 0, 5000, false)), 1), 1)

  lemma SecondAcquire(w: World)
    requires w.now == 0 && w.period == 1 && w.instances == [Instance(Some(Lease(1, 0, 5000, false)), 0, Idle, 0)]
    requires w.waiters == map[]
    ensures Apply(w, Arrive(0, 0)) == w.(instances := [ACQUIRING], waiters := map[0 := Waiter(0, 0, Pending)])
  {
  }

  lemma SecondGrant(w: World)
    requires w.quota == Some(1) && w.period == 1 && w.buckets == map[0 := 1] && w.instances == [ACQUIRING]
    ensures var v := Apply(w, Commit(0));
      v == w.(buckets := v.buckets, instances := [Instance(None, 0, Answered(Granted(1, 1)), 1)])
  {
    assert Grant(1, 0, 1) == 1;
    assert w.buckets == AfterRelease(w.buckets, ACQUIRING.flight.previous);
    hide Grant;
  }
}
