/**
 The maps one process keeps for click admission (`state` in
 src/lib/click-admission.ts), changed in place.  `View` is what they say about
 one workspace; each method does to its workspace what `ClickAdmission` says of
 one instance, and nothing to any other.

 A key missing from a map stands for the value the code falls back to: no lease, no
 open transaction, unlimited until zero, nobody waiting.  Which process it is matters
 only for units it hands back, which carry its number.
 */
module ClickLeases {
  import opened Prelude
  import opened ClickAdmission

  class AdmissionState {
    var leases: map<string, Lease>
    var unlimitedUntil: map<string, nat>
    var inflight: map<string, Flight>
    var waiting: map<string, nat>

    /** Which process this is. */
    const self: nat

    constructor (self: nat)
      ensures this.self == self && forall ws :: View(ws) == FRESH
    {
      this.self := self;
      leases, unlimitedUntil, inflight, waiting := map[], map[], map[], map[];
    }

    ghost function View(ws: string): Instance
      reads this
    {
      Instance(
        if ws in leases then Some(leases[ws]) else None,
        if ws in unlimitedUntil then unlimitedUntil[ws] else 0,
        if ws in inflight then inflight[ws] else Idle,
        if ws in waiting then waiting[ws] else 0)
    }

    twostate predicate OthersUnchanged(ws: string)
      reads this
    {
      forall other :: other != ws ==> View(other) == old(View(other))
    }

    method Take(ws: string, now: nat, period: nat) returns (ok: bool)
      modifies this`leases
      ensures ok == CanTake(old(View(ws)).lease, now, period)
      ensures View(ws) == if ok then old(View(ws)).(lease := Taken(old(View(ws)).lease)) else old(View(ws))
      ensures OthersUnchanged(ws)
    {
      if ws !in leases {
        return false;
      }
      var lease := leases[ws];
      if lease.remaining <= 0 || lease.expiresAt <= now || lease.periodKey != period {
        return false;
      }
      leases := leases[ws := lease.(remaining := lease.remaining - 1)];
      return true;
    }

    /** The part of `acquire` before its await. */
    method Acquire(ws: string)
      requires ws in inflight ==> !inflight[ws].Idle?
      modifies this`leases, this`inflight
      ensures View(ws) == Acquiring(old(View(ws)))
      ensures OthersUnchanged(ws)
    {
      if ws in inflight {
        return;
      }
      var previous := if ws in leases then Some(leases[ws]) else None;
      leases := leases - {ws};
      var demand := if ws in waiting && waiting[ws] > 1 then waiting[ws] else 1;
      inflight := inflight[ws := Running(previous, demand)];
    }

    /** The transaction answered or threw; nothing in memory knows yet. */
    method Settle(ws: string, outcome: Flight)
      requires ws in inflight && inflight[ws].Running?
      requires outcome.Answered? || outcome == Failed(inflight[ws].previous)
      modifies this`inflight
      ensures View(ws) == old(View(ws)).(flight := outcome)
      ensures OthersUnchanged(ws)
    {
      inflight := inflight[ws := outcome];
    }

    /** The part of `acquire` after its await. */
    method FinishAcquire(ws: string, now: nat, period: nat)
      modifies this`leases, this`unlimitedUntil, this`inflight
      ensures View(ws) == Finished(old(View(ws)), now, period)
      ensures OthersUnchanged(ws)
    {
      if ws !in inflight {
        return;
      }
      match inflight[ws] {
        case Answered(Unlimited) =>
          unlimitedUntil := unlimitedUntil[ws := now + UNLIMITED_TTL_MS];
        case Answered(Granted(units, _)) =>
          unlimitedUntil := unlimitedUntil - {ws};
          leases := leases[ws := Lease(period, units, now + LEASE_TTL_MS, units == 0)];
        case Failed(previous) =>
          if previous.Some? {
            leases := leases[ws := previous.value.(expiresAt := 0)];
          }
        case _ => return;
      }
      inflight := inflight - {ws};
    }

    method Leave(ws: string)
      modifies this`waiting
      ensures View(ws) == DoneWaiting(old(View(ws)))
      ensures OthersUnchanged(ws)
    {
      if ws in waiting && waiting[ws] > 1 {
        waiting := waiting[ws := waiting[ws] - 1];
      } else {
        waiting := waiting - {ws};
      }
    }

    /** `admitBillableClick` up to its first await. */
    method AdmitBillableClick(ws: string, now: nat, period: nat) returns (verdict: Verdict)
      requires ws in inflight ==> !inflight[ws].Idle?
      modifies this
      ensures (View(ws), verdict) == Admit(old(View(ws)), now, period)
      ensures OthersUnchanged(ws)
    {
      if ws in unlimitedUntil && unlimitedUntil[ws] > now {
        return Unreserved;
      }
      var taken := Take(ws, now, period);
      if taken {
        return Reserved;
      }
      if ws in leases && leases[ws].exhausted && leases[ws].expiresAt > now && ws !in inflight {
        return Rejected;
      }
      waiting := waiting[ws := (if ws in waiting then waiting[ws] else 0) + 1];
      Acquire(ws);
      return Waits;
    }

    /** One turn of its loop, once the acquisition of this attempt has settled. */
    method ResumeAdmission(ws: string, attempt: nat, now: nat, period: nat) returns (verdict: Verdict)
      requires ws in inflight ==> !inflight[ws].Idle?
      modifies this
      ensures (View(ws), verdict) == Resume(old(View(ws)), attempt, now, period)
      ensures OthersUnchanged(ws)
    {
      if ws in unlimitedUntil && unlimitedUntil[ws] > now {
        Leave(ws);
        return Unreserved;
      }
      var taken := Take(ws, now, period);
      if taken {
        Leave(ws);
        return Reserved;
      }
      if ws in leases && leases[ws].exhausted {
        Leave(ws);
        return Rejected;
      }
      if attempt + 1 >= MAX_ACQUIRE_ATTEMPTS {
        Leave(ws);
        return Rejected;
      }
      Acquire(ws);
      return Waits;
    }

    method ReturnAdmittedClick(ws: string, period: nat) returns (releases: seq<HandBack>)
      modifies this`leases
      ensures (View(ws), releases) == Returned(old(View(ws)), period, self)
      ensures OthersUnchanged(ws)
    {
      if ws in leases && leases[ws].periodKey == period {
        leases := leases[ws := leases[ws].(remaining := leases[ws].remaining + 1)];
        return [];
      }
      return [HandBack(self, period, 1)];
    }

    /** A sweep that nothing interrupts: every workspace is swept, in whatever order. */
    method SweepExpiredLeases(now: nat) returns (released: map<string, HandBack>)
      requires forall ws :: ws in inflight ==> !inflight[ws].Idle?
      modifies this`leases, this`unlimitedUntil
      ensures forall ws :: View(ws) == Swept(old(View(ws)), now, self).0
      ensures forall ws :: (if ws in released then [released[ws]] else []) == Swept(old(View(ws)), now, self).1
    {
      released := map[];
      var todo := leases.Keys;
      while todo != {}
        invariant todo <= leases.Keys <= old(leases).Keys
        invariant unlimitedUntil == old(unlimitedUntil)
        invariant forall ws :: ws in leases ==> leases[ws] == old(leases)[ws]
        invariant forall ws :: ws in old(leases) && ws !in todo ==> (ws !in leases <==> Expired(ws, old(leases)[ws], now))
        invariant forall ws :: ws in released ==> ws !in leases && ws in old(leases)
        invariant forall ws :: ws in old(leases) && ws !in leases ==>
                    && (ws in released <==> old(leases)[ws].remaining > 0)
                    && (ws in released ==> released[ws] == HandBack(self, old(leases)[ws].periodKey, old(leases)[ws].remaining))
        decreases |todo|
      {
        var ws :| ws in todo;
        todo := todo - {ws};
        var lease := leases[ws];
        if lease.expiresAt <= now && ws !in inflight {
          leases := leases - {ws};
          if lease.remaining > 0 {
            released := released[ws := HandBack(self, lease.periodKey, lease.remaining)];
          }
        }
      }
      unlimitedUntil := map ws | ws in unlimitedUntil && unlimitedUntil[ws] > now :: unlimitedUntil[ws];
      forall ws
        ensures View(ws) == Swept(old(View(ws)), now, self).0
        ensures (if ws in released then [released[ws]] else []) == Swept(old(View(ws)), now, self).1
      {
        if ws in old(leases) {
          assert ws !in leases <==> Expired(ws, old(leases)[ws], now);
        }
      }
    }

    predicate Expired(ws: string, lease: Lease, now: nat)
      reads this`inflight
    {
      lease.expiresAt <= now && ws !in inflight
    }
  }
}
