/**
 The life of a commission under approval, payment, reversal and refunds
 (src/lib/commissions.ts).  Amounts are whole cents.

 A refund is reported as a cumulative total.  An unpaid row shrinks to what is
 still owed and is reversed when nothing is; a paid row keeps its amount and
 records a clawback, measured from the original amount.  So what a paid row keeps
 depends on two totals, the one known when it was paid and the latest one, and a
 `World` remembers both.
 */
module Commissions {
  datatype Status = Pending | Approved | Paid | Reversed

  datatype Row = Row(userId: string, saleCents: int, original: int, amount: int, clawback: int, status: Status)

  datatype Action = Approve | Pay | Reverse

  // ----- What is owed after a refund -----

  function Owed(original: int, sale: int, refunded: int): int {
    if sale <= 0 then 0
    else
      var taken := if refunded > 0 then refunded else 0;
      var kept := if sale > taken then sale - taken else 0;
      var share := original * kept / sale;
      if original < share then original else share
  }

  lemma MulMonotone(a: int, b: int, c: int)
    requires a <= b && 0 <= c
    ensures a * c <= b * c
  {
  }

  /** Dividing and multiplying back falls short by less than one divisor. */
  lemma DivBounds(a: int, d: int)
    requires d > 0
    ensures (a / d) * d <= a < (a / d) * d + d
  {
  }

  lemma Steps(q: int, p: int, d: int)
    requires d > 0
    ensures q > p ==> q * d >= p * d + d
  {
    if q > p {
      MulMonotone(p + 1, q, d);
      assert (p + 1) * d == p * d + d;
    }
  }

  lemma DivMonotone(a: int, b: int, d: int)
    requires a <= b && d > 0
    ensures a / d <= b / d
  {
    DivBounds(a, d);
    DivBounds(b, d);
    Steps(a / d, b / d, d);
  }

  lemma DivExact(q: int, d: int)
    requires d > 0
    ensures q * d / d == q
  {
    DivBounds(q * d, d);
    Steps(q, q * d / d, d);
    Steps(q * d / d, q, d);
  }

  function Kept(sale: int, refunded: int): int {
    var taken := if refunded > 0 then refunded else 0;
    if sale > taken then sale - taken else 0
  }

  lemma ShareBounds(original: int, sale: int, kept: int, less: int)
    requires original >= 0 && 0 <= less <= kept <= sale && sale > 0
    ensures 0 <= original * less / sale <= original * kept / sale <= original
    ensures kept == sale ==> original * kept / sale == original
    ensures kept == 0 ==> original * kept / sale == 0
  {
    MulMonotone(0, less, original);
    MulMonotone(less, kept, original);
    MulMonotone(kept, sale, original);
    DivMonotone(0, original * less, sale);
    DivMonotone(original * less, original * kept, sale);
    DivMonotone(original * kept, original * sale, sale);
    DivExact(original, sale);
    DivExact(0, sale);
  }

  /**
   What is owed lies between nothing and the original, is the original until
   something is refunded, is nothing once all is, never rounds up, and never
   grows with the refund.
   */
  lemma OwedIsProportional(original: int, sale: int, refunded: int, more: int)
    requires original >= 0 && sale > 0 && refunded <= more
    ensures 0 <= Owed(original, sale, more) <= Owed(original, sale, refunded) <= original
    ensures refunded <= 0 ==> Owed(original, sale, refunded) == original
    ensures refunded >= sale ==> Owed(original, sale, refunded) == 0
    ensures Owed(original, sale, refunded) * sale <= original * Kept(sale, refunded)
    ensures original * Kept(sale, refunded) < (Owed(original, sale, refunded) + 1) * sale
  {
    var k, m := Kept(sale, refunded), Kept(sale, more);
    ShareBounds(original, sale, k, m);
    DivBounds(original * k, sale);
    var share := original * k / sale;
    assert (share + 1) * sale == share * sale + sale;
  }

  // ----- One row -----

  function Refund(r: Row, total: int): Row {
    var owed := Owed(r.original, r.saleCents, total);
    match r.status
    case Paid => r.(clawback := r.original - owed)
    case Reversed => r
    case _ => r.(amount := owed, status := if owed == 0 then Reversed else r.status)
  }

  predicate From(a: Action, s: Status) {
    match a
    case Approve => s.Pending?
    case Pay => s.Approved?
    case Reverse => s.Pending? || s.Approved?
  }

  function To(a: Action): Status {
    match a
    case Approve => Approved
    case Pay => Paid
    case Reverse => Reversed
  }

  function Transition(r: Row, a: Action): Row {
    if From(a, r.status) then r.(status := To(a)) else r
  }

  /** Who may become what: each action moves the rows it is for, and touches no amount. */
  lemma TransitionsAre(r: Row, a: Action)
    ensures Transition(r, a) == r.(status := Transition(r, a).status)
    ensures r.status.Pending? ==>
      Transition(r, Approve).status == Approved && Transition(r, Pay).status == Pending && Transition(r, Reverse).status == Reversed
    ensures r.status.Approved? ==>
      Transition(r, Approve).status == Approved && Transition(r, Pay).status == Paid && Transition(r, Reverse).status == Reversed
    ensures r.status.Paid? || r.status.Reversed? ==> Transition(r, a) == r
  {
  }

  /** As `recordCommission` creates it: something to pay, and not more than the sale. */
  predicate Fresh(r: Row) {
    0 < r.original <= r.saleCents && r.amount == r.original && r.clawback == 0 && r.status.Pending?
  }

  /** Of cumulative totals that grow, only the last one counts; in particular a repeated refund changes nothing. */
  lemma LastRefundCounts(r: Row, total: int, later: int)
    requires r.original >= 0 && r.saleCents > 0 && total <= later
    ensures Refund(Refund(r, total), later) == Refund(r, later)
  {
    OwedIsProportional(r.original, r.saleCents, total, later);
    hide Owed;
  }

  // ----- Runs -----

  datatype Event = Act(action: Action) | Refunded(total: int)

  /** `refunded`: the latest total. `atPayment`: that total when the row was paid. `since`: refunds were reported after that. */
  datatype World = World(row: Row, refunded: int, atPayment: int, since: bool)

  function Start(r: Row): World {
    World(r, 0, 0, false)
  }

  function Apply(w: World, e: Event): World {
    match e
    case Act(a) =>
      var row := Transition(w.row, a);
      w.(row := row, atPayment := if row.status.Paid? && !w.row.status.Paid? then w.refunded else w.atPayment)
    case Refunded(total) =>
      if total < w.refunded then w
      else w.(row := Refund(w.row, total), refunded := total, since := w.since || w.row.status.Paid?)
  }

  function Exec(w: World, es: seq<Event>): World
    decreases |es|
  {
    if es == [] then w else Exec(Apply(w, es[0]), es[1..])
  }

  function OwedAt(w: World, total: int): int {
    Owed(w.row.original, w.row.saleCents, total)
  }

  predicate Accounted(w: World) {
    && 0 < w.row.original <= w.row.saleCents && 0 <= w.atPayment <= w.refunded
    && match w.row.status
       case Reversed => w.row.clawback == 0
       case Paid =>
         && w.row.amount == OwedAt(w, w.atPayment)
         && (if w.since then w.row.clawback == w.row.original - OwedAt(w, w.refunded)
             else w.row.clawback == 0 && w.atPayment == w.refunded)
       case _ => w.row.amount == OwedAt(w, w.refunded) && w.row.clawback == 0 && !w.since && w.row.amount > 0
  }

  lemma StepKeepsAccounts(w: World, e: Event)
    requires Accounted(w)
    ensures Accounted(Apply(w, e))
  {
    if e.Refunded? && w.refunded <= e.total {
      OwedIsProportional(w.row.original, w.row.saleCents, w.refunded, e.total);
    }
    hide Owed;
  }

  lemma {:induction false} ExecKeepsAccounts(w: World, es: seq<Event>)
    requires Accounted(w)
    ensures Accounted(Exec(w, es))
    ensures Exec(w, es).row.original == w.row.original && Exec(w, es).row.saleCents == w.row.saleCents
    decreases |es|
  {
    hide Accounted, Owed;
    if es != [] {
      StepKeepsAccounts(w, es[0]);
      ExecKeepsAccounts(Apply(w, es[0]), es[1..]);
    }
  }

  /** Paid and reversed are final. */
  lemma {:induction false} FinalStaysFinal(w: World, es: seq<Event>)
    requires w.row.status.Paid? || w.row.status.Reversed?
    ensures Exec(w, es).row.status == w.row.status && Exec(w, es).row.amount == w.row.amount
    decreases |es|
  {
    hide Owed;
    if es != [] {
      assert Apply(w, es[0]).row.status == w.row.status && Apply(w, es[0]).row.amount == w.row.amount;
      FinalStaysFinal(Apply(w, es[0]), es[1..]);
    }
  }

  lemma FreshIsAccounted(r: Row)
    requires Fresh(r)
    ensures Accounted(Start(r))
  {
    OwedIsProportional(r.original, r.saleCents, 0, 0);
  }

  function Net(r: Row): int {
    r.amount - r.clawback
  }

  /** What the payout file says is payable. */
  lemma PayableIs(r: Row)
    ensures NetPayable(r) >= 0 && NetPayable(r) >= r.amount - r.clawback
    ensures NetPayable(r) == 0 || NetPayable(r) == r.amount - r.clawback
  {
  }

  function NetPayable(r: Row): int {
    if Net(r) > 0 then Net(r) else 0
  }

  /**
   In every run, a row that is not reversed never keeps more than what is owed
   after the latest refund.  It keeps exactly that unless part was refunded
   before payment and a refund was reported again after it; then the earlier
   reduction is taken off a second time.
   */
  lemma NetAgainstOwed(r: Row, es: seq<Event>)
    requires Fresh(r) && !Exec(Start(r), es).row.status.Reversed?
    ensures var w := Exec(Start(r), es);
      var owed := Owed(r.original, r.saleCents, w.refunded);
      var taken := r.original - Owed(r.original, r.saleCents, w.atPayment);
      && Net(w.row) <= owed && NetPayable(w.row) <= owed
      && (!w.row.status.Paid? ==> Net(w.row) == owed)
      && (w.row.status.Paid? ==> (Net(w.row) == owed <==> taken == 0 || !w.since))
      && (w.row.status.Paid? && w.since ==> Net(w.row) == owed - taken)
  {
    hide Exec, Owed;
    FreshIsAccounted(r);
    ExecKeepsAccounts(Start(r), es);
    var w := Exec(Start(r), es);
    OwedIsProportional(r.original, r.saleCents, w.atPayment, w.refunded);
    OwedIsProportional(r.original, r.saleCents, 0, w.refunded);
  }

  /** A sale of 100 with a commission of 10, half refunded before payment: the same report after payment takes 5 again. */
  lemma ReportedTwiceAcrossPayment(user: string)
    ensures var r := Row(user, 100, 10, 10, 0, Pending);
      var w := Exec(Start(r), [Refunded(50), Act(Approve), Act(Pay), Refunded(50)]);
      Owed(10, 100, w.refunded) == 5 && Net(w.row) == 0
  {
    var w0 := Start(Row(user, 100, 10, 10, 0, Pending));
    assert Owed(10, 100, 50) == 5;
    var es := [Refunded(50), Act(Approve), Act(Pay), Refunded(50)];
    assert es[1..] == [Act(Approve), Act(Pay), Refunded(50)] && es[1..][1..] == [Act(Pay), Refunded(50)];
    assert es[1..][1..][1..] == [Refunded(50)] && es[1..][1..][1..][1..] == [];
    var w1 := Apply(w0, Refunded(50));
    assert w1.row == w0.row.(amount := 5);
    var w2 := Apply(w1, Act(Approve));
    var w3 := Apply(w2, Act(Pay));
    var w4 := Apply(w3, Refunded(50));
    assert w4.row.clawback == 5;
  }

  // ----- The table -----

  class CommissionTable {
    /** Rows by id, and the row of each conversion. */
    var rows: map<string, Row>
    var byConversion: map<string, string>

    constructor ()
      ensures rows == map[] && byConversion == map[]
    {
      rows, byConversion := map[], map[];
    }

    /** Conversions are unique: a second commission for one is not created. */
    method Record(id: string, conversion: string, row: Row) returns (created: bool)
      requires id !in rows
      modifies this
      ensures created == (conversion !in old(byConversion))
      ensures created ==> rows == old(rows)[id := row] && byConversion == old(byConversion)[conversion := id]
      ensures !created ==> rows == old(rows) && byConversion == old(byConversion)
    {
      created := conversion !in byConversion;
      if created {
        rows := rows[id := row];
        byConversion := byConversion[conversion := id];
      }
    }

    method ApplyRefund(conversion: string, total: int)
      modifies this`rows
      ensures rows.Keys == old(rows).Keys
      ensures forall id :: id in rows ==>
                rows[id] == if conversion in byConversion && byConversion[conversion] == id then Refund(old(rows)[id], total) else old(rows)[id]
    {
      if conversion !in byConversion || byConversion[conversion] !in rows {
        return;
      }
      var id := byConversion[conversion];
      var row := rows[id];
      var owed := Owed(row.original, row.saleCents, total);
      var reduction := row.original - owed;
      if row.status.Paid? {
        if reduction == row.clawback {
          return;
        }
        rows := rows[id := row.(clawback := reduction)];
        return;
      }
      if row.status.Reversed? {
        return;
      }
      rows := rows[id := row.(amount := owed, status := if owed == 0 then Reversed else row.status)];
    }

    /** The rows one statement moves: listed, of this user, and in a status the action starts from. */
    ghost function Moved(userId: string, action: Action, ids: seq<string>): set<string>
      reads this
    {
      set id | id in rows && id in ids && rows[id].userId == userId && From(action, rows[id].status)
    }

    method TransitionCommissions(userId: string, action: Action, ids: seq<string>) returns (count: nat)
      modifies this`rows
      ensures rows.Keys == old(rows).Keys
      ensures forall id :: id in rows ==>
                rows[id] == if id in old(Moved(userId, action, ids)) then Transition(old(rows)[id], action) else old(rows)[id]
      ensures count == |old(Moved(userId, action, ids))|
      ensures Moved(userId, action, ids) == {}
    {
      var moved := set id | id in rows && id in ids && rows[id].userId == userId && From(action, rows[id].status);
      rows := map id | id in rows :: if id in moved then rows[id].(status := To(action)) else rows[id];
      count := |moved|;
    }
  }
}
