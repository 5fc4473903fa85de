/**
 Choosing a commission for a sale (src/lib/reward-rules.ts): which rule matches,
 which rules can never match, and what is paid.

 Cents and priorities are real numbers; rounding in floating point is not part of
 this model.
 */
module RewardRules {
  import opened Prelude
  import opened JsText

  const MAX_PERCENT_BPS := 10000
  const MAX_SAFE_INTEGER := 9007199254740991

  datatype Kind = Percent | Flat

  datatype Rule = Rule(
    id: string,
    key: string,
    equals: seq<string>,
    kind: Kind,
    amount: int,
    priority: Option<real>,
    cap: Option<int>,
    min: Option<int>,
    max: Option<int>)

  /** A value in a sale's metadata; a scalar is given by its text. */
  datatype Value = Missing | NullValue | Object | Scalar(text: string)

  type Metadata = map<string, Value>

  function ValueOf(metadata: Metadata, key: string): Value {
    if key in metadata then metadata[key] else Missing
  }

  predicate ValidRule(r: Rule) {
    && Trim(r.key) != ""
    && r.equals != []
    && 0 <= r.amount <= MAX_SAFE_INTEGER
    && (r.kind.Percent? ==> r.amount <= MAX_PERCENT_BPS)
    && (r.min.Some? && r.max.Some? ==> r.min.value <= r.max.value)
  }

  /** What makes a rule invalid, as its author is told. */
  lemma InvalidRulesAre(r: Rule)
    ensures !ValidRule(r) <==>
      || Trim(r.key) == "" || |r.equals| == 0 || r.amount < 0 || r.amount >= 9007199254740992
      || (r.kind.Percent? && r.amount > 10000)
      || (r.min.Some? && r.max.Some? && r.min.value > r.max.value)
  {
  }

  predicate InBand(r: Rule, sale: Option<real>) {
    sale.Some? ==>
      && (r.min.Some? ==> sale.value >= r.min.value as real)
      && (r.max.Some? ==> sale.value <= r.max.value as real)
  }

  /** The rule would pay for this sale if it were asked first. */
  predicate Applies(r: Rule, metadata: Metadata, sale: Option<real>) {
    && ValidRule(r)
    && InBand(r, sale)
    && ValueOf(metadata, r.key).Scalar?
    && ValueOf(metadata, r.key).text in r.equals
  }

  // ----- Evaluation order -----

  /** A rule and its place in the list it came from. */
  datatype Ranked = Ranked(rule: Rule, index: nat)

  function Priority(r: Rule): real {
    if r.priority.Some? then r.priority.value else 0.0
  }

  predicate Before(a: Ranked, b: Ranked) {
    Priority(a.rule) < Priority(b.rule) || (Priority(a.rule) == Priority(b.rule) && a.index < b.index)
  }

  function Place(x: Ranked, sorted: seq<Ranked>): seq<Ranked> {
    if sorted == [] || Before(x, sorted[0]) then [x] + sorted
    else [sorted[0]] + Place(x, sorted[1..])
  }

  /** By priority, lower first; by place among equals. */
  function Ordered(rules: seq<Rule>): seq<Ranked> {
    if rules == [] then []
    else Place(Ranked(rules[|rules| - 1], |rules| - 1), Ordered(rules[..|rules| - 1]))
  }

  predicate InOrder(s: seq<Ranked>) {
    forall i, j :: 0 <= i < j < |s| ==> Before(s[i], s[j])
  }

  lemma {:induction false} PlaceMembers(x: Ranked, sorted: seq<Ranked>)
    ensures forall y :: y in Place(x, sorted) <==> y == x || y in sorted
    ensures |Place(x, sorted)| == |sorted| + 1
  {
    if sorted != [] && !Before(x, sorted[0]) { PlaceMembers(x, sorted[1..]); }
  }

  lemma {:induction false} PlaceKeepsOrder(x: Ranked, sorted: seq<Ranked>)
    requires InOrder(sorted) && forall y :: y in sorted ==> y.index != x.index
    ensures InOrder(Place(x, sorted))
  {
    hide Priority;
    if sorted != [] {
      var head, rest := sorted[0], sorted[1..];
      assert head in sorted;
      if Before(x, head) {
        assert forall j :: 1 <= j < |sorted| ==> Before(head, sorted[j]);
      } else {
        PlaceKeepsOrder(x, rest);
        PlaceMembers(x, rest);
        var placed := Place(x, rest);
        forall j | 0 <= j < |placed| ensures Before(head, placed[j]) {
          assert placed[j] in placed;
          if placed[j] != x {
            var k :| 0 <= k < |rest| && rest[k] == placed[j];
            assert Before(sorted[0], sorted[k + 1]);
          }
        }
      }
    }
  }

  /** The evaluation order is sorted and holds each rule of the list with its place, once. */
  /** A lower priority comes first, none counts as zero, and equal ones keep their places. */
  lemma BeforeIs(a: Ranked, b: Ranked)
    ensures var p := if a.rule.priority.Some? then a.rule.priority.value else 0.0;
      var q := if b.rule.priority.Some? then b.rule.priority.value else 0.0;
      Before(a, b) <==> p < q || (p == q && a.index < b.index)
  {
  }

  lemma {:induction false} OrderedIsSorted(rules: seq<Rule>)
    ensures InOrder(Ordered(rules)) && |Ordered(rules)| == |rules|
    ensures forall x :: x in Ordered(rules) <==> x.index < |rules| && x.rule == rules[x.index]
  {
    hide Before;
    if rules != [] {
      var n := |rules| - 1;
      var init := rules[..n];
      OrderedIsSorted(init);
      PlaceKeepsOrder(Ranked(rules[n], n), Ordered(init));
      PlaceMembers(Ranked(rules[n], n), Ordered(init));
    }
  }

  // ----- matchRule -----

  function FirstApplying(order: seq<Ranked>, metadata: Metadata, sale: Option<real>): Option<Rule> {
    if order == [] then None
    else if Applies(order[0].rule, metadata, sale) then Some(order[0].rule)
    else FirstApplying(order[1..], metadata, sale)
  }

  function Match(rules: seq<Rule>, metadata: Metadata, sale: Option<real>): Option<Rule> {
    FirstApplying(Ordered(rules), metadata, sale)
  }

  method MatchRule(rules: seq<Rule>, metadata: Metadata, sale: Option<real>) returns (r: Option<Rule>)
    ensures r == Match(rules, metadata, sale)
  {
    var sorted := Ordered(rules);
    assert sorted[0..] == sorted;
    for i := 0 to |sorted|
      invariant Match(rules, metadata, sale) == FirstApplying(sorted[i..], metadata, sale)
    {
      var rule := sorted[i].rule;
      assert sorted[i..][1..] == sorted[i + 1..];
      if !ValidRule(rule) {
        continue;
      }
      if rule.min.Some? && sale.Some? && sale.value < rule.min.value as real {
        continue;
      }
      if rule.max.Some? && sale.Some? && sale.value > rule.max.value as real {
        continue;
      }
      var value := ValueOf(metadata, rule.key);
      if !value.Scalar? {
        continue;
      }
      if value.text in rule.equals {
        return Some(rule);
      }
    }
    return None;
  }

  lemma {:induction false} FirstApplyingIs(order: seq<Ranked>, metadata: Metadata, sale: Option<real>)
    ensures var r := FirstApplying(order, metadata, sale);
      && (r.None? ==> forall k :: 0 <= k < |order| ==> !Applies(order[k].rule, metadata, sale))
      && (r.Some? ==> exists i ::
            && 0 <= i < |order| && order[i].rule == r.value && Applies(r.value, metadata, sale)
            && forall k :: 0 <= k < i ==> !Applies(order[k].rule, metadata, sale))
  {
    hide Applies;
    if order != [] && !Applies(order[0].rule, metadata, sale) {
      FirstApplyingIs(order[1..], metadata, sale);
      var r := FirstApplying(order, metadata, sale);
      var rest := order[1..];
      assert forall k :: 1 <= k < |order| ==> order[k] == rest[k - 1];
      if r.Some? {
        var i :| 0 <= i < |rest| && rest[i].rule == r.value && forall k :: 0 <= k < i ==> !Applies(rest[k].rule, metadata, sale);
        assert order[i + 1].rule == r.value;
      }
    }
  }

  /**
   The rule that pays applies, and is the first that does by priority and then by
   place; if none pays, none applies.
   */
  lemma MatchIsFirst(rules: seq<Rule>, metadata: Metadata, sale: Option<real>)
    ensures var r := Match(rules, metadata, sale);
      && (r.None? ==> forall i :: 0 <= i < |rules| ==> !Applies(rules[i], metadata, sale))
      && (r.Some? ==> exists w ::
            && 0 <= w < |rules| && rules[w] == r.value && Applies(rules[w], metadata, sale)
            && forall i :: 0 <= i < |rules| && i != w && Applies(rules[i], metadata, sale) ==>
                 Before(Ranked(rules[w], w), Ranked(rules[i], i)))
  {
    hide Applies, Before, Ordered;
    OrderedIsSorted(rules);
    var order := Ordered(rules);
    FirstApplyingIs(order, metadata, sale);
    var r := Match(rules, metadata, sale);
    if r.None? {
      forall i | 0 <= i < |rules| ensures !Applies(rules[i], metadata, sale) {
        assert Ranked(rules[i], i) in order;
      }
    } else {
      var p :| 0 <= p < |order| && order[p].rule == r.value && Applies(r.value, metadata, sale)
        && forall k :: 0 <= k < p ==> !Applies(order[k].rule, metadata, sale);
      var w := order[p].index;
      assert order[p] in order && rules[w] == r.value;
      forall i | 0 <= i < |rules| && i != w && Applies(rules[i], metadata, sale)
        ensures Before(Ranked(rules[w], w), Ranked(rules[i], i))
      {
        assert Ranked(rules[i], i) in order;
        var k :| 0 <= k < |order| && order[k] == Ranked(rules[i], i);
        assert k != p;
      }
    }
  }

  // ----- explainMatch -----

  datatype Reason = InvalidRule | BelowMinimum | AboveMaximum | KeyMissing | NotScalar | OtherValue | Matched

  datatype Explained = Explained(ruleId: string, reason: Reason)

  function ReasonFor(r: Rule, metadata: Metadata, sale: Option<real>): Reason {
    if !ValidRule(r) then InvalidRule
    else if sale.Some? && r.min.Some? && sale.value < r.min.value as real then BelowMinimum
    else if sale.Some? && r.max.Some? && sale.value > r.max.value as real then AboveMaximum
    else
      match ValueOf(metadata, r.key)
      case Missing => KeyMissing
      case NullValue => KeyMissing
      case Object => NotScalar
      case Scalar(text) => if text in r.equals then Matched else OtherValue
  }

  function ExplainAll(order: seq<Ranked>, metadata: Metadata, sale: Option<real>): seq<Explained> {
    if order == [] then []
    else [Explained(order[0].rule.id, ReasonFor(order[0].rule, metadata, sale))] + ExplainAll(order[1..], metadata, sale)
  }

  function ExplainMatch(rules: seq<Rule>, metadata: Metadata, sale: Option<real>): seq<Explained> {
    ExplainAll(Ordered(rules), metadata, sale)
  }

  function FirstMatched(entries: seq<Explained>): Option<string> {
    if entries == [] then None
    else if entries[0].reason.Matched? then Some(entries[0].ruleId)
    else FirstMatched(entries[1..])
  }

  lemma {:induction false} FirstMatchedIsFirst(order: seq<Ranked>, metadata: Metadata, sale: Option<real>)
    ensures FirstMatched(ExplainAll(order, metadata, sale)) ==
      match FirstApplying(order, metadata, sale)
      case None => None
      case Some(r) => Some(r.id)
  {
    if order != [] {
      FirstMatchedIsFirst(order[1..], metadata, sale);
      assert ExplainAll(order, metadata, sale)[1..] == ExplainAll(order[1..], metadata, sale);
    }
  }

  /** The first entry the explanation calls matched is the rule that pays. */
  lemma ExplanationAgrees(rules: seq<Rule>, metadata: Metadata, sale: Option<real>)
    ensures FirstMatched(ExplainMatch(rules, metadata, sale)) ==
      match Match(rules, metadata, sale)
      case None => None
      case Some(r) => Some(r.id)
  {
    FirstMatchedIsFirst(Ordered(rules), metadata, sale);
  }

  /** The reason given is what keeps the rule from applying. */
  lemma ReasonsAreTrue(r: Rule, metadata: Metadata, sale: Option<real>)
    ensures ReasonFor(r, metadata, sale).Matched? <==> Applies(r, metadata, sale)
    ensures ReasonFor(r, metadata, sale).InvalidRule? <==> !ValidRule(r)
    ensures ReasonFor(r, metadata, sale).BelowMinimum? <==> ValidRule(r) && sale.Some? && r.min.Some? && sale.value < r.min.value as real
    ensures ReasonFor(r, metadata, sale).AboveMaximum? ==> sale.Some? && r.max.Some? && sale.value > r.max.value as real
    ensures ReasonFor(r, metadata, sale).KeyMissing? ==>
      r.key !in metadata || metadata[r.key].Missing? || metadata[r.key].NullValue?
    ensures ReasonFor(r, metadata, sale).NotScalar? ==> r.key in metadata && metadata[r.key].Object?
    ensures ReasonFor(r, metadata, sale).OtherValue? ==>
      r.key in metadata && metadata[r.key].Scalar? && metadata[r.key].text !in r.equals
    ensures ValidRule(r) && !InBand(r, sale) ==> ReasonFor(r, metadata, sale).BelowMinimum? || ReasonFor(r, metadata, sale).AboveMaximum?
  {
    hide ValidRule;
  }

  // ----- findShadowedRules -----

  datatype Shadow = Shadow(ruleId: string, shadowedBy: string)

  function OrZero(x: Option<int>): int {
    if x.Some? then x.value else 0
  }

  /** The band of `e` ends no earlier than that of `r`. */
  predicate EndsNoEarlier(e: Rule, r: Rule) {
    e.max.None? || (r.max.Some? && e.max.value >= r.max.value)
  }

  predicate Shadows(e: Rule, r: Rule) {
    && e.key == r.key
    && (forall i :: 0 <= i < |r.equals| ==> r.equals[i] in e.equals)
    && OrZero(e.min) <= OrZero(r.min)
    && EndsNoEarlier(e, r)
  }

  function ValidOnly(order: seq<Ranked>): seq<Rule> {
    if order == [] then []
    else (if ValidRule(order[0].rule) then [order[0].rule] else []) + ValidOnly(order[1..])
  }

  /** The first rule before place `i` that shadows the one at `i`. */
  function FirstShadow(ordered: seq<Rule>, i: nat, j: nat): Option<Rule>
    requires j <= i < |ordered|
    decreases i - j
  {
    if j == i then None
    else if Shadows(ordered[j], ordered[i]) then Some(ordered[j])
    else FirstShadow(ordered, i, j + 1)
  }

  function ShadowsUpTo(ordered: seq<Rule>, n: nat): seq<Shadow>
    requires n <= |ordered|
  {
    if n == 0 then []
    else
      var e := FirstShadow(ordered, n - 1, 0);
      ShadowsUpTo(ordered, n - 1) + if e.Some? then [Shadow(ordered[n - 1].id, e.value.id)] else []
  }

  method FindShadowedRules(rules: seq<Rule>) returns (out: seq<Shadow>)
    ensures out == ShadowsUpTo(ValidOnly(Ordered(rules)), |ValidOnly(Ordered(rules))|)
  {
    var ordered := ValidOnly(Ordered(rules));
    out := [];
    var i := if |ordered| > 0 then 1 else 0;
    while i < |ordered|
      invariant 0 <= i <= |ordered|
      invariant out == ShadowsUpTo(ordered, i)
    {
      var j := 0;
      while j < i && !Shadows(ordered[j], ordered[i])
        invariant 0 <= j <= i
        invariant FirstShadow(ordered, i, 0) == FirstShadow(ordered, i, j)
      {
        j := j + 1;
      }
      if j < i {
        out := out + [Shadow(ordered[i].id, ordered[j].id)];
      }
      i := i + 1;
    }
  }

  predicate NonNegative(sale: Option<real>) {
    sale.Some? ==> sale.value >= 0.0
  }

  /** Bounds as `parseRules` lets them through. */
  predicate NonNegativeBounds(r: Rule) {
    (r.min.Some? ==> r.min.value >= 0) && (r.max.Some? ==> r.max.value >= 0)
  }

  lemma ShadowsMeans(e: Rule, r: Rule, metadata: Metadata, sale: Option<real>)
    requires ValidRule(e) && Shadows(e, r) && NonNegative(sale) && Applies(r, metadata, sale)
    ensures Applies(e, metadata, sale)
  {
    hide ValidRule;
    var text := ValueOf(metadata, r.key).text;
    var i :| 0 <= i < |r.equals| && r.equals[i] == text;
  }

  /** A sale of the least amount the rule takes. */
  function Least(r: Rule): real {
    OrZero(r.min) as real
  }

  /** A sale in the rule's band beyond the end of another's. */
  function Beyond(e: Rule, r: Rule): real
    requires e.max.Some?
  {
    if r.max.Some? then r.max.value as real
    else if e.max.value + 1 < OrZero(r.min) then OrZero(r.min) as real
    else (e.max.value + 1) as real
  }

  lemma NotShadowedApplies(e: Rule, r: Rule) returns (metadata: Metadata, sale: Option<real>)
    requires ValidRule(r) && NonNegativeBounds(e) && NonNegativeBounds(r) && !Shadows(e, r)
    ensures NonNegative(sale) && Applies(r, metadata, sale) && !Applies(e, metadata, sale)
  {
    hide ValidRule;
    sale := None;
    assert ValidRule(r) ==> r.equals != [] by { WhatValidMeans(r); }
    WhatValidMeans(r);
    metadata := map[r.key := Scalar(r.equals[0])];
    if e.key != r.key {
    } else if i :| 0 <= i < |r.equals| && r.equals[i] !in e.equals {
      metadata := map[r.key := Scalar(r.equals[i])];
    } else if OrZero(e.min) > OrZero(r.min) {
      sale := Some(Least(r));
    } else {
      sale := Some(Beyond(e, r));
    }
  }

  lemma WhatValidMeans(r: Rule)
    requires ValidRule(r)
    ensures r.equals != [] && (r.min.Some? && r.max.Some? ==> r.min.value <= r.max.value)
  {
  }

  /** The test for shadowing is exact: the earlier rule takes every sale the later one could. */
  lemma ShadowsExactly(e: Rule, r: Rule)
    requires ValidRule(e) && ValidRule(r) && NonNegativeBounds(e) && NonNegativeBounds(r)
    ensures Shadows(e, r) <==>
      forall metadata, sale :: NonNegative(sale) && Applies(r, metadata, sale) ==> Applies(e, metadata, sale)
  {
    hide ValidRule, Applies, NonNegative;
    if Shadows(e, r) {
      forall metadata, sale | NonNegative(sale) && Applies(r, metadata, sale) ensures Applies(e, metadata, sale) {
        ShadowsMeans(e, r, metadata, sale);
      }
    } else {
      var metadata, sale := NotShadowedApplies(e, r);
    }
  }

  predicate UniqueIds(rules: seq<Rule>) {
    forall i, j :: 0 <= i < j < |rules| ==> rules[i].id != rules[j].id
  }

  predicate IsFirstShadow(ordered: seq<Rule>, i: nat, j: nat, k: nat)
    requires j <= k < i < |ordered|
  {
    Shadows(ordered[k], ordered[i]) && forall m :: j <= m < k ==> !Shadows(ordered[m], ordered[i])
  }

  lemma {:induction false} FirstShadowSound(ordered: seq<Rule>, i: nat, j: nat)
    requires j <= i < |ordered|
    ensures FirstShadow(ordered, i, j).Some? ==>
      exists k :: j <= k < i && ordered[k] == FirstShadow(ordered, i, j).value && IsFirstShadow(ordered, i, j, k)
    decreases i - j
  {
    hide Shadows;
    if j < i && !Shadows(ordered[j], ordered[i]) { FirstShadowSound(ordered, i, j + 1); }
  }

  /** A reported rule has, before it in the evaluation order, a valid rule that shadows it; the report names the first. */
  lemma {:induction false} ReportedIsShadowed(ordered: seq<Rule>, n: nat, s: Shadow)
    requires n <= |ordered| && s in ShadowsUpTo(ordered, n)
    ensures exists k, i ::
              0 <= k < i < n && ordered[i].id == s.ruleId && ordered[k].id == s.shadowedBy && IsFirstShadow(ordered, i, 0, k)
  {
    hide Shadows;
    if s in ShadowsUpTo(ordered, n - 1) {
      ReportedIsShadowed(ordered, n - 1, s);
    } else {
      FirstShadowSound(ordered, n - 1, 0);
    }
  }

  lemma {:induction false} FirstShadowComplete(ordered: seq<Rule>, i: nat, j: nat, k: nat)
    requires j <= k < i < |ordered| && Shadows(ordered[k], ordered[i])
    ensures FirstShadow(ordered, i, j).Some?
    decreases k - j
  {
    hide Shadows;
    if !Shadows(ordered[j], ordered[i]) { FirstShadowComplete(ordered, i, j + 1, k); }
  }

  lemma {:induction false} ShadowedAtIsReported(ordered: seq<Rule>, n: nat, k: nat, i: nat)
    requires k < i < n <= |ordered| && Shadows(ordered[k], ordered[i])
    ensures exists s :: s in ShadowsUpTo(ordered, n) && s.ruleId == ordered[i].id
  {
    hide Shadows;
    if i < n - 1 {
      ShadowedAtIsReported(ordered, n - 1, k, i);
      var s :| s in ShadowsUpTo(ordered, n - 1) && s.ruleId == ordered[i].id;
      assert s in ShadowsUpTo(ordered, n);
    } else {
      FirstShadowComplete(ordered, i, 0, k);
      var s := Shadow(ordered[i].id, FirstShadow(ordered, i, 0).value.id);
      assert s in ShadowsUpTo(ordered, n);
    }
  }

  /** Leaving invalid rules out keeps the others, in order. */
  lemma {:induction false} ValidOnlyKeepsOrder(order: seq<Ranked>, a: nat, b: nat)
    requires a < b < |order| && ValidRule(order[a].rule) && ValidRule(order[b].rule)
    ensures exists k, i :: 0 <= k < i < |ValidOnly(order)| && ValidOnly(order)[k] == order[a].rule && ValidOnly(order)[i] == order[b].rule
  {
    hide ValidRule;
    var rest := ValidOnly(order[1..]);
    if a > 0 {
      ValidOnlyKeepsOrder(order[1..], a - 1, b - 1);
      var k, i :| 0 <= k < i < |rest| && rest[k] == order[a].rule && rest[i] == order[b].rule;
      var d := |ValidOnly(order)| - |rest|;
      assert ValidOnly(order)[k + d] == rest[k] && ValidOnly(order)[i + d] == rest[i];
    } else {
      ValidOnlyKeeps(order[1..], b - 1);
      assert order[1..][b - 1] == order[b];
      var i :| 0 <= i < |rest| && rest[i] == order[b].rule;
      assert ValidOnly(order) == [order[0].rule] + rest;
      assert ValidOnly(order)[0] == order[a].rule && ValidOnly(order)[i + 1] == order[b].rule;
    }
  }

  lemma {:induction false} ValidOnlyKeeps(order: seq<Ranked>, b: nat)
    requires b < |order| && ValidRule(order[b].rule)
    ensures exists i :: 0 <= i < |ValidOnly(order)| && ValidOnly(order)[i] == order[b].rule
  {
    hide ValidRule;
    var rest := ValidOnly(order[1..]);
    if b > 0 {
      ValidOnlyKeeps(order[1..], b - 1);
      assert order[1..][b - 1] == order[b];
      var i :| 0 <= i < |rest| && rest[i] == order[b].rule;
      var d := |ValidOnly(order)| - |rest|;
      assert ValidOnly(order)[i + d] == rest[i];
    } else {
      assert ValidOnly(order) == [order[0].rule] + rest;
      assert ValidOnly(order)[0] == order[0].rule;
    }
  }

  /** Every valid rule with an earlier valid rule that shadows it is reported. */
  lemma ShadowedIsReported(rules: seq<Rule>, e: nat, r: nat)
    requires e < |rules| && r < |rules| && ValidRule(rules[e]) && ValidRule(rules[r])
    requires Before(Ranked(rules[e], e), Ranked(rules[r], r)) && Shadows(rules[e], rules[r])
    ensures exists s :: s in ShadowsUpTo(ValidOnly(Ordered(rules)), |ValidOnly(Ordered(rules))|) && s.ruleId == rules[r].id
  {
    hide ValidRule, Shadows, Ordered, ValidOnly;
    OrderedIsSorted(rules);
    var order := Ordered(rules);
    var x, y := Ranked(rules[e], e), Ranked(rules[r], r);
    assert x in order && y in order;
    var a :| 0 <= a < |order| && order[a] == x;
    var b :| 0 <= b < |order| && order[b] == y;
    assert a < b by { OrderDecides(order, a, b); }
    ValidOnlyKeepsOrder(order, a, b);
    var ordered := ValidOnly(order);
    var k, i :| 0 <= k < i < |ordered| && ordered[k] == rules[e] && ordered[i] == rules[r];
    ShadowedAtIsReported(ordered, |ordered|, k, i);
  }

  /** Of two places the one whose rule comes before is the smaller. */
  lemma OrderDecides(order: seq<Ranked>, a: nat, b: nat)
    requires InOrder(order) && a < |order| && b < |order|
    ensures b <= a ==> !Before(order[a], order[b])
  {
  }

  function FirstValid(ordered: seq<Rule>, metadata: Metadata, sale: Option<real>): Option<Rule> {
    if ordered == [] then None
    else if Applies(ordered[0], metadata, sale) then Some(ordered[0])
    else FirstValid(ordered[1..], metadata, sale)
  }

  /** Leaving invalid rules out does not change which rule pays. */
  lemma {:induction false} ValidOnlyMatches(order: seq<Ranked>, metadata: Metadata, sale: Option<real>)
    ensures FirstValid(ValidOnly(order), metadata, sale) == FirstApplying(order, metadata, sale)
    ensures forall i :: 0 <= i < |ValidOnly(order)| ==> ValidRule(ValidOnly(order)[i])
    ensures forall r :: r in ValidOnly(order) ==> exists x :: x in order && x.rule == r
  {
    hide ValidRule, ValueOf, InBand;
    if order != [] {
      var rest := ValidOnly(order[1..]);
      ValidOnlyMatches(order[1..], metadata, sale);
      forall r | r in ValidOnly(order) ensures exists x :: x in order && x.rule == r {
        if r in rest {
          var x :| x in order[1..] && x.rule == r;
          assert x in order;
        } else {
          assert order[0] in order;
        }
      }
      if ValidRule(order[0].rule) {
        assert ValidOnly(order)[1..] == rest;
      } else {
        assert ValidOnly(order) == rest;
      }
    }
  }

  lemma {:induction false} FirstValidIsNotLater(ordered: seq<Rule>, k: nat, metadata: Metadata, sale: Option<real>)
    requires k < |ordered| && Applies(ordered[k], metadata, sale)
    ensures exists p :: 0 <= p <= k && FirstValid(ordered, metadata, sale) == Some(ordered[p]) && Applies(ordered[p], metadata, sale)
  {
    hide Applies;
    if !Applies(ordered[0], metadata, sale) {
      FirstValidIsNotLater(ordered[1..], k - 1, metadata, sale);
      var p :| 0 <= p <= k - 1 && FirstValid(ordered[1..], metadata, sale) == Some(ordered[1..][p]);
      assert ordered[1..][p] == ordered[p + 1];
    }
  }

  ghost predicate DistinctIds(ordered: seq<Rule>) {
    forall i, j :: 0 <= i < j < |ordered| ==> ordered[i].id != ordered[j].id
  }

  ghost predicate DistinctRanked(order: seq<Ranked>) {
    forall i, j :: 0 <= i < j < |order| ==> order[i].rule.id != order[j].rule.id
  }

  lemma OrderedIsDistinct(rules: seq<Rule>)
    requires UniqueIds(rules)
    ensures DistinctRanked(Ordered(rules))
  {
    OrderedIsSorted(rules);
    var order := Ordered(rules);
    hide Ordered;
    forall i, j | 0 <= i < j < |order| ensures order[i].rule.id != order[j].rule.id {
      assert order[i] in order && order[j] in order && Before(order[i], order[j]);
      assert order[i].index != order[j].index;
    }
  }

  lemma DistinctCons(r: Rule, rest: seq<Rule>)
    requires DistinctIds(rest) && forall x :: x in rest ==> x.id != r.id
    ensures DistinctIds([r] + rest)
  {
    var all := [r] + rest;
    forall i, j | 0 <= i < j < |all| ensures all[i].id != all[j].id {
      assert all[j] in rest;
    }
  }

  lemma {:induction false} ValidOnlyIsDistinct(order: seq<Ranked>)
    requires DistinctRanked(order)
    ensures DistinctIds(ValidOnly(order))
    ensures forall r :: r in ValidOnly(order) ==> exists i :: 0 <= i < |order| && order[i].rule == r
  {
    hide ValidRule;
    if order != [] {
      var rest := ValidOnly(order[1..]);
      ValidOnlyIsDistinct(order[1..]);
      assert forall i :: 1 <= i < |order| ==> order[i] == order[1..][i - 1];
      forall r | r in rest ensures r.id != order[0].rule.id && exists i :: 0 <= i < |order| && order[i].rule == r {
        var i :| 0 <= i < |order[1..]| && order[1..][i].rule == r;
        assert order[i + 1].rule == r;
      }
      if ValidRule(order[0].rule) {
        DistinctCons(order[0].rule, rest);
      } else {
        assert ValidOnly(order) == rest;
      }
    }
  }

  /** A rule reported as shadowed never pays, for any metadata and any sale that is not negative. */
  lemma ShadowedNeverFires(rules: seq<Rule>, s: Shadow, metadata: Metadata, sale: Option<real>)
    requires UniqueIds(rules) && NonNegative(sale)
    requires s in ShadowsUpTo(ValidOnly(Ordered(rules)), |ValidOnly(Ordered(rules))|)
    ensures var m := Match(rules, metadata, sale); m.Some? ==> m.value.id != s.ruleId
  {
    hide ShadowsUpTo, Shadows, Applies, ValidRule, Ordered, ValidOnly;
    var order := Ordered(rules);
    var ordered := ValidOnly(order);
    OrderedIsDistinct(rules);
    ValidOnlyIsDistinct(order);
    ReportedIsShadowed(ordered, |ordered|, s);
    ValidOnlyMatches(order, metadata, sale);
    var k, i :| 0 <= k < i < |ordered| && ordered[i].id == s.ruleId && Shadows(ordered[k], ordered[i]);
    var m := FirstValid(ordered, metadata, sale);
    assert m == Match(rules, metadata, sale);
    if m.Some? {
      FirstValidApplies(ordered, metadata, sale);
      var q :| 0 <= q < |ordered| && ordered[q] == m.value;
      if Applies(ordered[i], metadata, sale) {
        ShadowsMeans(ordered[k], ordered[i], metadata, sale);
        FirstValidIsNotLater(ordered, k, metadata, sale);
        var p :| 0 <= p <= k && m == Some(ordered[p]);
        assert ordered[p].id != ordered[i].id;
      } else {
        assert q != i;
      }
    }
  }

  // ----- When a rule never fires -----

  /** The rule applies to a sale whose metadata hold this value under its key. */
  predicate Takes(r: Rule, key: string, value: string, sale: Option<real>) {
    ValidRule(r) && r.key == key && value in r.equals && InBand(r, sale)
  }

  /** Whatever value and sale the rule would take, some rule before it takes. */
  ghost predicate Covered(rules: seq<Rule>, i: nat)
    requires i < |rules|
  {
    forall value, sale :: NonNegative(sale) && Takes(rules[i], rules[i].key, value, sale) ==>
      exists e :: 0 <= e < |rules| && Before(Ranked(rules[e], e), Ranked(rules[i], i)) && Takes(rules[e], rules[i].key, value, sale)
  }

  lemma TakesMeans(r: Rule, key: string, value: string, sale: Option<real>)
    ensures Takes(r, key, value, sale) <==> Applies(r, map[key := Scalar(value)], sale)
  {
    hide ValidRule, InBand;
  }

  function TextOf(metadata: Metadata, key: string): string {
    if ValueOf(metadata, key).Scalar? then ValueOf(metadata, key).text else ""
  }

  lemma AppliesMeans(r: Rule, e: Rule, metadata: Metadata, sale: Option<real>)
    requires Applies(r, metadata, sale)
    ensures Takes(r, r.key, TextOf(metadata, r.key), sale)
    ensures Takes(e, r.key, TextOf(metadata, r.key), sale) ==> Applies(e, metadata, sale)
  {
    hide ValidRule, InBand;
  }

  lemma BeforeIsOneWay(a: Ranked, b: Ranked)
    requires Before(a, b)
    ensures !Before(b, a)
  {
  }

  /**
   A rule never pays exactly when the rules before it, together, take everything it
   would.  The report of shadowed rules looks for one such rule.
   */
  lemma NeverFiresExactly(rules: seq<Rule>, i: nat)
    requires i < |rules| && UniqueIds(rules)
    ensures (forall metadata, sale :: NonNegative(sale) ==> Match(rules, metadata, sale) != Some(rules[i])) <==> Covered(rules, i)
  {
    hide Match, Applies, Takes, Before, NonNegative;
    if Covered(rules, i) {
      forall metadata, sale | NonNegative(sale) ensures Match(rules, metadata, sale) != Some(rules[i]) {
        if Match(rules, metadata, sale) == Some(rules[i]) { CoveredIsNotFirst(rules, i, metadata, sale); }
      }
    } else {
      var value, sale :| NonNegative(sale) && Takes(rules[i], rules[i].key, value, sale)
        && !exists e :: 0 <= e < |rules| && Before(Ranked(rules[e], e), Ranked(rules[i], i)) && Takes(rules[e], rules[i].key, value, sale);
      UncoveredIsFirst(rules, i, value, sale);
    }
  }

  lemma CoveredIsNotFirst(rules: seq<Rule>, i: nat, metadata: Metadata, sale: Option<real>)
    requires i < |rules| && UniqueIds(rules) && Covered(rules, i) && NonNegative(sale)
    ensures Match(rules, metadata, sale) != Some(rules[i])
  {
    hide Match, Applies, Takes, Before, NonNegative;
    MatchIsFirst(rules, metadata, sale);
    if Match(rules, metadata, sale) == Some(rules[i]) {
      var w :| 0 <= w < |rules| && rules[w] == rules[i] && Applies(rules[w], metadata, sale)
        && forall k :: 0 <= k < |rules| && k != w && Applies(rules[k], metadata, sale) ==> Before(Ranked(rules[w], w), Ranked(rules[k], k));
      assert w == i;
      AppliesMeans(rules[i], rules[i], metadata, sale);
      var value := TextOf(metadata, rules[i].key);
      var e :| 0 <= e < |rules| && Before(Ranked(rules[e], e), Ranked(rules[i], i)) && Takes(rules[e], rules[i].key, value, sale);
      AppliesMeans(rules[i], rules[e], metadata, sale);
      BeforeIsOneWay(Ranked(rules[e], e), Ranked(rules[i], i));
    }
  }

  lemma UncoveredIsFirst(rules: seq<Rule>, i: nat, value: string, sale: Option<real>)
    requires i < |rules| && Takes(rules[i], rules[i].key, value, sale)
    requires !exists e :: 0 <= e < |rules| && Before(Ranked(rules[e], e), Ranked(rules[i], i)) && Takes(rules[e], rules[i].key, value, sale)
    ensures Match(rules, map[rules[i].key := Scalar(value)], sale) == Some(rules[i])
  {
    hide Match, Applies, Takes, Before;
    var metadata := map[rules[i].key := Scalar(value)];
    MatchIsFirst(rules, metadata, sale);
    forall k | 0 <= k < |rules|
      ensures Takes(rules[k], rules[i].key, value, sale) <==> Applies(rules[k], metadata, sale)
    {
      TakesMeans(rules[k], rules[i].key, value, sale);
    }
  }

  /** Two rules take one value each, the third takes both. */
  function Trio(key: string, a: string, b: string): seq<Rule> {
    [Rule("1", key, [a], Flat, 1, None, None, None, None), Rule("2", key, [b], Flat, 1, None, None, None, None),
     Rule("3", key, [a, b], Flat, 1, None, None, None, None)]
  }

  /** The third rule never pays, and is not reported: neither of the others covers it alone. */
  lemma CoveredTogetherIsNotReported(key: string, a: string, b: string)
    requires Trim(key) != "" && a != b
    ensures var rules := Trio(key, a, b);
      && (forall metadata, sale :: NonNegative(sale) ==> Match(rules, metadata, sale) != Some(rules[2]))
      && (forall s :: s in ShadowsUpTo(ValidOnly(Ordered(rules)), |ValidOnly(Ordered(rules))|) ==> s.ruleId != "3")
  {
    var rules := Trio(key, a, b);
    TrioIsCovered(key, a, b);
    NeverFiresExactly(rules, 2);
    hide Ordered, ValidOnly, ShadowsUpTo, Match;
    var ordered := ValidOnly(Ordered(rules));
    OrderedIsSorted(rules);
    OrderedIsDistinct(rules);
    ValidOnlyIsDistinct(Ordered(rules));
    forall s | s in ShadowsUpTo(ordered, |ordered|) ensures s.ruleId != "3" {
      ReportedIsShadowed(ordered, |ordered|, s);
      var k, i :| 0 <= k < i < |ordered| && ordered[i].id == s.ruleId && Shadows(ordered[k], ordered[i]);
      assert ordered[k].id != ordered[i].id;
      AmongTrio(key, a, b, ordered[k]);
      AmongTrio(key, a, b, ordered[i]);
      if s.ruleId == "3" { AloneDoesNotShadow(key, a, b, ordered[k]); }
    }
  }

  lemma TrioIsCovered(key: string, a: string, b: string)
    requires Trim(key) != ""
    ensures UniqueIds(Trio(key, a, b)) && Covered(Trio(key, a, b), 2)
  {
    var rules := Trio(key, a, b);
    assert rules[0].id == "1" && rules[1].id == "2" && rules[2].id == "3";
    forall value, sale | NonNegative(sale) && Takes(rules[2], key, value, sale)
      ensures exists e :: 0 <= e < |rules| && Before(Ranked(rules[e], e), Ranked(rules[2], 2)) && Takes(rules[e], key, value, sale)
    {
      assert Before(Ranked(rules[0], 0), Ranked(rules[2], 2)) && Before(Ranked(rules[1], 1), Ranked(rules[2], 2));
      assert Takes(rules[if value == a then 0 else 1], key, value, sale);
    }
  }

  lemma AmongTrio(key: string, a: string, b: string, r: Rule)
    requires var rules := Trio(key, a, b); r in ValidOnly(Ordered(rules))
    ensures r in Trio(key, a, b)
  {
    var rules := Trio(key, a, b);
    hide Ordered;
    OrderedIsSorted(rules);
    ValidOnlyMatches(Ordered(rules), map[], None);
  }

  lemma AloneDoesNotShadow(key: string, a: string, b: string, r: Rule)
    requires a != b && r in Trio(key, a, b) && r.id != "3"
    ensures !Shadows(r, Trio(key, a, b)[2])
  {
    var third := Trio(key, a, b)[2];
    assert third.equals[0] == a && third.equals[1] == b;
    assert a in third.equals && b in third.equals;
  }

  lemma {:induction false} FirstValidApplies(ordered: seq<Rule>, metadata: Metadata, sale: Option<real>)
    ensures var m := FirstValid(ordered, metadata, sale);
      m.Some? ==> Applies(m.value, metadata, sale) && exists q :: 0 <= q < |ordered| && ordered[q] == m.value
  {
    hide Applies;
    if ordered != [] {
      if Applies(ordered[0], metadata, sale) {
        assert ordered[0] == FirstValid(ordered, metadata, sale).value;
      } else {
        FirstValidApplies(ordered[1..], metadata, sale);
        var m := FirstValid(ordered, metadata, sale);
        if m.Some? {
          var q :| 0 <= q < |ordered[1..]| && ordered[1..][q] == m.value;
          assert ordered[q + 1] == m.value;
        }
      }
    }
  }

  // ----- computeReward and resolveReward -----

  datatype Default = Default(kind: Kind, amount: int, cap: Option<int>)

  datatype Reward = Reward(cents: int, ruleId: Option<string>)

  function Raw(kind: Kind, amount: int, sale: real): int {
    match kind
    case Percent => (sale * amount as real / MAX_PERCENT_BPS as real).Floor
    case Flat => amount
  }

  function WithCap(raw: int, cap: Option<int>): int {
    if cap.Some? && cap.value >= 0 && cap.value < raw then cap.value else raw
  }

  function Capped(raw: int, cap: Option<int>, sale: real): int {
    if sale.Floor < WithCap(raw, cap) then sale.Floor else WithCap(raw, cap)
  }

  function ComputeReward(sale: real, metadata: Metadata, rules: seq<Rule>, fallback: Option<Default>): Reward {
    if sale <= 0.0 then Reward(0, None)
    else
      match Match(rules, metadata, Some(sale))
      case Some(rule) => Reward(Capped(Raw(rule.kind, rule.amount, sale), rule.cap, sale), Some(rule.id))
      case None =>
        match fallback
        case None => Reward(0, None)
        case Some(d) => Reward(Capped(Raw(d.kind, d.amount, sale), d.cap, sale), None)
  }

  predicate ValidDefault(d: Default) {
    d.amount >= 0 && (d.kind.Percent? ==> d.amount <= MAX_PERCENT_BPS)
  }

  lemma RawNonNegative(kind: Kind, amount: int, sale: real)
    requires sale > 0.0 && amount >= 0
    ensures Raw(kind, amount, sale) >= 0
  {
    assert sale * amount as real >= 0.0;
    assert sale * amount as real / MAX_PERCENT_BPS as real >= 0.0;
  }

  /** A percentage of at most 100 never pays more than the sale, even before it is capped. */
  lemma PercentWithinSale(amount: int, sale: real)
    requires sale > 0.0 && 0 <= amount <= MAX_PERCENT_BPS
    ensures Raw(Percent, amount, sale) <= sale.Floor
  {
    assert sale * amount as real <= sale * MAX_PERCENT_BPS as real;
    assert sale * amount as real / MAX_PERCENT_BPS as real <= sale;
  }

  /** The commission before anything cuts it: so many hundredths of a per cent of the sale, in whole cents, or the amount. */
  predicate IsShare(cents: int, kind: Kind, amount: int, sale: real) {
    match kind
    case Percent => 10000.0 * cents as real <= sale * amount as real < 10000.0 * (cents + 1) as real
    case Flat => cents == amount
  }

  predicate IsWholeOf(cents: int, sale: real) {
    cents as real <= sale < (cents + 1) as real
  }

  /** The least of a share, a cap that is not negative, and the whole cents of the sale. */
  predicate IsLeast(cents: int, share: int, cap: Option<int>, sale: real) {
    && cents <= share && cents as real <= sale && (cap.Some? && cap.value >= 0 ==> cents <= cap.value)
    && (cents == share || IsWholeOf(cents, sale) || (cap.Some? && cap.value >= 0 && cents == cap.value))
  }

  ghost predicate IsPaid(cents: int, kind: Kind, amount: int, cap: Option<int>, sale: real) {
    exists share :: IsShare(share, kind, amount, sale) && IsLeast(cents, share, cap, sale)
  }

  lemma RawIsShare(kind: Kind, amount: int, sale: real)
    ensures IsShare(Raw(kind, amount, sale), kind, amount, sale)
  {
    if kind.Percent? {
      var x := sale * amount as real / 10000.0;
      assert x.Floor as real <= x < (x.Floor + 1) as real;
    }
  }

  lemma CappedIsPaid(kind: Kind, amount: int, cap: Option<int>, sale: real)
    ensures IsPaid(Capped(Raw(kind, amount, sale), cap, sale), kind, amount, cap, sale)
  {
    RawIsShare(kind, amount, sale);
    hide Raw, IsShare;
    var raw := Raw(kind, amount, sale);
    assert IsWholeOf(sale.Floor, sale);
    assert IsLeast(Capped(raw, cap, sale), raw, cap, sale);
  }

  /** What a rule, a default or neither pays. */
  lemma RewardIsPaid(sale: real, metadata: Metadata, rules: seq<Rule>, fallback: Option<Default>)
    ensures var r := ComputeReward(sale, metadata, rules, fallback);
      var m := Match(rules, metadata, Some(sale));
      && (sale <= 0.0 ==> r == Reward(0, None))
      && (sale > 0.0 && m.Some? ==> r.ruleId == Some(m.value.id) && IsPaid(r.cents, m.value.kind, m.value.amount, m.value.cap, sale))
      && (sale > 0.0 && m.None? && fallback.Some? ==>
            r.ruleId.None? && IsPaid(r.cents, fallback.value.kind, fallback.value.amount, fallback.value.cap, sale))
      && (m.None? && fallback.None? ==> r == Reward(0, None))
  {
    hide Match, Capped, Raw, IsPaid;
    var m := Match(rules, metadata, Some(sale));
    if m.Some? { CappedIsPaid(m.value.kind, m.value.amount, m.value.cap, sale); }
    if fallback.Some? { CappedIsPaid(fallback.value.kind, fallback.value.amount, fallback.value.cap, sale); }
  }

  /** A percentage of at most 100 is cut by its cap alone: it is paid in full, or its cap is. */
  predicate PercentPaid(cents: int, amount: int, cap: Option<int>, sale: real) {
    if cap.Some? && cap.value >= 0 && 10000.0 * (cap.value + 1) as real <= sale * amount as real then cents == cap.value
    else IsShare(cents, Percent, amount, sale)
  }

  lemma PercentIsPaid(amount: int, cap: Option<int>, sale: real)
    requires sale > 0.0 && 0 <= amount <= MAX_PERCENT_BPS
    ensures PercentPaid(Capped(Raw(Percent, amount, sale), cap, sale), amount, cap, sale)
  {
    RawIsShare(Percent, amount, sale);
    PercentWithinSale(amount, sale);
    hide Raw;
  }

  /**
   A commission is never negative, never more than the sale, never more than the
   cap of the rule that pays it; no rule and no default pays nothing.  A percentage
   is cut by its cap only, never by the size of the sale.
   */
  lemma RewardIsBounded(sale: real, metadata: Metadata, rules: seq<Rule>, fallback: Option<Default>)
    requires fallback.Some? ==> ValidDefault(fallback.value)
    ensures var r := ComputeReward(sale, metadata, rules, fallback);
      && 0 <= r.cents
      && (sale > 0.0 ==> r.cents <= sale.Floor)
      && (sale <= 0.0 ==> r.cents == 0)
      && (r.ruleId.Some? ==> exists i ::
            && 0 <= i < |rules| && rules[i].id == r.ruleId.value && Applies(rules[i], metadata, Some(sale))
            && (rules[i].cap.Some? && rules[i].cap.value >= 0 ==> r.cents <= rules[i].cap.value)
            && (rules[i].kind.Percent? ==> PercentPaid(r.cents, rules[i].amount, rules[i].cap, sale)))
  {
    hide Match, Applies, Raw, PercentPaid;
    if sale > 0.0 {
      MatchIsFirst(rules, metadata, Some(sale));
      var m := Match(rules, metadata, Some(sale));
      if m.Some? {
        var w :| 0 <= w < |rules| && rules[w] == m.value && Applies(rules[w], metadata, Some(sale));
        AppliesIsValid(rules[w], metadata, Some(sale));
        RawNonNegative(m.value.kind, m.value.amount, sale);
        if m.value.kind.Percent? { PercentIsPaid(m.value.amount, m.value.cap, sale); }
      } else if fallback.Some? {
        RawNonNegative(fallback.value.kind, fallback.value.amount, sale);
      }
    }
  }

  lemma AppliesIsValid(r: Rule, metadata: Metadata, sale: Option<real>)
    requires Applies(r, metadata, sale)
    ensures r.amount >= 0 && (r.kind.Percent? ==> r.amount <= MAX_PERCENT_BPS)
  {
  }

  datatype Scope = Scope(rules: seq<Rule>, fallback: Option<Default>)

  datatype Resolved = Resolved(reward: Reward, scope: Option<nat>)

  predicate Decides(s: Scope, metadata: Metadata, sale: real) {
    Match(s.rules, metadata, Some(sale)).Some? || s.fallback.Some?
  }

  /** The most specific scope that matches a rule or has a default decides, and no other matters. */
  method ResolveReward(sale: real, metadata: Metadata, scopes: seq<Scope>) returns (r: Resolved)
    ensures r.scope.None? ==>
      r.reward == Reward(0, None) && forall k :: 0 <= k < |scopes| ==> !Decides(scopes[k], metadata, sale)
    ensures r.scope.None? ==> forall k :: 0 <= k < |scopes| ==> scopes[k].fallback.None?
    ensures r.scope.Some? ==> forall k :: 0 <= k < |scopes| && k < r.scope.value ==> scopes[k].fallback.None?
    ensures r.scope.Some? ==>
      && r.scope.value < |scopes|
      && Decides(scopes[r.scope.value], metadata, sale)
      && (forall k :: 0 <= k < r.scope.value ==> !Decides(scopes[k], metadata, sale))
      && r.reward == ComputeReward(sale, metadata, scopes[r.scope.value].rules, scopes[r.scope.value].fallback)
  {
    hide Match, ComputeReward;
    for i := 0 to |scopes|
      invariant forall k :: 0 <= k < i ==> !Decides(scopes[k], metadata, sale)
    {
      var scope := scopes[i];
      var m := MatchRule(scope.rules, metadata, Some(sale));
      if m.None? && scope.fallback.None? {
        continue;
      }
      return Resolved(ComputeReward(sale, metadata, scope.rules, scope.fallback), Some(i));
    }
    return Resolved(Reward(0, None), None);
  }
}
