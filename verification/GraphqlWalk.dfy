/**
 Depth and cost of a GraphQL operation (`analyzeGraphQLQuery` in
 src/lib/graphql-security.ts).

 The walk follows fragment spreads, but never the same fragment twice on one path,
 so it ends on every document: each spread it follows leaves fewer fragments
 unseen, and everything else it enters is a smaller piece of the document.  What
 it measures is compared with the operation written out, each spread replaced by
 the fields of its fragment, which exists when fragments can be ranked so that
 each spreads only lower ones.
 */
module GraphqlWalk {
  import opened Prelude

  const MAX_DEPTH := 8
  const MAX_COMPLEXITY := 80

  datatype Selection =
    | Leaf
    | Field(children: seq<Selection>)
    | Inline(children: seq<Selection>)
    | Spread(name: string)

  type Fragments = map<string, seq<Selection>>

  datatype Measure = Measure(depth: nat, cost: nat)

  const NOTHING := Measure(0, 0)

  function Max(a: nat, b: nat): nat {
    if a < b then b else a
  }

  function Join(a: Measure, b: Measure): Measure {
    Measure(Max(a.depth, b.depth), a.cost + b.cost)
  }

  function Unseen(fragments: Fragments, seen: set<string>): nat {
    |fragments.Keys - seen|
  }

  lemma SeeingOneMore(fragments: Fragments, seen: set<string>, name: string)
    requires name in fragments && name !in seen
    ensures Unseen(fragments, seen + {name}) < Unseen(fragments, seen)
  {
    assert fragments.Keys - (seen + {name}) == fragments.Keys - seen - {name};
  }

  /** What one call of the walk adds. */
  function Walk(selections: seq<Selection>, depth: nat, seen: set<string>, fragments: Fragments): Measure
    decreases Unseen(fragments, seen), selections, 1
  {
    Join(Measure(depth, 0), WalkEach(selections, depth, seen, fragments))
  }

  function WalkEach(selections: seq<Selection>, depth: nat, seen: set<string>, fragments: Fragments): Measure
    decreases Unseen(fragments, seen), selections, 0
  {
    if selections == [] then NOTHING
    else Join(WalkOne(selections[0], depth, seen, fragments), WalkEach(selections[1..], depth, seen, fragments))
  }

  function WalkOne(s: Selection, depth: nat, seen: set<string>, fragments: Fragments): Measure
    decreases Unseen(fragments, seen), s, 0
  {
    match s
    case Leaf => Measure(0, depth + 1)
    case Field(children) => Join(Measure(0, depth + 1), Walk(children, depth + 1, seen, fragments))
    case Inline(children) => Walk(children, depth, seen, fragments)
    case Spread(name) =>
      if name in seen || name !in fragments then NOTHING
      else
        SeeingOneMore(fragments, seen, name);
        Walk(fragments[name], depth, seen + {name}, fragments)
  }

  lemma WalkStarts(selections: seq<Selection>, depth: nat, seen: set<string>, fragments: Fragments)
    ensures Walk(selections, depth, seen, fragments) == Join(Measure(depth, 0), WalkEach(selections, depth, seen, fragments))
    ensures WalkEach([], depth, seen, fragments) == NOTHING
  {
  }

  lemma WalkStep(selections: seq<Selection>, i: nat, depth: nat, seen: set<string>, fragments: Fragments)
    requires i < |selections|
    ensures WalkEach(selections[i..], depth, seen, fragments) ==
      Join(WalkOne(selections[i], depth, seen, fragments), WalkEach(selections[i + 1..], depth, seen, fragments))
  {
    hide WalkOne, Join;
    assert selections[i..][1..] == selections[i + 1..];
  }

  class Walker {
    const fragments: Fragments
    var maxDepth: nat
    var complexity: nat

    constructor (fragments: Fragments)
      ensures this.fragments == fragments && maxDepth == 0 && complexity == 0
    {
      this.fragments := fragments;
      maxDepth, complexity := 0, 0;
    }

    function Total(): Measure
      reads this
    {
      Measure(maxDepth, complexity)
    }

    method Visit(selections: seq<Selection>, depth: nat, seen: set<string>)
      modifies this
      ensures Total() == Join(old(Total()), Walk(selections, depth, seen, fragments))
      decreases Unseen(fragments, seen), selections, 1
    {
      hide Walk, WalkEach, WalkOne, Unseen;
      WalkStarts(selections, depth, seen, fragments);
      maxDepth := Max(maxDepth, depth);
      ghost var begun := Total();
      assert selections[0..] == selections;
      for i := 0 to |selections|
        invariant Join(Total(), WalkEach(selections[i..], depth, seen, fragments)) ==
          Join(begun, WalkEach(selections, depth, seen, fragments))
      {
        WalkStep(selections, i, depth, seen, fragments);
        ghost var before := Total();
        VisitOne(selections[i], depth, seen);
        JoinAssociates(before, WalkOne(selections[i], depth, seen, fragments), WalkEach(selections[i + 1..], depth, seen, fragments));
      }
      assert selections[|selections|..] == [];
    }

    /** The body of the loop. */
    method VisitOne(s: Selection, depth: nat, seen: set<string>)
      modifies this
      ensures Total() == Join(old(Total()), WalkOne(s, depth, seen, fragments))
      decreases Unseen(fragments, seen), s, 0
    {
      hide Walk, Unseen;
      match s {
        case Leaf => complexity := complexity + depth + 1;
        case Field(children) =>
          complexity := complexity + depth + 1;
          Visit(children, depth + 1, seen);
        case Inline(children) => Visit(children, depth, seen);
        case Spread(name) =>
          if name !in seen && name in fragments {
            SeeingOneMore(fragments, seen, name);
            Visit(fragments[name], depth, seen + {name});
          }
      }
    }
  }

  lemma JoinAssociates(a: Measure, b: Measure, c: Measure)
    ensures Join(Join(a, b), c) == Join(a, Join(b, c))
  {
  }

  // ----- The operation written out -----

  /** A field, with its own fields if it has a selection set. */
  datatype Tree = TreeLeaf | TreeNode(children: seq<Tree>)

  type Ranks = map<string, nat>

  function RankOf(ranks: Ranks, name: string): nat {
    if name in ranks then ranks[name] else 0
  }

  /** Every defined fragment spread in `selections` has a rank below `bound`. */
  predicate SpreadsBelow(selections: seq<Selection>, bound: nat, fragments: Fragments, ranks: Ranks) {
    selections == [] || (SpreadBelow(selections[0], bound, fragments, ranks) && SpreadsBelow(selections[1..], bound, fragments, ranks))
  }

  predicate SpreadBelow(s: Selection, bound: nat, fragments: Fragments, ranks: Ranks) {
    match s
    case Leaf => true
    case Field(children) => SpreadsBelow(children, bound, fragments, ranks)
    case Inline(children) => SpreadsBelow(children, bound, fragments, ranks)
    case Spread(name) => name in fragments ==> RankOf(ranks, name) < bound
  }

  /** Fragments spread only fragments of lower rank: there are no cycles. */
  predicate Acyclic(fragments: Fragments, ranks: Ranks) {
    forall name :: name in fragments ==> SpreadsBelow(fragments[name], RankOf(ranks, name), fragments, ranks)
  }

  /** Each spread replaced by its fragment's fields, each inline fragment by its own. */
  function Expanded(selections: seq<Selection>, bound: nat, fragments: Fragments, ranks: Ranks): seq<Tree>
    decreases bound, selections, 0
  {
    if selections == [] then []
    else ExpandedOne(selections[0], bound, fragments, ranks) + Expanded(selections[1..], bound, fragments, ranks)
  }

  function ExpandedOne(s: Selection, bound: nat, fragments: Fragments, ranks: Ranks): seq<Tree>
    decreases bound, s, 1
  {
    match s
    case Leaf => [TreeLeaf]
    case Field(children) => [TreeNode(Expanded(children, bound, fragments, ranks))]
    case Inline(children) => Expanded(children, bound, fragments, ranks)
    case Spread(name) =>
      if name in fragments && RankOf(ranks, name) < bound then
        Expanded(fragments[name], RankOf(ranks, name), fragments, ranks)
      else []
  }

  /** Depth and cost of fields that stand at `depth`. */
  function TreesMeasure(trees: seq<Tree>, depth: nat): Measure
    decreases trees, 0
  {
    if trees == [] then NOTHING else Join(TreeMeasure(trees[0], depth), TreesMeasure(trees[1..], depth))
  }

  function TreeMeasure(t: Tree, depth: nat): Measure
    decreases t, 1
  {
    Join(Measure(0, depth + 1),
         if t.TreeLeaf? then NOTHING else Join(Measure(depth + 1, 0), TreesMeasure(t.children, depth + 1)))
  }

  lemma {:induction false} TreesMeasureConcat(a: seq<Tree>, b: seq<Tree>, depth: nat)
    ensures TreesMeasure(a + b, depth) == Join(TreesMeasure(a, depth), TreesMeasure(b, depth))
    decreases |a|
  {
    if a == [] {
      assert a + b == b;
    } else {
      assert (a + b)[1..] == a[1..] + b;
      TreesMeasureConcat(a[1..], b, depth);
    }
  }

  /** All names on the path so far rank at least `bound`: the guard against repeats never applies. */
  predicate SeenAbove(seen: set<string>, bound: nat, ranks: Ranks) {
    forall name :: name in seen ==> bound <= RankOf(ranks, name)
  }

  /** A measure taken while standing at `depth`. */
  function At(depth: nat, m: Measure): Measure {
    Join(Measure(depth, 0), m)
  }

  lemma {:induction false} WalkIsExpanded(
    selections: seq<Selection>, depth: nat, seen: set<string>, bound: nat, fragments: Fragments, ranks: Ranks)
    requires Acyclic(fragments, ranks) && SpreadsBelow(selections, bound, fragments, ranks) && SeenAbove(seen, bound, ranks)
    ensures Walk(selections, depth, seen, fragments) == At(depth, TreesMeasure(Expanded(selections, bound, fragments, ranks), depth))
    decreases bound, selections, 0
  {
    hide Acyclic, SeenAbove, WalkOne, ExpandedOne, SpreadBelow, Walk, WalkEach, TreesMeasure;
    WalkStarts(selections, depth, seen, fragments);
    if selections == [] {
      NoTrees(depth);
    } else {
      WalkOneIsExpanded(selections[0], depth, seen, bound, fragments, ranks);
      WalkIsExpanded(selections[1..], depth, seen, bound, fragments, ranks);
      WalkStep(selections, 0, depth, seen, fragments);
      WalkStarts(selections[1..], depth, seen, fragments);
      assert selections[0..] == selections;
      TreesMeasureConcat(ExpandedOne(selections[0], bound, fragments, ranks), Expanded(selections[1..], bound, fragments, ranks), depth);
    }
  }

  lemma NoTrees(depth: nat)
    ensures TreesMeasure([], depth) == NOTHING
  {
  }

  lemma {:induction false} WalkOneIsExpanded(
    s: Selection, depth: nat, seen: set<string>, bound: nat, fragments: Fragments, ranks: Ranks)
    requires Acyclic(fragments, ranks) && SpreadBelow(s, bound, fragments, ranks) && SeenAbove(seen, bound, ranks)
    ensures At(depth, WalkOne(s, depth, seen, fragments)) == At(depth, TreesMeasure(ExpandedOne(s, bound, fragments, ranks), depth))
    decreases bound, s, 1
  {
    hide Acyclic, Walk, Expanded, SpreadsBelow;
    match s
    case Leaf => OneTree(TreeLeaf, depth);
    case Field(children) =>
      WalkIsExpanded(children, depth + 1, seen, bound, fragments, ranks);
      OneTree(TreeNode(Expanded(children, bound, fragments, ranks)), depth);
    case Inline(children) => WalkIsExpanded(children, depth, seen, bound, fragments, ranks);
    case Spread(name) =>
      if name in fragments {
        var rank := RankOf(ranks, name);
        assert name !in seen;
        FragmentBelow(name, fragments, ranks);
        WalkIsExpanded(fragments[name], depth, seen + {name}, rank, fragments, ranks);
      }
  }

  lemma OneTree(t: Tree, depth: nat)
    ensures TreesMeasure([t], depth) == TreeMeasure(t, depth)
  {
    assert [t][1..] == [];
  }

  lemma FragmentBelow(name: string, fragments: Fragments, ranks: Ranks)
    requires Acyclic(fragments, ranks) && name in fragments
    ensures SpreadsBelow(fragments[name], RankOf(ranks, name), fragments, ranks)
  {
  }

  // ----- analyzeGraphQLQuery and assertGraphQLSafe -----

  /** The first operation is the one that is analysed. */
  method Analyze(operations: seq<seq<Selection>>, fragments: Fragments) returns (r: Option<Measure>)
    ensures r == if operations == [] then None else Some(Walk(operations[0], 0, {}, fragments))
  {
    if operations == [] {
      return None;
    }
    var walker := new Walker(fragments);
    walker.Visit(operations[0], 0, {});
    return Some(walker.Total());
  }

  predicate Safe(m: Measure) {
    m.depth < MAX_DEPTH && m.cost <= MAX_COMPLEXITY
  }

  /**
   If fragments do not spread each other in a circle, the walk measures the
   operation exactly as if every fragment were written out, each time it is
   spread; so it is let through exactly when that is within the limits.
   */
  lemma MeasuresWhatIsWrittenOut(operation: seq<Selection>, bound: nat, fragments: Fragments, ranks: Ranks)
    requires Acyclic(fragments, ranks) && SpreadsBelow(operation, bound, fragments, ranks)
    ensures var written := TreesMeasure(Expanded(operation, bound, fragments, ranks), 0);
      Walk(operation, 0, {}, fragments) == written && (Safe(Walk(operation, 0, {}, fragments)) <==> Safe(written))
  {
    hide Walk, TreesMeasure, Expanded, Acyclic, SpreadsBelow;
    WalkIsExpanded(operation, 0, {}, bound, fragments, ranks);
  }

  lemma WalkSingle(s: Selection, depth: nat, seen: set<string>, fragments: Fragments)
    ensures Walk([s], depth, seen, fragments) == At(depth, WalkOne(s, depth, seen, fragments))
  {
    hide Walk, WalkEach, WalkOne;
    WalkStarts([s], depth, seen, fragments);
    WalkStep([s], 0, depth, seen, fragments);
    assert [s][0..] == [s] && [s][1..] == [];
  }

  lemma WalkPair(a: Selection, b: Selection, depth: nat, seen: set<string>, fragments: Fragments)
    ensures Walk([a, b], depth, seen, fragments) ==
      At(depth, Join(WalkOne(a, depth, seen, fragments), WalkOne(b, depth, seen, fragments)))
  {
    hide Walk, WalkEach, WalkOne;
    var both := [a, b];
    WalkStarts(both, depth, seen, fragments);
    WalkStep(both, 0, depth, seen, fragments);
    WalkStep(both, 1, depth, seen, fragments);
    assert both[0..] == both && both[2..] == [];
  }

  /** A fragment that spreads itself is followed once: the walk ends, and counts its fields once. */
  lemma CircleIsFollowedOnce(name: string)
    ensures var circle := [Field([Leaf, Spread(name)])];
      Walk([Spread(name)], 0, {}, map[name := circle]) == Measure(1, 3)
  {
    hide Walk;
    var inner := [Leaf, Spread(name)];
    var fragments: Fragments := map[name := [Field(inner)]];
    WalkPair(Leaf, Spread(name), 1, {name}, fragments);
    WalkSingle(Field(inner), 0, {name}, fragments);
    WalkSingle(Spread(name), 0, {}, fragments);
    assert {} + {name} == {name};
  }

  // ----- Where the limits lie -----

  /** A field inside a field, `n` deep, with a plain field innermost. */
  function Nested(n: nat): seq<Selection> {
    if n == 0 then [Leaf] else [Field(Nested(n - 1))]
  }

  /** `n` plain fields side by side. */
  function Side(n: nat): seq<Selection> {
    if n == 0 then [] else [Leaf] + Side(n - 1)
  }

  function SumFrom(first: nat, n: nat): nat
    decreases n
  {
    if n == 0 then 0 else first + SumFrom(first + 1, n - 1)
  }

  lemma {:induction false} NestedMeasure(n: nat, depth: nat)
    ensures Walk(Nested(n), depth, {}, map[]) == Measure(depth + n, SumFrom(depth + 1, n + 1))
    decreases n
  {
    var s := Nested(n);
    assert s[1..] == [];
    if n > 0 {
      NestedMeasure(n - 1, depth + 1);
      assert WalkOne(s[0], depth, {}, map[]) == Join(Measure(0, depth + 1), Walk(Nested(n - 1), depth + 1, {}, map[]));
      assert WalkEach(s, depth, {}, map[]) == Join(WalkOne(s[0], depth, {}, map[]), WalkEach(s[1..], depth, {}, map[]));
    } else {
      assert SumFrom(depth + 1, 1) == depth + 1 + SumFrom(depth + 2, 0);
    }
  }

  lemma {:induction false} SideMeasure(n: nat)
    ensures WalkEach(Side(n), 0, {}, map[]) == Measure(0, n)
  {
    if n > 0 {
      SideMeasure(n - 1);
      assert Side(n)[1..] == Side(n - 1);
    }
  }

  lemma {:induction false} SumIs(first: nat, n: nat)
    ensures 2 * SumFrom(first, n) == n * (2 * first + n - 1)
    decreases n
  {
    if n > 0 { SumIs(first + 1, n - 1); }
  }

  /** Fields may nest seven deep; each costs one more than its depth, and at most 80 in all are allowed. */
  lemma LimitsAre(n: nat)
    ensures Safe(Walk(Nested(n), 0, {}, map[])) <==> n <= 7
    ensures Safe(Walk(Side(n), 0, {}, map[])) <==> n <= 80
  {
    NestedMeasure(n, 0);
    SideMeasure(n);
    SumIs(1, n + 1);
    if n <= 7 { assert (n + 1) * (2 + n) <= 8 * 9; }
  }
}
