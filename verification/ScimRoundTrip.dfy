/**
 What the SCIM filter parser and printer do to each other
 (src/lib/scim-filter.ts).
 */
module ScimRoundTrip {
  import opened Prelude
  import opened ScimSyntax
  import opened ScimFilter
  import opened ScimReading

  // ----- Printed trees are read back, and no others are read -----

  /**
   `and` binds tighter than `or`, both associate to the left, and parentheses
   are needed only where `Print` writes them: reading what is printed gives the
   tree back exactly when it does not nest too deeply.
   */
  lemma PrintedIsRead(t: Filter)
    requires Valid(t)
    ensures ParseTokens(Print(t)) == if Need(t) <= MAX_DEPTH then Some(t) else None
  {
    hide Core, Need, OrExp, Valid;
    OrReads(t, [], 0);
    OrTailEnds(t, [], 0);
    assert Core(t) + [] == Core(t);
  }

  /** Parentheses that are not needed change nothing but the depth. */
  lemma ParenthesesAreAllowed(t: Filter, rest: seq<Token>, depth: nat)
    requires Valid(t)
    ensures Primary(Paren(Core(t)) + rest, depth) == if Fits(depth, 1 + Need(t)) then Some(Parsed(t, rest)) else None
  {
    hide Core, Valid, Need, Paren, OrExp, Primary, OrTail, IsWord;
    CloseShape(CLOSE, rest);
    NoAnd([Punct(CLOSE)] + rest);
    OrReads(t, [Punct(CLOSE)] + rest, depth + 1);
    GroupStep(t, rest, depth);
  }

  /**
   The trees the parser can produce from any tokens the lexer can produce are
   exactly the valid ones that do not nest too deeply; inside brackets, valid
   means: no value path, and no `not` as a left operand.
   */
  lemma TreesExactly(t: Filter)
    ensures (exists ts :: Numbered(ts) && ParseTokens(ts) == Some(t)) <==> Valid(t) && Need(t) <= MAX_DEPTH
  {
    hide Valid, Need, Core, OrExp, Numbered;
    if Valid(t) && Need(t) <= MAX_DEPTH {
      PrintedIsRead(t);
      PrintsTokens(t);
      assert Numbered(Print(t)) && ParseTokens(Print(t)) == Some(t);
    }
    if ts :| Numbered(ts) && ParseTokens(ts) == Some(t) {
      OrSound(ts, 0);
      SamePlace(t);
    }
  }

  // ----- How the two grammars differ -----

  /** The tokens of `a and b or c`. */
  function Chain(a: Filter, b: Filter, c: Filter): seq<Token>
    requires a.Attr? && b.Attr? && c.Attr?
  {
    PrintAttr(a) + ([Atom(AND)] + (PrintAttr(b) + ([Atom(OR)] + PrintAttr(c))))
  }

  /** `a and b or c` is `(a and b) or c` at the top level and `a and (b or c)` inside brackets. */
  lemma BracketsHaveNoPrecedence(path: Path, a: Filter, b: Filter, c: Filter)
    requires ValidPath(path)
    requires a.Attr? && b.Attr? && c.Attr? && ValidAttr(a) && ValidAttr(b) && ValidAttr(c)
    ensures ParseTokens(Chain(a, b, c)) == Some(Or(And(a, b), c))
    ensures ParseTokens([Atom(PathText(path)), Punct(OPEN_BRACKET)] + (Chain(a, b, c) + [Punct(CLOSE_BRACKET)])) ==
      Some(ValuePath(path, And(a, Or(b, c))))
  {
    FlatShape(a, b, c);
    NestedShape(a, b, c);
    hide *;
    var flat, selected := Or(And(a, b), c), ValuePath(path, And(a, Or(b, c)));
    PrintedIsRead(flat);
    SelectedShape(path, And(a, Or(b, c)));
    PrintedIsRead(selected);
  }

  lemma SelectedShape(path: Path, child: Filter)
    ensures Print(ValuePath(path, child)) == [Atom(PathText(path)), Punct(OPEN_BRACKET)] + (PrintVal(child) + [Punct(CLOSE_BRACKET)])
    ensures Need(ValuePath(path, child)) == 1 + NeedVal(child)
    ensures ValidPath(path) && InBrackets(child) ==> Valid(ValuePath(path, child))
  {
    hide PathText, PrintVal, NeedVal;
  }

  lemma FlatShape(a: Filter, b: Filter, c: Filter)
    requires a.Attr? && b.Attr? && c.Attr? && ValidAttr(a) && ValidAttr(b) && ValidAttr(c)
    ensures var t := Or(And(a, b), c); Print(t) == Chain(a, b, c) && Need(t) <= MAX_DEPTH && Valid(t)
  {
    hide ValidAttr, PrintAttr;
    AttrShape(a);
    AttrShape(b);
    AttrShape(c);
    var ab := And(a, b);
    assert Core(ab) == PrintAttr(a) + ([Atom(AND)] + PrintAttr(b)) && Need(ab) == 1 && Valid(ab);
    assert PrintAt(ab, 0) == Core(ab) && NeedAt(ab, 0) == 1;
    OrPrinted(Or(ab, c), []);
    assert Core(Or(ab, c)) == Core(ab) + ([Atom(OR)] + PrintAttr(c)) && Need(Or(ab, c)) == 1;
  }

  lemma AttrShape(t: Filter)
    requires t.Attr?
    ensures Core(t) == PrintAt(t, 0) == PrintAt(t, 1) == PrintAt(t, 2) == PrintAttr(t)
    ensures Need(t) == NeedAt(t, 0) == NeedAt(t, 1) == NeedAt(t, 2) == 1
    ensures PrintVal(t) == PrintAttr(t) == PrintSpine(t) && NeedVal(t) == NeedSpine(t) == 1
    ensures ValidAttr(t) ==> Valid(t) && InBrackets(t)
  {
    hide PrintAttr, ValidAttr;
    assert Level(t) == 2 && Need(t) == 1 && Core(t) == PrintAttr(t);
  }

  lemma NestedShape(a: Filter, b: Filter, c: Filter)
    requires a.Attr? && b.Attr? && c.Attr? && ValidAttr(a) && ValidAttr(b) && ValidAttr(c)
    ensures var t := And(a, Or(b, c)); PrintVal(t) == Chain(a, b, c) && 1 + NeedVal(t) <= MAX_DEPTH && InBrackets(t)
  {
    hide ValidAttr, PrintAttr;
    AttrShape(a);
    AttrShape(b);
    AttrShape(c);
    var bc := Or(b, c);
    assert PrintVal(bc) == PrintAttr(b) + ([Atom(OR)] + PrintAttr(c)) && NeedVal(bc) == 2 && InBrackets(bc);
    var t := And(a, bc);
    assert PrintVal(t) == PrintSpine(a) + ([Atom(AND)] + PrintVal(bc)) && NeedVal(t) == Max(NeedSpine(a), 1 + NeedVal(bc));
    assert InBrackets(t);
  }

  /** Inside brackets nothing but the closing bracket can follow a leading group. */
  lemma GroupEndsBrackets(t: Filter, rest: seq<Token>, depth: nat)
    requires InBrackets(t) && !IsPunct(rest, CLOSE_BRACKET)
    ensures Closed(ValFilter(Paren(PrintVal(t)) + rest, depth), CLOSE_BRACKET) == None
  {
    hide ValFilter, PrintVal, InBrackets, NeedVal, Paren, StartsOp;
    ParenShape(PrintVal(t), rest);
    CloseShape(CLOSE, rest);
    ValReads(t, [Punct(CLOSE)] + rest, depth + 1);
    ValGroupStep(Paren(PrintVal(t)) + rest, depth);
  }

  lemma ValGroupStep(ts: seq<Token>, depth: nat)
    requires !IsWord(ts, NOT) && IsPunct(ts, OPEN)
    ensures ValFilter(ts, depth) == if depth < MAX_DEPTH then Closed(ValFilter(ts[1..], depth + 1), CLOSE) else None
  {
    hide Closed, ValTail, AttrExp, IsWord;
  }

  // ----- Whole filter texts -----

  function TrimStart(s: Text): Text {
    if s != [] && Space(s[0]) then TrimStart(s[1..]) else s
  }

  function TrimEnd(s: Text): Text {
    if s != [] && Space(s[|s| - 1]) then TrimEnd(s[..|s| - 1]) else s
  }

  function Trim(s: Text): Text {
    TrimEnd(TrimStart(s))
  }

  datatype Outcome = NoFilter | Accepted(tree: Filter) | Rejected

  function ParseText(input: Option<Text>): Outcome {
    if input.None? || Trim(input.value) == [] then NoFilter
    else
      match Lex(Trim(input.value))
      case None => Rejected
      case Some(tokens) => if ParseTokens(tokens).Some? then Accepted(ParseTokens(tokens).value) else Rejected
  }

  lemma {:induction false} WordLengthIsWord(s: Text)
    ensures ScimSyntax.Word(s[..WordLength(s)])
  {
    if s != [] && WordUnit(s[0]) {
      WordLengthIsWord(s[1..]);
      assert s[..WordLength(s)] == [s[0]] + s[1..][..WordLength(s[1..])];
    }
  }

  lemma NextTokenWellFormed(s: Text)
    requires s != [] && !Space(s[0])
    ensures NextToken(s).Some? ==> WellFormed(NextToken(s).value.token)
  {
    hide NumberText, ReadString;
    WordLengthIsWord(s);
  }

  lemma {:induction false} TokensWellFormed(s: Text)
    ensures Tokens(s).Some? ==> Numbered(Tokens(s).value)
    decreases |s|
  {
    hide NextToken, WellFormed, Space;
    if s != [] {
      if Space(s[0]) {
        TokensWellFormed(s[1..]);
      } else {
        NextTokenWellFormed(s);
        if NextToken(s).Some? { TokensWellFormed(s[NextToken(s).value.length..]); }
      }
    }
  }

  /** Whatever text is accepted, the filter is one of the valid trees. */
  lemma AcceptedIsValid(input: Option<Text>)
    ensures var r := ParseText(input); r.Accepted? ==> Valid(r.tree) && Need(r.tree) <= MAX_DEPTH
  {
    hide Tokens, ParseTokens, Valid, Need, Trim;
    if input.Some? {
      TokensWellFormed(Trim(input.value));
      if Tokens(Trim(input.value)).Some? {
        var ts := Tokens(Trim(input.value)).value;
        if ParseTokens(ts).Some? { TreesExactly(ParseTokens(ts).value); }
      }
    }
  }

  lemma TokenTextEnd(t: Token)
    requires WellFormed(t)
    ensures TokenText(t) != [] && !Space(TokenText(t)[|TokenText(t)| - 1])
  {
    hide NumberText;
    if t.Num? { NumberIsNumeric(t.text); }
  }

  lemma {:induction false} SpreadEnds(tokens: seq<Token>, gaps: seq<Text>)
    requires tokens != [] && GapsFit(tokens, gaps) && Numbered(tokens)
    ensures var s := Spread(tokens, gaps); s != [] && !Space(s[0]) && !Space(s[|s| - 1])
    decreases |tokens|
  {
    hide WellFormed, TokenText, Space;
    TokenTextEnd(tokens[0]);
    TokenRead(tokens[0], []);
    SpreadStart(tokens, gaps);
    if |tokens| > 1 { SpreadEnds(tokens[1..], gaps[1..]); }
  }

  lemma {:induction false} CoreNonEmpty(t: Filter)
    ensures Core(t) != []
  {
    hide PrintAttr, PrintVal;
    if t.Attr? { assert PrintAttr(t) != [] by { assert |PrintAttr(t)| >= 2 by { AttrLength(t); } } }
  }

  lemma AttrLength(t: Filter)
    requires t.Attr?
    ensures |PrintAttr(t)| >= 2
  {
  }

  /**
   Writing a valid filter in any layout and parsing the text gives the filter
   back exactly when the text is within the parser's limits on length and depth
   and none of its words, numbers and strings comes after 1024 other tokens.
   */
  lemma FilterTextIsRead(t: Filter, gaps: seq<Text>)
    requires Valid(t) && GapsFit(Print(t), gaps)
    ensures var text := Spread(Print(t), gaps);
      ParseText(Some(text)) ==
        if |text| <= 8192 && (forall i :: 1024 <= i < |Print(t)| ==> Print(t)[i].Punct?) && Need(t) <= 64 then Accepted(t)
        else Rejected
  {
    hide Core, Tokens, ParseTokens, Valid, Need, Spread, GapsFit, Space, Numbered;
    var text := Spread(Print(t), gaps);
    CoreNonEmpty(t);
    PrintsTokens(t);
    SpreadEnds(Print(t), gaps);
    TrimmedText(text);
    NumberedIsAll(Print(t));
    SpreadRead(Print(t), gaps);
    PrintedIsRead(t);
  }

  lemma NumberedIsAll(ts: seq<Token>)
    requires Numbered(ts)
    ensures forall t :: t in ts ==> WellFormed(t)
  {
  }

  lemma TrimmedText(s: Text)
    requires s != [] && !Space(s[0]) && !Space(s[|s| - 1])
    ensures Trim(s) == s
  {
  }

  // ----- More tokens than the limit -----

  const PRESENT := Attr([[97]], Pr, None)

  /** `a pr or a pr or ...`, `n` times. */
  function AnyOf(n: nat): Filter
    requires n > 0
  {
    if n == 1 then PRESENT else Or(AnyOf(n - 1), PRESENT)
  }

  function Nots(k: nat, t: Filter): Filter {
    if k == 0 then t else Not(Nots(k - 1, t))
  }

  predicate Short(ts: seq<Token>) {
    forall t :: t in ts ==> |TokenText(t)| <= 3
  }

  lemma PresentShape()
    ensures Valid(PRESENT) && PrintAttr(PRESENT) == [Atom([97]), Atom(OpText(Pr))] && Short(PrintAttr(PRESENT))
  {
    assert Lower([97]) == [97] by { LowerSmall([97]); }
    assert NOT[0] != 97;
    assert PathText([[97]]) == [97];
  }

  lemma {:induction false} AnyOfShape(n: nat)
    requires n > 0
    ensures Valid(AnyOf(n)) && Need(AnyOf(n)) == 1 && |Core(AnyOf(n))| == 3 * n - 1 && Short(Core(AnyOf(n)))
  {
    hide PrintAttr, ValidAttr;
    PresentShape();
    AttrShape(PRESENT);
    if n > 1 {
      AnyOfShape(n - 1);
      SamePlace(AnyOf(n - 1));
      OrPrinted(AnyOf(n), []);
      OrNeeds(AnyOf(n - 1), PRESENT);
    }
  }

  lemma OrNeeds(left: Filter, right: Filter)
    ensures Core(Or(left, right)) == PrintAt(left, 0) + ([Atom(OR)] + PrintAt(right, 1))
    ensures Need(Or(left, right)) == Max(NeedAt(left, 0), NeedAt(right, 1))
    ensures Valid(left) && Valid(right) ==> Valid(Or(left, right))
  {
    hide PrintAt, NeedAt;
  }

  predicate Closing(ts: seq<Token>) {
    forall t :: t in ts ==> t.Punct?
  }

  /** A tree under `k` negations: its own last tokens and `k` brackets are punctuation only from some point on. */
  lemma {:induction false} NotsShape(k: nat, t: Filter)
    requires Valid(t) && Short(Core(t))
    ensures Valid(Nots(k, t)) && Need(Nots(k, t)) == k + Need(t) && Short(Core(Nots(k, t)))
    ensures |Core(Nots(k, t))| == |Core(t)| + 3 * k
    ensures Closing(Core(Nots(k, t))[|Core(t)| + 2 * k..])
  {
    hide Core, Need, Valid;
    if k == 0 {
      assert Core(t)[|Core(t)|..] == [];
    } else {
      NotsShape(k - 1, t);
      NotShapes(Nots(k - 1, t));
      var inner := Core(Nots(k - 1, t));
      var outer := PrintNot(inner);
      var m := |Core(t)| + 2 * k;
      assert outer[m..] == inner[m - 2..] + [Punct(CLOSE)];
    }
  }

  lemma NotShapes(t: Filter)
    ensures Core(Not(t)) == PrintNot(Core(t)) && Need(Not(t)) == 1 + Need(t) && (Valid(t) ==> Valid(Not(t)))
  {
    hide PrintNot;
  }

  const BLANK: Text := [32]

  lemma {:induction false} SpacedLength(ts: seq<Token>)
    requires Short(ts)
    ensures GapsFit(ts, seq(|ts|, _ => BLANK)) && |Spread(ts, seq(|ts|, _ => BLANK))| <= 4 * |ts|
    decreases |ts|
  {
    hide TokenText;
    if |ts| > 1 {
      assert seq(|ts|, _ => BLANK)[1..] == seq(|ts| - 1, _ => BLANK);
      SpacedLength(ts[1..]);
    }
    if ts != [] { assert ts[0] in ts; }
  }

  /** A filter of 1085 tokens that is accepted: the 1024 are not exceeded before its closing brackets. */
  lemma LongFilterIsAccepted()
    ensures exists t, gaps ::
              GapsFit(Print(t), gaps) && |Print(t)| == 1085 && ParseText(Some(Spread(Print(t), gaps))) == Accepted(t)
  {
    hide Core, Need, Valid, ParseText, Spread, GapsFit, Short;
    var base := AnyOf(299);
    var t := Nots(63, base);
    AnyOfShape(299);
    NotsShape(63, base);
    var ts := Print(t);
    SpacedLength(ts);
    assert |ts| == 1085 && Need(t) == 64;
    assert !TooMany(ts) by {
      forall i | MAX_TOKENS <= i < |ts| ensures ts[i].Punct? {
        assert ts[i] == ts[1022..][i - 1022];
      }
    }
    FilterTextIsRead(t, seq(|ts|, _ => BLANK));
    assert GapsFit(Print(t), seq(|ts|, _ => BLANK));
  }
}
