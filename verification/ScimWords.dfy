/**
 What each word of a SCIM filter means, letter by letter (src/lib/scim-filter.ts).

 The parser and the printer look their words, brackets and separators up in the same
 tables, so reading back what was printed says nothing about the tables.  Here texts
 are spelled out as strings, in any letter case where the parser does not mind, and
 the trees they stand for are given beside them.
 */
module ScimWords {
  import opened Prelude
  import opened ScimSyntax
  import opened ScimFilter
  import opened ScimReading
  import opened ScimRoundTrip
  import JsText

  // ----- Spelling -----

  predicate Exactly(t: Text, word: string) {
    |t| == |word| && forall i :: 0 <= i < |t| ==> t[i] == word[i] as int
  }

  /** The word, each letter small or capital. */
  predicate Spelled(t: Text, word: string) {
    |t| == |word| && forall i :: 0 <= i < |t| ==> t[i] == word[i] as int || t[i] == word[i] as int - 32
  }

  predicate SpelledOp(t: Text, op: Op) {
    match op
    case Eq => Spelled(t, "eq")
    case Ne => Spelled(t, "ne")
    case Co => Spelled(t, "co")
    case Sw => Spelled(t, "sw")
    case Ew => Spelled(t, "ew")
    case Gt => Spelled(t, "gt")
    case Ge => Spelled(t, "ge")
    case Lt => Spelled(t, "lt")
    case Le => Spelled(t, "le")
    case Pr => Spelled(t, "pr")
  }

  predicate SmallLetters(word: string) {
    forall i :: 0 <= i < |word| ==> 'a' <= word[i] <= 'z'
  }

  lemma SpelledIs(t: Text, word: string, units: Text)
    requires SmallLetters(word) && Exactly(units, word)
    ensures Lower(t) == units <==> Spelled(t, word)
  {
    forall i | 0 <= i < |t| ensures |Lower(t)| == |t| && Lower(t)[i] == if 65 <= t[i] <= 90 then t[i] + 32 else t[i] {
      LowerAt(t, i);
    }
    if Spelled(t, word) {
      forall i | 0 <= i < |t| ensures Lower(t)[i] == units[i] {
        assert 'a' <= word[i] <= 'z';
      }
      assert Lower(t) == units;
    }
    if Lower(t) == units {
      forall i | 0 <= i < |t| ensures t[i] == word[i] as int || t[i] == word[i] as int - 32 {
        assert Lower(t)[i] == units[i];
      }
    }
  }

  lemma OpTextIsSpelled(t: Text, op: Op)
    ensures Lower(t) == OpText(op) <==> SpelledOp(t, op)
  {
    match op
    case Eq => SpelledIs(t, "eq", OpText(Eq));
    case Ne => SpelledIs(t, "ne", OpText(Ne));
    case Co => SpelledIs(t, "co", OpText(Co));
    case Sw => SpelledIs(t, "sw", OpText(Sw));
    case Ew => SpelledIs(t, "ew", OpText(Ew));
    case Gt => SpelledIs(t, "gt", OpText(Gt));
    case Ge => SpelledIs(t, "ge", OpText(Ge));
    case Lt => SpelledIs(t, "lt", OpText(Lt));
    case Le => SpelledIs(t, "le", OpText(Le));
    case Pr => SpelledIs(t, "pr", OpText(Pr));
    hide Lower, Spelled;
  }

  lemma OpOfIs(t: Text, op: Op)
    ensures OpOf(t) == Some(op) <==> t == OpText(op)
  {
  }

  /** A word is an operator exactly when it is spelled as that operator. */
  lemma OperatorsAre(t: Text, op: Op)
    ensures OpOf(Lower(t)) == Some(op) <==> SpelledOp(t, op)
  {
    hide OpOf, OpText, SpelledOp, Lower;
    OpOfIs(Lower(t), op);
    OpTextIsSpelled(t, op);
  }

  lemma WordsAre(t: Text)
    ensures Lower(t) == NOT <==> Spelled(t, "not")
    ensures Lower(t) == AND <==> Spelled(t, "and")
    ensures Lower(t) == OR <==> Spelled(t, "or")
  {
    SpelledIs(t, "not", NOT);
    SpelledIs(t, "and", AND);
    SpelledIs(t, "or", OR);
  }

  /** The values that are words are case-sensitive, and there are three. */
  lemma ValueWordsAre(t: Text)
    ensures LiteralOf(Atom(t)) == Some(LBool(true)) <==> Exactly(t, "true")
    ensures LiteralOf(Atom(t)) == Some(LBool(false)) <==> Exactly(t, "false")
    ensures LiteralOf(Atom(t)) == Some(LNull) <==> Exactly(t, "null")
    ensures LiteralOf(Atom(t)).Some? ==> Exactly(t, "true") || Exactly(t, "false") || Exactly(t, "null")
  {
    assert Exactly(TRUE, "true") && Exactly(FALSE, "false") && Exactly(NULL, "null");
    assert TRUE[0] != FALSE[0] && TRUE[0] != NULL[0] && FALSE[0] != NULL[0];
    if Exactly(t, "true") { assert t == TRUE; }
    if Exactly(t, "false") { assert t == FALSE; }
    if Exactly(t, "null") { assert t == NULL; }
  }

  lemma SpelledIsWellFormed(t: Text, word: string)
    requires SmallLetters(word) && word != "" && Spelled(t, word)
    ensures WellFormed(Atom(t))
  {
    forall i | 0 <= i < |t| ensures WordUnit(t[i]) && Letter(t[i]) {
      assert 'a' <= word[i] <= 'z';
    }
    NotANumber(t);
    hide NumberText;
  }

  // ----- Characters -----

  /** White space is what `trim` and `\s` take for it, in every module. */
  lemma SpacesAre(c: char)
    requires c as int < 0x10000
    ensures Space(c as int) <==> JsText.IsSpace(c)
  {
  }

  /** Words end at white space, quotes and brackets; names are letters, digits, `_` and `-`, from a letter on. */
  lemma CharactersAre(c: char)
    requires c as int < 128
    ensures WordUnit(c as int) <==> !JsText.IsSpace(c) && c !in "()[]\""
    ensures Letter(c as int) <==> 'a' <= c <= 'z' || 'A' <= c <= 'Z'
    ensures NameUnit(c as int) <==> 'a' <= c <= 'z' || 'A' <= c <= 'Z' || '0' <= c <= '9' || c == '_' || c == '-'
  {
  }

  // ----- Numbers -----

  predicate Digits(t: Text) {
    t != [] && forall i :: 0 <= i < |t| ==> '0' as int <= t[i] <= '9' as int
  }

  predicate Whole(t: Text) {
    Exactly(t, "0") || (Digits(t) && t[0] != '0' as int)
  }

  predicate Fraction(t: Text) {
    t == [] || (t[0] == '.' as int && Digits(t[1..]))
  }

  predicate Exponent(t: Text) {
    t == [] || ((t[0] == 'e' as int || t[0] == 'E' as int) &&
                (Digits(t[1..]) || (|t| > 1 && (t[1] == '+' as int || t[1] == '-' as int) && Digits(t[2..]))))
  }

  lemma {:induction false} DigitRunOf(ds: Text, x: Text)
    requires (forall i :: 0 <= i < |ds| ==> Digit(ds[i])) && (x != [] ==> !Digit(x[0]))
    ensures DigitRun(ds + x) == |ds|
  {
    if ds != [] {
      DigitRunOf(ds[1..], x);
      assert (ds + x)[1..] == ds[1..] + x;
    } else {
      assert ds + x == x;
    }
  }

  lemma ExponentsAre(t: Text)
    ensures Exponent(t) <==> ExponentPart(t)
  {
    if t != [] && |t| > 1 { assert t[1..][1..] == t[2..] && t[1..][0] == t[1]; }
  }

  lemma FractionsAre(f: Text, e: Text)
    requires Fraction(f) && Exponent(e)
    ensures FractionPart(f + e)
  {
    ExponentsAre(e);
    var t := f + e;
    if f == [] {
      assert t == e;
    } else {
      assert t[1..] == f[1..] + e;
      DigitRunOf(f[1..], e);
      assert t[1 + |f[1..]|..] == e;
    }
  }

  lemma DigitsPrefix(t: Text)
    requires DigitRun(t) > 0
    ensures DigitRun(t) <= |t| && Digits(t[..DigitRun(t)])
  {
    DigitRunIsDigits(t);
  }

  lemma FractionSplits(t: Text) returns (f: Text, e: Text)
    requires FractionPart(t)
    ensures t == f + e && Fraction(f) && Exponent(e)
  {
    if t != [] && t[0] == DOT {
      var n := DigitRun(t[1..]);
      DigitsPrefix(t[1..]);
      f, e := t[..1 + n], t[1 + n..];
      assert f[1..] == t[1..][..n];
    } else {
      f, e := [], t;
    }
    ExponentsAre(e);
  }

  ghost predicate NumberSpelled(t: Text, sign: Text, whole: Text, f: Text, e: Text) {
    && t == sign + (whole + (f + e))
    && (sign == [] || Exactly(sign, "-")) && Whole(whole) && Fraction(f) && Exponent(e)
  }

  /** A number is a sign or none, digits without a needless zero, a fraction or none, an exponent or none. */
  lemma NumbersAre(t: Text)
    ensures NumberText(t) <==> exists sign, whole, f, e :: NumberSpelled(t, sign, whole, f, e)
  {
    if NumberText(t) {
      var sign, whole, f, e := NumberSplits(t);
    }
    if sign, whole, f, e :| NumberSpelled(t, sign, whole, f, e) { SpelledIsNumber(t, sign, whole, f, e); }
  }

  lemma NumberSplits(t: Text) returns (sign: Text, whole: Text, f: Text, e: Text)
    requires NumberText(t)
    ensures NumberSpelled(t, sign, whole, f, e)
  {
    var m := SkipOne(t, MINUS, MINUS);
    sign := if m == t then [] else [MINUS];
    assert t == sign + m;
    whole, f, e := UnsignedSplits(m);
    hide NumberText, Whole, Fraction, Exponent;
  }

  lemma UnsignedSplits(m: Text) returns (whole: Text, f: Text, e: Text)
    requires m != []
    requires if m[0] == 48 then FractionPart(m[1..]) else 0 < DigitRun(m) <= |m| && FractionPart(m[DigitRun(m)..])
    ensures m == whole + (f + e) && Whole(whole) && Fraction(f) && Exponent(e)
  {
    var n := if m[0] == 48 then 1 else DigitRun(m);
    if m[0] != 48 { DigitsPrefix(m); }
    whole := m[..n];
    f, e := FractionSplits(m[n..]);
    hide Fraction, Exponent, FractionPart, DigitRun;
    assert m == whole + m[n..];
  }

  lemma SpelledIsNumber(t: Text, sign: Text, whole: Text, f: Text, e: Text)
    requires NumberSpelled(t, sign, whole, f, e)
    ensures NumberText(t)
  {
    var rest := f + e;
    var m := whole + rest;
    FractionsAre(f, e);
    assert SkipOne(t, MINUS, MINUS) == m by {
      if sign == [] { assert t == m; } else { assert t[0] == MINUS && t[1..] == m; }
    }
    assert m[|whole|..] == rest;
    if !Exactly(whole, "0") {
      assert rest != [] ==> !Digit(rest[0]);
      DigitRunOf(whole, rest);
    }
  }

  // ----- Paths -----

  function Dotted(path: Path): Text {
    if path == [] then []
    else if |path| == 1 then path[0]
    else path[0] + (['.' as int] + Dotted(path[1..]))
  }

  lemma {:induction false} DottedIsJoined(path: Path)
    ensures Dotted(path) == Joined(path)
  {
    if |path| > 1 { DottedIsJoined(path[1..]); }
  }

  /** What may stand before the last colon. */
  predicate Prefix(t: Text) {
    t != [] && t[0] != '.' as int && ScimSyntax.Word(t)
  }

  /** The names with dots between them, alone or after a schema URI and a colon. */
  ghost predicate PathWritten(t: Text, path: Path) {
    && ValidPath(path)
    && ((t == Dotted(path) && !Spelled(t, "not"))
        || exists prefix: Text :: Prefix(prefix) && t == prefix + [':' as int] + Dotted(path))
  }

  lemma PathIsRead(t: Text, path: Path)
    requires PathWritten(t, path)
    ensures WellFormed(Atom(t)) && AttrPath(t) == Some(path) && Lower(t) != NOT
  {
    hide Lower, Split, NumberText, AttrPath;
    DottedIsJoined(path);
    JoinedUnits(path);
    WordsAre(t);
    if t == Dotted(path) && !Spelled(t, "not") {
      NotANumber(t);
      JoinedRead(path);
      assert forall i :: 0 <= i < |t| ==> WordUnit(t[i]);
    } else {
      var prefix: Text :| Prefix(prefix) && t == prefix + [':' as int] + Dotted(path);
      PrefixedIsRead(prefix, path);
    }
  }

  lemma PrefixedIsRead(prefix: Text, path: Path)
    requires Prefix(prefix) && ValidPath(path)
    ensures var t := prefix + [':' as int] + Joined(path);
      WellFormed(Atom(t)) && AttrPath(t) == Some(path) && Lower(t) != NOT
  {
    hide Split, NumberText, Joined;
    var t := prefix + [':' as int] + Joined(path);
    JoinedUnits(path);
    LastColonAfter(prefix, Joined(path));
    SplitJoined(path);
    assert t[|prefix| + 1..] == Joined(path);
    LowerAt(t, |prefix|);
    hide Lower, LastIndexOf;
    assert t[|prefix|] == ':' as int;
    if NumberText(t) { NumberIsNumeric(t); }
    assert forall i :: 0 <= i < |t| ==> WordUnit(t[i]);
  }

  // ----- Comparisons -----

  /** Strings and numbers are tokens; the other values are words. */
  predicate ValueWritten(ts: seq<Token>, v: Option<Literal>) {
    match v
    case None => ts == []
    case Some(LString(s)) => ts == [Str(s)]
    case Some(LNumber(t)) => ts == [Num(t)] && NumberText(t)
    case Some(LBool(true)) => |ts| == 1 && ts[0].Atom? && Exactly(ts[0].text, "true")
    case Some(LBool(false)) => |ts| == 1 && ts[0].Atom? && Exactly(ts[0].text, "false")
    case Some(LNull) => |ts| == 1 && ts[0].Atom? && Exactly(ts[0].text, "null")
  }

  /** A path, an operator and, for all operators but `pr`, a value. */
  ghost predicate ComparisonWritten(ts: seq<Token>, t: Filter) {
    && t.Attr? && (t.op.Pr? <==> t.value.None?)
    && |ts| >= 2 && ts[0].Atom? && ts[1].Atom?
    && PathWritten(ts[0].text, t.path) && SpelledOp(ts[1].text, t.op) && ValueWritten(ts[2..], t.value)
  }

  lemma ComparisonStarts(ts: seq<Token>, t: Filter, rest: seq<Token>)
    requires ComparisonWritten(ts, t)
    ensures AttrExp(ts + rest) == Some(Parsed(t, rest))
    ensures !IsWord(ts + rest, NOT) && !IsPunct(ts + rest, OPEN) && !IsPunct((ts + rest)[1..], OPEN_BRACKET)
  {
    hide AttrPath, OpOf, Lower, PathWritten, SpelledOp, NumberText, Exactly;
    PathIsRead(ts[0].text, t.path);
    OperatorsAre(ts[1].text, t.op);
    var s := ts + rest;
    assert s[0] == ts[0] && s[1] == ts[1] && s[1..][1..] == s[2..] && s[1..][0] == ts[1];
    assert s[2..] == ts[2..] + rest;
    if t.value.Some? {
      assert s[2] == ts[2] && s[1..][1] == ts[2] && s[1..][2..] == rest;
      if ts[2].Atom? { ValueWordsAre(ts[2].text); }
    } else {
      assert s[2..] == rest;
    }
  }

  lemma ComparisonTokens(ts: seq<Token>, t: Filter)
    requires ComparisonWritten(ts, t)
    ensures forall x :: x in ts ==> WellFormed(x)
  {
    hide WellFormed, Lower, PathWritten, Spelled, NumberText;
    PathIsRead(ts[0].text, t.path);
    OperatorIsWellFormed(ts[1].text, t.op);
    forall x | x in ts ensures WellFormed(x) {
      var i :| 0 <= i < |ts| && ts[i] == x;
      if i == 2 { ValueIsWellFormed(ts[2..], t.value); }
    }
  }

  lemma OperatorIsWellFormed(w: Text, op: Op)
    requires SpelledOp(w, op)
    ensures WellFormed(Atom(w))
  {
    hide WellFormed, Spelled;
    match op
    case Eq => SpelledIsWellFormed(w, "eq");
    case Ne => SpelledIsWellFormed(w, "ne");
    case Co => SpelledIsWellFormed(w, "co");
    case Sw => SpelledIsWellFormed(w, "sw");
    case Ew => SpelledIsWellFormed(w, "ew");
    case Gt => SpelledIsWellFormed(w, "gt");
    case Ge => SpelledIsWellFormed(w, "ge");
    case Lt => SpelledIsWellFormed(w, "lt");
    case Le => SpelledIsWellFormed(w, "le");
    case Pr => SpelledIsWellFormed(w, "pr");
  }

  lemma ExactIsSpelled(t: Text, word: string)
    requires Exactly(t, word)
    ensures Spelled(t, word)
  {
  }

  lemma ValueIsWellFormed(ts: seq<Token>, v: Option<Literal>)
    requires ValueWritten(ts, v) && ts != []
    ensures WellFormed(ts[0])
  {
    hide Spelled, Exactly;
    match v
    case Some(LString(s)) =>
    case Some(LNumber(t)) =>
    case Some(LBool(true)) => ExactIsSpelled(ts[0].text, "true"); SpelledIsWellFormed(ts[0].text, "true");
    case Some(LBool(false)) => ExactIsSpelled(ts[0].text, "false"); SpelledIsWellFormed(ts[0].text, "false");
    case Some(LNull) => ExactIsSpelled(ts[0].text, "null"); SpelledIsWellFormed(ts[0].text, "null");
  }

  // ----- Texts -----

  /** What becomes of a text depends only on its length and on its tokens. */
  lemma TextIsParsed(ts: seq<Token>, gaps: seq<Text>)
    requires ts != [] && GapsFit(ts, gaps) && forall t :: t in ts ==> WellFormed(t)
    ensures var text := Spread(ts, gaps);
      ParseText(Some(text)) ==
        if |text| <= MAX_INPUT && !TooMany(ts) && ParseTokens(ts).Some? then Accepted(ParseTokens(ts).value) else Rejected
  {
    hide Tokens, ParseTokens, Spread, GapsFit, Space, WellFormed;
    SpreadEnds(ts, gaps);
    TrimmedText(Spread(ts, gaps));
    SpreadRead(ts, gaps);
  }

  /** A comparison written in any layout is read as the comparison it spells. */
  lemma ComparisonIsRead(ts: seq<Token>, t: Filter, gaps: seq<Text>)
    requires ComparisonWritten(ts, t) && GapsFit(ts, gaps) && |Spread(ts, gaps)| <= MAX_INPUT
    ensures ParseText(Some(Spread(ts, gaps))) == Accepted(t)
  {
    hide ParseText, Spread, GapsFit, WellFormed, PathWritten, SpelledOp, Exactly, AttrPath, Lower;
    ComparisonTokens(ts, t);
    TextIsParsed(ts, gaps);
    ComparisonStarts(ts, t, []);
    assert ts + [] == ts;
    hide AttrExp, Comparison;
    PrimaryIsComparison(ts, 0);
    TopIs(ts, t);
  }

  lemma PrimaryIsComparison(ts: seq<Token>, depth: nat)
    requires depth < MAX_DEPTH && !IsWord(ts, NOT) && !IsPunct(ts, OPEN) && ts != [] && !IsPunct(ts[1..], OPEN_BRACKET)
    ensures Primary(ts, depth) == AttrExp(ts)
  {
    hide AttrPath, Comparison, IsWord, IsPunct;
  }

  lemma TopIs(ts: seq<Token>, t: Filter)
    requires Primary(ts, 0) == Some(Parsed(t, []))
    ensures ParseTokens(ts) == Some(t)
  {
    NoAndAtEnd();
    OrTailEnds(t, [], 0);
    hide Primary;
    assert AndExp(ts, 0) == AndTail(t, [], 0);
    assert OrExp(ts, 0) == OrTail(t, [], 0);
  }

  // ----- Words between filters -----

  function Grouped(word: Token, ts: seq<Token>): seq<Token> {
    [word, Punct('(' as int)] + ts + [Punct(')' as int)]
  }

  /** `not` in any case, before a group. */
  lemma NotIsRead(w: Text, t: Filter, gaps: seq<Text>)
    requires Valid(t) && Spelled(w, "not")
    requires var ts := Grouped(Atom(w), Print(t)); GapsFit(ts, gaps) && !TooMany(ts) && |Spread(ts, gaps)| <= MAX_INPUT
    ensures ParseText(Some(Spread(Grouped(Atom(w), Print(t)), gaps))) == if 1 + Need(t) <= MAX_DEPTH then Accepted(Not(t)) else Rejected
  {
    hide ParseText, Spread, GapsFit, WellFormed, Spelled, Lower, Core, Need, OrExp, Valid, TooMany, AndExp;
    var ts := Grouped(Atom(w), Print(t));
    WordsAre(w);
    SpelledIsWellFormed(w, "not");
    PrintsTokens(t);
    TextIsParsed(ts, gaps) by { NumberedIsAll(Print(t)); PunctsAreWellFormed(); }
    assert ts[0] == Atom(w) && ts[1..][0] == Punct(OPEN) && ts[2..] == Core(t) + ([Punct(CLOSE)] + []);
    CloseShape(CLOSE, []);
    OrReads(t, [Punct(CLOSE)] + [], 1);
    OrTailEnds(t, [Punct(CLOSE)] + [], 1);
    hide Core;
    assert Primary(ts, 0) == if 1 + Need(t) <= MAX_DEPTH then Some(Parsed(Not(t), [])) else None;
    if 1 + Need(t) <= MAX_DEPTH { TopIs(ts, Not(t)); } else { TopIsNot(ts); }
  }

  lemma TopIsNot(ts: seq<Token>)
    requires Primary(ts, 0) == None
    ensures ParseTokens(ts) == None
  {
    hide Primary;
    assert AndExp(ts, 0) == None && OrExp(ts, 0) == None;
  }

  lemma PunctsAreWellFormed()
    ensures WellFormed(Punct('(' as int)) && WellFormed(Punct(')' as int))
    ensures WellFormed(Punct('[' as int)) && WellFormed(Punct(']' as int))
  {
  }

  lemma WordStarts(w: Text, x: seq<Token>)
    requires Spelled(w, "and") || Spelled(w, "or")
    ensures var s := [Atom(w)] + x;
      && StartsOp(s) && s[1..] == x && (IsWord(s, AND) <==> Spelled(w, "and")) && (IsWord(s, OR) <==> Spelled(w, "or"))
  {
    hide Lower, Spelled;
    WordsAre(w);
    assert ([Atom(w)] + x)[0] == Atom(w);
  }

  lemma NotBoth(w: Text)
    ensures !(Spelled(w, "and") && Spelled(w, "or"))
  {
  }

  /** `and` in any case, between operands that bind at least as tightly. */
  lemma AndIsRead(w: Text, left: Filter, right: Filter)
    requires Valid(left) && Valid(right) && Spelled(w, "and")
    ensures ParseTokens(PrintAt(left, 1) + ([Atom(w)] + PrintAt(right, 2))) ==
      if NeedAt(left, 1) <= MAX_DEPTH && NeedAt(right, 2) <= MAX_DEPTH then Some(And(left, right)) else None
  {
    hide PrintAt, NeedAt, Valid, Spelled, AndExp, Primary, IsWord, StartsOp, IsPunct;
    var x := [Atom(w)] + PrintAt(right, 2);
    WordStarts(w, PrintAt(right, 2));
    AndReads(left, x, 0);
    PrimaryReads(right, [], 0);
    assert PrintAt(right, 2) + [] == PrintAt(right, 2);
    AndStep(And(left, right), x, [], 0);
    NoAndAtEnd();
    OrTailEnds(And(left, right), [], 0);
    AndExpEnds(PrintAt(left, 1) + x, And(left, right));
  }

  lemma AndExpEnds(ts: seq<Token>, t: Filter)
    ensures AndExp(ts, 0) == Some(Parsed(t, [])) ==> ParseTokens(ts) == Some(t)
    ensures AndExp(ts, 0) == None ==> ParseTokens(ts) == None
  {
    NoAndAtEnd();
    OrTailEnds(t, [], 0);
    hide AndExp;
  }

  /** `or` in any case, between any operand and one that binds more tightly. */
  lemma OrIsRead(w: Text, left: Filter, right: Filter)
    requires Valid(left) && Valid(right) && Spelled(w, "or")
    ensures ParseTokens(PrintAt(left, 0) + ([Atom(w)] + PrintAt(right, 1))) ==
      if NeedAt(left, 0) <= MAX_DEPTH && NeedAt(right, 1) <= MAX_DEPTH then Some(Or(left, right)) else None
  {
    hide PrintAt, NeedAt, Valid, Spelled, AndExp, OrExp, Primary, IsWord, StartsOp, IsPunct, Core, Need;
    var x := [Atom(w)] + PrintAt(right, 1);
    WordStarts(w, PrintAt(right, 1));
    NotBoth(w);
    SamePlace(left);
    OrReads(left, x, 0);
    AndReads(right, [], 0);
    assert PrintAt(right, 1) + [] == PrintAt(right, 1);
    NoAndAtEnd();
    OrStep(Or(left, right), x, [], 0);
    OrTailEnds(Or(left, right), [], 0);
    OrTailEnds(right, [], 0);
  }

  lemma NoAndAtEnd()
    ensures !IsWord([], AND) && !StartsOp([])
  {
  }

  // ----- Inside brackets -----

  function Bracketed(path: Token, ts: seq<Token>): seq<Token> {
    [path, Punct('[' as int)] + ts + [Punct(']' as int)]
  }

  /** A path with a filter in brackets is read as that filter on the path's values. */
  lemma BracketsAreRead(p: Text, path: Path, ts: seq<Token>, child: Filter)
    requires PathWritten(p, path) && ValFilter(ts + [Punct(']' as int)], 1) == Some(Parsed(child, [Punct(']' as int)]))
    ensures ParseTokens(Bracketed(Atom(p), ts)) == Some(ValuePath(path, child))
  {
    hide PathWritten, AttrPath, Lower, ValFilter;
    var s := Bracketed(Atom(p), ts);
    PathIsRead(p, path);
    assert s[0] == Atom(p) && s[1..][0] == Punct(OPEN_BRACKET) && s[2..] == ts + [Punct(']' as int)];
    assert [Punct(']' as int)][1..] == [];
    TopIs(s, ValuePath(path, child));
  }

  lemma BracketComparisonIsRead(p: Text, path: Path, ts: seq<Token>, t: Filter)
    requires PathWritten(p, path) && ComparisonWritten(ts, t)
    ensures ParseTokens(Bracketed(Atom(p), ts)) == Some(ValuePath(path, t))
  {
    hide PathWritten, ComparisonWritten, AttrExp, ParseTokens, IsWord, IsPunct;
    var rest := [Punct(']' as int)];
    ComparisonStarts(ts, t, rest);
    CloseShape(CLOSE_BRACKET, []);
    assert rest == [Punct(CLOSE_BRACKET)] + [];
    BracketsAreRead(p, path, ts, t);
  }

  lemma BracketNotIsRead(p: Text, path: Path, w: Text, t: Filter)
    requires PathWritten(p, path) && InBrackets(t) && Spelled(w, "not") && 2 + NeedVal(t) <= MAX_DEPTH
    ensures ParseTokens(Bracketed(Atom(p), Grouped(Atom(w), PrintVal(t)))) == Some(ValuePath(path, Not(t)))
  {
    hide PathWritten, InBrackets, Spelled, NeedVal, PrintVal, ParseTokens, ValFilter, StartsOp, Lower, Bracketed;
    var rest := [Punct(']' as int)];
    var ts := Grouped(Atom(w), PrintVal(t));
    WordsAre(w);
    var s := ts + rest;
    assert s[0] == Atom(w) && s[1..][0] == Punct(OPEN) && s[2..] == PrintVal(t) + ([Punct(CLOSE)] + rest);
    ValNotStep(s, 1);
    CloseShape(CLOSE, rest);
    ValReads(t, [Punct(CLOSE)] + rest, 2);
    BracketsAreRead(p, path, ts, Not(t));
  }

  lemma BracketChainIsRead(p: Text, path: Path, w: Text, left: Filter, right: Filter)
    requires PathWritten(p, path) && (Spelled(w, "and") || Spelled(w, "or"))
    requires InBrackets(left) && !left.Not? && InBrackets(right)
    requires 1 + NeedSpine(left) <= MAX_DEPTH && 2 + NeedVal(right) <= MAX_DEPTH
    ensures var ts := PrintSpine(left) + ([Atom(w)] + PrintVal(right));
      ParseTokens(Bracketed(Atom(p), ts)) ==
        Some(ValuePath(path, if Spelled(w, "and") then And(left, right) else Or(left, right)))
  {
    hide PathWritten, InBrackets, Spelled, NeedVal, NeedSpine, PrintVal, PrintSpine, ParseTokens, ValFilter, StartsOp, Lower, Bracketed;
    hide IsWord, IsPunct, AttrThenTail, ValTail;
    var rest := [Punct(']' as int)];
    CloseShape(CLOSE_BRACKET, []);
    assert rest == [Punct(CLOSE_BRACKET)] + [];
    var t := if Spelled(w, "and") then And(left, right) else Or(left, right);
    var ts := PrintSpine(left) + ([Atom(w)] + PrintVal(right));
    var x := [Atom(w)] + (PrintVal(right) + rest);
    assert ts + rest == PrintSpine(left) + x;
    WordStarts(w, PrintVal(right) + rest);
    NotBoth(w);
    SpineStart(left, x);
    ValFilterIsAttrThenTail(PrintSpine(left) + x, 1);
    SpineReads(left, x, 1);
    ValReads(right, rest, 2);
    TailStep(t, x, PrintVal(right) + rest, rest, 1);
    BracketsAreRead(p, path, ts, t);
  }

  // ----- Around a filter -----

  /** Nothing may follow a filter. */
  lemma NothingMayFollow(t: Filter, rest: seq<Token>)
    requires Valid(t) && rest != [] && !StartsOp(rest)
    ensures ParseTokens(Print(t) + rest) == None
  {
    hide Core, Need, OrExp, Valid, StartsOp;
    NoAnd(rest);
    OrReads(t, rest, 0);
    OrTailEnds(t, rest, 0);
  }

  lemma {:induction false} BlankBefore(gap: Text, s: Text)
    requires Blank(gap)
    ensures ScimRoundTrip.TrimStart(gap + s) == ScimRoundTrip.TrimStart(s)
  {
    if gap != [] {
      BlankBefore(gap[1..], s);
      assert (gap + s)[1..] == gap[1..] + s;
    } else {
      assert gap + s == s;
    }
  }

  lemma {:induction false} BlankAfter(s: Text, gap: Text)
    requires Blank(gap)
    ensures ScimRoundTrip.TrimEnd(s + gap) == ScimRoundTrip.TrimEnd(s)
  {
    if gap != [] {
      BlankAfter(s, gap[..|gap| - 1]);
      assert (s + gap)[..|s + gap| - 1] == s + gap[..|gap| - 1];
    } else {
      assert s + gap == s;
    }
  }

  /** White space around a filter changes nothing, not even its length; white space alone is no filter. */
  lemma BlanksAroundAreDropped(before: Text, s: Text, behind: Text)
    requires Blank(before) && Blank(behind)
    requires s != [] ==> !Space(s[0]) && !Space(s[|s| - 1])
    ensures ParseText(Some(before + (s + behind))) == ParseText(Some(s))
    ensures s == [] ==> ParseText(Some(before + (s + behind))) == NoFilter
  {
    hide Lex, ParseTokens;
    BlankBefore(before, s + behind);
    if s == [] {
      assert s + behind == behind + [];
      BlankBefore(behind, []);
    } else {
      assert (s + behind)[0] == s[0];
      BlankAfter(s, behind);
      TrimmedText(s);
    }
  }
}
