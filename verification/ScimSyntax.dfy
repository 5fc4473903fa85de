/**
 The lexer of the SCIM filter parser (`lex` in src/lib/scim-filter.ts), over
 UTF-16 code units.  Which message an error carries is not modelled.

 A text is a run of white space and tokens: brackets and parentheses, strings with
 JSON escapes, numbers, and words, which end at the next space, bracket or quote.
 The number of tokens is tested only after strings, numbers and words.  The partner
 of the lexer is `Spread`, which writes tokens with any layout between them that
 keeps neighbouring words apart.
 */
module ScimSyntax {
  import opened Prelude
  import J = CanonicalJson

  type Text = J.Text
  type Unit = J.Unit

  const MAX_INPUT := 8192
  const MAX_TOKENS := 1024

  datatype Token =
    | Atom(text: Text)
    | Str(value: Text)
    | Num(text: Text)
    | Punct(unit: Unit)

  const OPEN: Unit := 40
  const CLOSE: Unit := 41
  const DOT: Unit := 46
  const COLON: Unit := 58
  const MINUS: Unit := 45
  const QUOTE: Unit := 34
  const BACKSLASH: Unit := 92
  const OPEN_BRACKET: Unit := 91
  const CLOSE_BRACKET: Unit := 93

  predicate Space(u: Unit) {
    || 9 <= u <= 13 || u == 32 || u == 160 || u == 0x1680 || 0x2000 <= u <= 0x200A
    || u == 0x2028 || u == 0x2029 || u == 0x202F || u == 0x205F || u == 0x3000 || u == 0xFEFF
  }

  predicate Bracket(u: Unit) {
    u == OPEN || u == CLOSE || u == OPEN_BRACKET || u == CLOSE_BRACKET
  }

  /** A code unit that continues an atom. */
  predicate WordUnit(u: Unit) {
    !Space(u) && !Bracket(u) && u != QUOTE
  }

  predicate Digit(u: Unit) {
    48 <= u <= 57
  }

  // ----- Numbers: -?(0|[1-9]\d*)(\.\d+)?([eE][+-]?\d+)? -----

  function DigitRun(t: Text): nat {
    if t == [] || !Digit(t[0]) then 0 else 1 + DigitRun(t[1..])
  }

  lemma {:induction false} DigitRunIsDigits(t: Text)
    ensures DigitRun(t) <= |t| && forall i :: 0 <= i < DigitRun(t) ==> Digit(t[i])
  {
    if t != [] && Digit(t[0]) {
      DigitRunIsDigits(t[1..]);
      forall i | 0 <= i < DigitRun(t) ensures Digit(t[i]) {
        if i > 0 { assert t[i] == t[1..][i - 1]; }
      }
    }
  }

  predicate AllDigits(t: Text) {
    t != [] && forall i :: 0 <= i < |t| ==> Digit(t[i])
  }

  function SkipOne(t: Text, u: Unit, v: Unit): Text {
    if t != [] && (t[0] == u || t[0] == v) then t[1..] else t
  }

  predicate ExponentPart(t: Text) {
    t == [] || ((t[0] == 69 || t[0] == 101) && AllDigits(SkipOne(t[1..], 43, MINUS)))
  }

  predicate FractionPart(t: Text) {
    if t != [] && t[0] == DOT then
      var n := DigitRun(t[1..]);
      n > 0 && n < |t| && ExponentPart(t[1 + n..])
    else ExponentPart(t)
  }

  predicate NumberText(t: Text) {
    var m := SkipOne(t, MINUS, MINUS);
    && m != []
    && if m[0] == 48 then FractionPart(m[1..]) else DigitRun(m) > 0 && DigitRun(m) <= |m| && FractionPart(m[DigitRun(m)..])
  }

  predicate NumericUnit(u: Unit) {
    Digit(u) || u == 43 || u == MINUS || u == DOT || u == 69 || u == 101
  }

  predicate Numeric(t: Text) {
    forall i :: 0 <= i < |t| ==> NumericUnit(t[i])
  }

  lemma NumericConcat(s: Text, t: Text)
    requires Numeric(s) && Numeric(t)
    ensures Numeric(s + t)
  {
  }

  lemma NumericSplit(t: Text, n: nat)
    requires n <= |t| && Numeric(t[..n]) && Numeric(t[n..])
    ensures Numeric(t)
  {
    assert t == t[..n] + t[n..];
    NumericConcat(t[..n], t[n..]);
  }

  lemma ExponentNumeric(t: Text)
    requires ExponentPart(t)
    ensures Numeric(t)
  {
    if t != [] {
      var rest := t[1..];
      if SkipOne(rest, 43, MINUS) != rest { NumericSplit(rest, 1); }
      NumericSplit(t, 1);
    }
  }

  lemma FractionNumeric(t: Text)
    requires FractionPart(t)
    ensures Numeric(t)
  {
    if t != [] && t[0] == DOT {
      var n := DigitRun(t[1..]);
      DigitRunIsDigits(t[1..]);
      ExponentNumeric(t[1 + n..]);
      assert Numeric(t[1..][..n]) && t[1..][n..] == t[1 + n..];
      NumericSplit(t[1..], n);
      NumericSplit(t, 1);
    } else {
      ExponentNumeric(t);
    }
  }

  lemma NumberIsNumeric(t: Text)
    requires NumberText(t)
    ensures Numeric(t) && t != [] && t[0] != DOT
  {
    var m := SkipOne(t, MINUS, MINUS);
    var n := if m[0] == 48 then 1 else DigitRun(m);
    DigitRunIsDigits(m);
    FractionNumeric(m[n..]);
    NumericSplit(m, n);
    if m != t { NumericSplit(t, 1); }
  }

  // ----- Tokens -----

  function ShortEscape(u: Unit): Option<Unit> {
    if u == QUOTE || u == BACKSLASH || u == 47 then Some(u)
    else if u == 98 then Some(8)
    else if u == 102 then Some(12)
    else if u == 110 then Some(10)
    else if u == 114 then Some(13)
    else if u == 116 then Some(9)
    else None
  }

  function HexValue(u: Unit): Option<nat> {
    if Digit(u) then Some(u - 48)
    else if 97 <= u <= 102 then Some(u - 87)
    else if 65 <= u <= 70 then Some(u - 55)
    else None
  }

  function FourHex(t: Text): Option<Unit>
    requires |t| >= 4
  {
    var a, b, c, d := HexValue(t[0]), HexValue(t[1]), HexValue(t[2]), HexValue(t[3]);
    if a.Some? && b.Some? && c.Some? && d.Some? && 4096 * a.value + 256 * b.value + 16 * c.value + d.value < 0x10000 then
      Some(4096 * a.value + 256 * b.value + 16 * c.value + d.value)
    else None
  }

  /** One code unit of a string's content, and how much text it took. */
  datatype Piece = Piece(unit: Unit, length: nat)

  function ReadPiece(s: Text): Option<Piece>
    requires s != []
    ensures ReadPiece(s).Some? ==> 0 < ReadPiece(s).value.length <= |s|
  {
    if s[0] != BACKSLASH then Some(Piece(s[0], 1))
    else if |s| < 2 then None
    else if s[1] == 117 then
      if |s| >= 6 && FourHex(s[2..]).Some? then Some(Piece(FourHex(s[2..]).value, 6)) else None
    else if ShortEscape(s[1]).Some? then Some(Piece(ShortEscape(s[1]).value, 2))
    else None
  }

  datatype Content = Content(value: Text, length: nat)

  /** The content of a string up to and including its closing quote. */
  function ReadString(s: Text): Option<Content>
    ensures ReadString(s).Some? ==> 0 < ReadString(s).value.length <= |s|
    decreases |s|
  {
    if s == [] then None
    else if s[0] == QUOTE then Some(Content([], 1))
    else
      match ReadPiece(s)
      case None => None
      case Some(p) =>
        match ReadString(s[p.length..])
        case None => None
        case Some(c) => Some(Content([p.unit] + c.value, p.length + c.length))
  }

  function WordLength(s: Text): (n: nat)
    ensures n <= |s|
  {
    if s == [] || !WordUnit(s[0]) then 0 else 1 + WordLength(s[1..])
  }

  function WordToken(t: Text): Token {
    if NumberText(t) then Num(t) else Atom(t)
  }

  datatype Lexed = Lexed(token: Token, length: nat)

  /** The token at the head of a text that starts with no space. */
  function NextToken(s: Text): (r: Option<Lexed>)
    requires s != [] && !Space(s[0])
    ensures r.Some? ==> 0 < r.value.length <= |s|
  {
    if Bracket(s[0]) || s[0] == DOT then Some(Lexed(Punct(s[0]), 1))
    else if s[0] == QUOTE then
      match ReadString(s[1..])
      case None => None
      case Some(c) => Some(Lexed(Str(c.value), 1 + c.length))
    else Some(Lexed(WordToken(s[..WordLength(s)]), WordLength(s)))
  }

  function Tokens(s: Text): Option<seq<Token>>
    decreases |s|
  {
    if s == [] then Some([])
    else if Space(s[0]) then Tokens(s[1..])
    else
      match NextToken(s)
      case None => None
      case Some(l) =>
        match Tokens(s[l.length..])
        case None => None
        case Some(rest) => Some([l.token] + rest)
  }

  /** The count is only looked at after a word, a number or a string, so punctuation at the end is free. */
  predicate TooMany(tokens: seq<Token>) {
    exists i :: MAX_TOKENS <= i < |tokens| && !tokens[i].Punct?
  }

  function Lex(input: Text): Option<seq<Token>> {
    if |input| > MAX_INPUT then None
    else
      match Tokens(input)
      case None => None
      case Some(tokens) => if TooMany(tokens) then None else Some(tokens)
  }

  // ----- Writing tokens -----

  predicate WellFormed(t: Token) {
    match t
    case Atom(text) => text != [] && text[0] != DOT && Word(text) && !NumberText(text)
    case Num(text) => NumberText(text)
    case Punct(u) => Bracket(u) || u == DOT
    case Str(_) => true
  }

  predicate Word(t: Text) {
    forall i :: 0 <= i < |t| ==> WordUnit(t[i])
  }

  /** A string is written as `JSON.stringify` writes it. */
  function TokenText(t: Token): Text {
    match t
    case Atom(text) => text
    case Num(text) => text
    case Punct(u) => [u]
    case Str(value) => J.Quoted(value)
  }

  predicate Blank(gap: Text) {
    forall i :: 0 <= i < |gap| ==> Space(gap[i])
  }

  /** Only two words in a row, or a word and a dot, need a gap. */
  predicate NeedsGap(a: Token, b: Token) {
    (a.Atom? || a.Num?) && (b.Atom? || b.Num? || b == Punct(DOT))
  }

  predicate GapsFit(tokens: seq<Token>, gaps: seq<Text>) {
    |tokens| <= 1 || (
      && gaps != []
      && Blank(gaps[0])
      && (NeedsGap(tokens[0], tokens[1]) ==> gaps[0] != [])
      && GapsFit(tokens[1..], gaps[1..]))
  }

  /** The tokens' texts with the given gaps between them. */
  function Spread(tokens: seq<Token>, gaps: seq<Text>): Text
    requires GapsFit(tokens, gaps)
  {
    if tokens == [] then []
    else if |tokens| == 1 then TokenText(tokens[0])
    else TokenText(tokens[0]) + (gaps[0] + Spread(tokens[1..], gaps[1..]))
  }

  // ----- What is written is read back -----

  lemma HexDigitRead(d: nat)
    requires d < 16
    ensures HexValue(J.Hex(d)) == Some(d)
  {
  }

  lemma FourHexRead(u: Unit, x: Text)
    ensures FourHex(J.UnicodeEscape(u)[2..] + x) == Some(u)
  {
    hide J.Hex, HexValue;
    HexDigitRead(u / 4096);
    HexDigitRead(u / 256 % 16);
    HexDigitRead(u / 16 % 16);
    HexDigitRead(u % 16);
    J.HexDigits(u);
  }

  lemma EscapedRead(u: Unit, x: Text)
    ensures ReadPiece(J.Escaped(u) + x) == Some(Piece(u, |J.Escaped(u)|))
    ensures J.Escaped(u) != [] && J.Escaped(u)[0] != QUOTE
  {
    hide FourHex;
    var e := J.Escaped(u);
    if |e| == 6 {
      assert (e + x)[2..] == e[2..] + x;
      FourHexRead(u, x);
    }
  }

  function Prepended(u: Unit, length: nat, r: Option<Content>): Option<Content> {
    match r
    case None => None
    case Some(c) => Some(Content([u] + c.value, length + c.length))
  }

  lemma PieceThen(e: Text, u: Unit, rest: Text)
    requires e != [] && e[0] != QUOTE && ReadPiece(e + rest) == Some(Piece(u, |e|))
    ensures ReadString(e + rest) == Prepended(u, |e|, ReadString(rest))
  {
    hide ReadPiece;
    assert (e + rest)[|e|..] == rest;
  }

  /** A code unit that needs no escape is one piece. */
  lemma RawThen(u: Unit, rest: Text)
    requires u != QUOTE && u != BACKSLASH
    ensures ReadString([u] + rest) == Prepended(u, 1, ReadString(rest))
  {
    assert ([u] + rest)[0] == u;
    PieceThen([u], u, rest);
  }

  lemma {:induction false} BodyRead(s: Text, x: Text)
    ensures ReadString(J.Body(s) + ([QUOTE] + x)) == Some(Content(s, |J.Body(s)| + 1))
    decreases |s|
  {
    hide ReadPiece, J.Escaped;
    var tail := [QUOTE] + x;
    if s == [] {
      assert J.Body(s) + tail == tail;
    } else {
      hide ReadString;
      if J.StartsWithPair(s) { BodyReadPair(s, x); } else { BodyReadOne(s, x); }
    }
  }

  lemma {:induction false} BodyReadPair(s: Text, x: Text)
    requires J.StartsWithPair(s)
    ensures ReadString(J.Body(s) + ([QUOTE] + x)) == Some(Content(s, |J.Body(s)| + 1))
    decreases |s|, 0
  {
    hide ReadPiece, J.Escaped, ReadString;
    var rest := J.Body(s[2..]) + ([QUOTE] + x);
    BodyRead(s[2..], x);
    RawThen(s[1], rest);
    RawThen(s[0], [s[1]] + rest);
    assert J.Body(s) == s[..2] + J.Body(s[2..]);
    assert J.Body(s) + ([QUOTE] + x) == [s[0]] + ([s[1]] + rest);
    hide J.Body;
    assert [s[0]] + ([s[1]] + s[2..]) == s;
  }

  lemma {:induction false} BodyReadOne(s: Text, x: Text)
    requires s != [] && !J.StartsWithPair(s)
    ensures ReadString(J.Body(s) + ([QUOTE] + x)) == Some(Content(s, |J.Body(s)| + 1))
    decreases |s|, 0
  {
    hide ReadPiece, J.Escaped, ReadString;
    var rest := J.Body(s[1..]) + ([QUOTE] + x);
    var e := J.Escaped(s[0]);
    BodyRead(s[1..], x);
    EscapedRead(s[0], rest);
    assert (e + rest)[0] == e[0];
    PieceThen(e, s[0], rest);
    assert J.Body(s) == e + J.Body(s[1..]);
    assert J.Body(s) + ([QUOTE] + x) == e + rest;
    hide J.Body;
    assert [s[0]] + s[1..] == s;
  }

  lemma {:induction false} WordRead(t: Text, x: Text)
    requires Word(t) && (x == [] || !WordUnit(x[0]))
    ensures WordLength(t + x) == |t|
  {
    if t == [] {
      assert t + x == x;
    } else {
      assert (t + x)[1..] == t[1..] + x;
      WordRead(t[1..], x);
    }
  }

  lemma StringRead(value: Text, x: Text)
    ensures var s := J.Quoted(value) + x;
      s != [] && s[0] == QUOTE && NextToken(s) == Some(Lexed(Str(value), |J.Quoted(value)|))
  {
    hide ReadString;
    var s := J.Quoted(value) + x;
    BodyRead(value, x);
    assert s[1..] == J.Body(value) + ([QUOTE] + x);
  }

  lemma TokenRead(t: Token, x: Text)
    requires WellFormed(t)
    requires t.Atom? || t.Num? ==> x == [] || !WordUnit(x[0])
    ensures TokenText(t) != [] && !Space(TokenText(t)[0])
    ensures NextToken(TokenText(t) + x) == Some(Lexed(t, |TokenText(t)|))
  {
    hide ReadString, WordLength, NumberText;
    var s := TokenText(t) + x;
    match t
    case Punct(_) =>
    case Str(value) => StringRead(value, x);
    case Num(text) =>
      NumberIsNumeric(text);
      WordRead(text, x);
      assert s[..|text|] == text;
    case Atom(text) =>
      WordRead(text, x);
      assert s[..|text|] == text;
  }

  lemma {:induction false} SkipGap(gap: Text, x: Text)
    requires Blank(gap)
    ensures Tokens(gap + x) == Tokens(x)
  {
    if gap == [] {
      assert gap + x == x;
    } else {
      assert (gap + x)[1..] == gap[1..] + x;
      SkipGap(gap[1..], x);
    }
  }

  lemma TokenTextStart(t: Token)
    requires WellFormed(t)
    ensures TokenText(t) != []
    ensures !t.Atom? && !t.Num? && t != Punct(DOT) ==> !WordUnit(TokenText(t)[0])
  {
    if t.Num? { NumberIsNumeric(t.text); }
  }

  lemma SpreadStart(tokens: seq<Token>, gaps: seq<Text>)
    requires tokens != [] && GapsFit(tokens, gaps) && WellFormed(tokens[0])
    ensures Spread(tokens, gaps) != [] && Spread(tokens, gaps)[0] == TokenText(tokens[0])[0]
  {
    TokenTextStart(tokens[0]);
  }

  /** Tokens written in any layout are read back as they were. */
  lemma {:induction false} SpreadRead(tokens: seq<Token>, gaps: seq<Text>)
    requires forall t :: t in tokens ==> WellFormed(t)
    requires GapsFit(tokens, gaps)
    ensures Tokens(Spread(tokens, gaps)) == Some(tokens)
    decreases |tokens|
  {
    hide NextToken, WellFormed, TokenText, Space, WordUnit;
    if tokens != [] {
      var t := tokens[0];
      var x := if |tokens| == 1 then [] else gaps[0] + Spread(tokens[1..], gaps[1..]);
      var s := TokenText(t) + x;
      assert s == Spread(tokens, gaps);
      if |tokens| > 1 {
        GapEndsWord(tokens, gaps);
        SpreadRead(tokens[1..], gaps[1..]);
        SkipGap(gaps[0], Spread(tokens[1..], gaps[1..]));
      }
      TokenRead(t, x);
      assert s[|TokenText(t)|..] == x;
      assert s[0] == TokenText(t)[0];
      assert tokens == [t] + tokens[1..];
    }
  }

  lemma GapEndsWord(tokens: seq<Token>, gaps: seq<Text>)
    requires |tokens| > 1 && GapsFit(tokens, gaps) && WellFormed(tokens[1])
    ensures var x := gaps[0] + Spread(tokens[1..], gaps[1..]);
      x != [] && (tokens[0].Atom? || tokens[0].Num? ==> !WordUnit(x[0]))
  {
    SpreadStart(tokens[1..], gaps[1..]);
    TokenTextStart(tokens[1]);
  }
}
