/**
 The canonical text of a JSON value (`canonicalJson` in src/lib/routing-config.ts).

 Text is a sequence of UTF-16 code units, as in JavaScript.  Objects are lists of
 fields in the order they were created, with distinct keys.  A number is its own
 shortest decimal text.  The main result: two values have the same canonical text
 exactly when they are the same value up to the order of object keys.
 */
module CanonicalJson {
  type Unit = n: int | 0 <= n < 0x10000

  type Text = seq<Unit>

  datatype Json =
    | Null
    | Bool(value: bool)
    | Num(text: Text)
    | Str(text: Text)
    | Arr(items: seq<Json>)
    | Obj(fields: seq<Field>)

  datatype Field = Field(key: Text, value: Json)

  // ----- JSON.stringify of a string -----

  const QUOTE: Unit := 34
  const COMMA: Unit := 44
  const COLON: Unit := 58
  const OPEN_BRACKET: Unit := 91
  const BACKSLASH: Unit := 92
  const CLOSE_BRACKET: Unit := 93
  const OPEN_BRACE: Unit := 123
  const CLOSE_BRACE: Unit := 125

  predicate High(u: Unit) { 0xD800 <= u < 0xDC00 }

  predicate Low(u: Unit) { 0xDC00 <= u < 0xE000 }

  function Hex(d: nat): Unit
    requires d < 16
  {
    if d < 10 then 48 + d else 87 + d
  }

  function UnicodeEscape(u: Unit): Text {
    [BACKSLASH, 117, Hex(u / 4096), Hex(u / 256 % 16), Hex(u / 16 % 16), Hex(u % 16)]
  }

  /** The text of one code unit that is not part of a surrogate pair. */
  function Escaped(u: Unit): Text {
    if u == QUOTE || u == BACKSLASH then [BACKSLASH, u]
    else if u == 8 then [BACKSLASH, 98]
    else if u == 9 then [BACKSLASH, 116]
    else if u == 10 then [BACKSLASH, 110]
    else if u == 12 then [BACKSLASH, 102]
    else if u == 13 then [BACKSLASH, 114]
    else if u < 32 || High(u) || Low(u) then UnicodeEscape(u)
    else [u]
  }

  predicate StartsWithPair(s: Text) {
    |s| >= 2 && High(s[0]) && Low(s[1])
  }

  function Body(s: Text): Text {
    if s == [] then []
    else if StartsWithPair(s) then s[..2] + Body(s[2..])
    else Escaped(s[0]) + Body(s[1..])
  }

  function Quoted(s: Text): Text {
    [QUOTE] + Body(s) + [QUOTE]
  }

  // ----- The canonical text -----

  const NULL_TEXT: Text := [110, 117, 108, 108]
  const TRUE_TEXT: Text := [116, 114, 117, 101]
  const FALSE_TEXT: Text := [102, 97, 108, 115, 101]

  /** Code unit by code unit, as `Array.prototype.sort` orders strings. */
  predicate Less(a: Text, b: Text) {
    b != [] && (a == [] || a[0] < b[0] || (a[0] == b[0] && Less(a[1..], b[1..])))
  }

  /** A key with the canonical text of its value. */
  datatype Member = Member(key: Text, text: Text)

  function Place(m: Member, sorted: seq<Member>): seq<Member> {
    if sorted == [] || Less(m.key, sorted[0].key) then [m] + sorted
    else [sorted[0]] + Place(m, sorted[1..])
  }

  function JoinTexts(texts: seq<Text>): Text {
    if texts == [] then []
    else if |texts| == 1 then texts[0]
    else texts[0] + [COMMA] + JoinTexts(texts[1..])
  }

  function MemberText(m: Member): Text {
    Quoted(m.key) + [COLON] + m.text
  }

  function MemberTexts(members: seq<Member>): seq<Text> {
    if members == [] then [] else [MemberText(members[0])] + MemberTexts(members[1..])
  }

  function Canon(j: Json): Text {
    match j
    case Null => NULL_TEXT
    case Bool(b) => if b then TRUE_TEXT else FALSE_TEXT
    case Num(text) => text
    case Str(text) => Quoted(text)
    case Arr(items) => [OPEN_BRACKET] + JoinTexts(CanonItems(items)) + [CLOSE_BRACKET]
    case Obj(fields) => [OPEN_BRACE] + JoinTexts(MemberTexts(SortedMembers(fields))) + [CLOSE_BRACE]
  }

  function CanonItems(items: seq<Json>): seq<Text> {
    if items == [] then [] else [Canon(items[0])] + CanonItems(items[1..])
  }

  /** The keys in order, each with the canonical text of its value. */
  function SortedMembers(fields: seq<Field>): seq<Member> {
    if fields == [] then []
    else Place(Member(fields[0].key, Canon(fields[0].value)), SortedMembers(fields[1..]))
  }

  // ----- JSON values, and when two are the same -----

  predicate NumberUnit(u: Unit) {
    48 <= u <= 57 || u == 43 || u == 45 || u == 46 || u == 101
  }

  predicate NumberText(t: Text) {
    && t != []
    && (48 <= t[0] <= 57 || t[0] == 45)
    && (forall i :: 0 <= i < |t| ==> NumberUnit(t[i]))
  }

  predicate HasKey(fields: seq<Field>, key: Text) {
    exists i :: 0 <= i < |fields| && fields[i].key == key
  }

  predicate DistinctKeys(fields: seq<Field>) {
    fields == [] || (!HasKey(fields[1..], fields[0].key) && DistinctKeys(fields[1..]))
  }

  predicate Valid(j: Json) {
    match j
    case Num(text) => NumberText(text)
    case Arr(items) => ValidItems(items)
    case Obj(fields) => DistinctKeys(fields) && ValidFields(fields)
    case _ => true
  }

  predicate ValidItems(items: seq<Json>) {
    items == [] || (Valid(items[0]) && ValidItems(items[1..]))
  }

  predicate ValidFields(fields: seq<Field>) {
    fields == [] || (Valid(fields[0].value) && ValidFields(fields[1..]))
  }

  /** The same value, object keys in any order. */
  predicate Same(a: Json, b: Json)
    decreases a, 0
  {
    match (a, b)
    case (Arr(s), Arr(t)) => |s| == |t| && forall i :: 0 <= i < |s| ==> Same(s[i], t[i])
    case (Obj(f), Obj(g)) => SameFields(f, g)
    case _ => a == b
  }

  predicate SameFields(f: seq<Field>, g: seq<Field>)
    decreases f, 1
  {
    && |f| == |g|
    && (forall i :: 0 <= i < |f| ==> Among(f[i], g))
    && (forall k :: 0 <= k < |g| ==> AmongBack(f, g[k]))
  }

  predicate Among(x: Field, g: seq<Field>)
    decreases x, 0
  {
    exists k :: 0 <= k < |g| && x.key == g[k].key && Same(x.value, g[k].value)
  }

  predicate AmongBack(f: seq<Field>, y: Field)
    decreases f, 0
  {
    exists i :: 0 <= i < |f| && f[i].key == y.key && Same(f[i].value, y.value)
  }

  // ----- Strings end where they end -----

  lemma HexInjective(a: nat, b: nat)
    requires a < 16 && b < 16 && Hex(a) == Hex(b)
    ensures a == b
  {
  }

  lemma HexDigits(u: Unit)
    ensures u == 4096 * (u / 4096) + 256 * (u / 256 % 16) + 16 * (u / 16 % 16) + u % 16
  {
    var a, b := u / 16, u / 256;
    assert u == 16 * a + u % 16;
    assert b == a / 16 && a == 16 * b + a % 16;
    assert u / 4096 == b / 16 && b == 16 * (u / 4096) + b % 16;
  }

  lemma UnicodeEscapeInjective(u: Unit, v: Unit)
    requires UnicodeEscape(u) == UnicodeEscape(v)
    ensures u == v
  {
    hide Hex;
    var s, t := UnicodeEscape(u), UnicodeEscape(v);
    assert s[2] == t[2] && s[3] == t[3] && s[4] == t[4] && s[5] == t[5];
    hide UnicodeEscape;
    HexInjective(u / 4096, v / 4096);
    HexInjective(u / 256 % 16, v / 256 % 16);
    HexInjective(u / 16 % 16, v / 16 % 16);
    HexInjective(u % 16, v % 16);
    HexDigits(u);
    HexDigits(v);
  }

  /** What the next piece of an escaped string is, and how many code units it stands for. */
  function Piece(s: Text): Text
    requires s != []
  {
    if StartsWithPair(s) then s[..2] else Escaped(s[0])
  }

  function Taken(s: Text): nat
    requires s != []
  {
    if StartsWithPair(s) then 2 else 1
  }

  lemma PieceStart(s: Text)
    requires s != []
    ensures Piece(s) != [] && Piece(s)[0] != QUOTE
    ensures Body(s) == Piece(s) + Body(s[Taken(s)..])
    ensures Piece(s)[0] != BACKSLASH ==> Piece(s) == s[..Taken(s)] && !Low(s[0]) && (High(s[0]) <==> StartsWithPair(s))
    ensures Piece(s)[0] == BACKSLASH ==> Taken(s) == 1 && Piece(s) == Escaped(s[0]) && |Piece(s)| >= 2
    ensures Piece(s)[0] == BACKSLASH ==> |Piece(s)| == if Piece(s)[1] == 117 then 6 else 2
  {
    if !StartsWithPair(s) { assert s[..1] == [s[0]]; }
  }

  lemma EscapedInjective(u: Unit, v: Unit)
    requires Escaped(u) == Escaped(v)
    ensures u == v
  {
    if Escaped(u) == UnicodeEscape(u) && Escaped(v) == UnicodeEscape(v) {
      UnicodeEscapeInjective(u, v);
    }
  }

  /** Where two escaped strings agree, they agree on their first piece. */
  lemma PiecesAgree(s: Text, t: Text, x: Text, y: Text)
    requires s != [] && t != []
    requires Piece(s) + x == Piece(t) + y
    ensures Taken(s) == Taken(t) && s[..Taken(s)] == t[..Taken(t)] && x == y
  {
    PieceStart(s);
    PieceStart(t);
    var p, q := Piece(s), Piece(t);
    assert (p + x)[0] == p[0] && (q + y)[0] == q[0];
    if p[0] == BACKSLASH {
      assert (p + x)[1] == p[1] && (q + y)[1] == q[1];
      assert |p| == |q|;
      PrefixesAgree(p, q, x, y);
      EscapedInjective(s[0], t[0]);
      assert s[..1] == [s[0]] && t[..1] == [t[0]];
    } else {
      assert s[0] == p[0] && t[0] == q[0];
      assert |p| == |q|;
      PrefixesAgree(p, q, x, y);
    }
  }

  lemma PrefixesAgree(p: Text, q: Text, x: Text, y: Text)
    requires p + x == q + y && |p| == |q|
    ensures p == q && x == y
  {
    assert p == (p + x)[..|p|] && q == (q + y)[..|q|];
    assert x == (p + x)[|p|..] && y == (q + y)[|q|..];
  }

  lemma BodyFirst(s: Text, x: Text)
    ensures (Body(s) + ([QUOTE] + x))[0] == QUOTE <==> s == []
  {
    if s != [] { PieceStart(s); }
  }

  lemma Assoc(a: Text, b: Text, c: Text)
    ensures (a + b) + c == a + (b + c)
  {
  }

  lemma BodyUnfolds(s: Text, x: Text)
    requires s != [] && Taken(s) <= |s|
    ensures Body(s) + ([QUOTE] + x) == Piece(s) + (Body(s[Taken(s)..]) + ([QUOTE] + x))
  {
    hide *;
    PieceStart(s);
    Assoc(Piece(s), Body(s[Taken(s)..]), [QUOTE] + x);
  }

  lemma {:induction false} BodySplits(s: Text, t: Text, x: Text, y: Text)
    requires Body(s) + ([QUOTE] + x) == Body(t) + ([QUOTE] + y)
    ensures s == t && x == y
    decreases |s|
  {
    hide Piece, Escaped, Taken, StartsWithPair;
    var l, r := Body(s) + ([QUOTE] + x), Body(t) + ([QUOTE] + y);
    BodyFirst(s, x);
    BodyFirst(t, y);
    if s == [] {
      assert x == l[1..] && y == r[1..];
    } else {
      PieceStart(s);
      PieceStart(t);
      TakenPositive(s);
      TakenPositive(t);
      var m, n := Taken(s), Taken(t);
      BodyUnfolds(s, x);
      BodyUnfolds(t, y);
      hide Body;
      PiecesAgree(s, t, Body(s[m..]) + ([QUOTE] + x), Body(t[n..]) + ([QUOTE] + y));
      BodySplits(s[m..], t[n..], x, y);
      assert s == s[..m] + s[m..] && t == t[..n] + t[n..];
    }
  }

  lemma TakenPositive(s: Text)
    requires s != []
    ensures 0 < Taken(s) <= |s|
  {
  }

  /** A quoted string followed by anything determines the string and what follows. */
  lemma QuotedSplits(s: Text, t: Text, x: Text, y: Text)
    requires Quoted(s) + x == Quoted(t) + y
    ensures s == t && x == y
  {
    QuotedTail(s, x);
    QuotedTail(t, y);
    BodySplits(s, t, x, y);
  }

  lemma QuotedTail(s: Text, x: Text)
    ensures (Quoted(s) + x)[1..] == Body(s) + ([QUOTE] + x)
  {
    hide Body;
  }

  // ----- Values end where they end -----

  /** What can follow a value inside a larger text: nothing, or a unit no number contains. */
  predicate Follows(x: Text) {
    x == [] || !NumberUnit(x[0])
  }

  lemma NumberEnds(s: Text, x: Text)
    requires NumberText(s) && Follows(x)
    ensures forall i :: 0 <= i < |s| ==> NumberUnit((s + x)[i])
    ensures |s| < |s + x| ==> !NumberUnit((s + x)[|s|])
  {
  }

  lemma NumberSplits(s: Text, t: Text, x: Text, y: Text)
    requires NumberText(s) && NumberText(t) && Follows(x) && Follows(y)
    requires s + x == t + y
    ensures s == t && x == y
  {
    NumberEnds(s, x);
    NumberEnds(t, y);
    hide NumberUnit;
    assert |s| == |t|;
    PrefixesAgree(s, t, x, y);
  }

  /** The first code unit of a value's text tells what kind of value it is. */
  lemma CanonStart(j: Json)
    requires Valid(j)
    ensures Canon(j) != []
    ensures var u := Canon(j)[0];
      match j
      case Null => u == 110
      case Bool(b) => u == if b then 116 else 102
      case Num(text) => 48 <= u <= 57 || u == 45
      case Str(_) => u == QUOTE
      case Arr(_) => u == OPEN_BRACKET
      case Obj(_) => u == OPEN_BRACE
  {
  }

  lemma FirstOfConcat(p: Text, x: Text)
    requires p != []
    ensures (p + x)[0] == p[0]
  {
  }

  /** The text of a value, followed by anything that can follow one, determines where it ends. */
  lemma {:induction false} CanonSplits(a: Json, b: Json, x: Text, y: Text)
    requires Valid(a) && Valid(b) && Follows(x) && Follows(y)
    requires Canon(a) + x == Canon(b) + y
    ensures Canon(a) == Canon(b) && x == y
    decreases a, 0
  {
    hide SortedMembers, MemberTexts, CanonItems, JoinTexts, NumberText, Follows, ValidFields, ValidItems, DistinctKeys, Quoted;
    CanonStart(a);
    CanonStart(b);
    FirstOfConcat(Canon(a), x);
    FirstOfConcat(Canon(b), y);
    match a
    case Null => PrefixesAgree(Canon(a), Canon(b), x, y);
    case Bool(_) => PrefixesAgree(Canon(a), Canon(b), x, y);
    case Num(s) => NumberSplits(s, b.text, x, y);
    case Str(s) => QuotedSplits(s, b.text, x, y);
    case Arr(s) =>
      var p, q := JoinTexts(CanonItems(s)), JoinTexts(CanonItems(b.items));
      Peeled(OPEN_BRACKET, p, CLOSE_BRACKET, x);
      Peeled(OPEN_BRACKET, q, CLOSE_BRACKET, y);
      ItemsSplit(s, b.items, x, y);
    case Obj(f) =>
      var p, q := JoinTexts(MemberTexts(SortedMembers(f))), JoinTexts(MemberTexts(SortedMembers(b.fields)));
      Peeled(OPEN_BRACE, p, CLOSE_BRACE, x);
      Peeled(OPEN_BRACE, q, CLOSE_BRACE, y);
      SortedMembersStem(f);
      SortedMembersStem(b.fields);
      MembersSplit(f, b.fields, SortedMembers(f), SortedMembers(b.fields), x, y);
  }

  lemma Peeled(open: Unit, p: Text, close: Unit, x: Text)
    ensures ([open] + p + [close] + x)[1..] == p + ([close] + x)
  {
  }

  lemma {:induction false} ItemsSplit(s: seq<Json>, t: seq<Json>, x: Text, y: Text)
    requires ValidItems(s) && ValidItems(t)
    requires JoinTexts(CanonItems(s)) + ([CLOSE_BRACKET] + x) == JoinTexts(CanonItems(t)) + ([CLOSE_BRACKET] + y)
    ensures CanonItems(s) == CanonItems(t) && x == y
    decreases s, 1
  {
    hide Canon, Valid;
    var p, q := [CLOSE_BRACKET] + x, [CLOSE_BRACKET] + y;
    ItemsFirst(s, p);
    ItemsFirst(t, q);
    if s == [] {
      assert JoinTexts(CanonItems(s)) + p == p && JoinTexts(CanonItems(t)) + q == q;
      assert x == p[1..] && y == q[1..];
    } else {
      var l, r := Tail(CanonItems(s), p), Tail(CanonItems(t), q);
      ItemsJoin(s, p);
      ItemsJoin(t, q);
      CanonSplits(s[0], t[0], l, r);
      TailFirst(CanonItems(s), p);
      TailFirst(CanonItems(t), q);
      if |s| > 1 {
        assert l[1..] == JoinTexts(CanonItems(s[1..])) + p;
        assert r[1..] == JoinTexts(CanonItems(t[1..])) + q;
        ItemsSplit(s[1..], t[1..], x, y);
      } else {
        assert x == l[1..] && y == r[1..];
      }
    }
  }

  lemma ItemsFirst(items: seq<Json>, p: Text)
    requires ValidItems(items) && p != [] && p[0] == CLOSE_BRACKET
    ensures JoinTexts(CanonItems(items)) + p != []
    ensures (JoinTexts(CanonItems(items)) + p)[0] == CLOSE_BRACKET <==> items == []
  {
    hide Canon, Valid;
    if items == [] {
      assert JoinTexts(CanonItems(items)) + p == p;
    } else {
      ItemsJoin(items, p);
      FirstNotClose(items[0], Tail(CanonItems(items), p));
    }
  }

  lemma TailFirst(texts: seq<Text>, p: Text)
    requires texts != [] && p != [] && p[0] != COMMA
    ensures Tail(texts, p) != []
    ensures Tail(texts, p)[0] == if |texts| == 1 then p[0] else COMMA
  {
  }

  /** What follows the first text of a joined list. */
  function Tail(texts: seq<Text>, x: Text): Text
    requires texts != []
  {
    if |texts| == 1 then x else [COMMA] + JoinTexts(texts[1..]) + x
  }

  lemma CanonItemsLength(items: seq<Json>)
    ensures |CanonItems(items)| == |items|
  {
  }

  lemma Regroup(a: Text, b: Text, c: Text, d: Text)
    ensures (a + b + c) + d == a + (b + c + d)
    ensures (a + b + c) + d == a + (b + (c + d))
  {
  }

  lemma JoinTail(texts: seq<Text>, x: Text)
    requires texts != []
    ensures JoinTexts(texts) + x == texts[0] + Tail(texts, x)
  {
    if |texts| > 1 { Regroup(texts[0], [COMMA], JoinTexts(texts[1..]), x); }
  }

  lemma ItemsJoin(items: seq<Json>, x: Text)
    requires items != [] && ValidItems(items)
    ensures CanonItems(items)[1..] == CanonItems(items[1..]) && |CanonItems(items)| == |items|
    ensures JoinTexts(CanonItems(items)) + x == Canon(items[0]) + Tail(CanonItems(items), x)
  {
    hide Canon, Valid, JoinTexts, Tail;
    CanonItemsLength(items);
    JoinTail(CanonItems(items), x);
  }

  lemma FirstNotClose(j: Json, x: Text)
    requires Valid(j)
    ensures var u := (Canon(j) + x)[0]; u != CLOSE_BRACKET && u != CLOSE_BRACE && u != COMMA
  {
    CanonStart(j);
  }

  predicate Stem(m: Member, fields: seq<Field>) {
    exists i :: 0 <= i < |fields| && m == Member(fields[i].key, Canon(fields[i].value))
  }

  predicate Stems(members: seq<Member>, fields: seq<Field>) {
    forall m :: m in members ==> Stem(m, fields)
  }

  lemma {:induction false} PlaceMembers(m: Member, sorted: seq<Member>)
    ensures forall x :: x in Place(m, sorted) <==> x == m || x in sorted
    ensures |Place(m, sorted)| == |sorted| + 1
  {
    if sorted != [] && !Less(m.key, sorted[0].key) {
      PlaceMembers(m, sorted[1..]);
    }
  }

  lemma {:induction false} SortedMembersStem(fields: seq<Field>)
    ensures Stems(SortedMembers(fields), fields)
    ensures forall i :: 0 <= i < |fields| ==> Member(fields[i].key, Canon(fields[i].value)) in SortedMembers(fields)
    ensures |SortedMembers(fields)| == |fields|
  {
    hide Canon, Less, Place;
    if fields != [] {
      var rest := fields[1..];
      SortedMembersStem(rest);
      PlaceMembers(Member(fields[0].key, Canon(fields[0].value)), SortedMembers(rest));
      forall m | m in SortedMembers(fields) ensures Stem(m, fields) {
        if m != Member(fields[0].key, Canon(fields[0].value)) {
          var i :| 0 <= i < |rest| && m == Member(rest[i].key, Canon(rest[i].value));
          assert fields[i + 1] == rest[i];
        }
      }
      forall i | 0 <= i < |fields| ensures Member(fields[i].key, Canon(fields[i].value)) in SortedMembers(fields) {
        if i > 0 { assert fields[i] == rest[i - 1]; }
      }
    }
  }

  lemma {:induction false} FieldValid(fields: seq<Field>, i: nat)
    requires ValidFields(fields) && i < |fields|
    ensures Valid(fields[i].value)
  {
    if i > 0 { FieldValid(fields[1..], i - 1); }
  }

  lemma MembersJoin(members: seq<Member>, x: Text)
    requires members != []
    ensures JoinTexts(MemberTexts(members)) + x ==
      Quoted(members[0].key) + ([COLON] + (members[0].text + MemberTail(members, x)))
  {
    hide Quoted, JoinTexts;
    var texts := MemberTexts(members);
    assert texts[1..] == MemberTexts(members[1..]);
    if |members| > 1 { assert texts[1..] != []; }
    JoinTail(texts, x);
    TailsAgree(members, x);
    Regroup(Quoted(members[0].key), [COLON], members[0].text, MemberTail(members, x));
  }

  lemma TailsAgree(members: seq<Member>, x: Text)
    requires members != []
    ensures Tail(MemberTexts(members), x) == MemberTail(members, x)
  {
    hide JoinTexts, MemberText;
    assert MemberTexts(members)[1..] == MemberTexts(members[1..]);
    if |members| > 1 {
      var j := JoinTexts(MemberTexts(members[1..]));
      assert [COMMA] + j + x == [COMMA] + (j + x);
    }
  }

  function MemberTail(members: seq<Member>, x: Text): Text
    requires members != []
  {
    if |members| == 1 then x else [COMMA] + (JoinTexts(MemberTexts(members[1..])) + x)
  }

  lemma {:induction false} MembersSplit(f: seq<Field>, g: seq<Field>, ms: seq<Member>, ns: seq<Member>, x: Text, y: Text)
    requires ValidFields(f) && ValidFields(g) && Stems(ms, f) && Stems(ns, g)
    requires JoinTexts(MemberTexts(ms)) + ([CLOSE_BRACE] + x) == JoinTexts(MemberTexts(ns)) + ([CLOSE_BRACE] + y)
    ensures ms == ns && x == y
    decreases f, |ms|
  {
    hide Canon, Valid, ValidFields, Stem;
    var p, q := [CLOSE_BRACE] + x, [CLOSE_BRACE] + y;
    MembersFirst(ms, p);
    MembersFirst(ns, q);
    if ms == [] {
      assert JoinTexts(MemberTexts(ms)) + p == p && JoinTexts(MemberTexts(ns)) + q == q;
      assert x == p[1..] && y == q[1..];
    } else {
      FirstMembersAgree(f, g, ms, ns, p, q);
      var l, r := MemberTail(ms, p), MemberTail(ns, q);
      if |ms| > 1 {
        assert l[0] == COMMA && r[0] == COMMA;
        assert l[1..] == JoinTexts(MemberTexts(ms[1..])) + p;
        assert r[1..] == JoinTexts(MemberTexts(ns[1..])) + q;
        MembersSplit(f, g, ms[1..], ns[1..], x, y);
      } else {
        assert l[0] == CLOSE_BRACE && r[0] == CLOSE_BRACE;
        assert x == l[1..] && y == r[1..];
      }
    }
  }

  lemma MembersFirst(members: seq<Member>, p: Text)
    requires p != [] && p[0] == CLOSE_BRACE
    ensures JoinTexts(MemberTexts(members)) + p != []
    ensures (JoinTexts(MemberTexts(members)) + p)[0] == CLOSE_BRACE <==> members == []
  {
    if members == [] {
      assert JoinTexts(MemberTexts(members)) + p == p;
    } else {
      MembersJoin(members, p);
    }
  }

  lemma {:induction false} FirstMembersAgree(f: seq<Field>, g: seq<Field>, ms: seq<Member>, ns: seq<Member>, p: Text, q: Text)
    requires ms != [] && ns != []
    requires ValidFields(f) && ValidFields(g) && Stem(ms[0], f) && Stem(ns[0], g)
    requires p != [] && q != [] && p[0] == q[0] == CLOSE_BRACE
    requires JoinTexts(MemberTexts(ms)) + p == JoinTexts(MemberTexts(ns)) + q
    ensures ms[0] == ns[0] && MemberTail(ms, p) == MemberTail(ns, q)
    decreases f, 0
  {
    hide Canon, Valid, Quoted, JoinTexts, MemberTexts;
    var m, n := ms[0], ns[0];
    var l, r := MemberTail(ms, p), MemberTail(ns, q);
    MembersJoin(ms, p);
    MembersJoin(ns, q);
    QuotedSplits(m.key, n.key, [COLON] + (m.text + l), [COLON] + (n.text + r));
    assert m.text + l == ([COLON] + (m.text + l))[1..];
    assert n.text + r == ([COLON] + (n.text + r))[1..];
    var i :| 0 <= i < |f| && m == Member(f[i].key, Canon(f[i].value));
    var k :| 0 <= k < |g| && n == Member(g[k].key, Canon(g[k].value));
    FieldValid(f, i);
    FieldValid(g, k);
    CanonSplits(f[i].value, g[k].value, l, r);
  }

  // ----- Equal texts are equal values -----

  lemma {:induction false} ItemValid(items: seq<Json>, i: nat)
    requires ValidItems(items) && i < |items|
    ensures Valid(items[i])
  {
    if i > 0 { ItemValid(items[1..], i - 1); }
  }

  lemma {:induction false} CanonItemsAt(items: seq<Json>, i: nat)
    requires i < |items|
    ensures |CanonItems(items)| == |items| && CanonItems(items)[i] == Canon(items[i])
  {
    hide Canon;
    CanonItemsLength(items);
    if i > 0 { CanonItemsAt(items[1..], i - 1); }
  }

  lemma {:induction false} SameFromText(a: Json, b: Json)
    requires Valid(a) && Valid(b) && Canon(a) == Canon(b)
    ensures Same(a, b)
  {
    hide CanonItems, SortedMembers, NumberText, DistinctKeys;
    CanonStart(a);
    CanonStart(b);
    assert Canon(a) + [] == Canon(a) && Canon(b) + [] == Canon(b);
    match a
    case Str(s) => QuotedSplits(s, b.text, [], []);
    case Arr(s) => ItemsSame(s, b.items);
    case Obj(f) => FieldsSame(f, b.fields);
    case _ =>
  }

  lemma {:induction false} ItemsSame(s: seq<Json>, t: seq<Json>)
    requires ValidItems(s) && ValidItems(t) && Canon(Arr(s)) == Canon(Arr(t))
    ensures Same(Arr(s), Arr(t))
    decreases s
  {
    hide CanonItems, Valid, ValidItems, JoinTexts;
    var p, q := JoinTexts(CanonItems(s)), JoinTexts(CanonItems(t));
    assert Canon(Arr(s))[1..] == p + ([CLOSE_BRACKET] + []) && Canon(Arr(t))[1..] == q + ([CLOSE_BRACKET] + []);
    ItemsSplit(s, t, [], []);
    ItemsLengths(s, t);
    forall i | 0 <= i < |s| ensures Same(s[i], t[i]) {
      CanonItemsAt(s, i);
      CanonItemsAt(t, i);
      ItemValid(s, i);
      ItemValid(t, i);
      SameFromText(s[i], t[i]);
    }
  }

  lemma ItemsLengths(s: seq<Json>, t: seq<Json>)
    requires CanonItems(s) == CanonItems(t)
    ensures |s| == |t|
  {
    CanonItemsLength(s);
    CanonItemsLength(t);
  }

  lemma {:induction false} FieldsSame(f: seq<Field>, g: seq<Field>)
    requires ValidFields(f) && ValidFields(g) && Canon(Obj(f)) == Canon(Obj(g))
    ensures SameFields(f, g)
    decreases f, 1
  {
    hide SortedMembers, Valid, ValidFields, JoinTexts, MemberTexts;
    var ms, ns := SortedMembers(f), SortedMembers(g);
    assert Canon(Obj(f))[1..] == JoinTexts(MemberTexts(ms)) + ([CLOSE_BRACE] + []);
    assert Canon(Obj(g))[1..] == JoinTexts(MemberTexts(ns)) + ([CLOSE_BRACE] + []);
    SortedMembersStem(f);
    SortedMembersStem(g);
    MembersSplit(f, g, ms, ns, [], []);
    hide Canon, Stem;
    forall i | 0 <= i < |f|
      ensures Among(f[i], g)
    {
      assert Member(f[i].key, Canon(f[i].value)) in ns;
      FieldFound(f, g, i);
    }
    forall k | 0 <= k < |g|
      ensures AmongBack(f, g[k])
    {
      assert Member(g[k].key, Canon(g[k].value)) in ms;
      FieldFoundBack(f, g, k);
    }
  }

  lemma {:induction false} FieldFound(f: seq<Field>, g: seq<Field>, i: nat)
    requires ValidFields(f) && ValidFields(g) && i < |f| && Stem(Member(f[i].key, Canon(f[i].value)), g)
    ensures Among(f[i], g)
    decreases f, 0
  {
    hide Canon, ValidFields, Valid, Same;
    var m := Member(f[i].key, Canon(f[i].value));
    var k :| 0 <= k < |g| && m == Member(g[k].key, Canon(g[k].value));
    FieldValid(f, i);
    FieldValid(g, k);
    SameFromText(f[i].value, g[k].value);
  }

  lemma {:induction false} FieldFoundBack(f: seq<Field>, g: seq<Field>, k: nat)
    requires ValidFields(f) && ValidFields(g) && k < |g| && Stem(Member(g[k].key, Canon(g[k].value)), f)
    ensures AmongBack(f, g[k])
    decreases f, 0
  {
    hide Canon, ValidFields, Valid, Same;
    var m := Member(g[k].key, Canon(g[k].value));
    var i :| 0 <= i < |f| && m == Member(f[i].key, Canon(f[i].value));
    FieldValid(f, i);
    FieldValid(g, k);
    SameFromText(f[i].value, g[k].value);
  }

  // ----- Equal values have equal texts -----

  lemma {:induction false} LessIrreflexive(a: Text)
    ensures !Less(a, a)
    decreases |a|
  {
    if a != [] { LessIrreflexive(a[1..]); }
  }

  lemma {:induction false} LessTotal(a: Text, b: Text)
    ensures Less(a, b) || a == b || Less(b, a)
    ensures !(Less(a, b) && Less(b, a))
    decreases |a|
  {
    if a != [] && b != [] {
      LessTotal(a[1..], b[1..]);
      assert a == [a[0]] + a[1..] && b == [b[0]] + b[1..];
    }
  }

  lemma {:induction false} LessTransitive(a: Text, b: Text, c: Text)
    requires Less(a, b) && Less(b, c)
    ensures Less(a, c)
    decreases |b|
  {
    if a != [] && a[0] == b[0] == c[0] {
      LessTransitive(a[1..], b[1..], c[1..]);
    }
  }

  predicate Above(key: Text, members: seq<Member>) {
    forall m :: m in members ==> Less(key, m.key)
  }

  predicate Sorted(members: seq<Member>) {
    members == [] || (Above(members[0].key, members[1..]) && Sorted(members[1..]))
  }

  lemma {:induction false} PlaceKeepsSorted(m: Member, sorted: seq<Member>)
    requires Sorted(sorted) && forall x :: x in sorted ==> x.key != m.key
    ensures Sorted(Place(m, sorted))
  {
    hide Less;
    if sorted != [] {
      var head, rest := sorted[0], sorted[1..];
      LessTotal(m.key, head.key);
      if Less(m.key, head.key) {
        forall x | x in sorted ensures Less(m.key, x.key) {
          if x != head {
            assert x in rest;
            LessTransitive(m.key, head.key, x.key);
          }
        }
        assert ([m] + sorted)[1..] == sorted;
      } else {
        assert head in sorted;
        PlaceKeepsSorted(m, rest);
        PlaceMembers(m, rest);
        assert ([head] + Place(m, rest))[1..] == Place(m, rest);
      }
    }
  }

  lemma {:induction false} SortedMembersSorted(fields: seq<Field>)
    requires DistinctKeys(fields)
    ensures Sorted(SortedMembers(fields))
  {
    hide Canon, Place, Sorted;
    if fields != [] {
      var rest := fields[1..];
      SortedMembersSorted(rest);
      SortedMembersStem(rest);
      forall x | x in SortedMembers(rest) ensures x.key != fields[0].key {
        assert Stem(x, rest);
      }
      PlaceKeepsSorted(Member(fields[0].key, Canon(fields[0].value)), SortedMembers(rest));
    } else {
      EmptySorted();
    }
  }

  lemma EmptySorted()
    ensures Sorted([])
  {
  }

  /** Strictly sorted lists with the same members are equal. */
  lemma {:induction false} SortedUnique(s: seq<Member>, t: seq<Member>)
    requires Sorted(s) && Sorted(t) && forall m :: m in s <==> m in t
    ensures s == t
  {
    hide Less;
    assert s != [] ==> s[0] in s;
    assert t != [] ==> t[0] in t;
    if s != [] {
      assert s[0] in t && t[0] in s;
      LessTotal(s[0].key, t[0].key);
      assert s[0] == t[0];
      LessIrreflexive(s[0].key);
      forall m ensures m in s[1..] <==> m in t[1..] {
        assert m in s <==> m == s[0] || m in s[1..];
        assert m in t <==> m == t[0] || m in t[1..];
        if m in s[1..] || m in t[1..] { assert m != s[0]; }
      }
      SortedUnique(s[1..], t[1..]);
      assert s == [s[0]] + s[1..] && t == [t[0]] + t[1..];
    }
  }

  lemma {:induction false} TextFromSame(a: Json, b: Json)
    requires Valid(a) && Valid(b) && Same(a, b)
    ensures Canon(a) == Canon(b)
  {
    hide CanonItems, SortedMembers, NumberText, DistinctKeys, JoinTexts, MemberTexts;
    match (a, b)
    case (Arr(s), Arr(t)) =>
      CanonItemsLength(s);
      CanonItemsLength(t);
      forall i | 0 <= i < |s| ensures CanonItems(s)[i] == CanonItems(t)[i] {
        CanonItemsAt(s, i);
        CanonItemsAt(t, i);
        ItemValid(s, i);
        ItemValid(t, i);
        TextFromSame(s[i], t[i]);
      }
      assert CanonItems(s) == CanonItems(t);
    case (Obj(f), Obj(g)) => MembersFromSame(f, g);
    case _ =>
  }

  lemma {:induction false} MembersFromSame(f: seq<Field>, g: seq<Field>)
    requires Valid(Obj(f)) && Valid(Obj(g)) && SameFields(f, g)
    ensures SortedMembers(f) == SortedMembers(g)
    decreases f, 1
  {
    hide SortedMembers, Canon, ValidFields, Stem, SameFields;
    var ms, ns := SortedMembers(f), SortedMembers(g);
    SortedMembersStem(f);
    SortedMembersStem(g);
    SortedMembersSorted(f);
    SortedMembersSorted(g);
    hide DistinctKeys, Sorted;
    forall m | m in ms ensures m in ns { MemberCarried(f, g, m); }
    forall n | n in ns ensures n in ms { MemberCarriedBack(f, g, n); }
    SortedUnique(ms, ns);
  }

  lemma {:induction false} MemberCarried(f: seq<Field>, g: seq<Field>, m: Member)
    requires Valid(Obj(f)) && Valid(Obj(g)) && SameFields(f, g) && Stem(m, f)
    ensures m in SortedMembers(g)
    decreases f, 0
  {
    hide SortedMembers, Canon, ValidFields, DistinctKeys, Same, AmongBack;
    var i :| 0 <= i < |f| && m == Member(f[i].key, Canon(f[i].value));
    assert Among(f[i], g);
    var k :| 0 <= k < |g| && f[i].key == g[k].key && Same(f[i].value, g[k].value);
    FieldValid(f, i);
    FieldValid(g, k);
    TextFromSame(f[i].value, g[k].value);
    SortedMembersStem(g);
  }

  lemma {:induction false} MemberCarriedBack(f: seq<Field>, g: seq<Field>, n: Member)
    requires Valid(Obj(f)) && Valid(Obj(g)) && SameFields(f, g) && Stem(n, g)
    ensures n in SortedMembers(f)
    decreases f, 0
  {
    hide SortedMembers, Canon, ValidFields, DistinctKeys, Same, Among;
    var k :| 0 <= k < |g| && n == Member(g[k].key, Canon(g[k].value));
    assert AmongBack(f, g[k]);
    var i :| 0 <= i < |f| && f[i].key == g[k].key && Same(f[i].value, g[k].value);
    FieldValid(f, i);
    FieldValid(g, k);
    TextFromSame(f[i].value, g[k].value);
    SortedMembersStem(f);
  }

  /** The canonical text identifies a JSON value exactly up to the order of object keys. */
  lemma CanonExactly(a: Json, b: Json)
    requires Valid(a) && Valid(b)
    ensures Canon(a) == Canon(b) <==> Same(a, b)
  {
    if Canon(a) == Canon(b) { SameFromText(a, b); }
    if Same(a, b) { TextFromSame(a, b); }
  }

  // ----- The texts themselves -----

  predicate Reads(t: Text, s: string) {
    |t| == |s| && forall i :: 0 <= i < |t| ==> t[i] == s[i] as int
  }

  /** Values without parts, empty ones, and how parts are put together. */
  lemma CanonTexts(x: Json, key: Text)
    ensures Reads(Canon(Null), "null") && Reads(Canon(Bool(true)), "true") && Reads(Canon(Bool(false)), "false")
    ensures Reads(Canon(Arr([])), "[]") && Reads(Canon(Obj([])), "{}")
    ensures Canon(Arr([x])) == ['[' as int] + Canon(x) + [']' as int]
    ensures Canon(Obj([Field(key, x)])) == ['{' as int] + (Quoted(key) + [':' as int] + Canon(x)) + ['}' as int]
  {
    hide Quoted;
    assert [x][1..] == [] && [Field(key, x)][1..] == [];
    assert CanonItems([x]) == [Canon(x)];
    var m := Member(key, Canon(x));
    assert SortedMembers([Field(key, x)]) == [m] && [m][1..] == [];
    assert MemberTexts([m]) == [MemberText(m)];
  }

  /** Parts are separated by commas. */
  lemma ItemsAreSeparated(texts: seq<Text>, t: Text)
    requires texts != []
    ensures JoinTexts([t] + texts) == t + [',' as int] + JoinTexts(texts)
  {
    assert ([t] + texts)[1..] == texts;
  }

  lemma BodyOfOne(u: Unit)
    ensures Body([u]) == Escaped(u)
  {
    assert [u][1..] == [];
  }

  /** What a character below 128 becomes inside quotes; the escapes have small letters. */
  lemma EscapesAre(c: char)
    requires c as int < 128
    ensures var t := Body([c as int]);
      && (c == '\"' ==> Reads(t, "\\\""))
      && (c == '\\' ==> Reads(t, "\\\\"))
      && (c as int == 8 ==> Reads(t, "\\b"))
      && (c == '\t' ==> Reads(t, "\\t"))
      && (c == '\n' ==> Reads(t, "\\n"))
      && (c as int == 12 ==> Reads(t, "\\f"))
      && (c == '\r' ==> Reads(t, "\\r"))
      && (c as int == 31 ==> Reads(t, "\\u001f"))
      && (c >= ' ' && c != '\"' && c != '\\' ==> t == [c as int])
  {
    BodyOfOne(c as int);
  }

  /** A surrogate pair stands for itself; a surrogate without its partner is escaped. */
  lemma SurrogatesAre(h: Unit, l: Unit)
    ensures 0xD800 <= h <= 0xDBFF && 0xDC00 <= l <= 0xDFFF ==> Body([h, l]) == [h, l]
    ensures 0xD800 <= h <= 0xDFFF ==> |Body([h])| == 6 && Body([h])[0] == '\\' as int && Body([h])[1] == 'u' as int
    ensures h >= 0xE000 || 128 <= h < 0xD800 ==> Body([h]) == [h]
  {
    hide Hex;
    BodyOfOne(h);
    assert [h, l][2..] == [] && [h, l][..2] == [h, l];
  }
}
