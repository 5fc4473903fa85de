/**
 The SCIM filter grammar (`parseScimFilter` in src/lib/scim-filter.ts): the
 recursive-descent parser as functions on the tokens that are left and the
 current nesting depth, and a printer that writes parentheses only where they
 are needed.  The main results, in `ScimRoundTrip`, say which trees the parser can
 produce, and that it reads each of them back from what the printer writes.  Inside
 square brackets the grammar is another one: there `and` and `or` bind alike.
 */
module ScimFilter {
  import opened Prelude
  import opened ScimSyntax

  const MAX_DEPTH := 64

  const NOT: Text := [110, 111, 116]
  const AND: Text := [97, 110, 100]
  const OR: Text := [111, 114]
  const TRUE: Text := [116, 114, 117, 101]
  const FALSE: Text := [102, 97, 108, 115, 101]
  const NULL: Text := [110, 117, 108, 108]

  datatype Op = Eq | Ne | Co | Sw | Ew | Gt | Ge | Lt | Le | Pr

  datatype Literal = LString(value: Text) | LNumber(text: Text) | LBool(flag: bool) | LNull

  type Path = seq<Text>

  datatype Filter =
    | Attr(path: Path, op: Op, value: Option<Literal>)
    | And(left: Filter, right: Filter)
    | Or(left: Filter, right: Filter)
    | Not(child: Filter)
    | ValuePath(path: Path, child: Filter)

  // ----- Words -----

  /** No other character lower-cases into one of the grammar's words. */
  function Lower(t: Text): Text {
    if t == [] then [] else [if 65 <= t[0] <= 90 then t[0] + 32 else t[0]] + Lower(t[1..])
  }

  predicate IsWord(ts: seq<Token>, word: Text) {
    ts != [] && ts[0].Atom? && Lower(ts[0].text) == word
  }

  predicate IsPunct(ts: seq<Token>, u: Unit) {
    ts != [] && ts[0] == Punct(u)
  }

  function OpText(op: Op): Text {
    match op
    case Eq => [101, 113]
    case Ne => [110, 101]
    case Co => [99, 111]
    case Sw => [115, 119]
    case Ew => [101, 119]
    case Gt => [103, 116]
    case Ge => [103, 101]
    case Lt => [108, 116]
    case Le => [108, 101]
    case Pr => [112, 114]
  }

  function OpOf(t: Text): Option<Op> {
    if t == OpText(Eq) then Some(Eq)
    else if t == OpText(Ne) then Some(Ne)
    else if t == OpText(Co) then Some(Co)
    else if t == OpText(Sw) then Some(Sw)
    else if t == OpText(Ew) then Some(Ew)
    else if t == OpText(Gt) then Some(Gt)
    else if t == OpText(Ge) then Some(Ge)
    else if t == OpText(Lt) then Some(Lt)
    else if t == OpText(Le) then Some(Le)
    else if t == OpText(Pr) then Some(Pr)
    else None
  }

  // ----- Attribute paths -----

  predicate Letter(u: Unit) {
    65 <= u <= 90 || 97 <= u <= 122
  }

  predicate NameUnit(u: Unit) {
    Letter(u) || Digit(u) || u == 95 || u == MINUS
  }

  predicate AttrName(t: Text) {
    t != [] && Letter(t[0]) && forall i :: 0 <= i < |t| ==> NameUnit(t[i])
  }

  function LastIndexOf(t: Text, u: Unit): (r: int)
    ensures -1 <= r < |t|
  {
    if t == [] then -1
    else if t[|t| - 1] == u then |t| - 1
    else LastIndexOf(t[..|t| - 1], u)
  }

  function Split(t: Text): seq<Text> {
    if t == [] then [[]]
    else if t[0] == DOT then [[]] + Split(t[1..])
    else
      var rest := Split(t[1..]);
      if rest == [] then [] else [[t[0]] + rest[0]] + rest[1..]
  }

  predicate AttrNames(path: Path) {
    forall i :: 0 <= i < |path| ==> AttrName(path[i])
  }

  /** A schema URI before the last colon is required to be non-empty, and dropped. */
  function AttrPath(raw: Text): Option<Path> {
    var colon := LastIndexOf(raw, COLON);
    var path := Split(raw[colon + 1..]);
    if colon == 0 || !AttrNames(path) then None else Some(path)
  }

  // ----- The parser -----

  datatype Parsed = Parsed(tree: Filter, rest: seq<Token>)

  function LiteralOf(t: Token): Option<Literal> {
    match t
    case Str(value) => Some(LString(value))
    case Num(text) => Some(LNumber(text))
    case Atom(text) =>
      if text == TRUE then Some(LBool(true))
      else if text == FALSE then Some(LBool(false))
      else if text == NULL then Some(LNull)
      else None
    case Punct(_) => None
  }

  /** What follows an attribute path: an operator and, except for `pr`, a value. */
  function Comparison(path: Path, ts: seq<Token>): (r: Option<Parsed>)
    ensures r.Some? ==> |r.value.rest| < |ts|
  {
    if ts == [] || !ts[0].Atom? then None
    else
      match OpOf(Lower(ts[0].text))
      case None => None
      case Some(Pr) => Some(Parsed(Attr(path, Pr, None), ts[1..]))
      case Some(op) =>
        if |ts| < 2 || LiteralOf(ts[1]).None? then None
        else Some(Parsed(Attr(path, op, LiteralOf(ts[1])), ts[2..]))
  }

  function AttrExp(ts: seq<Token>): (r: Option<Parsed>)
    ensures r.Some? ==> |r.value.rest| < |ts|
  {
    if ts == [] || !ts[0].Atom? || AttrPath(ts[0].text).None? then None
    else Comparison(AttrPath(ts[0].text).value, ts[1..])
  }

  function Closed(r: Option<Parsed>, u: Unit): Option<Parsed> {
    if r.Some? && IsPunct(r.value.rest, u) then Some(Parsed(r.value.tree, r.value.rest[1..])) else None
  }

  function Negated(r: Option<Parsed>): Option<Parsed> {
    if r.Some? then Some(Parsed(Not(r.value.tree), r.value.rest)) else None
  }

  function Selected(path: Path, r: Option<Parsed>): Option<Parsed> {
    if r.Some? then Some(Parsed(ValuePath(path, r.value.tree), r.value.rest)) else None
  }

  /** The grammar inside brackets: no value paths, and nothing after a leading group. */
  function ValFilter(ts: seq<Token>, depth: nat): (r: Option<Parsed>)
    ensures r.Some? ==> |r.value.rest| < |ts|
    decreases |ts|, 1
  {
    if depth >= MAX_DEPTH then None
    else if IsWord(ts, NOT) then
      if IsPunct(ts[1..], OPEN) then Negated(Closed(ValFilter(ts[2..], depth + 1), CLOSE)) else None
    else if IsPunct(ts, OPEN) then Closed(ValFilter(ts[1..], depth + 1), CLOSE)
    else
      match AttrExp(ts)
      case None => None
      case Some(p) => ValTail(p.tree, p.rest, depth + 1)
  }

  function ValTail(left: Filter, ts: seq<Token>, depth: nat): (r: Option<Parsed>)
    ensures r.Some? ==> |r.value.rest| <= |ts|
    decreases |ts|, 2
  {
    if IsWord(ts, AND) || IsWord(ts, OR) then
      match ValFilter(ts[1..], depth)
      case None => None
      case Some(p) =>
        ValTail(if IsWord(ts, AND) then And(left, p.tree) else Or(left, p.tree), p.rest, depth)
    else Some(Parsed(left, ts))
  }

  function Primary(ts: seq<Token>, depth: nat): (r: Option<Parsed>)
    ensures r.Some? ==> |r.value.rest| < |ts|
    decreases |ts|, 1
  {
    if depth >= MAX_DEPTH then None
    else if IsWord(ts, NOT) then
      if IsPunct(ts[1..], OPEN) then Negated(Closed(OrExp(ts[2..], depth + 1), CLOSE)) else None
    else if IsPunct(ts, OPEN) then Closed(OrExp(ts[1..], depth + 1), CLOSE)
    else PathPrimary(ts, depth + 1)
  }

  /** A comparison, or a path with a filter of its own in brackets. */
  function PathPrimary(ts: seq<Token>, depth: nat): (r: Option<Parsed>)
    ensures r.Some? ==> |r.value.rest| < |ts|
    decreases |ts|, 0
  {
    if ts == [] || !ts[0].Atom? || AttrPath(ts[0].text).None? then None
    else
      var path := AttrPath(ts[0].text).value;
      if IsPunct(ts[1..], OPEN_BRACKET) then Selected(path, Closed(ValFilter(ts[2..], depth), CLOSE_BRACKET))
      else Comparison(path, ts[1..])
  }

  function AndExp(ts: seq<Token>, depth: nat): (r: Option<Parsed>)
    ensures r.Some? ==> |r.value.rest| < |ts|
    decreases |ts|, 3
  {
    match Primary(ts, depth)
    case None => None
    case Some(p) => AndTail(p.tree, p.rest, depth)
  }

  function AndTail(left: Filter, ts: seq<Token>, depth: nat): (r: Option<Parsed>)
    ensures r.Some? ==> |r.value.rest| <= |ts|
    decreases |ts|, 2
  {
    if IsWord(ts, AND) then
      match Primary(ts[1..], depth)
      case None => None
      case Some(p) => AndTail(And(left, p.tree), p.rest, depth)
    else Some(Parsed(left, ts))
  }

  function OrExp(ts: seq<Token>, depth: nat): (r: Option<Parsed>)
    ensures r.Some? ==> |r.value.rest| < |ts|
    decreases |ts|, 5
  {
    match AndExp(ts, depth)
    case None => None
    case Some(p) => OrTail(p.tree, p.rest, depth)
  }

  function OrTail(left: Filter, ts: seq<Token>, depth: nat): (r: Option<Parsed>)
    ensures r.Some? ==> |r.value.rest| <= |ts|
    decreases |ts|, 4
  {
    if IsWord(ts, OR) then
      match AndExp(ts[1..], depth)
      case None => None
      case Some(p) => OrTail(Or(left, p.tree), p.rest, depth)
    else Some(Parsed(left, ts))
  }

  function ParseTokens(ts: seq<Token>): Option<Filter> {
    match OrExp(ts, 0)
    case None => None
    case Some(p) => if p.rest == [] then Some(p.tree) else None
  }

  // ----- Which trees there are -----

  predicate ValidPath(path: Path) {
    path != [] && AttrNames(path)
  }

  predicate ValidAttr(t: Filter)
    requires t.Attr?
  {
    && ValidPath(t.path)
    && (t.op.Pr? <==> t.value.None?)
    && (t.value.Some? && t.value.value.LNumber? ==> NumberText(t.value.value.text))
  }

  /** A tree that can stand inside brackets: no value path, and no `not` as a left operand. */
  predicate InBrackets(t: Filter) {
    match t
    case Attr(_, _, _) => ValidAttr(t)
    case Not(child) => InBrackets(child)
    case And(left, right) => !left.Not? && InBrackets(left) && InBrackets(right)
    case Or(left, right) => !left.Not? && InBrackets(left) && InBrackets(right)
    case ValuePath(_, _) => false
  }

  predicate Valid(t: Filter) {
    match t
    case Attr(_, _, _) => ValidAttr(t)
    case Not(child) => Valid(child)
    case And(left, right) => Valid(left) && Valid(right)
    case Or(left, right) => Valid(left) && Valid(right)
    case ValuePath(path, child) => ValidPath(path) && InBrackets(child)
  }

  // ----- The printer -----

  function Joined(path: Path): Text {
    if path == [] then []
    else if |path| == 1 then path[0]
    else path[0] + ([DOT] + Joined(path[1..]))
  }

  /** An attribute called `not` can only be written with a schema URI. */
  function PathText(path: Path): Text {
    if |path| == 1 && Lower(path[0]) == NOT then [117, COLON] + path[0] else Joined(path)
  }

  function LiteralToken(v: Literal): Token {
    match v
    case LString(value) => Str(value)
    case LNumber(text) => Num(text)
    case LBool(flag) => Atom(if flag then TRUE else FALSE)
    case LNull => Atom(NULL)
  }

  function PrintAttr(t: Filter): seq<Token>
    requires t.Attr?
  {
    [Atom(PathText(t.path)), Atom(OpText(t.op))] + if t.value.Some? then [LiteralToken(t.value.value)] else []
  }

  function Paren(ts: seq<Token>): seq<Token> {
    [Punct(OPEN)] + (ts + [Punct(CLOSE)])
  }

  function PrintNot(ts: seq<Token>): seq<Token> {
    [Atom(NOT)] + Paren(ts)
  }

  function PrintVal(t: Filter): seq<Token>
    decreases t, 0
  {
    match t
    case Attr(_, _, _) => PrintAttr(t)
    case Not(child) => PrintNot(PrintVal(child))
    case And(left, right) => PrintSpine(left) + ([Atom(AND)] + PrintVal(right))
    case Or(left, right) => PrintSpine(left) + ([Atom(OR)] + PrintVal(right))
    case ValuePath(_, _) => []
  }

  /** A left operand inside brackets: its own right operands must not swallow what follows. */
  function PrintSpine(t: Filter): seq<Token>
    decreases t, 0
  {
    match t
    case Attr(_, _, _) => PrintAttr(t)
    case And(left, right) => PrintSpine(left) + ([Atom(AND)] + PrintClosed(right))
    case Or(left, right) => PrintSpine(left) + ([Atom(OR)] + PrintClosed(right))
    case _ => []
  }

  function PrintClosed(t: Filter): seq<Token>
    decreases t, 1
  {
    if t.Not? then PrintVal(t) else Paren(PrintVal(t))
  }

  function Level(t: Filter): nat {
    match t
    case Or(_, _) => 0
    case And(_, _) => 1
    case _ => 2
  }

  function Core(t: Filter): seq<Token>
    decreases t, 0
  {
    match t
    case Attr(_, _, _) => PrintAttr(t)
    case Not(child) => PrintNot(Core(child))
    case And(left, right) => PrintAt(left, 1) + ([Atom(AND)] + PrintAt(right, 2))
    case Or(left, right) => PrintAt(left, 0) + ([Atom(OR)] + PrintAt(right, 1))
    case ValuePath(path, child) =>
      [Atom(PathText(path)), Punct(OPEN_BRACKET)] + (PrintVal(child) + [Punct(CLOSE_BRACKET)])
  }

  /** Parentheses where the tree binds less tightly than its place demands. */
  function PrintAt(t: Filter, level: nat): seq<Token>
    decreases t, 1
  {
    if Level(t) < level then Paren(Core(t)) else Core(t)
  }

  function Print(t: Filter): seq<Token> {
    Core(t)
  }

  // ----- How deep the parser must go -----

  function Max(a: nat, b: nat): nat {
    if a < b then b else a
  }

  function NeedVal(t: Filter): nat
    decreases t, 0
  {
    match t
    case Attr(_, _, _) => 1
    case Not(child) => 1 + NeedVal(child)
    case And(left, right) => Max(NeedSpine(left), 1 + NeedVal(right))
    case Or(left, right) => Max(NeedSpine(left), 1 + NeedVal(right))
    case ValuePath(_, _) => 1
  }

  function NeedSpine(t: Filter): nat
    decreases t, 0
  {
    match t
    case And(left, right) => Max(NeedSpine(left), 1 + NeedClosed(right))
    case Or(left, right) => Max(NeedSpine(left), 1 + NeedClosed(right))
    case _ => 1
  }

  function NeedClosed(t: Filter): nat
    decreases t, 1
  {
    if t.Not? then NeedVal(t) else 1 + NeedVal(t)
  }

  /** The nesting depth at which the parser reads what `Core` and `PrintAt` write. */
  function Need(t: Filter): nat
    decreases t, 0
  {
    match t
    case Attr(_, _, _) => 1
    case Not(child) => 1 + Need(child)
    case And(left, right) => Max(NeedAt(left, 1), NeedAt(right, 2))
    case Or(left, right) => Max(NeedAt(left, 0), NeedAt(right, 1))
    case ValuePath(_, child) => 1 + NeedVal(child)
  }

  function NeedAt(t: Filter, level: nat): nat
    decreases t, 1
  {
    if Level(t) < level then 1 + Need(t) else Need(t)
  }
}
