/**
 What the SCIM filter parser reads from what the printer writes
 (src/lib/scim-filter.ts), construct by construct.

 Each `...Reads` lemma says what one grammar function returns on the tokens of a
 tree followed by any other tokens: the tree and those tokens if the nesting fits,
 nothing otherwise.  For the loops over `and` and `or` the statement is that the
 function is where its loop would be with the whole printed operand on its left,
 which is what makes left association come out.  The `...Sound` lemmas go the other
 way: whatever a grammar function returns is a valid tree that fits the depth it
 was read at.  Both directions use the shape lemmas, which say how a printed group,
 negation or operator begins and what is left behind it.
 */
module ScimReading {
  import opened Prelude
  import opened ScimSyntax
  import opened ScimFilter

  // ----- Paths -----

  lemma {:induction false} NoColon(t: Text)
    requires forall i :: 0 <= i < |t| ==> t[i] != COLON
    ensures LastIndexOf(t, COLON) == -1
  {
    if t != [] { NoColon(t[..|t| - 1]); }
  }

  lemma {:induction false} LastColonAfter(prefix: Text, t: Text)
    requires forall i :: 0 <= i < |t| ==> t[i] != COLON
    ensures LastIndexOf(prefix + [COLON] + t, COLON) == |prefix|
  {
    var s := prefix + [COLON] + t;
    if t == [] {
      assert s[|s| - 1] == COLON;
    } else {
      assert s[..|s| - 1] == prefix + [COLON] + t[..|t| - 1];
      assert s[|s| - 1] == t[|t| - 1];
      LastColonAfter(prefix, t[..|t| - 1]);
    }
  }

  lemma {:induction false} SplitOne(t: Text)
    requires forall i :: 0 <= i < |t| ==> t[i] != DOT
    ensures Split(t) == [t]
  {
    if t != [] {
      SplitOne(t[1..]);
      assert t == [t[0]] + t[1..];
    }
  }

  lemma {:induction false} SplitDot(t: Text, rest: Text)
    requires forall i :: 0 <= i < |t| ==> t[i] != DOT
    ensures Split(t + ([DOT] + rest)) == [t] + Split(rest)
  {
    var s := t + ([DOT] + rest);
    if t == [] {
      assert s[1..] == rest;
    } else {
      SplitDot(t[1..], rest);
      assert s[1..] == t[1..] + ([DOT] + rest);
      assert [t[0]] + t[1..] == t;
      assert ([t[1..]] + Split(rest))[1..] == Split(rest);
    }
  }

  lemma {:induction false} SplitJoined(path: Path)
    requires ValidPath(path)
    ensures Split(Joined(path)) == path
  {
    assert AttrName(path[0]);
    if |path| == 1 {
      SplitOne(path[0]);
    } else {
      SplitDot(path[0], Joined(path[1..]));
      SplitJoined(path[1..]);
      assert path == [path[0]] + path[1..];
    }
  }

  predicate PathUnit(u: Unit) {
    NameUnit(u) || u == DOT
  }

  lemma {:induction false} JoinedUnits(path: Path)
    requires ValidPath(path)
    ensures Joined(path) != [] && Letter(Joined(path)[0])
    ensures forall i :: 0 <= i < |Joined(path)| ==> PathUnit(Joined(path)[i])
  {
    assert AttrName(path[0]);
    if |path| > 1 { JoinedUnits(path[1..]); }
  }

  lemma NotANumber(t: Text)
    requires t != [] && Letter(t[0])
    ensures !NumberText(t)
  {
  }

  lemma JoinedRead(path: Path)
    requires ValidPath(path)
    ensures AttrPath(Joined(path)) == Some(path)
  {
    JoinedUnits(path);
    SplitJoined(path);
    NoColon(Joined(path));
    assert Joined(path)[0..] == Joined(path);
    hide Joined, Split, LastIndexOf;
  }

  lemma QualifiedRead(name: Text)
    requires AttrName(name)
    ensures AttrPath([117, COLON] + name) == Some([name])
  {
    var raw := [117, COLON] + name;
    assert raw == [117] + [COLON] + name && raw[2..] == name;
    LastColonAfter([117], name);
    SplitOne(name);
    hide Split, LastIndexOf;
  }

  /** A printed path is one token, reads back as the path, and is never the word `not`. */
  lemma PathRead(path: Path)
    requires ValidPath(path)
    ensures WellFormed(Atom(PathText(path)))
    ensures AttrPath(PathText(path)) == Some(path)
    ensures Lower(PathText(path)) != NOT
  {
    hide AttrPath, Lower, Split, Joined, NumberText;
    JoinedUnits(path);
    NotANumber(PathText(path));
    if PathText(path) == Joined(path) {
      JoinedRead(path);
      PathIsNotWord(path);
    } else {
      assert path == [path[0]] && AttrName(path[0]);
      QualifiedRead(path[0]);
      LowerAt(PathText(path), 1);
    }
  }

  lemma {:induction false} LowerAt(t: Text, i: nat)
    requires i < |t|
    ensures |Lower(t)| == |t| && Lower(t)[i] == if 65 <= t[i] <= 90 then t[i] + 32 else t[i]
  {
    if i > 0 {
      LowerAt(t[1..], i - 1);
    } else if |t| > 1 {
      LowerAt(t[1..], 0);
    }
  }

  lemma PathIsNotWord(path: Path)
    requires ValidPath(path) && PathText(path) == Joined(path)
    ensures Lower(Joined(path)) != NOT
  {
    if |path| > 1 {
      var j, k := Joined(path), |path[0]|;
      assert j[k] == DOT;
      LowerAt(j, k);
      assert Lower(j)[k] == DOT;
    }
  }

  // ----- Words and comparisons -----

  lemma WordsDiffer()
    ensures Lower(NOT) == NOT && Lower(AND) == AND && Lower(OR) == OR
    ensures NOT != AND && NOT != OR && AND != OR
  {
    LowerSmall(NOT);
    LowerSmall(AND);
    LowerSmall(OR);
    assert NOT[0] != AND[0] && |OR| != |AND|;
  }

  predicate Small(t: Text) {
    forall i :: 0 <= i < |t| ==> 97 <= t[i] <= 122
  }

  lemma {:induction false} LowerSmall(t: Text)
    requires Small(t)
    ensures Lower(t) == t
  {
    if t != [] {
      LowerSmall(t[1..]);
      assert t == [t[0]] + t[1..];
    }
  }

  lemma SmallToken(t: Text)
    requires Small(t) && t != []
    ensures WellFormed(Atom(t))
  {
    NotANumber(t);
    hide NumberText;
  }

  lemma OpRead(op: Op)
    ensures OpOf(Lower(OpText(op))) == Some(op)
    ensures WellFormed(Atom(OpText(op)))
  {
    hide Lower, WellFormed;
    LowerSmall(OpText(op));
    SmallToken(OpText(op));
  }

  lemma LiteralRead(v: Literal)
    ensures LiteralOf(LiteralToken(v)) == Some(v)
  {
    assert TRUE[0] != FALSE[0] && TRUE[0] != NULL[0] && FALSE[0] != NULL[0];
  }

  lemma AttrRead(t: Filter, rest: seq<Token>)
    requires t.Attr? && ValidAttr(t)
    ensures AttrExp(PrintAttr(t) + rest) == Some(Parsed(t, rest))
    ensures !IsWord(PrintAttr(t) + rest, NOT) && !IsPunct(PrintAttr(t) + rest, OPEN)
    ensures !IsPunct((PrintAttr(t) + rest)[1..], OPEN_BRACKET)
  {
    hide AttrPath, OpOf, Lower, OpText, PathText, ValidPath, NumberText;
    PathRead(t.path);
    OpRead(t.op);
    var s := PrintAttr(t) + rest;
    assert s[0] == Atom(PathText(t.path)) && s[1] == Atom(OpText(t.op));
    assert s[1..][1..] == s[2..];
    if t.value.Some? {
      LiteralRead(t.value.value);
      assert s[2] == LiteralToken(t.value.value) && s[3..] == rest;
      assert s[1..][2..] == rest;
    } else {
      assert s[2..] == rest;
    }
  }

  // ----- Reading what is printed inside brackets -----

  predicate Fits(depth: nat, need: nat) {
    depth + need <= MAX_DEPTH
  }

  predicate StartsOp(ts: seq<Token>) {
    IsWord(ts, AND) || IsWord(ts, OR)
  }

  function AttrThenTail(ts: seq<Token>, depth: nat): Option<Parsed> {
    match AttrExp(ts)
    case None => None
    case Some(p) => ValTail(p.tree, p.rest, depth)
  }

  lemma ParenShape(ts: seq<Token>, rest: seq<Token>)
    ensures var s := Paren(ts) + rest;
      && !IsWord(s, NOT) && IsPunct(s, OPEN) && s[1..] == ts + ([Punct(CLOSE)] + rest)
  {
  }

  lemma NotShape(ts: seq<Token>, rest: seq<Token>)
    ensures var s := PrintNot(ts) + rest;
      && IsWord(s, NOT) && IsPunct(s[1..], OPEN) && s[2..] == ts + ([Punct(CLOSE)] + rest)
  {
    WordsDiffer();
    hide Lower;
    var s := PrintNot(ts) + rest;
    assert s[1..] == Paren(ts) + rest;
    assert s[0] == Atom(NOT);
  }

  lemma CloseShape(u: Unit, rest: seq<Token>)
    ensures var s := [Punct(u)] + rest; !StartsOp(s) && IsPunct(s, u) && s[1..] == rest
  {
  }

  lemma OpShape(word: Text, x: seq<Token>, y: seq<Token>)
    requires word == AND || word == OR
    ensures var s := [Atom(word)] + x + y;
      && s != [] && StartsOp(s) && (IsWord(s, AND) <==> word == AND) && (IsWord(s, OR) <==> word == OR) && s[1..] == x + y
  {
    WordsDiffer();
    hide Lower;
    assert ([Atom(word)] + x + y)[0] == Atom(word);
  }

  lemma {:induction false} ValReads(t: Filter, rest: seq<Token>, depth: nat)
    requires InBrackets(t) && (t.Not? || !StartsOp(rest))
    ensures ValFilter(PrintVal(t) + rest, depth) == if Fits(depth, NeedVal(t)) then Some(Parsed(t, rest)) else None
    decreases t, 1
  {
    hide AttrExp, PrintAttr, IsWord, IsPunct, StartsOp, ValidAttr, ValTail, ValFilter;
    match t
    case Attr(_, _, _) => ValAttrReads(t, rest, depth);
    case Not(child) => ValNotReads(child, rest, depth);
    case _ => ValOpReads(t, rest, depth);
  }

  lemma ValAttrReads(t: Filter, rest: seq<Token>, depth: nat)
    requires t.Attr? && ValidAttr(t) && !StartsOp(rest)
    ensures ValFilter(PrintAttr(t) + rest, depth) == if depth < MAX_DEPTH then Some(Parsed(t, rest)) else None
  {
    AttrRead(t, rest);
    hide AttrExp, PrintAttr, IsWord, IsPunct;
  }

  lemma {:induction false} ValNotReads(child: Filter, rest: seq<Token>, depth: nat)
    requires InBrackets(child)
    ensures ValFilter(PrintNot(PrintVal(child)) + rest, depth) ==
      if Fits(depth, 1 + NeedVal(child)) then Some(Parsed(Not(child), rest)) else None
    decreases child, 2
  {
    hide IsWord, IsPunct, PrintVal, InBrackets, NeedVal, PrintNot, ValFilter, StartsOp;
    NotShape(PrintVal(child), rest);
    CloseShape(CLOSE, rest);
    ValNotStep(PrintNot(PrintVal(child)) + rest, depth);
    ValReads(child, [Punct(CLOSE)] + rest, depth + 1);
  }

  lemma ValNotStep(ts: seq<Token>, depth: nat)
    requires IsWord(ts, NOT) && IsPunct(ts[1..], OPEN)
    ensures ValFilter(ts, depth) ==
      if depth < MAX_DEPTH then Negated(Closed(ValFilter(ts[2..], depth + 1), CLOSE)) else None
  {
    hide Negated, Closed, ValTail, AttrExp, Lower;
  }

  lemma {:induction false} ValClosedReads(t: Filter, rest: seq<Token>, depth: nat)
    requires InBrackets(t)
    ensures ValFilter(PrintClosed(t) + rest, depth) ==
      if Fits(depth, NeedClosed(t)) then Some(Parsed(t, rest)) else None
    decreases t, 2
  {
    hide IsWord, IsPunct, PrintVal, InBrackets, NeedVal, Paren;
    if t.Not? {
      ValReads(t, rest, depth);
    } else {
      ParenShape(PrintVal(t), rest);
      CloseShape(CLOSE, rest);
      ValReads(t, [Punct(CLOSE)] + rest, depth + 1);
    }
  }

  function Word(t: Filter): Text {
    if t.And? then AND else OR
  }

  lemma OpPrinted(t: Filter, rest: seq<Token>)
    requires t.And? || t.Or?
    ensures PrintVal(t) + rest == PrintSpine(t.left) + ([Atom(Word(t))] + PrintVal(t.right) + rest)
    ensures PrintSpine(t) + rest == PrintSpine(t.left) + ([Atom(Word(t))] + PrintClosed(t.right) + rest)
    ensures NeedVal(t) == Max(NeedSpine(t.left), 1 + NeedVal(t.right))
    ensures NeedSpine(t) == Max(NeedSpine(t.left), 1 + NeedClosed(t.right))
    ensures InBrackets(t) ==> !t.left.Not? && InBrackets(t.left) && InBrackets(t.right)
  {
    hide PrintClosed, NeedClosed, PrintAttr;
  }

  lemma {:induction false} ValOpReads(t: Filter, rest: seq<Token>, depth: nat)
    requires t.And? || t.Or?
    requires InBrackets(t) && !StartsOp(rest)
    ensures ValFilter(PrintVal(t) + rest, depth) == if Fits(depth, NeedVal(t)) then Some(Parsed(t, rest)) else None
    decreases t, 0
  {
    hide AttrExp, PrintSpine, IsWord, IsPunct, StartsOp, InBrackets, PrintVal, NeedVal, NeedSpine, Lower;
    var x := [Atom(Word(t))] + PrintVal(t.right) + rest;
    WordsDiffer();
    OpPrinted(t, rest);
    SpineStart(t.left, x);
    OpShape(Word(t), PrintVal(t.right), rest);
    if depth < MAX_DEPTH {
      SpineReads(t.left, x, depth);
      ValReads(t.right, rest, depth + 1);
      TailStep(t, x, PrintVal(t.right) + rest, rest, depth);
    }
    ValFilterIsAttrThenTail(PrintSpine(t.left) + x, depth);
  }

  lemma ValFilterIsAttrThenTail(ts: seq<Token>, depth: nat)
    requires !IsWord(ts, NOT) && !IsPunct(ts, OPEN)
    ensures ValFilter(ts, depth) == if depth < MAX_DEPTH then AttrThenTail(ts, depth + 1) else None
  {
    hide AttrExp, IsWord, IsPunct;
  }

  /** One turn of the loop: the operator, then the right operand that `t` has. */
  lemma TailStep(t: Filter, x: seq<Token>, y: seq<Token>, rest: seq<Token>, depth: nat)
    requires t.And? || t.Or?
    requires x != [] && x[1..] == y && StartsOp(x) && (IsWord(x, AND) <==> t.And?)
    ensures ValFilter(y, depth + 1) == Some(Parsed(t.right, rest)) ==> ValTail(t.left, x, depth + 1) == ValTail(t, rest, depth + 1)
    ensures ValFilter(y, depth + 1) == None ==> ValTail(t.left, x, depth + 1) == None
    ensures !StartsOp(rest) ==> ValTail(t, rest, depth + 1) == Some(Parsed(t, rest))
  {
    hide ValFilter, IsWord;
  }

  lemma {:induction false} SpineStart(t: Filter, x: seq<Token>)
    requires InBrackets(t) && !t.Not?
    ensures !IsWord(PrintSpine(t) + x, NOT) && !IsPunct(PrintSpine(t) + x, OPEN)
    ensures NeedSpine(t) >= 1
  {
    hide AttrExp, PrintAttr, IsWord, IsPunct, ValidAttr, PrintClosed;
    if t.Attr? {
      AttrRead(t, x);
    } else {
      OpPrinted(t, x);
      SpineStart(t.left, [Atom(Word(t))] + PrintClosed(t.right) + x);
    }
  }

  lemma {:induction false} SpineReads(t: Filter, x: seq<Token>, depth: nat)
    requires InBrackets(t) && !t.Not? && depth < MAX_DEPTH
    ensures AttrThenTail(PrintSpine(t) + x, depth + 1) == if Fits(depth, NeedSpine(t)) then ValTail(t, x, depth + 1) else None
    decreases t, 1
  {
    if t.Attr? {
      AttrRead(t, x);
      hide AttrExp, PrintAttr, IsWord, IsPunct, ValidAttr, ValTail;
    } else {
      SpineOpReads(t, x, depth);
    }
  }

  lemma {:induction false} SpineOpReads(t: Filter, x: seq<Token>, depth: nat)
    requires t.And? || t.Or?
    requires InBrackets(t) && depth < MAX_DEPTH
    ensures AttrThenTail(PrintSpine(t) + x, depth + 1) == if Fits(depth, NeedSpine(t)) then ValTail(t, x, depth + 1) else None
    decreases t, 0
  {
    hide AttrThenTail, PrintSpine, IsWord, IsPunct, StartsOp, InBrackets, PrintClosed, NeedClosed, NeedSpine, Lower, ValTail, ValFilter;
    var y := [Atom(Word(t))] + PrintClosed(t.right) + x;
    WordsDiffer();
    OpPrinted(t, x);
    OpShape(Word(t), PrintClosed(t.right), x);
    SpineReads(t.left, y, depth);
    ValClosedReads(t.right, x, depth + 1);
    TailStep(t, y, PrintClosed(t.right) + x, x, depth);
  }

  // ----- Reading what is printed at the top level -----

  lemma {:induction false} PrimaryReads(t: Filter, rest: seq<Token>, depth: nat)
    requires Valid(t)
    ensures Primary(PrintAt(t, 2) + rest, depth) == if Fits(depth, NeedAt(t, 2)) then Some(Parsed(t, rest)) else None
    decreases t, if Level(t) == 2 then 0 else if t.And? then 2 else 1, 1
  {
    hide Primary, PrintAttr, PrintNot, Paren, IsWord, ValidAttr, ValidPath, InBrackets;
    match t
    case Attr(_, _, _) => PrimaryAttrReads(t, rest, depth);
    case Not(child) => PrimaryNotReads(child, rest, depth);
    case ValuePath(path, child) => PrimaryPathReads(path, child, rest, depth);
    case _ => PrimaryGroupReads(t, rest, depth);
  }

  lemma {:induction false} PrimaryGroupReads(t: Filter, rest: seq<Token>, depth: nat)
    requires Valid(t) && Level(t) < 2
    ensures Primary(PrintAt(t, 2) + rest, depth) == if Fits(depth, NeedAt(t, 2)) then Some(Parsed(t, rest)) else None
    decreases t, if t.And? then 2 else 1, 0
  {
    hide IsWord, IsPunct, Core, Valid, Need, Paren, OrExp, Level, Primary, OrTail;
    CloseShape(CLOSE, rest);
    OrReads(t, [Punct(CLOSE)] + rest, depth + 1);
    GroupStep(t, rest, depth);
    assert PrintAt(t, 2) == Paren(Core(t)) && NeedAt(t, 2) == 1 + Need(t);
    hide PrintAt, NeedAt;
  }

  lemma GroupStep(t: Filter, rest: seq<Token>, depth: nat)
    requires OrExp(Core(t) + ([Punct(CLOSE)] + rest), depth + 1) ==
      if Fits(depth + 1, Need(t)) then OrTail(t, [Punct(CLOSE)] + rest, depth + 1) else None
    ensures Primary(Paren(Core(t)) + rest, depth) == if Fits(depth, 1 + Need(t)) then Some(Parsed(t, rest)) else None
  {
    hide IsWord, IsPunct, Core, Need, Paren, OrExp;
    ParenShape(Core(t), rest);
    CloseShape(CLOSE, rest);
    OrTailEnds(t, [Punct(CLOSE)] + rest, depth + 1);
  }

  lemma NoAnd(ts: seq<Token>)
    requires !StartsOp(ts)
    ensures !IsWord(ts, AND)
  {
  }

  lemma PrimaryAttrReads(t: Filter, rest: seq<Token>, depth: nat)
    requires t.Attr? && ValidAttr(t)
    ensures Primary(PrintAttr(t) + rest, depth) == if depth < MAX_DEPTH then Some(Parsed(t, rest)) else None
  {
    AttrRead(t, rest);
    hide AttrPath, Comparison, PrintAttr, IsWord, IsPunct;
  }

  lemma {:induction false} PrimaryNotReads(child: Filter, rest: seq<Token>, depth: nat)
    requires Valid(child)
    ensures Primary(PrintNot(Core(child)) + rest, depth) ==
      if Fits(depth, 1 + Need(child)) then Some(Parsed(Not(child), rest)) else None
    decreases child, 4
  {
    hide IsWord, IsPunct, Core, Valid, Need, PrintNot, OrExp;
    NotShape(Core(child), rest);
    CloseShape(CLOSE, rest);
    OrReads(child, [Punct(CLOSE)] + rest, depth + 1);
    OrTailEnds(child, [Punct(CLOSE)] + rest, depth + 1);
  }

  lemma OrTailEnds(t: Filter, rest: seq<Token>, depth: nat)
    requires !StartsOp(rest)
    ensures OrTail(t, rest, depth) == Some(Parsed(t, rest)) && AndTail(t, rest, depth) == Some(Parsed(t, rest))
  {
  }

  lemma PrimaryPathReads(path: Path, child: Filter, rest: seq<Token>, depth: nat)
    requires ValidPath(path) && InBrackets(child)
    ensures Primary(Core(ValuePath(path, child)) + rest, depth) ==
      if Fits(depth, 1 + NeedVal(child)) then Some(Parsed(ValuePath(path, child), rest)) else None
  {
    hide AttrPath, PrintVal, InBrackets, PathText, Lower, NeedVal, ValFilter, WellFormed, ValidPath;
    var s := Core(ValuePath(path, child)) + rest;
    PathRead(path);
    assert s[0] == Atom(PathText(path)) && s[1] == Punct(OPEN_BRACKET);
    assert s[2..] == PrintVal(child) + ([Punct(CLOSE_BRACKET)] + rest);
    CloseShape(CLOSE_BRACKET, rest);
    ValReads(child, [Punct(CLOSE_BRACKET)] + rest, depth + 1);
  }

  lemma {:induction false} AndReads(t: Filter, rest: seq<Token>, depth: nat)
    requires Valid(t)
    ensures AndExp(PrintAt(t, 1) + rest, depth) == if Fits(depth, NeedAt(t, 1)) then AndTail(t, rest, depth) else None
    decreases t, if Level(t) == 2 then 1 else if t.And? then 0 else 2
  {
    if t.And? {
      hide IsWord, IsPunct, Primary, AndTail, AndExp, PrintAt, NeedAt, StartsOp, Lower, Valid;
      var x := [Atom(AND)] + PrintAt(t.right, 2) + rest;
      AndPrinted(t, rest);
      OpShape(AND, PrintAt(t.right, 2), rest);
      AndReads(t.left, x, depth);
      PrimaryReads(t.right, rest, depth);
      AndStep(t, x, rest, depth);
    } else {
      hide Primary, AndTail, PrintAt, NeedAt, Valid;
      SamePlace(t);
      PrimaryReads(t, rest, depth);
    }
  }

  lemma AndPrinted(t: Filter, rest: seq<Token>)
    requires t.And?
    ensures PrintAt(t, 1) + rest == PrintAt(t.left, 1) + ([Atom(AND)] + PrintAt(t.right, 2) + rest)
    ensures NeedAt(t, 1) == Max(NeedAt(t.left, 1), NeedAt(t.right, 2))
    ensures Valid(t) ==> Valid(t.left) && Valid(t.right)
  {
    assert PrintAt(t, 1) == Core(t);
    hide PrintAt, NeedAt;
    assert Level(t) == 1;
  }

  lemma SamePlace(t: Filter)
    ensures !t.And? ==> PrintAt(t, 1) == PrintAt(t, 2) && NeedAt(t, 1) == NeedAt(t, 2)
    ensures !t.Or? ==> PrintAt(t, 0) == PrintAt(t, 1) && NeedAt(t, 0) == NeedAt(t, 1)
    ensures PrintAt(t, 0) == Core(t) && NeedAt(t, 0) == Need(t)
  {
    hide Core, Need;
  }

  lemma AndStep(t: Filter, x: seq<Token>, rest: seq<Token>, depth: nat)
    requires t.And?
    requires x != [] && IsWord(x, AND) && x[1..] == PrintAt(t.right, 2) + rest
    ensures var r := Primary(PrintAt(t.right, 2) + rest, depth);
      && (r == Some(Parsed(t.right, rest)) ==> AndTail(t.left, x, depth) == AndTail(t, rest, depth))
      && (r == None ==> AndTail(t.left, x, depth) == None)
  {
    hide Primary, IsWord, PrintAt;
  }

  lemma {:induction false} OrReads(t: Filter, rest: seq<Token>, depth: nat)
    requires Valid(t) && !IsWord(rest, AND)
    ensures OrExp(Core(t) + rest, depth) == if Fits(depth, Need(t)) then OrTail(t, rest, depth) else None
    decreases t, if Level(t) == 2 then 2 else if t.And? then 1 else 0
  {
    hide IsWord, IsPunct, Primary, AndExp, OrTail, OrExp, PrintAt, NeedAt, StartsOp, Lower, Valid, Core, Need;
    SamePlace(t);
    if t.Or? {
      var x := [Atom(OR)] + PrintAt(t.right, 1) + rest;
      OrPrinted(t, rest);
      SamePlace(t.left);
      WordsDiffer();
      OpShape(OR, PrintAt(t.right, 1), rest);
      OrReads(t.left, x, depth);
      AndReads(t.right, rest, depth);
      OrStep(t, x, rest, depth);
    } else {
      AndReads(t, rest, depth);
      OrExpIs(t, rest, depth);
    }
  }

  lemma OrPrinted(t: Filter, rest: seq<Token>)
    requires t.Or?
    ensures Core(t) + rest == PrintAt(t.left, 0) + ([Atom(OR)] + PrintAt(t.right, 1) + rest)
    ensures Need(t) == Max(NeedAt(t.left, 0), NeedAt(t.right, 1))
    ensures Valid(t) ==> Valid(t.left) && Valid(t.right)
  {
    hide PrintAt, NeedAt;
  }

  lemma OrExpIs(t: Filter, rest: seq<Token>, depth: nat)
    requires !IsWord(rest, AND)
    ensures var r := AndExp(PrintAt(t, 1) + rest, depth);
      && (r == AndTail(t, rest, depth) ==> OrExp(PrintAt(t, 1) + rest, depth) == OrTail(t, rest, depth))
      && (r == None ==> OrExp(PrintAt(t, 1) + rest, depth) == None)
  {
    hide AndExp, IsWord, PrintAt, OrTail;
  }

  lemma OrStep(t: Filter, x: seq<Token>, rest: seq<Token>, depth: nat)
    requires t.Or? && !IsWord(rest, AND)
    requires x != [] && IsWord(x, OR) && x[1..] == PrintAt(t.right, 1) + rest
    ensures var r := AndExp(PrintAt(t.right, 1) + rest, depth);
      && (r == AndTail(t.right, rest, depth) ==> OrTail(t.left, x, depth) == OrTail(t, rest, depth))
      && (r == None ==> OrTail(t.left, x, depth) == None)
  {
    hide AndExp, IsWord, PrintAt;
  }


  // ----- Only such trees are read -----

  predicate Numbered(ts: seq<Token>) {
    forall t :: t in ts ==> WellFormed(t)
  }

  lemma {:induction false} SplitNonEmpty(t: Text)
    ensures Split(t) != []
  {
    if t != [] && t[0] != DOT { SplitNonEmpty(t[1..]); }
  }

  lemma AttrPathIsSplit(raw: Text)
    ensures AttrPath(raw).Some? ==>
      AttrNames(AttrPath(raw).value) && AttrPath(raw).value == Split(raw[LastIndexOf(raw, COLON) + 1..])
    ensures Split(raw[LastIndexOf(raw, COLON) + 1..]) != [] && AttrPath(raw).Some? ==> ValidPath(AttrPath(raw).value)
  {
    hide AttrNames, Split, LastIndexOf;
  }

  lemma AttrPathSound(raw: Text)
    ensures AttrPath(raw).Some? ==> ValidPath(AttrPath(raw).value)
  {
    hide *;
    AttrPathIsSplit(raw);
    var suffix := raw[LastIndexOf(raw, COLON) + 1..];
    SplitNonEmpty(suffix);
  }

  lemma ComparisonSound(path: Path, ts: seq<Token>)
    requires Numbered(ts) && ValidPath(path)
    ensures Comparison(path, ts).Some? ==>
      var t := Comparison(path, ts).value.tree; t.Attr? && ValidAttr(t) && Numbered(Comparison(path, ts).value.rest)
  {
    hide ValidPath, OpOf, Lower, NumberText;
    if |ts| >= 2 { assert ts[1] in ts && WellFormed(ts[1]); }
    OpNotPr(ts);
  }

  lemma OpNotPr(ts: seq<Token>)
    ensures OpOf(OpText(Pr)) == Some(Pr)
  {
    OpRead(Pr);
    LowerSmall(OpText(Pr));
  }

  lemma AttrExpSound(ts: seq<Token>)
    requires Numbered(ts)
    ensures AttrExp(ts).Some? ==>
      var t := AttrExp(ts).value.tree; t.Attr? && ValidAttr(t) && Numbered(AttrExp(ts).value.rest)
  {
    hide ValidPath, WellFormed, AttrPath, Comparison, ValidAttr;
    if ts != [] && ts[0].Atom? && AttrPath(ts[0].text).Some? {
      AttrPathSound(ts[0].text);
      ComparisonSound(AttrPath(ts[0].text).value, ts[1..]);
    }
  }

  /** What the bracket grammar reads, and that a result followed by an operator was closed by itself. */
  ghost predicate ValSound(r: Option<Parsed>, depth: nat) {
    r.Some? ==>
      && Numbered(r.value.rest)
      && InBrackets(r.value.tree)
      && Fits(depth, NeedVal(r.value.tree))
      && (StartsOp(r.value.rest) ==> Fits(depth, NeedClosed(r.value.tree)))
  }

  lemma {:induction false} ValFilterSound(ts: seq<Token>, depth: nat)
    requires Numbered(ts)
    ensures ValSound(ValFilter(ts, depth), depth)
    decreases |ts|, 1
  {
    hide WellFormed, AttrExp, IsWord, ValidAttr, ValTail, Numbered;
    NumberedSuffixes(ts);
    WordNonEmpty(ts, NOT);
    if depth < MAX_DEPTH {
      if IsWord(ts, NOT) {
        if IsPunct(ts[1..], OPEN) {
          ValFilterSound(ts[2..], depth + 1);
          ClosedSound(ValFilter(ts[2..], depth + 1), CLOSE);
        }
      } else if IsPunct(ts, OPEN) {
        ValFilterSound(ts[1..], depth + 1);
        ClosedSound(ValFilter(ts[1..], depth + 1), CLOSE);
      } else {
        AttrExpSound(ts);
        if AttrExp(ts).Some? {
          var p := AttrExp(ts).value;
          ValTailSound(p.tree, p.rest, depth);
        }
      }
    }
  }

  lemma NumberedSuffixes(ts: seq<Token>)
    requires Numbered(ts)
    ensures forall n :: 0 <= n <= |ts| ==> Numbered(ts[n..])
  {
    hide WellFormed;
  }

  lemma ClosedSound(r: Option<Parsed>, u: Unit)
    ensures var c := Closed(r, u);
      c.Some? ==> r.Some? && c.value.tree == r.value.tree && (Numbered(r.value.rest) ==> Numbered(c.value.rest))
  {
    hide WellFormed;
  }

  lemma {:induction false} ValTailSound(left: Filter, ts: seq<Token>, depth: nat)
    requires Numbered(ts) && depth < MAX_DEPTH
    requires InBrackets(left) && !left.Not?
    requires Fits(depth, NeedVal(left)) && (StartsOp(ts) ==> Fits(depth, NeedSpine(left)))
    ensures var r := ValTail(left, ts, depth + 1);
      r.Some? ==> Numbered(r.value.rest) && InBrackets(r.value.tree) && Fits(depth, NeedVal(r.value.tree)) && !StartsOp(r.value.rest)
    decreases |ts|, 2
  {
    hide WellFormed, IsWord, ValidAttr, ValFilter, Numbered;
    WordNonEmpty(ts, AND);
    WordNonEmpty(ts, OR);
    if StartsOp(ts) {
      assert Numbered(ts[1..]) by { NumberedSuffixes(ts); }
      ValFilterSound(ts[1..], depth + 1);
      if ValFilter(ts[1..], depth + 1).Some? {
        var p := ValFilter(ts[1..], depth + 1).value;
        var t := if IsWord(ts, AND) then And(left, p.tree) else Or(left, p.tree);
        assert InBrackets(t) && NeedVal(t) == Max(NeedSpine(left), 1 + NeedVal(p.tree));
        assert NeedSpine(t) == Max(NeedSpine(left), 1 + NeedClosed(p.tree));
        hide NeedVal, NeedSpine, NeedClosed, InBrackets;
        ValTailSound(t, p.rest, depth);
      }
    }
  }

  ghost predicate Sound(r: Option<Parsed>, depth: nat, level: nat) {
    r.Some? ==> Numbered(r.value.rest) && Valid(r.value.tree) && Fits(depth, NeedAt(r.value.tree, level))
  }

  lemma {:induction false} PrimarySound(ts: seq<Token>, depth: nat)
    requires Numbered(ts)
    ensures Sound(Primary(ts, depth), depth, 2)
    decreases |ts|, 1
  {
    hide WellFormed, AttrPath, Comparison, IsWord, ValidAttr, ValFilter, OrExp, Numbered, ValidPath, InBrackets, NeedVal;
    NumberedSuffixes(ts);
    WordNonEmpty(ts, NOT);
    if depth < MAX_DEPTH {
      if IsWord(ts, NOT) {
        if IsPunct(ts[1..], OPEN) {
          OrSound(ts[2..], depth + 1);
          ClosedSound(OrExp(ts[2..], depth + 1), CLOSE);
          if OrExp(ts[2..], depth + 1).Some? { NotNeeds(OrExp(ts[2..], depth + 1).value.tree); }
        }
      } else if IsPunct(ts, OPEN) {
        OrSound(ts[1..], depth + 1);
        ClosedSound(OrExp(ts[1..], depth + 1), CLOSE);
      } else if ts != [] && ts[0].Atom? && AttrPath(ts[0].text).Some? {
        var path := AttrPath(ts[0].text).value;
        AttrPathSound(ts[0].text);
        if IsPunct(ts[1..], OPEN_BRACKET) {
          ValFilterSound(ts[2..], depth + 1);
          ClosedSound(ValFilter(ts[2..], depth + 1), CLOSE_BRACKET);
          if ValFilter(ts[2..], depth + 1).Some? { PathNeeds(path, ValFilter(ts[2..], depth + 1).value.tree); }
        } else {
          ComparisonSound(path, ts[1..]);
          if Comparison(path, ts[1..]).Some? { AttrNeeds(Comparison(path, ts[1..]).value.tree); }
        }
      }
    }
  }

  lemma NotNeeds(child: Filter)
    ensures NeedAt(Not(child), 2) == 1 + NeedAt(child, 0)
    ensures Valid(child) ==> Valid(Not(child))
  {
  }

  lemma PathNeeds(path: Path, child: Filter)
    ensures NeedAt(ValuePath(path, child), 2) == 1 + NeedVal(child)
    ensures ValidPath(path) && InBrackets(child) ==> Valid(ValuePath(path, child))
  {
  }

  lemma AttrNeeds(t: Filter)
    ensures t.Attr? ==> NeedAt(t, 2) == 1
    ensures t.Attr? && ValidAttr(t) ==> Valid(t)
  {
  }

  lemma {:induction false} AndSound(ts: seq<Token>, depth: nat)
    requires Numbered(ts)
    ensures Sound(AndExp(ts, depth), depth, 1)
    decreases |ts|, 3
  {
    hide WellFormed, Primary, AndTail, Numbered, Valid, Need;
    PrimarySound(ts, depth);
    if Primary(ts, depth).Some? {
      var p := Primary(ts, depth).value;
      AndTailSound(p.tree, p.rest, depth);
    }
  }

  lemma {:induction false} AndTailSound(left: Filter, ts: seq<Token>, depth: nat)
    requires Numbered(ts) && Valid(left) && Fits(depth, NeedAt(left, 1))
    ensures Sound(AndTail(left, ts, depth), depth, 1)
    decreases |ts|, 2
  {
    hide WellFormed, Primary, Numbered, IsWord;
    WordNonEmpty(ts, AND);
    if IsWord(ts, AND) {
      assert Numbered(ts[1..]) by { NumberedSuffixes(ts); }
      PrimarySound(ts[1..], depth);
      if Primary(ts[1..], depth).Some? {
        var p := Primary(ts[1..], depth).value;
        var t := And(left, p.tree);
        assert Valid(t) && NeedAt(t, 1) == Max(NeedAt(left, 1), NeedAt(p.tree, 2));
        hide NeedAt, Need, Valid;
        AndTailSound(t, p.rest, depth);
      }
    }
  }

  lemma WordNonEmpty(ts: seq<Token>, word: Text)
    ensures IsWord(ts, word) ==> ts != []
  {
  }

  lemma {:induction false} OrSound(ts: seq<Token>, depth: nat)
    requires Numbered(ts)
    ensures Sound(OrExp(ts, depth), depth, 0)
    decreases |ts|, 5
  {
    hide WellFormed, AndExp, OrTail, Numbered, Valid, Need;
    AndSound(ts, depth);
    if AndExp(ts, depth).Some? {
      var p := AndExp(ts, depth).value;
      OrTailSound(p.tree, p.rest, depth);
    }
  }

  lemma {:induction false} OrTailSound(left: Filter, ts: seq<Token>, depth: nat)
    requires Numbered(ts) && Valid(left) && Fits(depth, NeedAt(left, 0))
    ensures Sound(OrTail(left, ts, depth), depth, 0)
    decreases |ts|, 4
  {
    hide WellFormed, AndExp, Numbered, IsWord;
    WordNonEmpty(ts, OR);
    if IsWord(ts, OR) {
      assert Numbered(ts[1..]) by { NumberedSuffixes(ts); }
      AndSound(ts[1..], depth);
      if AndExp(ts[1..], depth).Some? {
        var p := AndExp(ts[1..], depth).value;
        var t := Or(left, p.tree);
        assert Valid(t) && NeedAt(t, 0) == Max(NeedAt(left, 0), NeedAt(p.tree, 1));
        hide NeedAt, Need, Valid;
        OrTailSound(t, p.rest, depth);
      }
    }
  }

  // ----- The printed tokens -----

  lemma AttrPrintsTokens(t: Filter)
    requires t.Attr? && ValidAttr(t)
    ensures Numbered(PrintAttr(t))
  {
    hide NumberText, PathText, OpText, ValidPath;
    PathRead(t.path);
    OpRead(t.op);
    LiteralWords();
  }

  lemma LiteralWords()
    ensures WellFormed(Atom(TRUE)) && WellFormed(Atom(FALSE)) && WellFormed(Atom(NULL))
    ensures WellFormed(Atom(NOT)) && WellFormed(Atom(AND)) && WellFormed(Atom(OR))
  {
    SmallToken(TRUE);
    SmallToken(FALSE);
    SmallToken(NULL);
    SmallToken(NOT);
    SmallToken(AND);
    SmallToken(OR);
  }

  lemma NumberedConcat(a: seq<Token>, b: seq<Token>)
    requires Numbered(a) && Numbered(b)
    ensures Numbered(a + b)
  {
    hide WellFormed;
  }

  lemma NumberedParen(ts: seq<Token>)
    requires Numbered(ts)
    ensures Numbered(Paren(ts)) && Numbered(PrintNot(ts)) && Numbered([Punct(OPEN_BRACKET)] + (ts + [Punct(CLOSE_BRACKET)]))
  {
    LiteralWords();
    assert WellFormed(Punct(OPEN)) && WellFormed(Punct(CLOSE)) && WellFormed(Punct(OPEN_BRACKET)) && WellFormed(Punct(CLOSE_BRACKET));
    hide WellFormed;
  }

  lemma NumberedOp(a: seq<Token>, word: Text, b: seq<Token>)
    requires Numbered(a) && Numbered(b) && (word == AND || word == OR)
    ensures Numbered(a + ([Atom(word)] + b))
  {
    LiteralWords();
    hide WellFormed;
  }

  lemma {:induction false} ValPrintsTokens(t: Filter)
    requires InBrackets(t)
    ensures Numbered(PrintVal(t)) && (!t.Not? ==> Numbered(PrintSpine(t))) && Numbered(PrintClosed(t))
  {
    hide Numbered, PrintAttr, ValidAttr, PrintNot, Paren;
    match t
    case Attr(_, _, _) =>
      AttrPrintsTokens(t);
      NumberedParen(PrintVal(t));
    case Not(child) =>
      ValPrintsTokens(child);
      NumberedParen(PrintVal(child));
    case And(left, right) =>
      ValPrintsTokens(left);
      ValPrintsTokens(right);
      NumberedOp(PrintSpine(left), AND, PrintVal(right));
      NumberedOp(PrintSpine(left), AND, PrintClosed(right));
      NumberedParen(PrintVal(t));
    case Or(left, right) =>
      ValPrintsTokens(left);
      ValPrintsTokens(right);
      NumberedOp(PrintSpine(left), OR, PrintVal(right));
      NumberedOp(PrintSpine(left), OR, PrintClosed(right));
      NumberedParen(PrintVal(t));
  }

  lemma {:induction false} PrintsTokens(t: Filter)
    requires Valid(t)
    ensures Numbered(Core(t))
  {
    hide Numbered, PrintAttr, ValidAttr, PrintNot, Paren, InBrackets, ValidPath;
    match t
    case Attr(_, _, _) => AttrPrintsTokens(t);
    case Not(child) =>
      PrintsTokens(child);
      NumberedParen(Core(child));
    case And(left, right) =>
      PrintsTokens(left);
      PrintsTokens(right);
      NumberedParen(Core(left));
      NumberedParen(Core(right));
      NumberedOp(PrintAt(left, 1), AND, PrintAt(right, 2));
    case Or(left, right) =>
      PrintsTokens(left);
      PrintsTokens(right);
      NumberedParen(Core(left));
      NumberedParen(Core(right));
      NumberedOp(PrintAt(left, 0), OR, PrintAt(right, 1));
    case ValuePath(path, child) => PathPrintsTokens(path, child);
  }

  lemma PathPrintsTokens(path: Path, child: Filter)
    requires ValidPath(path) && InBrackets(child)
    ensures Numbered(Core(ValuePath(path, child)))
  {
    hide PathText, PrintVal, WellFormed, ValidPath, InBrackets, AttrPath, Lower;
    PathRead(path);
    ValPrintsTokens(child);
    NumberedParen(PrintVal(child));
    var inner := [Punct(OPEN_BRACKET)] + (PrintVal(child) + [Punct(CLOSE_BRACKET)]);
    assert Core(ValuePath(path, child)) == [Atom(PathText(path))] + inner;
    hide Core;
    NumberedConcat([Atom(PathText(path))], inner);
  }
}
