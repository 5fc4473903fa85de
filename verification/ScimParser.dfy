/**
 The lexer and parser of src/lib/scim-filter.ts as they run: loops that advance
 an index, and a nesting counter raised and lowered in place.  Each method is
 proved to do what `ScimSyntax` and `ScimFilter` say.

 The lexer's index stands before the text that the functions still have to read, and
 the parser's before the tokens that are left.  The nesting counter is raised on the
 way in and lowered on the way out, so after every successful call it is what it was.
 */
module ScimParser {
  import opened Prelude
  import opened ScimSyntax
  import opened ScimFilter
  import opened ScimReading
  import opened ScimRoundTrip

  // ----- lex -----

  function Appended(value: Text, length: nat, r: Option<Content>): Option<Content> {
    match r
    case None => None
    case Some(c) => Some(Content(value + c.value, length + c.length))
  }

  /** One character or escape of a string. */
  lemma ContentStep(input: Text, start: nat, i: nat, value: Text)
    requires start <= i < |input| && input[i] != QUOTE
    ensures match ReadPiece(input[i..])
      case None => ReadString(input[i..]) == None
      case Some(p) =>
        && i + p.length <= |input|
        && Appended(value, i - start, ReadString(input[i..])) ==
           Appended(value + [p.unit], i + p.length - start, ReadString(input[i + p.length..]))
  {
    hide ReadPiece;
    if ReadPiece(input[i..]).Some? {
      var n := ReadPiece(input[i..]).value.length;
      var u := ReadPiece(input[i..]).value.unit;
      assert input[i..][n..] == input[i + n..];
      var rest := ReadString(input[i + n..]);
      if rest.Some? { assert value + ([u] + rest.value.value) == value + [u] + rest.value.value; }
    }
  }

  method LexString(input: Text, start: nat) returns (r: Option<Content>)
    requires start <= |input|
    ensures r == ReadString(input[start..])
  {
    hide ReadString, ReadPiece;
    var i, value := start, [];
    AppendedNothing(ReadString(input[start..]));
    while i < |input| && input[i] != QUOTE
      invariant start <= i <= |input|
      invariant ReadString(input[start..]) == Appended(value, i - start, ReadString(input[i..]))
    {
      ContentStep(input, start, i, value);
      var piece := ReadPiece(input[i..]);
      if piece.None? {
        return None;
      }
      value := value + [piece.value.unit];
      i := i + piece.value.length;
    }
    ReadStringEnds(input[i..]);
    if i == |input| {
      return None;
    }
    assert value + [] == value;
    return Some(Content(value, i - start + 1));
  }

  lemma ReadStringEnds(s: Text)
    ensures s == [] ==> ReadString(s) == None
    ensures s != [] && s[0] == QUOTE ==> ReadString(s) == Some(Content([], 1))
  {
  }

  lemma AppendedNothing(r: Option<Content>)
    ensures Appended([], 0, r) == r
  {
    if r.Some? { assert [] + r.value.value == r.value.value; }
  }

  method LexWord(input: Text, start: nat) returns (end: nat)
    requires start <= |input|
    ensures end == start + WordLength(input[start..])
  {
    end := start;
    while end < |input| && WordUnit(input[end])
      invariant start <= end <= |input|
      invariant WordLength(input[start..]) == end - start + WordLength(input[end..])
    {
      assert input[end..][1..] == input[end + 1..];
      end := end + 1;
    }
    WordEnds(input[end..]);
  }

  lemma WordEnds(s: Text)
    requires s != [] ==> !WordUnit(s[0])
    ensures WordLength(s) == 0
  {
  }

  function Continued(out: seq<Token>, r: Option<seq<Token>>): Option<seq<Token>> {
    if r.Some? then Some(out + r.value) else None
  }

  lemma TokenStep(input: Text, i: nat, out: seq<Token>)
    requires i < |input|
    ensures Space(input[i]) ==> Tokens(input[i..]) == Tokens(input[i + 1..])
    ensures !Space(input[i]) ==>
      match NextToken(input[i..])
      case None => Tokens(input[i..]) == None
      case Some(l) =>
        && i + l.length <= |input|
        && Continued(out, Tokens(input[i..])) == Continued(out + [l.token], Tokens(input[i + l.length..]))
  {
    hide NextToken, Space;
    assert input[i..][1..] == input[i + 1..];
    if !Space(input[i]) && NextToken(input[i..]).Some? {
      var l := NextToken(input[i..]).value;
      assert input[i..][l.length..] == input[i + l.length..];
      if Tokens(input[i + l.length..]).Some? {
        var rest := Tokens(input[i + l.length..]).value;
        assert out + ([l.token] + rest) == out + [l.token] + rest;
      }
    }
  }

  method LexToken(input: Text, i: nat) returns (r: Option<Lexed>)
    requires i < |input| && !Space(input[i])
    ensures r == NextToken(input[i..])
  {
    var c := input[i];
    if Bracket(c) || c == DOT {
      return Some(Lexed(Punct(c), 1));
    }
    if c == QUOTE {
      var content := LexString(input, i + 1);
      assert input[i..][1..] == input[i + 1..];
      return if content.Some? then Some(Lexed(Str(content.value.value), 1 + content.value.length)) else None;
    }
    var j := LexWord(input, i);
    assert input[i..][..j - i] == input[i..j];
    return Some(Lexed(WordToken(input[i..j]), j - i));
  }

  method Lex(input: Text) returns (r: Option<seq<Token>>)
    ensures r == ScimSyntax.Lex(input)
  {
    hide Tokens, NextToken, Space;
    if |input| > MAX_INPUT {
      return None;
    }
    var i, out := 0, [];
    assert input[0..] == input;
    ContinuedNothing(Tokens(input));
    while i < |input|
      invariant 0 <= i <= |input|
      invariant !TooMany(out)
      invariant Tokens(input) == Continued(out, Tokens(input[i..]))
    {
      TokenStep(input, i, out);
      if Space(input[i]) {
        i := i + 1;
        continue;
      }
      var next := LexToken(input, i);
      if next.None? {
        return None;
      }
      NextTokenAdvances(input[i..]);
      out := out + [next.value.token];
      i := i + next.value.length;
      if next.value.token.Punct? {
        continue;
      }
      if |out| > MAX_TOKENS {
        StaysTooMany(out, Tokens(input[i..]));
        return None;
      }
    }
    TokensOfNothing();
    assert input[i..] == [] && out + [] == out;
    return Some(out);
  }

  lemma StaysTooMany(out: seq<Token>, rest: Option<seq<Token>>)
    requires |out| > MAX_TOKENS && !out[|out| - 1].Punct?
    ensures Continued(out, rest).Some? ==> TooMany(Continued(out, rest).value)
  {
    if rest.Some? { assert (out + rest.value)[|out| - 1] == out[|out| - 1]; }
  }

  lemma ContinuedNothing(r: Option<seq<Token>>)
    ensures Continued([], r) == r
  {
    if r.Some? { assert [] + r.value == r.value; }
  }

  lemma TokensOfNothing()
    ensures Tokens([]) == Some([])
  {
  }

  lemma NextTokenAdvances(s: Text)
    requires s != [] && !Space(s[0])
    ensures NextToken(s).Some? ==> NextToken(s).value.length > 0
  {
  }

  // ----- parseScimFilter -----

  lemma SuffixOf(tokens: seq<Token>, i: nat, k: nat)
    requires i + k <= |tokens|
    ensures tokens[i..][k..] == tokens[i + k..]
  {
  }

  lemma ValFilterCases(ts: seq<Token>, depth: nat)
    ensures ScimFilter.ValFilter(ts, depth) ==
      if depth >= MAX_DEPTH then None
      else if IsWord(ts, NOT) then
        if IsPunct(ts[1..], OPEN) then Negated(Closed(ScimFilter.ValFilter(ts[1..][1..], depth + 1), CLOSE)) else None
      else if IsPunct(ts, OPEN) then Closed(ScimFilter.ValFilter(ts[1..], depth + 1), CLOSE)
      else AttrThenTail(ts, depth + 1)
  {
    hide Negated, Closed, ValTail, AttrExp, Lower;
    if |ts| >= 2 { assert ts[1..][1..] == ts[2..]; }
  }

  lemma PrimaryCases(ts: seq<Token>, depth: nat)
    ensures Primary(ts, depth) ==
      if depth >= MAX_DEPTH then None
      else if IsWord(ts, NOT) then
        if IsPunct(ts[1..], OPEN) then Negated(Closed(OrExp(ts[1..][1..], depth + 1), CLOSE)) else None
      else if IsPunct(ts, OPEN) then Closed(OrExp(ts[1..], depth + 1), CLOSE)
      else PathPrimary(ts, depth + 1)
  {
    hide Negated, Closed, PathPrimary, Lower;
    if |ts| >= 2 { assert ts[1..][1..] == ts[2..]; }
  }

  class Parser {
    const tokens: seq<Token>
    var i: nat
    var depth: nat

    constructor (tokens: seq<Token>)
      ensures this.tokens == tokens && i == 0 && depth == 0
    {
      this.tokens := tokens;
      i, depth := 0, 0;
    }

    predicate Valid()
      reads this
    {
      i <= |tokens|
    }

    function Rest(): seq<Token>
      reads this
      requires Valid()
    {
      tokens[i..]
    }

    /** The method returns the tree the grammar function returns, and stops where it stops. */
    predicate Agrees(r: Option<Filter>, spec: Option<Parsed>, level: nat)
      reads this
    {
      && Valid()
      && (spec.None? ==> r.None?)
      && (spec.Some? ==> r == Some(spec.value.tree) && Rest() == spec.value.rest && depth == level)
    }

    /** `enter`. */
    method Enter() returns (ok: bool)
      modifies this`depth
      ensures depth == old(depth) + 1 && (ok <==> old(depth) < MAX_DEPTH)
    {
      depth := depth + 1;
      return depth <= MAX_DEPTH;
    }

    method Leave()
      requires depth > 0
      modifies this`depth
      ensures depth == old(depth) - 1
    {
      depth := depth - 1;
    }

    method TakePunct(u: Unit) returns (ok: bool)
      requires Valid()
      modifies this`i
      ensures Valid() && ok == IsPunct(old(Rest()), u)
      ensures i == old(i) + (if ok then 1 else 0)
      ensures ok ==> Rest() == old(Rest())[1..]
    {
      if i < |tokens| && tokens[i] == Punct(u) {
        i := i + 1;
        return true;
      }
      return false;
    }

    method ReadComparison(path: Path) returns (r: Option<Filter>)
      requires Valid()
      modifies this`i
      ensures Agrees(r, Comparison(path, old(Rest())), old(depth))
    {
      hide OpOf, Lower;
      if i == |tokens| || !tokens[i].Atom? {
        return None;
      }
      var op := OpOf(Lower(tokens[i].text));
      if op.None? {
        return None;
      }
      i := i + 1;
      if op.value.Pr? {
        return Some(Attr(path, Pr, None));
      }
      if i == |tokens| || LiteralOf(tokens[i]).None? {
        return None;
      }
      i := i + 1;
      return Some(Attr(path, op.value, LiteralOf(tokens[i - 1])));
    }

    method ReadAttr() returns (r: Option<Filter>)
      requires Valid()
      modifies this`i
      ensures Agrees(r, AttrExp(old(Rest())), old(depth))
    {
      hide AttrPath, Comparison;
      if i == |tokens| || !tokens[i].Atom? {
        return None;
      }
      var path := AttrPath(tokens[i].text);
      if path.None? {
        return None;
      }
      SuffixOf(tokens, i, 1);
      i := i + 1;
      r := ReadComparison(path.value);
    }

    /** What stands between an opening and a closing bracket that is already passed. */
    method ValGroup(close: Unit) returns (r: Option<Filter>)
      requires Valid()
      modifies this`i, this`depth
      ensures Agrees(r, Closed(ScimFilter.ValFilter(old(Rest()), old(depth)), close), old(depth))
      decreases |tokens| - i, 2
    {
      hide ScimFilter.ValFilter;
      r := ValFilter();
      if r.Some? {
        var ok := TakePunct(close);
        if !ok {
          return None;
        }
      }
    }

    method ValFilter() returns (r: Option<Filter>)
      requires Valid()
      modifies this`i, this`depth
      ensures Agrees(r, ScimFilter.ValFilter(old(Rest()), old(depth)), old(depth))
      decreases |tokens| - i, 1
    {
      hide AttrThenTail, ScimFilter.ValFilter;
      ValFilterCases(Rest(), depth);
      WordNonEmpty(Rest(), NOT);
      var ok := Enter();
      if !ok {
        return None;
      }
      if IsWord(Rest(), NOT) {
        SuffixOf(tokens, i, 1);
        i := i + 1;
        ok := TakePunct(OPEN);
        if !ok {
          return None;
        }
        r := ValGroup(CLOSE);
        if r.Some? {
          Leave();
          r := Some(Not(r.value));
        }
        return;
      }
      ok := TakePunct(OPEN);
      if ok {
        r := ValGroup(CLOSE);
      } else {
        r := ValChain();
      }
      if r.Some? {
        Leave();
      }
    }

    /** An attribute expression and the operators after it. */
    method ValChain() returns (r: Option<Filter>)
      requires Valid()
      modifies this`i, this`depth
      ensures Agrees(r, AttrThenTail(old(Rest()), old(depth)), old(depth))
      decreases |tokens| - i, 0
    {
      hide AttrExp, IsWord;
      var first := ReadAttr();
      if first.None? {
        return None;
      }
      var left := first.value;
      while i < |tokens| && (IsWord(Rest(), AND) || IsWord(Rest(), OR))
        invariant Valid() && depth == old(depth)
        invariant i > old(i)
        invariant AttrThenTail(old(Rest()), old(depth)) == ValTail(left, Rest(), depth)
        decreases |tokens| - i
      {
        var and := IsWord(Rest(), AND);
        assert Rest()[1..] == tokens[i + 1..];
        i := i + 1;
        var right := ValFilter();
        if right.None? {
          return None;
        }
        left := if and then And(left, right.value) else Or(left, right.value);
      }
      WordNonEmpty(Rest(), AND);
      WordNonEmpty(Rest(), OR);
      return Some(left);
    }

    method Group() returns (r: Option<Filter>)
      requires Valid()
      modifies this`i, this`depth
      ensures Agrees(r, Closed(OrExp(old(Rest()), old(depth)), CLOSE), old(depth))
      decreases |tokens| - i, 4
    {
      hide OrExp;
      r := ParseOr();
      if r.Some? {
        var ok := TakePunct(CLOSE);
        if !ok {
          return None;
        }
      }
    }

    method ParsePrimary() returns (r: Option<Filter>)
      requires Valid()
      modifies this`i, this`depth
      ensures Agrees(r, Primary(old(Rest()), old(depth)), old(depth))
      decreases |tokens| - i, 1
    {
      hide PathPrimary, Primary, OrExp;
      PrimaryCases(Rest(), depth);
      WordNonEmpty(Rest(), NOT);
      var ok := Enter();
      if !ok {
        return None;
      }
      if IsWord(Rest(), NOT) {
        SuffixOf(tokens, i, 1);
        i := i + 1;
        ok := TakePunct(OPEN);
        if !ok {
          return None;
        }
        r := Group();
        if r.Some? {
          Leave();
          r := Some(Not(r.value));
        }
        return;
      }
      ok := TakePunct(OPEN);
      if ok {
        r := Group();
      } else {
        r := ParsePath();
      }
      if r.Some? {
        Leave();
      }
    }

    method ParsePath() returns (r: Option<Filter>)
      requires Valid()
      modifies this`i, this`depth
      ensures Agrees(r, PathPrimary(old(Rest()), old(depth)), old(depth))
      decreases |tokens| - i, 0
    {
      hide AttrPath, Comparison, ScimFilter.ValFilter;
      if i == |tokens| || !tokens[i].Atom? {
        return None;
      }
      var path := AttrPath(tokens[i].text);
      if path.None? {
        return None;
      }
      SuffixOf(tokens, i, 1);
      i := i + 1;
      var ok := TakePunct(OPEN_BRACKET);
      if !ok {
        r := ReadComparison(path.value);
        return;
      }
      r := ValGroup(CLOSE_BRACKET);
      if r.Some? {
        r := Some(ValuePath(path.value, r.value));
      }
    }

    method ParseAnd() returns (r: Option<Filter>)
      requires Valid()
      modifies this`i, this`depth
      ensures Agrees(r, AndExp(old(Rest()), old(depth)), old(depth))
      decreases |tokens| - i, 2
    {
      hide Primary, IsWord;
      var first := ParsePrimary();
      if first.None? {
        return None;
      }
      var left := first.value;
      while i < |tokens| && IsWord(Rest(), AND)
        invariant Valid() && depth == old(depth)
        invariant i > old(i)
        invariant AndExp(old(Rest()), old(depth)) == AndTail(left, Rest(), depth)
        decreases |tokens| - i
      {
        assert Rest()[1..] == tokens[i + 1..];
        i := i + 1;
        var right := ParsePrimary();
        if right.None? {
          return None;
        }
        left := And(left, right.value);
      }
      WordNonEmpty(Rest(), AND);
      return Some(left);
    }

    method ParseOr() returns (r: Option<Filter>)
      requires Valid()
      modifies this`i, this`depth
      ensures Agrees(r, OrExp(old(Rest()), old(depth)), old(depth))
      decreases |tokens| - i, 3
    {
      hide AndExp, IsWord;
      var first := ParseAnd();
      if first.None? {
        return None;
      }
      var left := first.value;
      while i < |tokens| && IsWord(Rest(), OR)
        invariant Valid() && depth == old(depth)
        invariant i > old(i)
        invariant OrExp(old(Rest()), old(depth)) == OrTail(left, Rest(), depth)
        decreases |tokens| - i
      {
        assert Rest()[1..] == tokens[i + 1..];
        i := i + 1;
        var right := ParseAnd();
        if right.None? {
          return None;
        }
        left := Or(left, right.value);
      }
      WordNonEmpty(Rest(), OR);
      return Some(left);
    }
  }

  method ParseScimFilter(input: Option<Text>) returns (r: Outcome)
    ensures r == ParseText(input)
  {
    hide ParseTokens, Trim;
    if input.None? || Trim(input.value) == [] {
      return NoFilter;
    }
    var tokens := Lex(Trim(input.value));
    if tokens.None? {
      return Rejected;
    }
    var tree := ParseAll(tokens.value);
    return if tree.Some? then Accepted(tree.value) else Rejected;
  }

  method ParseAll(tokens: seq<Token>) returns (r: Option<Filter>)
    ensures r == ParseTokens(tokens)
  {
    hide OrExp;
    var parser := new Parser(tokens);
    assert parser.Rest() == tokens;
    r := parser.ParseOr();
    if r.Some? && parser.i != |tokens| {
      return None;
    }
  }
}
