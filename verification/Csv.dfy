/**
 Reading and writing CSV (src/lib/csv.ts).

 `Run` is the reader's loop as a function of the text that is left.  The main
 results say what it reads from a table written in any of the ways section 2 of
 RFC 4180 allows, and from what the writer writes.

 A table's layout says of each cell whether it stands bare or quoted, and of each
 row which line end it has.  Cells are trimmed by the reader whether quoted or not,
 and rows whose cells are all blank are left out, so a table comes back exactly only
 up to that.
 */
module Csv {
  import opened JsText

  const BOM := '\U{FEFF}'

  // ----- parseCsv -----

  datatype State = State(result: seq<seq<string>>, row: seq<string>, current: string, inQuotes: bool)

  const START := State([], [], "", false)

  predicate HasText(row: seq<string>) {
    exists i :: 0 <= i < |row| && |row[i]| > 0
  }

  function EndCell(st: State): State {
    st.(row := st.row + [Trim(st.current)], current := "")
  }

  function EndRow(st: State): State {
    var row := st.row + [Trim(st.current)];
    st.(result := if HasText(row) then st.result + [row] else st.result, row := [], current := "")
  }

  function Run(text: string, st: State): State
    decreases |text|
  {
    if text == "" then st
    else if st.inQuotes then
      if text[0] != '\"' then Run(text[1..], st.(current := st.current + [text[0]]))
      else if |text| > 1 && text[1] == '\"' then Run(text[2..], st.(current := st.current + "\""))
      else Run(text[1..], st.(inQuotes := false))
    else if text[0] == '\"' then Run(text[1..], st.(inQuotes := true))
    else if text[0] == ',' then Run(text[1..], EndCell(st))
    else if text[0] == '\r' then Run(if |text| > 1 && text[1] == '\n' then text[2..] else text[1..], EndRow(st))
    else if text[0] == '\n' then Run(text[1..], EndRow(st))
    else Run(text[1..], st.(current := st.current + [text[0]]))
  }

  function WithoutBom(input: string): string {
    if input != "" && input[0] == BOM then input[1..] else input
  }

  function Parsed(input: string): seq<seq<string>> {
    EndRow(Run(WithoutBom(input), START)).result
  }

  method ParseCsv(input: string) returns (result: seq<seq<string>>)
    ensures result == Parsed(input)
  {
    var text := WithoutBom(input);
    result := [];
    var row: seq<string> := [];
    var inQuotes := false;
    var current := "";
    var i := 0;
    assert text[0..] == text;
    while i < |text|
      invariant 0 <= i <= |text|
      invariant Run(text, START) == Run(text[i..], State(result, row, current, inQuotes))
    {
      var c := text[i];
      RunStep(text, i, State(result, row, current, inQuotes));
      if inQuotes {
        if c == '\"' {
          if i + 1 < |text| && text[i + 1] == '\"' {
            current := current + "\"";
            i := i + 2;
          } else {
            inQuotes := false;
            i := i + 1;
          }
        } else {
          current := current + [c];
          i := i + 1;
        }
      } else if c == '\"' {
        inQuotes := true;
        i := i + 1;
      } else if c == ',' {
        row := row + [Trim(current)];
        current := "";
        i := i + 1;
      } else if c == '\r' || c == '\n' {
        if c == '\r' && i + 1 < |text| && text[i + 1] == '\n' {
          i := i + 1;
        }
        row := row + [Trim(current)];
        if HasText(row) {
          result := result + [row];
        }
        row := [];
        current := "";
        i := i + 1;
      } else {
        current := current + [c];
        i := i + 1;
      }
    }
    assert text[i..] == "";
    row := row + [Trim(current)];
    if HasText(row) {
      result := result + [row];
    }
  }

  lemma RunStep(text: string, i: nat, st: State)
    requires i < |text|
    ensures text[i..][1..] == text[i + 1..]
    ensures i + 1 < |text| ==> text[i..][2..] == text[i + 2..] && text[i..][1] == text[i + 1]
  {
  }

  // ----- serializeCsv -----

  /** A scalar is a number or a boolean, given by its text. */
  datatype Cell = Null | Text(value: string) | Scalar(text: string)

  predicate FormulaStart(s: string) {
    s != "" && (s[0] == '=' || s[0] == '+' || s[0] == '-' || s[0] == '@' || s[0] == '\t' || s[0] == '\r')
  }

  function Shown(c: Cell): string {
    match c
    case Null => ""
    case Text(s) => if FormulaStart(s) then "'" + s else s
    case Scalar(text) => text
  }

  function Doubled(s: string): string {
    if s == "" then "" else (if s[0] == '\"' then "\"\"" else [s[0]]) + Doubled(s[1..])
  }

  predicate Special(s: string) {
    exists i :: 0 <= i < |s| && (s[i] == ',' || s[i] == '\"' || s[i] == '\n' || s[i] == '\r')
  }

  function CellText(c: Cell): string {
    if c.Null? then "\"\""
    else if Special(Shown(c)) then "\"" + Doubled(Shown(c)) + "\""
    else "\"" + Shown(c) + "\""
  }

  function RowText(row: seq<Cell>): string {
    if row == [] then "" else if |row| == 1 then CellText(row[0]) else CellText(row[0]) + "," + RowText(row[1..])
  }

  function Serialized(rows: seq<seq<Cell>>): string {
    if rows == [] then ""
    else if |rows| == 1 then RowText(rows[0])
    else RowText(rows[0]) + "\n" + Serialized(rows[1..])
  }

  // ----- Tables as anyone may write them -----

  /** A cell as written: bare, or quoted with bare text (usually blanks) around the quotes. */
  datatype Field = Bare(text: string) | Quoted(before: string, value: string, after: string)

  datatype LineEnd = LF | CRLF | CR

  datatype Line = Line(fields: seq<Field>, end: LineEnd)

  predicate Plain(s: string) {
    forall i :: 0 <= i < |s| ==> s[i] != ',' && s[i] != '\"' && s[i] != '\n' && s[i] != '\r'
  }

  predicate ValidField(f: Field) {
    match f
    case Bare(text) => Plain(text)
    case Quoted(before, _, after) => Plain(before) && Plain(after)
  }

  predicate ValidFields(fields: seq<Field>) {
    forall i :: 0 <= i < |fields| ==> ValidField(fields[i])
  }

  function FieldText(f: Field): string {
    match f
    case Bare(text) => text
    case Quoted(before, value, after) => before + ("\"" + (Doubled(value) + ("\"" + after)))
  }

  function FieldValue(f: Field): string {
    match f
    case Bare(text) => text
    case Quoted(before, value, after) => before + value + after
  }

  function FieldsText(fields: seq<Field>): string {
    if fields == [] then ""
    else if |fields| == 1 then FieldText(fields[0])
    else FieldText(fields[0]) + ("," + FieldsText(fields[1..]))
  }

  function EndText(e: LineEnd): string {
    match e
    case LF => "\n"
    case CRLF => "\r\n"
    case CR => "\r"
  }

  /** Lines with their ends, then a last line that may lack one. */
  function TableText(lines: seq<Line>, last: seq<Field>): string {
    if lines == [] then FieldsText(last)
    else FieldsText(lines[0].fields) + (EndText(lines[0].end) + TableText(lines[1..], last))
  }

  function RowValue(fields: seq<Field>): seq<string> {
    if fields == [] then [] else [Trim(FieldValue(fields[0]))] + RowValue(fields[1..])
  }

  function NonBlank(rows: seq<seq<string>>): seq<seq<string>> {
    if rows == [] then [] else (if HasText(rows[0]) then [rows[0]] else []) + NonBlank(rows[1..])
  }

  function TableValue(lines: seq<Line>, last: seq<Field>): seq<seq<string>> {
    if lines == [] then [RowValue(last)] else [RowValue(lines[0].fields)] + TableValue(lines[1..], last)
  }

  // ----- What the reader reads -----

  lemma {:induction false} RunPlain(p: string, rest: string, st: State)
    requires Plain(p) && !st.inQuotes
    ensures Run(p + rest, st) == Run(rest, st.(current := st.current + p))
    decreases |p|
  {
    if p == "" {
      assert p + rest == rest && st.current + p == st.current;
    } else {
      assert (p + rest)[1..] == p[1..] + rest;
      RunPlain(p[1..], rest, st.(current := st.current + [p[0]]));
      assert st.current + [p[0]] + p[1..] == st.current + p;
    }
  }

  /** Anything at all may stand between quotes. */
  lemma {:induction false} RunQuoted(v: string, rest: string, st: State)
    requires st.inQuotes && (rest == "" || rest[0] != '\"')
    ensures Run(Doubled(v) + ("\"" + rest), st) == Run(rest, st.(current := st.current + v, inQuotes := false))
    decreases |v|
  {
    hide Run;
    var tail := "\"" + rest;
    DoubledStarts(v, tail);
    hide Doubled;
    if v == "" {
      assert st.current + v == st.current;
      RunClose(rest, st);
    } else {
      var more := Doubled(v[1..]) + tail;
      RunInside(v[0], more, st);
      RunQuoted(v[1..], rest, st.(current := st.current + [v[0]]));
      assert st.current + [v[0]] + v[1..] == st.current + v;
    }
  }

  lemma DoubledStarts(v: string, tail: string)
    ensures v == "" ==> Doubled(v) + tail == tail
    ensures v != "" ==> Doubled(v) + tail == (if v[0] == '\"' then "\"\"" else [v[0]]) + (Doubled(v[1..]) + tail)
  {
  }

  lemma RunClose(rest: string, st: State)
    requires st.inQuotes && (rest == "" || rest[0] != '\"')
    ensures Run("\"" + rest, st) == Run(rest, st.(inQuotes := false))
  {
    assert ("\"" + rest)[1..] == rest;
  }

  lemma RunInside(c: char, more: string, st: State)
    requires st.inQuotes
    ensures Run((if c == '\"' then "\"\"" else [c]) + more, st) == Run(more, st.(current := st.current + [c]))
  {
    if c == '\"' {
      assert ("\"\"" + more)[2..] == more;
    } else {
      assert ([c] + more)[1..] == more;
    }
  }

  predicate EndsField(rest: string) {
    rest == "" || rest[0] == ',' || rest[0] == '\n' || rest[0] == '\r'
  }

  lemma RunField(f: Field, rest: string, st: State)
    requires ValidField(f) && EndsField(rest) && !st.inQuotes && st.current == ""
    ensures Run(FieldText(f) + rest, st) == Run(rest, st.(current := FieldValue(f)))
  {
    hide Run, Doubled;
    match f
    case Bare(text) =>
      RunPlain(text, rest, st);
      assert st.current + text == text;
    case Quoted(before, value, after) =>
      var inside := Doubled(value) + ("\"" + (after + rest));
      assert FieldText(f) + rest == before + ("\"" + inside);
      RunPlain(before, "\"" + inside, st);
      assert st.current + before == before;
      RunOpen(inside, st.(current := before));
      RunQuoted(value, after + rest, st.(current := before, inQuotes := true));
      RunPlain(after, rest, st.(current := before + value));
  }

  lemma RunOpen(rest: string, st: State)
    requires !st.inQuotes
    ensures Run("\"" + rest, st) == Run(rest, st.(inQuotes := true))
  {
    assert ("\"" + rest)[1..] == rest;
  }

  lemma RunComma(rest: string, st: State)
    requires !st.inQuotes
    ensures Run("," + rest, st) == Run(rest, EndCell(st))
  {
    assert ("," + rest)[1..] == rest;
  }

  lemma BlankRow()
    ensures Trim("") == "" && !HasText([""])
  {
  }

  /** A line feed where nothing has been read does nothing. */
  lemma RunBlankLine(rest: string, st: State)
    requires !st.inQuotes && st.row == [] && st.current == ""
    ensures Run("\n" + rest, st) == Run(rest, st)
  {
    BlankRow();
    assert [] + [""] == [""];
    assert ("\n" + rest)[1..] == rest;
    assert EndRow(st) == st;
  }

  lemma RunEnd(e: LineEnd, rest: string, st: State)
    requires !st.inQuotes
    ensures Run(EndText(e) + rest, st) == Run(rest, EndRow(st))
  {
    hide HasText;
    var text := EndText(e) + rest;
    match e
    case LF => assert text[1..] == rest;
    case CRLF => assert text[2..] == rest;
    case CR =>
      assert text[1..] == rest;
      if rest != "" && rest[0] == '\n' {
        assert text[2..] == rest[1..] && rest == "\n" + rest[1..];
        RunBlankLine(rest[1..], EndRow(st));
      }
  }

  /** The reader's state once a row's fields are read and its end is not. */
  function Before(fields: seq<Field>, st: State): State
    decreases |fields|
  {
    if fields == [] then st
    else if |fields| == 1 then st.(current := FieldValue(fields[0]))
    else Before(fields[1..], EndCell(st.(current := FieldValue(fields[0]))))
  }

  lemma {:induction false} RunFields(fields: seq<Field>, rest: string, st: State)
    requires ValidFields(fields) && (rest == "" || rest[0] == '\n' || rest[0] == '\r')
    requires !st.inQuotes && st.current == ""
    ensures Run(FieldsText(fields) + rest, st) == Run(rest, Before(fields, st))
    ensures !Before(fields, st).inQuotes
    decreases |fields|
  {
    hide Run, FieldText, FieldValue, ValidField;
    if fields == [] {
      assert FieldsText(fields) + rest == rest;
    } else if |fields| == 1 {
      RunField(fields[0], rest, st);
    } else {
      var more := FieldsText(fields[1..]) + rest;
      assert FieldsText(fields) + rest == FieldText(fields[0]) + ("," + more);
      RunField(fields[0], "," + more, st);
      var read := st.(current := FieldValue(fields[0]));
      RunComma(more, read);
      RunFields(fields[1..], rest, EndCell(read));
    }
  }

  lemma {:induction false} RowEnds(fields: seq<Field>, st: State)
    requires st.current == ""
    ensures EndRow(Before(fields, st)) == EndRow(st.(row := st.row + RowValue(fields[..Butlast(fields)]), current := Lastly(fields)))
    decreases |fields|
  {
    hide EndRow, FieldValue, Trim;
    if |fields| > 1 {
      var read := EndCell(st.(current := FieldValue(fields[0])));
      RowEnds(fields[1..], read);
      RowValueInit(fields);
      var rest := RowValue(fields[1..][..|fields| - 2]);
      assert st.row + ([Trim(FieldValue(fields[0]))] + rest) == st.row + [Trim(FieldValue(fields[0]))] + rest;
    } else {
      assert st.row + [] == st.row;
    }
  }

  lemma RowValueInit(fields: seq<Field>)
    requires |fields| > 1
    ensures RowValue(fields[..|fields| - 1]) == [Trim(FieldValue(fields[0]))] + RowValue(fields[1..][..|fields| - 2])
  {
    hide FieldValue, Trim;
    assert fields[..|fields| - 1][1..] == fields[1..][..|fields| - 2];
  }

  function Butlast(fields: seq<Field>): (n: nat)
    ensures n <= |fields|
  {
    if fields == [] then 0 else |fields| - 1
  }

  function Lastly(fields: seq<Field>): string {
    if fields == [] then "" else FieldValue(fields[|fields| - 1])
  }

  lemma {:induction false} RowValueSnoc(fields: seq<Field>)
    requires fields != []
    ensures RowValue(fields) == RowValue(fields[..|fields| - 1]) + [Trim(FieldValue(fields[|fields| - 1]))]
  {
    if |fields| > 1 {
      RowValueSnoc(fields[1..]);
      assert fields[1..][..|fields| - 2] == fields[..|fields| - 1][1..];
    }
  }

  /** The end of a row: kept, trimmed, unless all its cells are blank. */
  lemma RowIsKept(fields: seq<Field>, st: State)
    requires !st.inQuotes && st.row == [] && st.current == ""
    ensures EndRow(Before(fields, st)) == st.(result := st.result + NonBlank([RowValue(fields)]))
  {
    hide HasText;
    RowEnds(fields, st);
    BeforeKeeps(fields, st);
    if fields == [] {
      BlankRow();
      NoText();
      assert [] + [""] == [""];
    } else {
      RowValueSnoc(fields);
      assert [] + RowValue(fields[..|fields| - 1]) == RowValue(fields[..|fields| - 1]);
    }
    assert NonBlank([RowValue(fields)]) == if HasText(RowValue(fields)) then [RowValue(fields)] else [];
  }

  lemma NoText()
    ensures !HasText([])
  {
  }

  lemma {:induction false} BeforeKeeps(fields: seq<Field>, st: State)
    ensures Before(fields, st).inQuotes == st.inQuotes && Before(fields, st).result == st.result
    decreases |fields|
  {
    if |fields| > 1 { BeforeKeeps(fields[1..], EndCell(st.(current := FieldValue(fields[0])))); }
  }

  predicate ValidTable(lines: seq<Line>, last: seq<Field>) {
    ValidFields(last) && forall i :: 0 <= i < |lines| ==> ValidFields(lines[i].fields)
  }

  lemma {:induction false} RunTable(lines: seq<Line>, last: seq<Field>, st: State)
    requires ValidTable(lines, last)
    requires !st.inQuotes && st.row == [] && st.current == ""
    ensures EndRow(Run(TableText(lines, last), st)).result == st.result + NonBlank(TableValue(lines, last))
    decreases |lines|
  {
    hide Run, EndRow, FieldsText, RowValue, ValidFields, HasText, NonBlank;
    if lines == [] {
      RunFields(last, "", st);
      assert FieldsText(last) + "" == FieldsText(last);
      RunNothing(Before(last, st));
      RowIsKept(last, st);
    } else {
      var line := lines[0];
      var rest := EndText(line.end) + TableText(lines[1..], last);
      RunFields(line.fields, rest, st);
      RunEnd(line.end, TableText(lines[1..], last), Before(line.fields, st));
      RowIsKept(line.fields, st);
      RunTable(lines[1..], last, st.(result := st.result + NonBlank([RowValue(line.fields)])));
      NonBlankCons(RowValue(line.fields), TableValue(lines[1..], last));
      hide EndText, Before, TableText, TableValue;
      assert (st.result + NonBlank([RowValue(line.fields)])) + NonBlank(TableValue(lines[1..], last)) ==
        st.result + (NonBlank([RowValue(line.fields)]) + NonBlank(TableValue(lines[1..], last)));
    }
  }

  lemma RunNothing(st: State)
    ensures Run("", st) == st
  {
  }

  lemma NonBlankCons(row: seq<string>, rows: seq<seq<string>>)
    ensures NonBlank([row] + rows) == NonBlank([row]) + NonBlank(rows)
  {
    hide HasText;
    assert [row][1..] == [] && ([row] + rows)[1..] == rows;
  }

  // ----- The byte order mark -----

  /** Two states that differ only in a byte order mark in front of what is being read. */
  predicate MarkApart(marked: State, st: State) {
    marked == st.(current := [BOM] + st.current) || marked == st
  }

  lemma TrimMark(s: string)
    ensures Trim([BOM] + s) == Trim(s)
  {
    assert ([BOM] + s)[1..] == s;
  }

  lemma {:induction false} RunMarked(text: string, marked: State, st: State)
    requires MarkApart(marked, st)
    ensures MarkApart(Run(text, marked), Run(text, st))
    decreases |text|
  {
    hide HasText, Trim;
    TrimMark(st.current);
    if text != "" && marked != st {
      assert forall c :: [BOM] + st.current + c == [BOM] + (st.current + c);
      if st.inQuotes {
        if text[0] != '\"' {
          RunMarked(text[1..], marked.(current := marked.current + [text[0]]), st.(current := st.current + [text[0]]));
        } else if |text| > 1 && text[1] == '\"' {
          RunMarked(text[2..], marked.(current := marked.current + "\""), st.(current := st.current + "\""));
        } else {
          RunMarked(text[1..], marked.(inQuotes := false), st.(inQuotes := false));
        }
      } else if text[0] == '\"' {
        RunMarked(text[1..], marked.(inQuotes := true), st.(inQuotes := true));
      } else if text[0] != ',' && text[0] != '\r' && text[0] != '\n' {
        RunMarked(text[1..], marked.(current := marked.current + [text[0]]), st.(current := st.current + [text[0]]));
      }
    }
  }

  /** Dropping a leading byte order mark changes nothing: trimming the first cell would drop it too. */
  lemma BomIsRedundant(text: string)
    ensures Parsed([BOM] + text) == EndRow(Run(text, START)).result
    ensures Parsed(text) == EndRow(Run(text, START)).result
  {
    hide Trim, HasText;
    assert ([BOM] + text)[1..] == text;
    if text != "" && text[0] == BOM {
      var rest := text[1..];
      assert Run(text, START) == Run(rest, START.(current := [BOM])) by { assert START.current + [BOM] == [BOM]; }
      assert [BOM] + START.current == [BOM];
      RunMarked(rest, START.(current := [BOM]), START);
      TrimMark(Run(rest, START).current);
    }
  }

  /**
   A table in any layout, whatever quotes, commas or line breaks its cells hold,
   with or without a byte order mark, is read as its rows, each cell trimmed and
   all-blank rows left out.
   */
  lemma TableIsRead(lines: seq<Line>, last: seq<Field>)
    requires ValidTable(lines, last)
    ensures Parsed(TableText(lines, last)) == NonBlank(TableValue(lines, last))
    ensures Parsed([BOM] + TableText(lines, last)) == NonBlank(TableValue(lines, last))
  {
    hide Run, EndRow, TableText, TableValue, NonBlank, ValidTable, Parsed;
    BomIsRedundant(TableText(lines, last));
    RunTable(lines, last, START);
  }

  // ----- What the writer writes -----

  function AsFields(row: seq<Cell>): seq<Field> {
    if row == [] then [] else [Quoted("", Shown(row[0]), "")] + AsFields(row[1..])
  }

  lemma {:induction false} NothingToDouble(s: string)
    requires !Special(s)
    ensures Doubled(s) == s
  {
    if s != "" {
      assert forall i :: 0 <= i < |s[1..]| ==> s[1..][i] == s[i + 1];
      NothingToDouble(s[1..]);
    }
  }

  lemma CellIsField(c: Cell)
    ensures CellText(c) == FieldText(Quoted("", Shown(c), ""))
  {
    if c.Null? {
      assert Doubled("") == "";
    } else if !Special(Shown(c)) {
      NothingToDouble(Shown(c));
    }
    hide Special, Doubled, Shown;
    assert "" + ("\"" + (Doubled(Shown(c)) + ("\"" + ""))) == "\"" + Doubled(Shown(c)) + "\"";
  }

  lemma {:induction false} RowIsFields(row: seq<Cell>)
    ensures RowText(row) == FieldsText(AsFields(row)) && ValidFields(AsFields(row)) && |AsFields(row)| == |row|
  {
    hide CellText, FieldText, Shown;
    if row != [] {
      CellIsField(row[0]);
      RowIsFields(row[1..]);
      var f := AsFields(row);
      assert f[1..] == AsFields(row[1..]);
      assert |row| > 1 ==> CellText(row[0]) + "," + RowText(row[1..]) == CellText(row[0]) + ("," + RowText(row[1..]));
    }
  }

  function Expected(row: seq<Cell>): seq<string> {
    if row == [] then [] else [Trim(Shown(row[0]))] + Expected(row[1..])
  }

  function ExpectedRows(rows: seq<seq<Cell>>): seq<seq<string>> {
    if rows == [] then [] else [Expected(rows[0])] + ExpectedRows(rows[1..])
  }

  lemma {:induction false} FieldsValue(row: seq<Cell>)
    ensures RowValue(AsFields(row)) == Expected(row)
  {
    hide Shown, Trim;
    if row != [] {
      FieldsValue(row[1..]);
      assert "" + Shown(row[0]) + "" == Shown(row[0]);
    }
  }

  function AsLines(rows: seq<seq<Cell>>): seq<Line>
    requires rows != []
  {
    if |rows| == 1 then [] else [Line(AsFields(rows[0]), LF)] + AsLines(rows[1..])
  }

  lemma {:induction false} TableIsLines(rows: seq<seq<Cell>>)
    requires rows != []
    ensures var last := AsFields(rows[|rows| - 1]);
      && Serialized(rows) == TableText(AsLines(rows), last)
      && ValidTable(AsLines(rows), last)
      && TableValue(AsLines(rows), last) == ExpectedRows(rows)
    decreases |rows|
  {
    hide RowText, FieldsText, AsFields, ValidFields, RowValue, Expected;
    RowIsFields(rows[0]);
    FieldsValue(rows[0]);
    if |rows| > 1 {
      TableIsLines(rows[1..]);
      assert rows[1..][|rows| - 2] == rows[|rows| - 1];
      assert AsLines(rows)[1..] == AsLines(rows[1..]);
      assert RowText(rows[0]) + "\n" + Serialized(rows[1..]) == RowText(rows[0]) + ("\n" + Serialized(rows[1..]));
    } else {
      assert ExpectedRows(rows[1..]) == [];
    }
  }

  /**
   Reading what was written gives exactly the rows, each cell neutralised and
   then trimmed, all-blank rows left out.
   */
  lemma SerializedIsRead(rows: seq<seq<Cell>>)
    ensures Parsed(Serialized(rows)) == NonBlank(ExpectedRows(rows))
  {
    if rows == [] {
      BlankRow();
      assert [] + [""] == [""];
    } else {
      hide *;
      TableIsLines(rows);
      TableIsRead(AsLines(rows), AsFields(rows[|rows| - 1]));
    }
  }

  /** A table of clean text cells is read back as it is. */
  predicate Clean(rows: seq<seq<string>>) {
    forall i :: 0 <= i < |rows| ==> HasText(rows[i]) && forall k :: 0 <= k < |rows[i]| ==> Trimmed(rows[i][k]) && !FormulaStart(rows[i][k])
  }

  function AsCells(row: seq<string>): seq<Cell> {
    if row == [] then [] else [Text(row[0])] + AsCells(row[1..])
  }

  function AsTable(rows: seq<seq<string>>): seq<seq<Cell>> {
    if rows == [] then [] else [AsCells(rows[0])] + AsTable(rows[1..])
  }

  lemma {:induction false} CleanRow(row: seq<string>)
    requires forall k :: 0 <= k < |row| ==> Trimmed(row[k]) && !FormulaStart(row[k])
    ensures Expected(AsCells(row)) == row
  {
    hide Trim, Trimmed, FormulaStart;
    if row != [] {
      TrimmedIsFixed(row[0]);
      CleanRow(row[1..]);
      assert AsCells(row)[1..] == AsCells(row[1..]);
    }
  }

  lemma {:induction false} CleanTable(rows: seq<seq<string>>)
    requires Clean(rows)
    ensures NonBlank(ExpectedRows(AsTable(rows))) == rows
  {
    hide HasText, Expected, AsCells, FormulaStart, Trimmed;
    if rows != [] {
      CleanRow(rows[0]);
      CleanTable(rows[1..]);
      assert AsTable(rows)[1..] == AsTable(rows[1..]);
    }
  }

  lemma CleanRoundTrip(rows: seq<seq<string>>)
    requires Clean(rows)
    ensures Parsed(Serialized(AsTable(rows))) == rows
  {
    hide Parsed, Serialized, NonBlank, Clean;
    SerializedIsRead(AsTable(rows));
    CleanTable(rows);
  }

  /** No text is shown as a formula: one that would be has an apostrophe put before it, and nothing else is changed. */
  lemma NoTextIsAFormula(s: string)
    ensures var shown := Shown(Text(s));
      && (shown != "" ==> shown[0] !in "=+-@\t\r")
      && shown == if s != "" && s[0] in "=+-@\t\r" then "'" + s else s
    ensures Shown(Null) == "" && Shown(Scalar(s)) == s
  {
  }
}
