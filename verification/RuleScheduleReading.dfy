/**
 What the schedule parser reads from what `Format` writes
 (src/lib/rule-schedule.ts), piece by piece.

 A schedule's text is taken apart in the order the parser takes it apart: the zone
 up to the first bar, chunks between semicolons, a word of days, two times joined
 by a dash, names between commas.  For each there is a lemma that the piece as
 written is the piece as read, and one that whatever is read has the canonical
 form: days strictly increasing, a start before midnight, different start and end.
 The last section builds the one text used as a counterexample, in which every
 window is written with a day range and is therefore shorter than its normal form.
 */
module RuleScheduleReading {
  import opened Prelude
  import opened JsText
  import opened WeeklyHours
  import opened RuleSchedule

  // ----- Which schedules there are -----

  predicate Increasing(days: seq<nat>) {
    forall i, j :: 0 <= i < j < |days| ==> days[i] < days[j]
  }

  predicate Canonical(w: Window) {
    && w.days != [] && Increasing(w.days) && Formattable(w)
    && w.start < DAY && w.start != w.end
  }

  predicate Contains(s: string, c: char) {
    exists i :: 0 <= i < |s| && s[i] == c
  }

  predicate ZoneText(zone: string, zones: set<string>) {
    zone in zones && 0 < |zone| <= 64 && Trimmed(zone) && !Contains(zone, '|')
  }

  predicate AllCanonical(windows: seq<Window>) {
    forall i :: 0 <= i < |windows| ==> Canonical(windows[i])
  }

  predicate Valid(s: Schedule, zones: set<string>) {
    ZoneText(s.timezone, zones) && 0 < |s.windows| <= 14 && AllCanonical(s.windows)
  }

  // ----- Splitting -----

  lemma {:induction false} SplitOne(s: string, c: char)
    requires !Contains(s, c)
    ensures Split(s, c) == [s]
  {
    if s != "" {
      assert s[0] != c;
      assert forall i :: 0 <= i < |s[1..]| ==> s[1..][i] == s[i + 1];
      SplitOne(s[1..], c);
      assert s == [s[0]] + s[1..];
    }
  }

  lemma {:induction false} SplitFirst(s: string, c: char, rest: string)
    requires !Contains(s, c)
    ensures Split(s + ([c] + rest), c) == [s] + Split(rest, c)
  {
    var t := s + ([c] + rest);
    if s == "" {
      assert t[1..] == rest;
    } else {
      assert s[0] != c;
      assert t[0] == s[0];
      assert forall i :: 0 <= i < |s[1..]| ==> s[1..][i] == s[i + 1];
      SplitFirst(s[1..], c, rest);
      assert t[1..] == s[1..] + ([c] + rest);
      assert s == [s[0]] + s[1..];
      assert ([s[1..]] + Split(rest, c))[1..] == Split(rest, c);
    }
  }

  lemma {:induction false} IndexOfFirst(s: string, c: char, rest: string)
    requires !Contains(s, c)
    ensures IndexOf(s + ([c] + rest), c) == |s|
  {
    var t := s + ([c] + rest);
    if s != "" {
      assert s[0] != c && t[0] == s[0];
      assert forall i :: 0 <= i < |s[1..]| ==> s[1..][i] == s[i + 1];
      assert t[1..] == s[1..] + ([c] + rest);
      IndexOfFirst(s[1..], c, rest);
    }
  }

  // ----- Times -----

  lemma DigitRead(n: nat)
    requires n < 10
    ensures Digit(DigitChar(n)) && DigitValue(DigitChar(n)) == n && !IsSpace(DigitChar(n))
    ensures DigitChar(n) != ':' && DigitChar(n) != '-' && DigitChar(n) != ';' && DigitChar(n) != '|'
    ensures n < 6 <==> DigitChar(n) <= '5'
    ensures n < 3 <==> DigitChar(n) <= '2'
  {
  }

  /** The characters a formatted time is made of. */
  predicate TimeText(s: string) {
    forall i :: 0 <= i < |s| ==> Digit(s[i]) || s[i] == ':'
  }

  lemma TimeRead(minutes: nat)
    requires minutes <= DAY
    ensures ParseTime(FormatTime(minutes)) == Some(minutes)
    ensures |FormatTime(minutes)| == 5 && TimeText(FormatTime(minutes))
  {
    var h, m := minutes / 60, minutes % 60;
    DigitRead(h / 10);
    DigitRead(h % 10);
    DigitRead(m / 10);
    DigitRead(m % 10);
    hide DigitChar, DigitValue, Digit;
    var t := FormatTime(minutes);
    assert t == [DigitChar(h / 10), DigitChar(h % 10), ':', DigitChar(m / 10), DigitChar(m % 10)];
    assert 10 * (h / 10) + h % 10 == h && 10 * (m / 10) + m % 10 == m;
  }

  // ----- Days -----

  lemma NameRead(d: nat)
    requires d < 7
    ensures var name := DAY_NAMES[d];
      && PartDays(name) == Some({d})
      && |name| == 3 && Letters(name) && !Contains(name, ',')
  {
    var name := DAY_NAMES[d];
    assert |name| == 3 && Letters(name) && DayOf(name) == Some(d);
    LetterWord(name);
    hide Trim, Split, DayOf, Letters, Contains;
    assert [name][0] == name;
  }

  lemma LetterWord(name: string)
    requires Letters(name)
    ensures Trim(name) == name && Split(name, '-') == [name] && !Contains(name, ',')
  {
    TrimmedIsFixed(name);
    SplitOne(name, '-');
  }

  predicate Letters(s: string) {
    forall i :: 0 <= i < |s| ==> 'a' <= s[i] <= 'z'
  }

  /** The characters a list of days is made of. */
  predicate DayText(s: string) {
    forall i :: 0 <= i < |s| ==> 'a' <= s[i] <= 'z' || s[i] == ','
  }

  lemma {:induction false} DayTextLower(s: string)
    requires DayText(s)
    ensures Lower(s) == s
  {
    if s != "" {
      DayTextLower(s[1..]);
      assert s == [s[0]] + s[1..];
    }
  }

  predicate DayNumbers(days: seq<nat>) {
    forall i :: 0 <= i < |days| ==> days[i] < 7
  }

  function Members(days: seq<nat>): set<nat> {
    set d | d in days
  }

  lemma {:induction false} DayListText(days: seq<nat>)
    requires DayNumbers(days)
    ensures DayText(DayList(days)) && (days != [] ==> |DayList(days)| == 4 * |days| - 1)
  {
    hide PartDays, Lower, Contains, Letters;
    if days != [] {
      NameRead(days[0]);
      DayListText(days[1..]);
      hide *;
      var name := DAY_NAMES[days[0]];
      DayListCons(days);
    }
  }

  lemma DayListCons(days: seq<nat>)
    requires DayNumbers(days) && days != []
    requires Letters(DAY_NAMES[days[0]]) && |DAY_NAMES[days[0]]| == 3
    requires DayText(DayList(days[1..])) && (|days| > 1 ==> |DayList(days[1..])| == 4 * (|days| - 1) - 1)
    ensures DayText(DayList(days)) && |DayList(days)| == 4 * |days| - 1
  {
  }

  lemma {:induction false} DayListRead(days: seq<nat>)
    requires DayNumbers(days) && days != []
    ensures PartsDays(Split(DayList(days), ',')) == Some(Members(days))
  {
    hide PartDays, Lower, Letters, Contains, Split;
    var name := DAY_NAMES[days[0]];
    NameRead(days[0]);
    if |days| == 1 {
      SplitOne(name, ',');
      OnePart(name);
      assert Members(days) == {days[0]};
    } else {
      SplitFirst(name, ',', DayList(days[1..]));
      DayListRead(days[1..]);
      var parts := Split(DayList(days[1..]), ',');
      assert ([name] + parts)[1..] == parts;
      assert Members(days) == {days[0]} + Members(days[1..]);
    }
  }

  lemma OnePart(part: string)
    ensures PartsDays([part]) == PartDays(part)
  {
    hide PartDays;
    assert [part][1..] == [];
    if PartDays(part).Some? { assert PartDays(part).value + {} == PartDays(part).value; }
  }

  lemma {:induction false} SortedAgree(a: set<nat>, b: set<nat>, from: nat)
    requires forall d :: from <= d < 7 ==> (d in a <==> d in b)
    ensures SortedDays(a, from) == SortedDays(b, from)
    decreases 7 - from
  {
    if from < 7 { SortedAgree(a, b, from + 1); }
  }

  lemma MembersAbove(days: seq<nat>)
    requires days != [] && Increasing(days)
    ensures days[0] in Members(days) && Increasing(days[1..])
    ensures forall d :: d in Members(days) <==> d == days[0] || d in Members(days[1..])
    ensures forall d :: d in Members(days[1..]) ==> days[0] < d
    ensures forall i :: 0 <= i < |days[1..]| ==> days[0] < days[1..][i]
  {
  }

  lemma {:induction false} SortedIsIdentity(days: seq<nat>, from: nat)
    requires Increasing(days) && DayNumbers(days) && forall i :: 0 <= i < |days| ==> from <= days[i]
    ensures SortedDays(Members(days), from) == days
    decreases 7 - from
  {
    hide Increasing, Members;
    if days == [] {
      SortedNothing(from);
    } else {
      assert from <= days[0] < 7;
      MembersAbove(days);
      if days[0] == from {
        SortedIsIdentity(days[1..], from + 1);
        SortedAgree(Members(days), Members(days[1..]), from + 1);
        assert days == [from] + days[1..];
      } else {
        MembersFrom(days, from);
        SortedIsIdentity(days, from + 1);
      }
    }
  }

  lemma MembersFrom(days: seq<nat>, from: nat)
    requires days != [] && Increasing(days) && from < days[0]
    ensures from !in Members(days) && forall i :: 0 <= i < |days| ==> from + 1 <= days[i]
  {
    assert forall i :: 1 <= i < |days| ==> days[0] < days[i];
  }

  lemma {:induction false} SortedNothing(from: nat)
    ensures SortedDays(Members([]), from) == []
    decreases 7 - from
  {
    if from < 7 { SortedNothing(from + 1); }
  }

  lemma DaysRead(days: seq<nat>)
    requires days != [] && Increasing(days) && DayNumbers(days)
    ensures ParseDays(DayList(days)) == Some(days)
  {
    hide Lower, Split, PartsDays, SortedDays;
    DayListText(days);
    DayTextLower(DayList(days));
    DayListRead(days);
    SortedIsIdentity(days, 0);
    assert days[0] in Members(days);
  }

  // ----- Windows -----

  lemma {:induction false} WordEnds(s: string, rest: string)
    requires forall i :: 0 <= i < |s| ==> !IsSpace(s[i])
    requires rest == "" || IsSpace(rest[0])
    ensures WordLength(s + rest) == |s|
  {
    if s == "" {
      assert s + rest == rest;
    } else {
      assert (s + rest)[1..] == s[1..] + rest;
      WordEnds(s[1..], rest);
    }
  }

  /** A window's text falls apart into days and two times. */
  lemma WindowShape(days: string, start: string, end: string)
    requires days != "" && forall i :: 0 <= i < |days| ==> !IsSpace(days[i])
    requires start != "" && !IsSpace(start[0]) && !Contains(start, '-')
    ensures var (s, e, d) := (ParseTime(start), ParseTime(end), ParseDays(days));
      ParseWindow(days + (" " + (start + ("-" + end)))) ==
        if s.None? || e.None? || s == e || s.value >= DAY || d.None? then None
        else Some(Window(d.value, s.value, e.value))
  {
    hide ParseTime, ParseDays, Contains;
    var times := start + (['-'] + end);
    var text := days + (" " + times);
    WordEnds(days, " " + times);
    assert text[|days|..] == " " + times && text[..|days|] == days;
    assert (" " + times)[1..] == times && times[0] == start[0] && IsSpace(' ');
    assert TrimStart(" " + times) == TrimStart(times) == times;
    IndexOfFirst(start, '-', end);
    assert times[..|start|] == start && times[|start| + 1..] == end;
    hide WordLength, TrimStart, IndexOf, IsSpace;
  }

  lemma WindowRead(w: Window)
    requires Canonical(w)
    ensures ParseWindow(FormatWindow(w)) == Some(w)
  {
    hide ParseTime, FormatTime, ParseDays, DayList, ParseWindow;
    DaysRead(w.days);
    DayListText(w.days);
    TimeRead(w.start);
    TimeRead(w.end);
    WindowShape(DayList(w.days), FormatTime(w.start), FormatTime(w.end));
  }

  lemma WindowText(w: Window)
    requires Canonical(w)
    ensures var text := FormatWindow(w);
      text != "" && Trimmed(text) && Trim(text) == text && !Contains(text, ';') && |text| == 4 * |w.days| + 11
  {
    hide FormatTime, DayList;
    DayListText(w.days);
    TimeRead(w.start);
    TimeRead(w.end);
    TrimmedIsFixed(FormatWindow(w));
  }

  lemma OneChunk(chunk: string)
    ensures Trim(chunk) != "" && ParseWindow(Trim(chunk)).Some? ==>
      ParseChunks([chunk]) == Some([ParseWindow(Trim(chunk)).value])
  {
    hide ParseWindow, Trim;
    assert [chunk][1..] == [] && ParseChunks([]) == Some([]);
    if ParseWindow(Trim(chunk)).Some? {
      assert [ParseWindow(Trim(chunk)).value] + [] == [ParseWindow(Trim(chunk)).value];
    }
  }

  lemma {:induction false} WindowsRead(windows: seq<Window>)
    requires windows != [] && AllCanonical(windows)
    ensures ParseChunks(Split(FormatWindows(windows), ';')) == Some(windows)
  {
    hide ParseWindow, FormatWindow, Trim, Split, Contains, Formattable, Increasing;
    var text := FormatWindow(windows[0]);
    WindowRead(windows[0]);
    WindowText(windows[0]);
    if |windows| == 1 {
      SplitOne(text, ';');
      OneChunk(text);
      assert [windows[0]] == windows;
    } else {
      SplitFirst(text, ';', FormatWindows(windows[1..]));
      WindowsRead(windows[1..]);
      var chunks := Split(FormatWindows(windows[1..]), ';');
      assert ([text] + chunks)[1..] == chunks;
      assert windows == [windows[0]] + windows[1..];
    }
  }

  lemma WindowsText(windows: seq<Window>)
    requires windows != [] && AllCanonical(windows)
    ensures var text := FormatWindows(windows); text != "" && !IsSpace(text[|text| - 1])
  {
    hide FormatWindow, Formattable, Increasing, Contains;
    if |windows| == 1 {
      WindowText(windows[0]);
    } else {
      WindowsText(windows[1..]);
    }
  }

  // ----- Only valid schedules are parsed -----

  lemma {:induction false} SortedDaysSound(days: set<nat>, from: nat)
    ensures var r := SortedDays(days, from);
      && Increasing(r) && DayNumbers(r) && (forall i :: 0 <= i < |r| ==> from <= r[i])
    ensures (exists d :: d in days && from <= d < 7) ==> SortedDays(days, from) != []
    decreases 7 - from
  {
    if from < 7 {
      SortedDaysSound(days, from + 1);
    }
  }

  lemma {:induction false} PartsDaysSound(parts: seq<string>)
    ensures PartsDays(parts).Some? ==> forall d :: d in PartsDays(parts).value ==> d < 7
  {
    hide Split, Trim;
    if parts != [] { PartsDaysSound(parts[1..]); }
  }

  lemma ParseDaysSound(spec: string)
    ensures ParseDays(spec).Some? ==>
      var r := ParseDays(spec).value; r != [] && Increasing(r) && DayNumbers(r)
  {
    hide Split, Lower, PartsDays, SortedDays, Increasing, DayNumbers;
    var parts := Split(Lower(spec), ',');
    PartsDaysSound(parts);
    if PartsDays(parts).Some? && PartsDays(parts).value != {} {
      var days := PartsDays(parts).value;
      var d :| d in days;
      SortedDaysSound(days, 0);
    }
  }

  lemma ParseTimeSound(t: string)
    ensures ParseTime(t).Some? ==> ParseTime(t).value <= DAY
  {
  }

  lemma ParseWindowSound(chunk: string)
    ensures ParseWindow(chunk).Some? ==> Canonical(ParseWindow(chunk).value)
  {
    hide ParseTime, ParseDays, Increasing;
    var n := WordLength(chunk);
    var times := TrimStart(chunk[n..]);
    var dash := IndexOf(times, '-');
    ParseDaysSound(chunk[..n]);
    if dash < |times| {
      ParseTimeSound(times[..dash]);
      ParseTimeSound(times[dash + 1..]);
    }
    hide WordLength, IndexOf, TrimStart;
  }

  lemma {:induction false} ParseChunksSound(chunks: seq<string>)
    ensures ParseChunks(chunks).Some? ==> AllCanonical(ParseChunks(chunks).value)
  {
    hide ParseWindow, Trim, Canonical;
    if chunks != [] {
      ParseChunksSound(chunks[1..]);
      ParseWindowSound(Trim(chunks[0]));
    }
  }

  lemma {:induction false} BeforeFirst(s: string, c: char)
    ensures !Contains(s[..IndexOf(s, c)], c)
  {
    if s != "" && s[0] != c {
      BeforeFirst(s[1..], c);
      var n := IndexOf(s, c);
      assert s[..n] == [s[0]] + s[1..][..n - 1];
      forall i | 0 <= i < n ensures s[i] != c {
        if i > 0 { assert s[i] == s[1..][..n - 1][i - 1]; }
      }
    }
  }

  lemma {:induction false} TrimEndIsPrefix(s: string)
    ensures |TrimEnd(s)| <= |s| && TrimEnd(s) == s[..|TrimEnd(s)|]
  {
    if s != "" && IsSpace(s[|s| - 1]) {
      TrimEndIsPrefix(s[..|s| - 1]);
    }
  }

  /** The trimmed text before the first bar is a zone name of the right form. */
  lemma ZoneTextSound(raw: string, zones: set<string>)
    requires raw != "" && !IsSpace(raw[0])
    requires var sep := IndexOf(raw, '|'); 0 < sep && Trim(raw[..sep]) in zones && |Trim(raw[..sep])| <= MAX_ZONE
    ensures ZoneText(Trim(raw[..IndexOf(raw, '|')]), zones)
  {
    hide Contains;
    var before := raw[..IndexOf(raw, '|')];
    assert before[0] == raw[0];
    assert TrimStart(before) == before;
    TrimEndKeepsHead(before);
    TrimIsTrimmed(before);
    TrimEndIsPrefix(before);
    BeforeFirst(raw, '|');
    PrefixContains(before, |TrimEnd(before)|, '|');
  }

  lemma PrefixContains(s: string, n: nat, c: char)
    requires n <= |s| && !Contains(s, c)
    ensures !Contains(s[..n], c)
  {
  }

  lemma ParseSound(input: string, zones: set<string>)
    ensures Parse(input, zones).Some? ==> Valid(Parse(input, zones).value, zones)
  {
    hide ParseChunks, Split, AllCanonical, ZoneText;
    var raw := Trim(input);
    TrimIsTrimmed(input);
    var sep := IndexOf(raw, '|');
    if 0 < sep < |raw| && Trim(raw[..sep]) in zones && |Trim(raw[..sep])| <= MAX_ZONE {
      assert !IsSpace(raw[0]);
      ZoneTextSound(raw, zones);
      ParseChunksSound(Split(raw[sep + 1..], ';'));
    }
    hide Trim, Trimmed, IndexOf;
  }

  // ----- A schedule whose normal form is too long -----

  const EVERY_DAY := "sun-sat 0:00-1:00"
  const EVERY_DAY_WINDOW := Window([0, 1, 2, 3, 4, 5, 6], 0, 60)

  function Repeated(chunk: string, n: nat): string {
    if n == 0 then "" else if n == 1 then chunk else chunk + (";" + Repeated(chunk, n - 1))
  }

  lemma EveryDayRead()
    ensures ParseWindow(EVERY_DAY) == Some(EVERY_DAY_WINDOW)
  {
    hide ParseDays, ParseTime, ParseWindow, Contains;
    assert EVERY_DAY == "sun-sat" + (" " + ("0:00" + ("-" + "1:00")));
    ShortTimes();
    EveryDayDays();
    WindowShape("sun-sat", "0:00", "1:00");
  }

  lemma ShortTimes()
    ensures ParseTime("0:00") == Some(0) && ParseTime("1:00") == Some(60) && !Contains("0:00", '-')
  {
  }

  lemma EveryDayText()
    ensures Trim(EVERY_DAY) == EVERY_DAY && !Contains(EVERY_DAY, ';') && Canonical(EVERY_DAY_WINDOW)
    ensures |EVERY_DAY| == 17 && !IsSpace(EVERY_DAY[16])
  {
    TrimmedIsFixed(EVERY_DAY);
    hide Trim;
  }

  lemma EveryDayPart()
    ensures PartDays("sun-sat") == Some(DayRange(0, 6))
  {
    hide Trim, Split, Contains, DayRange;
    var spec := "sun-sat";
    assert Trimmed(spec);
    TrimmedIsFixed(spec);
    assert spec == "sun" + (['-'] + "sat");
    NoDash();
    SplitFirst("sun", '-', "sat");
    SplitOne("sat", '-');
    assert (["sun"] + ["sat"])[0] == "sun" && (["sun"] + ["sat"])[1] == "sat";
  }

  lemma NoDash()
    ensures !Contains("sun", '-') && !Contains("sat", '-') && !Contains("sun-sat", ',')
  {
  }

  lemma WholeWeek()
    ensures SortedDays(DayRange(0, 6), 0) == [0, 1, 2, 3, 4, 5, 6] && 0 in DayRange(0, 6)
  {
    var days: seq<nat> := [0, 1, 2, 3, 4, 5, 6];
    assert forall d :: 0 <= d < 7 ==> days[d] == d;
    assert DayRange(0, 6) == Members(days);
    SortedIsIdentity(days, 0);
    hide SortedDays;
  }

  lemma EveryDayDays()
    ensures ParseDays("sun-sat") == Some([0, 1, 2, 3, 4, 5, 6])
  {
    hide Lower, Split, PartDays, Trim, PartsDays, SortedDays, DayRange, Contains;
    RangeLower();
    NoDash();
    SplitOne("sun-sat", ',');
    EveryDayPart();
    OnePart("sun-sat");
    WholeWeek();
  }

  lemma RangeLower()
    ensures Lower("sun-sat") == "sun-sat"
  {
    LowerConcat("sun", "-sat");
    LowerConcat("-", "sat");
    DayTextLower("sun");
    DayTextLower("sat");
    assert "-" + "sat" == "-sat" && "sun" + "-sat" == "sun-sat";
    assert "-"[1..] == "" && Lower("-") == "-" + "";
  }

  lemma {:induction false} LowerConcat(a: string, b: string)
    ensures Lower(a + b) == Lower(a) + Lower(b)
  {
    if a == "" {
      assert a + b == b;
    } else {
      assert (a + b)[1..] == a[1..] + b;
      LowerConcat(a[1..], b);
    }
  }

  function Times(n: nat): seq<Window> {
    if n == 0 then [] else [EVERY_DAY_WINDOW] + Times(n - 1)
  }

  lemma {:induction false} RepeatedRead(n: nat)
    requires n > 0
    ensures ParseChunks(Split(Repeated(EVERY_DAY, n), ';')) == Some(Times(n))
  {
    hide ParseWindow, Trim, Split, Contains, Canonical, IsSpace;
    EveryDayRead();
    EveryDayText();
    if n == 1 {
      SplitOne(EVERY_DAY, ';');
      OneChunk(EVERY_DAY);
      assert Times(1) == [EVERY_DAY_WINDOW];
    } else {
      RepeatedRead(n - 1);
      SplitFirst(EVERY_DAY, ';', Repeated(EVERY_DAY, n - 1));
      FirstChunk(EVERY_DAY, Split(Repeated(EVERY_DAY, n - 1), ';'));
    }
  }

  lemma FirstChunk(chunk: string, chunks: seq<string>)
    requires Trim(chunk) != "" && ParseWindow(Trim(chunk)).Some? && ParseChunks(chunks).Some?
    ensures ParseChunks([chunk] + chunks) == Some([ParseWindow(Trim(chunk)).value] + ParseChunks(chunks).value)
  {
    hide ParseWindow, Trim;
    assert ([chunk] + chunks)[1..] == chunks;
  }

  lemma {:induction false} RepeatedText(chunk: string, n: nat)
    requires n > 0 && chunk != "" && !IsSpace(chunk[|chunk| - 1])
    ensures |Repeated(chunk, n)| == (|chunk| + 1) * n - 1
    ensures !IsSpace(Repeated(chunk, n)[|Repeated(chunk, n)| - 1])
  {
    hide IsSpace;
    if n > 1 {
      RepeatedText(chunk, n - 1);
      assert (|chunk| + 1) * n == (|chunk| + 1) * (n - 1) + |chunk| + 1;
    }
  }

  lemma {:induction false} TimesText(n: nat)
    requires n > 0
    ensures |Times(n)| == n && AllCanonical(Times(n)) && |FormatWindows(Times(n))| == 40 * n - 1
  {
    hide Canonical, FormatWindow, Contains, Trim, Trimmed, Formattable;
    EveryDayText();
    WindowText(EVERY_DAY_WINDOW);
    CanonicalFormattable(EVERY_DAY_WINDOW);
    if n == 1 {
      assert Times(1) == [EVERY_DAY_WINDOW];
    } else {
      TimesText(n - 1);
      assert Times(n)[1..] == Times(n - 1);
    }
  }

  lemma CanonicalFormattable(w: Window)
    requires Canonical(w)
    ensures Formattable(w)
  {
  }

  // ----- Times and days as they are spelled -----

  function Figure(c: char): int {
    c as int - '0' as int
  }

  /** One or two digits, a colon and two digits, at most 24:00. */
  predicate TimeWritten(t: string, minutes: nat) {
    && (|t| == 4 || |t| == 5) && t[|t| - 3] == ':'
    && (forall i :: 0 <= i < |t| && i != |t| - 3 ==> '0' <= t[i] <= '9')
    && var hour := if |t| == 4 then Figure(t[0]) else 10 * Figure(t[0]) + Figure(t[1]);
       var minute := 10 * Figure(t[|t| - 2]) + Figure(t[|t| - 1]);
       minute < 60 && minutes == 60 * hour + minute && minutes <= 1440
  }

  /** The texts read as a time are exactly those, and as that time. */
  lemma TimesAre(t: string, minutes: nat)
    ensures ParseTime(t) == Some(minutes) <==> TimeWritten(t, minutes)
  {
  }

  const CALENDAR := ["Sunday", "Monday", "Tuesday", "Wednesday", "Thursday", "Friday", "Saturday"]

  /** The first three letters of a day's name, in any case, are that day. */
  lemma DaysAre(t: string, i: nat)
    requires i < 7 && |CALENDAR[i]| > 3 && Lower(t) == Lower(CALENDAR[i][..3])
    ensures ParseDays(t) == Some([i])
  {
    var low := Lower(t);
    ShortNames(i);
    assert low == DAY_NAMES[i];
    NamePlain(i);
    SplitOne(low, ',');
    SplitOne(low, '-');
    TrimmedIsFixed(low);
    assert PartDays(low) == Some({i});
    assert [low][1..] == [];
    assert PartsDays([low]) == Some({i} + {});
    assert {i} + {} == {i};
    OneSorted(i);
  }

  function Small(c: char): char {
    if 'A' <= c <= 'Z' then ((c as int + 32) as char) else c
  }

  lemma LowerThree(a: char, b: char, c: char)
    ensures Lower([a, b, c]) == [Small(a), Small(b), Small(c)]
  {
    assert [a, b, c][1..] == [b, c] && [b, c][1..] == [c] && [c][1..] == [];
    assert Lower([c]) == [Small(c)] && Lower([b, c]) == [Small(b), Small(c)];
  }

  lemma ShortNames(i: nat)
    requires i < 7
    ensures Lower(CALENDAR[i][..3]) == DAY_NAMES[i]
  {
    var name := CALENDAR[i];
    assert name[..3] == [name[0], name[1], name[2]];
    LowerThree(name[0], name[1], name[2]);
    hide Lower;
  }

  lemma NamePlain(i: nat)
    requires i < 7
    ensures var name := DAY_NAMES[i];
      !Contains(name, ',') && !Contains(name, '-') && Trimmed(name) && DayOf(name) == Some(i)
  {
  }

  lemma OneSorted(i: nat)
    requires i < 7
    ensures SortedDays({i}, 0) == [i]
  {
    SortedFrom(i, 0);
  }

  lemma {:induction false} SortedFrom(i: nat, from: nat)
    requires i < 7
    ensures SortedDays({i}, from) == if from <= i then [i] else []
    decreases 7 - from
  {
    if from < 7 { SortedFrom(i, from + 1); }
  }

  /** A blank chunk stands for no window. */
  lemma BlankChunksAreSkipped(chunk: string, rest: seq<string>)
    requires Trim(chunk) == ""
    ensures ParseChunks([chunk] + rest) == ParseChunks(rest)
  {
    assert ([chunk] + rest)[1..] == rest;
  }
}
