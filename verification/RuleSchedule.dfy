/**
 Recurring schedules as text (src/lib/rule-schedule.ts):
 `Asia/Kolkata|mon-fri 09:00-17:00;sat 10:00-14:00`.

 Which names are time zones is a parameter.  Errors are `None`; their messages
 are not modelled.

 `Parse` reads a text, `Format` writes a schedule in its normal form: days in
 increasing order, separated by commas, and times with two digits on either side of
 the colon.  What they do to each other, and when a schedule is in force, is in
 `RuleScheduleText`.
 */
module RuleSchedule {
  import opened Prelude
  import opened JsText
  import opened WeeklyHours

  const MAX_WINDOWS := 14
  const MAX_TEXT := 400
  const MAX_ZONE := 64

  datatype Schedule = Schedule(timezone: string, windows: seq<Window>)

  // ----- Strings -----

  function Split(s: string, c: char): (r: seq<string>)
    ensures r != []
  {
    if s == "" then [""]
    else if s[0] == c then [""] + Split(s[1..], c)
    else
      var rest := Split(s[1..], c);
      [[s[0]] + rest[0]] + rest[1..]
  }

  function Lower(s: string): string {
    if s == "" then "" else [if 'A' <= s[0] <= 'Z' then ((s[0] as int + 32) as char) else s[0]] + Lower(s[1..])
  }

  /** Where a character first occurs, or the length of the string. */
  function IndexOf(s: string, c: char): (i: nat)
    ensures i <= |s|
  {
    if s == "" || s[0] == c then 0 else 1 + IndexOf(s[1..], c)
  }

  predicate Digit(c: char) {
    '0' <= c <= '9'
  }

  function DigitValue(c: char): nat
    requires Digit(c)
  {
    c as int - '0' as int
  }

  // ----- Times -----

  /** One or two digits, a colon, two digits; the hour at most 24, the minute at most 59; at most 24:00. */
  function ParseTime(t: string): Option<nat> {
    if |t| == 4 && Digit(t[0]) && t[1] == ':' && '0' <= t[2] <= '5' && Digit(t[3]) then
      Some(DigitValue(t[0]) * 60 + DigitValue(t[2]) * 10 + DigitValue(t[3]))
    else if |t| == 5 && '0' <= t[0] <= '2' && Digit(t[1]) && t[2] == ':' && '0' <= t[3] <= '5' && Digit(t[4]) then
      var hour := DigitValue(t[0]) * 10 + DigitValue(t[1]);
      var minutes := hour * 60 + DigitValue(t[3]) * 10 + DigitValue(t[4]);
      if hour <= 24 && minutes <= DAY then Some(minutes) else None
    else None
  }

  function DigitChar(n: nat): char
    requires n < 10
  {
    (n + '0' as int) as char
  }

  function TwoDigits(n: nat): string
    requires n < 100
  {
    [DigitChar(n / 10), DigitChar(n % 10)]
  }

  function FormatTime(minutes: nat): string
    requires minutes <= DAY
  {
    TwoDigits(minutes / 60) + ":" + TwoDigits(minutes % 60)
  }

  // ----- Days -----

  const DAY_NAMES := ["sun", "mon", "tue", "wed", "thu", "fri", "sat"]

  function DayOf(name: string): Option<nat> {
    if name == "sun" then Some(0)
    else if name == "mon" then Some(1)
    else if name == "tue" then Some(2)
    else if name == "wed" then Some(3)
    else if name == "thu" then Some(4)
    else if name == "fri" then Some(5)
    else if name == "sat" then Some(6)
    else None
  }

  /** From one day forward to another, over the end of the week where it must. */
  function DayRange(a: nat, b: nat): (days: set<nat>) {
    set d: nat | d < 7 && InDayRange(d, a, b)
  }

  predicate InDayRange(d: nat, a: nat, b: nat) {
    if a <= b then a <= d <= b else a <= d || d <= b
  }

  function PartDays(part: string): Option<set<nat>> {
    var range := Split(Trim(part), '-');
    if |range| == 1 && DayOf(range[0]).Some? then Some({DayOf(range[0]).value})
    else if |range| == 2 && DayOf(range[0]).Some? && DayOf(range[1]).Some? then
      Some(DayRange(DayOf(range[0]).value, DayOf(range[1]).value))
    else None
  }

  function PartsDays(parts: seq<string>): Option<set<nat>> {
    if parts == [] then Some({})
    else
      var first, rest := PartDays(parts[0]), PartsDays(parts[1..]);
      if first.Some? && rest.Some? then Some(first.value + rest.value) else None
  }

  function SortedDays(days: set<nat>, from: nat): seq<nat>
    decreases 7 - from
  {
    if from >= 7 then [] else (if from in days then [from] else []) + SortedDays(days, from + 1)
  }

  function ParseDays(spec: string): Option<seq<nat>> {
    match PartsDays(Split(Lower(spec), ','))
    case None => None
    case Some(days) => if days == {} then None else Some(SortedDays(days, 0))
  }

  lemma RangeStep(a: nat, d: nat, b: nat)
    requires a < 7 && d < 7 && b < 7 && InDayRange(d, a, b) && d != b
    ensures var next := (d + 1) % 7;
      next < 7 && InDayRange(next, a, b) && DayRange(a, next) == DayRange(a, d) + {next} && Steps(next, b) < Steps(d, b)
  {
  }

  function Steps(d: nat, b: nat): nat
    requires d < 7 && b < 7
  {
    if d <= b then b - d else b - d + 7
  }

  /** The loop that walks a range, day after day, until it meets the last one. */
  method AddRange(out: set<nat>, a: nat, b: nat) returns (r: set<nat>)
    requires a < 7 && b < 7
    ensures r == out + DayRange(a, b)
  {
    hide DayRange, InDayRange;
    RangeOfOne(a, b);
    r := out + {a};
    var d := a;
    while d != b
      invariant d < 7 && r == out + DayRange(a, d) && InDayRange(d, a, b)
      decreases Steps(d, b)
    {
      RangeStep(a, d, b);
      d := (d + 1) % 7;
      r := r + {d};
    }
  }

  lemma RangeOfOne(a: nat, b: nat)
    requires a < 7 && b < 7
    ensures DayRange(a, a) == {a} && InDayRange(a, a, b)
  {
  }

  function Added(out: set<nat>, rest: Option<set<nat>>): Option<set<nat>> {
    if rest.Some? then Some(out + rest.value) else None
  }

  lemma PartsStep(parts: seq<string>, i: nat, out: set<nat>)
    requires i < |parts|
    ensures Added(out, PartsDays(parts[i..])) ==
      if PartDays(parts[i]).None? then None
      else Added(out + PartDays(parts[i]).value, PartsDays(parts[i + 1..]))
  {
    hide PartDays;
    assert parts[i..][1..] == parts[i + 1..];
    var rest := PartsDays(parts[i + 1..]);
    if PartDays(parts[i]).Some? && rest.Some? {
      assert out + (PartDays(parts[i]).value + rest.value) == (out + PartDays(parts[i]).value) + rest.value;
    }
  }

  method ReadPart(part: string, out: set<nat>) returns (r: Option<set<nat>>)
    ensures r == Added(out, PartDays(part))
  {
    hide DayRange, Trim, Split;
    var range := Split(Trim(part), '-');
    if |range| == 1 {
      var d := DayOf(range[0]);
      return if d.None? then None else Some(out + {d.value});
    } else if |range| == 2 {
      var a, b := DayOf(range[0]), DayOf(range[1]);
      if a.None? || b.None? {
        return None;
      }
      var more := AddRange(out, a.value, b.value);
      return Some(more);
    } else {
      return None;
    }
  }

  method ReadDays(spec: string) returns (r: Option<seq<nat>>)
    ensures r == ParseDays(spec)
  {
    hide PartDays, PartsDays, Split, Lower, SortedDays;
    var parts := Split(Lower(spec), ',');
    var out: set<nat> := {};
    assert parts[0..] == parts;
    AddedNothing(PartsDays(parts));
    for i := 0 to |parts|
      invariant PartsDays(parts) == Added(out, PartsDays(parts[i..]))
    {
      PartsStep(parts, i, out);
      var more := ReadPart(parts[i], out);
      if more.None? {
        return None;
      }
      out := more.value;
    }
    assert parts[|parts|..] == [];
    NoParts();
    if out == {} {
      return None;
    }
    return Some(SortedDays(out, 0));
  }

  lemma AddedNothing(rest: Option<set<nat>>)
    ensures Added({}, rest) == rest
  {
    if rest.Some? { assert {} + rest.value == rest.value; }
  }

  lemma NoParts()
    ensures PartsDays([]) == Some({})
  {
  }

  // ----- parseRuleSchedule -----

  /** The days up to the first space, spaces, then two times joined by a dash. */
  function ParseWindow(chunk: string): Option<Window> {
    var n := WordLength(chunk);
    var times := TrimStart(chunk[n..]);
    if n == 0 || n == |chunk| then None
    else
      var dash := IndexOf(times, '-');
      if dash == |times| then None
      else
        var start, end := ParseTime(times[..dash]), ParseTime(times[dash + 1..]);
        if start.None? || end.None? || start == end || start.value >= DAY || ParseDays(chunk[..n]).None? then None
        else Some(Window(ParseDays(chunk[..n]).value, start.value, end.value))
  }

  function WordLength(s: string): (n: nat)
    ensures n <= |s|
  {
    if s == "" || IsSpace(s[0]) then 0 else 1 + WordLength(s[1..])
  }

  /** Blank chunks are skipped; one bad chunk fails the whole text. */
  function ParseChunks(chunks: seq<string>): Option<seq<Window>> {
    if chunks == [] then Some([])
    else
      var chunk, rest := Trim(chunks[0]), ParseChunks(chunks[1..]);
      if chunk == "" then rest
      else
        var w := ParseWindow(chunk);
        if w.Some? && rest.Some? then Some([w.value] + rest.value) else None
  }

  function Parse(input: string, zones: set<string>): Option<Schedule> {
    var raw := Trim(input);
    var sep := IndexOf(raw, '|');
    if sep < 1 || sep == |raw| then None
    else
      var timezone := Trim(raw[..sep]);
      if timezone !in zones || |timezone| > MAX_ZONE then None
      else
        match ParseChunks(Split(raw[sep + 1..], ';'))
        case None => None
        case Some(windows) =>
          if windows == [] || |windows| > MAX_WINDOWS then None else Some(Schedule(timezone, windows))
  }

  // ----- normalizeRuleSchedule -----

  function DayList(days: seq<nat>): string
    requires forall i :: 0 <= i < |days| ==> days[i] < 7
  {
    if days == [] then ""
    else if |days| == 1 then DAY_NAMES[days[0]]
    else DAY_NAMES[days[0]] + ("," + DayList(days[1..]))
  }

  predicate Formattable(w: Window) {
    (forall i :: 0 <= i < |w.days| ==> w.days[i] < 7) && w.start <= DAY && w.end <= DAY
  }

  predicate AllFormattable(windows: seq<Window>) {
    forall i :: 0 <= i < |windows| ==> Formattable(windows[i])
  }

  function FormatWindow(w: Window): string
    requires Formattable(w)
  {
    DayList(w.days) + (" " + (FormatTime(w.start) + ("-" + FormatTime(w.end))))
  }

  function FormatWindows(windows: seq<Window>): string
    requires AllFormattable(windows)
  {
    if windows == [] then ""
    else if |windows| == 1 then FormatWindow(windows[0])
    else FormatWindow(windows[0]) + (";" + FormatWindows(windows[1..]))
  }

  function Format(s: Schedule): string
    requires AllFormattable(s.windows)
  {
    s.timezone + ("|" + FormatWindows(s.windows))
  }
}
