/**
 What parsing and normalising a schedule (src/lib/rule-schedule.ts) do to each
 other, and when a schedule lets a minute through.

 A schedule is normalised before it is stored: parsed, and written out again in one
 way.  It is parsed again each time a rule is evaluated, at the local minute of its
 zone.  A zone is its offset in minutes, as in `WeeklyHours`, whose test for a minute
 and this file's own are shown to be the same, text that cannot be read apart.
 */
module RuleScheduleText {
  import opened Prelude
  import opened JsText
  import opened WeeklyHours
  import opened RuleSchedule
  import opened RuleScheduleReading

  /** Parsing what is written for a valid schedule gives the schedule. */
  lemma FormatRead(s: Schedule, zones: set<string>)
    requires Valid(s, zones)
    ensures Parse(Format(s), zones) == Some(s)
    ensures Format(s) != "" && Trim(Format(s)) == Format(s)
  {
    hide FormatWindows, ParseChunks, Split, Formattable, Increasing, Contains;
    var zone, rest := s.timezone, FormatWindows(s.windows);
    var text := Format(s);
    assert text == zone + (['|'] + rest);
    WindowsText(s.windows);
    WindowsRead(s.windows);
    IndexOfFirst(zone, '|', rest);
    assert Trimmed(text) && text[0] == zone[0] && text[|text| - 1] == rest[|rest| - 1];
    TrimmedIsFixed(text);
    TrimmedIsFixed(zone);
    assert text[..|zone|] == zone && text[|zone| + 1..] == rest;
    hide Trim, Trimmed, IndexOf;
  }

  /** The schedules that some text stands for are exactly the valid ones. */
  lemma SchedulesExactly(s: Schedule, zones: set<string>)
    ensures (exists text :: Parse(text, zones) == Some(s)) <==> Valid(s, zones)
  {
    hide Parse, Valid;
    if text :| Parse(text, zones) == Some(s) { ParseSound(text, zones); }
    if Valid(s, zones) {
      ValidFormattable(s, zones);
      FormatRead(s, zones);
      assert Parse(Format(s), zones) == Some(s);
    }
  }

  // ----- normalizeRuleSchedule -----

  /** `Blank`: nothing was given. `Failed`: the source throws. */
  datatype Normalized = Blank | Failed | Text(text: string)

  function Normalize(input: Option<string>, zones: set<string>): Normalized {
    if input.None? || Trim(input.value) == "" then Blank
    else
      var text := Trim(input.value);
      if |text| > MAX_TEXT then Failed
      else
        match Parse(text, zones)
        case None => Failed
        case Some(s) =>
          ParseSound(text, zones);
          ValidFormattable(s, zones);
          Text(Format(s))
  }

  lemma ValidFormattable(s: Schedule, zones: set<string>)
    requires Valid(s, zones)
    ensures AllFormattable(s.windows)
  {
    hide Increasing;
  }

  lemma TrimTwice(s: string)
    ensures Trim(Trim(s)) == Trim(s)
  {
    TrimIsTrimmed(s);
    TrimmedIsFixed(Trim(s));
  }

  lemma ParseTrimmed(input: string, zones: set<string>)
    ensures Parse(Trim(input), zones) == Parse(input, zones)
  {
    TrimTwice(input);
    hide Trim, Split, ParseChunks;
  }

  /**
   The normalised text stands for the same zone and windows as the original; and
   normalising it once more changes nothing exactly when it has at most 400
   characters, and fails otherwise.
   */
  lemma NormalizedMeansTheSame(input: string, zones: set<string>)
    ensures var n := Normalize(Some(input), zones);
      n.Text? ==>
        && Parse(n.text, zones) == Parse(input, zones)
        && Parse(n.text, zones).Some?
        && Normalize(Some(n.text), zones) == if |n.text| <= 400 then n else Failed
  {
    hide Parse, Trim, Format, Valid, AllFormattable;
    ParseTrimmed(input, zones);
    var text := Trim(input);
    if text != "" && |text| <= MAX_TEXT && Parse(text, zones).Some? {
      var s := Parse(text, zones).value;
      ParseSound(text, zones);
      ValidFormattable(s, zones);
      FormatRead(s, zones);
    }
  }

  // ----- A schedule whose normal form is too long -----

  /** Fourteen windows written with a day range fit in 400 characters; written out they do not. */
  lemma NormalFormCanBeTooLong(zone: string, zones: set<string>)
    requires ZoneText(zone, zones)
    ensures var n := Normalize(Some(zone + ("|" + Repeated(EVERY_DAY, 14))), zones);
      n.Text? && |n.text| > MAX_TEXT && Normalize(Some(n.text), zones) == Failed
  {
    hide Split, ParseChunks, FormatWindows, Contains, Repeated, Times, AllCanonical;
    RepeatedRead(14);
    EveryDayText();
    RepeatedText(EVERY_DAY, 14);
    TimesText(14);
    var rest := Repeated(EVERY_DAY, 14);
    var text := zone + (['|'] + rest);
    IndexOfFirst(zone, '|', rest);
    assert Trimmed(text) && text[0] == zone[0] && text[|text| - 1] == rest[|rest| - 1];
    TrimmedIsFixed(text);
    TrimmedIsFixed(zone);
    assert text[..|zone|] == zone && text[|zone| + 1..] == rest;
    hide Trim, Trimmed, IndexOf;
    assert Parse(text, zones) == Some(Schedule(zone, Times(14)));
    NormalizedMeansTheSame(text, zones);
  }

  // ----- isWithinRuleSchedule -----

  /** As src/lib/rule-schedule.ts:122-126 tests it; src/lib/active-hours.ts has its own test, `Covers`. */
  predicate InWindow(w: Window, day: nat, minutes: nat) {
    if w.start < w.end then day in w.days && minutes >= w.start && minutes < w.end
    else (day in w.days && minutes >= w.start) || ((day + 6) % 7 in w.days && minutes < w.end)
  }

  /** A schedule that is absent or cannot be read lets everything through.  `offset` gives each zone's offset in minutes. */
  predicate WithinSchedule(schedule: Option<string>, zones: set<string>, offset: string -> int, utcMinutes: int) {
    if schedule.None? || schedule.value == "" then true
    else
      match Parse(schedule.value, zones)
      case None => true
      case Some(s) =>
        var at := LocalParts(utcMinutes, offset(s.timezone));
        exists i :: 0 <= i < |s.windows| && InWindow(s.windows[i], at.day, at.minutes)
  }

  /** Some window, from some of its start days on, holds the minute of the week. */
  ghost predicate OnSomeCycle(windows: seq<Window>, minuteOfWeek: int) {
    exists i, d :: 0 <= i < |windows| && d in windows[i].days && OnCycle(windows[i], d, minuteOfWeek)
  }

  /** What `active-hours.ts` decides, on the cycle of the week. */
  lemma ActiveOnCycle(windows: seq<Window>, utcMinutes: int, offset: int)
    requires windows != [] && forall i :: 0 <= i < |windows| ==> ValidWindow(windows[i])
    ensures ActiveAt(windows, utcMinutes, offset) <==> OnSomeCycle(windows, MinuteOfWeek(utcMinutes, offset))
  {
    hide ValidWindow, OnCycle, Covers, MinuteOfWeek, LocalParts;
    var at := LocalParts(utcMinutes, offset);
    forall i | 0 <= i < |windows|
      ensures Covers(windows[i], at.day, at.minutes)
        <==> exists d :: d in windows[i].days && OnCycle(windows[i], d, MinuteOfWeek(utcMinutes, offset))
    {
      CoversOnCycle(windows[i], at.day, at.minutes);
    }
  }

  /**
   The two modules agree: a readable schedule decides as active hours with its
   windows and its zone would, which is membership on the cycle of the week; and
   only what is absent or unreadable lets every minute through regardless.
   */
  lemma WithinExactly(schedule: Option<string>, zones: set<string>, offset: string -> int, utcMinutes: int)
    ensures
      var parsed := if schedule.None? then None else Parse(schedule.value, zones);
      && (parsed.None? ==> WithinSchedule(schedule, zones, offset, utcMinutes))
      && (parsed.Some? ==>
            && WithinSchedule(schedule, zones, offset, utcMinutes)
               == ActiveAt(parsed.value.windows, utcMinutes, offset(parsed.value.timezone))
            && WithinSchedule(schedule, zones, offset, utcMinutes)
               == OnSomeCycle(parsed.value.windows, MinuteOfWeek(utcMinutes, offset(parsed.value.timezone))))
  {
    hide Parse, LocalParts, OnSomeCycle;
    EmptyIsUnreadable(zones);
    if schedule.Some? && Parse(schedule.value, zones).Some? {
      var s := Parse(schedule.value, zones).value;
      ParseSound(schedule.value, zones);
      ValidWindows(s, zones);
      ActiveOnCycle(s.windows, utcMinutes, offset(s.timezone));
      var at := LocalParts(utcMinutes, offset(s.timezone));
      assert forall i :: 0 <= i < |s.windows| ==> InWindow(s.windows[i], at.day, at.minutes) == Covers(s.windows[i], at.day, at.minutes);
    }
  }

  lemma EmptyIsUnreadable(zones: set<string>)
    ensures Parse("", zones).None?
  {
  }

  lemma ValidWindows(s: Schedule, zones: set<string>)
    requires Valid(s, zones)
    ensures s.windows != [] && forall i :: 0 <= i < |s.windows| ==> ValidWindow(s.windows[i])
  {
    hide Increasing;
  }

  function Stored(n: Normalized): Option<string> {
    if n.Text? then Some(n.text) else None
  }

  /** What is stored after normalising lets through exactly what the text that was given does. */
  lemma NormalizingKeepsTheDecision(input: Option<string>, zones: set<string>, offset: string -> int, utcMinutes: int)
    requires !Normalize(input, zones).Failed?
    ensures WithinSchedule(Stored(Normalize(input, zones)), zones, offset, utcMinutes)
      == WithinSchedule(input, zones, offset, utcMinutes)
  {
    hide Parse, InWindow, LocalParts, Trim, Format, AllFormattable;
    EmptyIsUnreadable(zones);
    if input.Some? {
      ParseTrimmed(input.value, zones);
      NormalizedMeansTheSame(input.value, zones);
    }
  }
}
