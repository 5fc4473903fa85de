/**
 Weekly windows of minutes, as src/lib/active-hours.ts and
 src/lib/rule-schedule.ts evaluate them.

 Days run from 0 (Sunday) to 6.  A zone is its offset from UTC in minutes;
 changes of offset are not part of this model.
 */
module WeeklyHours {
  import opened Prelude

  const DAY := 1440
  const WEEK := 10080
  const MINUTE_MS := 60000

  datatype Window = Window(days: seq<nat>, start: nat, end: nat)

  predicate ValidWindow(w: Window) {
    && w.days != [] && (forall d :: d in w.days ==> d < 7)
    && w.start < DAY && w.end <= DAY
  }

  // ----- Membership, as the code tests it -----

  /** A window that does not end after it starts runs into the next day. */
  predicate Covers(w: Window, day: nat, minutes: nat) {
    if w.start < w.end then day in w.days && w.start <= minutes < w.end
    else (day in w.days && w.start <= minutes) || ((day + 6) % 7 in w.days && minutes < w.end)
  }

  /** No windows at all means always. */
  predicate Within(windows: seq<Window>, day: nat, minutes: nat) {
    windows == [] || exists i :: 0 <= i < |windows| && Covers(windows[i], day, minutes)
  }

  method IsWithin(windows: seq<Window>, day: nat, minutes: nat) returns (r: bool)
    ensures r == Within(windows, day, minutes)
  {
    if windows == [] {
      return true;
    }
    var prev := (day + 6) % 7;
    for i := 0 to |windows|
      invariant forall k :: 0 <= k < i ==> !Covers(windows[k], day, minutes)
    {
      var w := windows[i];
      if w.start < w.end {
        if day in w.days && minutes >= w.start && minutes < w.end {
          return true;
        }
      } else {
        if day in w.days && minutes >= w.start {
          return true;
        }
        if prev in w.days && minutes < w.end {
          return true;
        }
      }
    }
    return false;
  }

  // ----- Membership, on the cycle of the week -----

  function Length(w: Window): int {
    if w.start < w.end then w.end - w.start else w.end - w.start + DAY
  }

  /** Minutes from one minute of the week to the next time another comes round. */
  function Ahead(from: int, to: int): int {
    (to - from) % WEEK
  }

  predicate OnCycle(w: Window, d: nat, minuteOfWeek: int) {
    Ahead(d * DAY + w.start, minuteOfWeek) < Length(w)
  }

  lemma AheadIs(from: int, to: int)
    requires 0 <= from < WEEK && 0 <= to < WEEK
    ensures Ahead(from, to) == if from <= to then to - from else to - from + WEEK
  {
    if from <= to {
      assert (to - from) % WEEK == to - from;
    } else {
      assert (to - from + WEEK) % WEEK == to - from + WEEK;
      assert (to - from) % WEEK == (to - from + WEEK) % WEEK;
    }
  }

  /** A start day's window is one interval of the cycle, on its day or on the day after it. */
  lemma DayOnCycle(w: Window, d: nat, day: nat, minutes: nat)
    requires w.start < DAY && w.end <= DAY && d < 7 && day < 7 && minutes < DAY
    ensures OnCycle(w, d, day * DAY + minutes) <==>
      if w.start < w.end then d == day && w.start <= minutes < w.end
      else (d == day && w.start <= minutes) || (d == (day + 6) % 7 && minutes < w.end)
  {
    AheadIs(d * DAY + w.start, day * DAY + minutes);
    hide Ahead;
    var gap := day - d;
    assert day * DAY + minutes - (d * DAY + w.start) == gap * DAY + minutes - w.start;
    if gap == 0 {
    } else if gap == 1 {
      assert d == (day + 6) % 7;
    } else if gap == -6 {
      assert d == (day + 6) % 7;
    } else {
      assert d != day && d != (day + 6) % 7;
    }
  }

  /** A minute is covered exactly when it lies in the cyclic interval of one of the start days. */
  lemma CoversOnCycle(w: Window, day: nat, minutes: nat)
    requires ValidWindow(w) && day < 7 && minutes < DAY
    ensures Covers(w, day, minutes) <==> exists d :: d in w.days && OnCycle(w, d, day * DAY + minutes)
  {
    hide OnCycle;
    forall d | d in w.days
      ensures OnCycle(w, d, day * DAY + minutes) <==>
        if w.start < w.end then d == day && w.start <= minutes < w.end
        else (d == day && w.start <= minutes) || (d == (day + 6) % 7 && minutes < w.end)
    {
      DayOnCycle(w, d, day, minutes);
    }
    var prev := (day + 6) % 7;
    if Covers(w, day, minutes) {
      if day in w.days && w.start <= minutes && (w.start < w.end ==> minutes < w.end) {
        assert OnCycle(w, day, day * DAY + minutes);
      } else {
        assert OnCycle(w, prev, day * DAY + minutes);
      }
    }
  }

  // ----- The next active minute -----

  datatype Local = Local(day: nat, minutes: nat)

  /** The local minute of the week; the first of January 1970 was a Thursday. */
  function MinuteOfWeek(utcMinutes: int, offset: int): (m: nat)
    ensures m < WEEK
  {
    (utcMinutes + offset + 4 * DAY) % WEEK
  }

  function LocalParts(utcMinutes: int, offset: int): (r: Local)
    ensures r.day < 7 && r.minutes < DAY
    ensures r.day * DAY + r.minutes == MinuteOfWeek(utcMinutes, offset)
  {
    var m := MinuteOfWeek(utcMinutes, offset);
    Local(m / DAY, m % DAY)
  }

  /**
   The local day and minute are those of a clock: the first of January 1970 was a
   Thursday, an offset shifts the clock, and it advances minute by minute.
   */
  lemma LocalIsAClock(utcMinutes: int, offset: int)
    ensures LocalParts(0, 0) == Local(4, 0)
    ensures LocalParts(utcMinutes, offset) == LocalParts(utcMinutes + offset, 0)
    ensures var now, next := LocalParts(utcMinutes, offset), LocalParts(utcMinutes + 1, offset);
      next == if now.minutes < 1439 then Local(now.day, now.minutes + 1) else Local((now.day + 1) % 7, 0)
  {
    var base := utcMinutes + offset + 4 * DAY;
    var m := base % WEEK;
    if m + 1 < WEEK {
      assert (base + 1) % WEEK == m + 1;
    } else {
      assert (base + 1) % WEEK == 0;
    }
  }

  predicate ActiveAt(windows: seq<Window>, utcMinutes: int, offset: int) {
    Within(windows, LocalParts(utcMinutes, offset).day, LocalParts(utcMinutes, offset).minutes)
  }

  lemma MinuteOfWeekShift(a: int, offset: int, target: int)
    requires 0 <= target < WEEK
    ensures MinuteOfWeek(a + Ahead(MinuteOfWeek(a, offset), target), offset) == target
  {
    var base := a + offset + 4 * DAY;
    var m := base % WEEK;
    AheadIs(m, target);
    hide Ahead;
    var step := Ahead(m, target);
    assert base == (base / WEEK) * WEEK + m;
    var q := base / WEEK + if m <= target then 0 else 1;
    assert base + step == q * WEEK + target;
    assert (q * WEEK + target) % WEEK == target;
  }

  /** Some minute of any seven days in a row is active. */
  lemma ActiveWithinAWeek(windows: seq<Window>, from: int, offset: int) returns (m: nat)
    requires windows != [] && forall i :: 0 <= i < |windows| ==> ValidWindow(windows[i])
    ensures m < WEEK && ActiveAt(windows, from + m, offset)
  {
    hide LocalParts;
    var w := windows[0];
    assert ValidWindow(w);
    var d := w.days[0];
    assert d in w.days;
    var target := d * DAY + w.start;
    m := Ahead(MinuteOfWeek(from, offset), target);
    MinuteOfWeekShift(from, offset, target);
    var at := LocalParts(from + m, offset);
    assert at.day * DAY + at.minutes == target;
    assert at.day == d && at.minutes == w.start;
    assert Covers(w, at.day, at.minutes);
  }

  method NextActiveAt(windows: seq<Window>, fromMs: int, offset: int) returns (r: Option<int>)
    requires forall i :: 0 <= i < |windows| ==> ValidWindow(windows[i])
    ensures r.Some?
    ensures windows == [] ==> r == Some(fromMs)
    ensures windows != [] ==> IsFirstActive(windows, fromMs / 60000, offset, r.value)
  {
    if windows == [] {
      return Some(fromMs);
    }
    hide ActiveAt;
    var start := fromMs / MINUTE_MS;
    ghost var first := ActiveWithinAWeek(windows, start, offset);
    r := None;
    var m := 0;
    while m <= 8 * 24 * 60 && r.None?
      invariant r.None? ==> forall t :: start <= t < start + m ==> !ActiveAt(windows, t, offset)
      invariant r.None? ==> m <= first
      decreases if r.None? then 1 else 0, 8 * 24 * 60 + 1 - m
      invariant r.Some? ==> m <= first && IsFirstActive(windows, start, offset, r.value)
    {
      var active := IsActiveAt(windows, start + m, offset);
      if active {
        assert (start + m) * MINUTE_MS / MINUTE_MS == start + m;
        r := Some((start + m) * MINUTE_MS);
      } else {
        m := m + 1;
      }
    }
  }

  /** The instant is a whole minute, at or after the start, active, and none before it is. */
  ghost predicate IsFirstActive(windows: seq<Window>, start: int, offset: int, ms: int) {
    var t := ms / 60000;
    && ms == t * 60000
    && start <= t < start + WEEK
    && ActiveAt(windows, t, offset)
    && forall k :: start <= k < t ==> !ActiveAt(windows, k, offset)
  }

  method IsActiveAt(windows: seq<Window>, utcMinutes: int, offset: int) returns (r: bool)
    ensures r == ActiveAt(windows, utcMinutes, offset)
  {
    var at := LocalParts(utcMinutes, offset);
    r := IsWithin(windows, at.day, at.minutes);
  }
}
