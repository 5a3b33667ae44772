/**
  The calendar screen: sessions grouped by the date part of their stored
  timestamp, the daily-goal colouring of each day cell, the key each cell
  looks itself up by, the month navigation and the selected day.
 */
module Calendar {
  import opened Types
  import opened Text
  import opened Statistics
  import opened Lists

  /** `date.split('T')[0]`: the text before the first `T`, or all of it. */
  function DayKey(date: string): (key: string)
    ensures key <= date
    ensures 'T' !in key
    ensures |key| < |date| ==> date[|key|] == 'T'
  {
    if |date| == 0 || date[0] == 'T' then ""
    else [date[0]] + DayKey(date[1..])
  }

  /** The sessions whose stored date falls on the day `key`. */
  function OnDay(key: string): Session -> bool {
    (x: Session) => DayKey(x.date) == key
  }

  datatype SubjectDay = SubjectDay(duration: int, questions: int, correct: int)

  datatype DayData = DayData(
    totalDuration: int,
    totalQuestions: int,
    totalCorrect: int,
    subjects: map<string, SubjectDay>)

  /** The days a history has sessions on. */
  function DayKeys(s: seq<Session>): set<string> {
    set i | 0 <= i < |s| :: DayKey(s[i].date)
  }

  /** The subjects studied on day `key`. */
  function DayNames(s: seq<Session>, key: string): set<string> {
    set i | 0 <= i < |s| && DayKey(s[i].date) == key :: s[i].subject
  }

  /** One subject's sums on day `key`. */
  function SubjectRef(s: seq<Session>, key: string, n: string): SubjectDay {
    SubjectDay(
      SubjectTotal(s, OnDay(key), Duration, n),
      SubjectTotal(s, OnDay(key), Questions, n),
      SubjectTotal(s, OnDay(key), Correct, n))
  }

  /** The record of day `key` over the whole history, stated by sums: the
      reference `SessionsByDate` is checked against. */
  function DayRef(s: seq<Session>, key: string): DayData {
    DayData(
      SumWhere(s, OnDay(key), Duration),
      SumWhere(s, OnDay(key), Questions),
      SumWhere(s, OnDay(key), Correct),
      map n | n in DayNames(s, key) :: SubjectRef(s, key, n))
  }

  /** One session added to its day's running record. */
  function AddToDay(d: DayData, x: Session): DayData {
    var t := if x.subject in d.subjects then d.subjects[x.subject] else SubjectDay(0, 0, 0);
    DayData(
      d.totalDuration + x.duration,
      d.totalQuestions + x.questions,
      d.totalCorrect + x.correctQuestions,
      d.subjects[x.subject := SubjectDay(t.duration + x.duration, t.questions + x.questions,
                                         t.correct + x.correctQuestions)])
  }

  /** `sessionsByDate`, filled session by session: one entry per day that
      has sessions, each equal to that day's sums. */
  function SessionsByDate(s: seq<Session>): (g: map<string, DayData>)
    ensures g.Keys == set i | 0 <= i < |s| :: DayKey(s[i].date)
    ensures forall key :: key in g ==> g[key] == DayRef(s, key)
  {
    if |s| == 0 then map[]
    else
      var g := SessionsByDate(s[..|s| - 1]);
      var x := s[|s| - 1];
      var key := DayKey(x.date);
      var d := if key in g then g[key] else DayData(0, 0, 0, map[]);
      GroupStep(s, g);
      g[key := AddToDay(d, x)]
  }

  /** Adding the last session to its day turns the grouping of the earlier
      sessions into the grouping of all of them. */
  lemma GroupStep(s: seq<Session>, g: map<string, DayData>)
    requires |s| > 0
    requires g.Keys == DayKeys(s[..|s| - 1])
    requires forall key :: key in g ==> g[key] == DayRef(s[..|s| - 1], key)
    ensures var x := s[|s| - 1];
      var key := DayKey(x.date);
      var r := g[key := AddToDay(if key in g then g[key] else DayData(0, 0, 0, map[]), x)];
      && r.Keys == DayKeys(s)
      && forall k :: k in r ==> r[k] == DayRef(s, k)
  {
    var p, x := s[..|s| - 1], s[|s| - 1];
    var key := DayKey(x.date);
    DayKeysStep(s);
    if key !in g {
      EmptyDay(p, key);
    }
    DayStep(s, key);
    forall k | k in g && k != key ensures DayRef(s, k) == DayRef(p, k) {
      OtherDayStep(s, k);
    }
  }

  /** The days of a history are those of all but its last session plus the
      last session's day. */
  lemma DayKeysStep(s: seq<Session>)
    requires |s| > 0
    ensures DayKeys(s) == DayKeys(s[..|s| - 1]) + {DayKey(s[|s| - 1].date)}
  {
    var p := s[..|s| - 1];
    forall k | k in DayKeys(s) ensures k in DayKeys(p) + {DayKey(s[|s| - 1].date)} {
      var i :| 0 <= i < |s| && DayKey(s[i].date) == k;
      if i < |p| { assert p[i] == s[i]; }
    }
    forall k | k in DayKeys(p) ensures k in DayKeys(s) {
      var i :| 0 <= i < |p| && DayKey(p[i].date) == k;
      assert s[i] == p[i];
    }
  }

  /** The last session adds its subject to its own day only. */
  lemma DayNamesStep(s: seq<Session>, key: string)
    requires |s| > 0
    ensures var x := s[|s| - 1];
      DayNames(s, key) == DayNames(s[..|s| - 1], key) + (if DayKey(x.date) == key then {x.subject} else {})
  {
    var p, x := s[..|s| - 1], s[|s| - 1];
    var extra: set<string> := if DayKey(x.date) == key then {x.subject} else {};
    forall n | n in DayNames(s, key) ensures n in DayNames(p, key) + extra {
      var i :| 0 <= i < |s| && DayKey(s[i].date) == key && s[i].subject == n;
      if i < |p| { assert p[i] == s[i]; }
    }
    forall n | n in DayNames(p, key) ensures n in DayNames(s, key) {
      var i :| 0 <= i < |p| && DayKey(p[i].date) == key && p[i].subject == n;
      assert s[i] == p[i];
    }
  }

  /** The last session adds its figures to its own day and subject only. */
  lemma SubjectRefStep(s: seq<Session>, key: string, n: string)
    requires |s| > 0
    ensures var x, q := s[|s| - 1], SubjectRef(s[..|s| - 1], key, n);
      SubjectRef(s, key, n) ==
        if DayKey(x.date) == key && x.subject == n
        then SubjectDay(q.duration + x.duration, q.questions + x.questions, q.correct + x.correctQuestions)
        else q
  {
    SubjectTotalStep(s, OnDay(key), Duration, n);
    SubjectTotalStep(s, OnDay(key), Questions, n);
    SubjectTotalStep(s, OnDay(key), Correct, n);
  }

  /** A day no session of `p` falls on has the empty record. */
  lemma EmptyDay(p: seq<Session>, key: string)
    requires forall i :: 0 <= i < |p| ==> DayKey(p[i].date) != key
    ensures DayRef(p, key) == DayData(0, 0, 0, map[])
  {
    assert forall i :: 0 <= i < |p| ==> !OnDay(key)(p[i]);
    SumWhereNone(p, OnDay(key), Duration);
    SumWhereNone(p, OnDay(key), Questions);
    SumWhereNone(p, OnDay(key), Correct);
  }

  /** The last session's day record is the previous one plus that session. */
  lemma DayStep(s: seq<Session>, key: string)
    requires |s| > 0 && DayKey(s[|s| - 1].date) == key
    ensures DayRef(s, key) == AddToDay(DayRef(s[..|s| - 1], key), s[|s| - 1])
  {
    var p, x := s[..|s| - 1], s[|s| - 1];
    var a, b := DayRef(s, key).subjects, AddToDay(DayRef(p, key), x).subjects;
    DayNamesStep(s, key);
    assert a.Keys == b.Keys;
    forall n | n in a ensures a[n] == b[n] {
      SubjectRefStep(s, key, n);
      if n == x.subject && n !in DayNames(p, key) {
        EmptySubject(p, key, n);
      }
    }
    assert a == b;
  }

  /** A subject without sessions on the day totals zero there. */
  lemma EmptySubject(p: seq<Session>, key: string, n: string)
    requires n !in DayNames(p, key)
    ensures SubjectRef(p, key, n) == SubjectDay(0, 0, 0)
  {
    forall i | 0 <= i < |p| ensures !Of(OnDay(key), n)(p[i]) {
    }
    SumWhereNone(p, Of(OnDay(key), n), Duration);
    SumWhereNone(p, Of(OnDay(key), n), Questions);
    SumWhereNone(p, Of(OnDay(key), n), Correct);
  }

  /** A session on another day leaves a day's record as it was. */
  lemma OtherDayStep(s: seq<Session>, key: string)
    requires |s| > 0 && DayKey(s[|s| - 1].date) != key
    ensures DayRef(s, key) == DayRef(s[..|s| - 1], key)
  {
    var p := s[..|s| - 1];
    DayNamesStep(s, key);
    forall n | n in DayNames(s, key) ensures SubjectRef(s, key, n) == SubjectRef(p, key, n) {
      SubjectRefStep(s, key, n);
    }
  }

  /** The durations of a day's subjects, in the order they first appear. */
  function SubjectMinutes(names: seq<string>, subjects: map<string, SubjectDay>): int
    requires forall n :: n in names ==> n in subjects
  {
    if |names| == 0 then 0
    else SubjectMinutes(names[..|names| - 1], subjects) + subjects[names[|names| - 1]].duration
  }

  /** In a day's detail panel the per-subject minutes add up to the day's
      total, and the listed subjects are exactly the day's subjects. */
  lemma DaySubjectsAddUp(s: seq<Session>, key: string)
    requires exists i :: 0 <= i < |s| && DayKey(s[i].date) == key
    ensures var day := SessionsByDate(s)[key];
      && (forall n :: n in SubjectOrder(s, OnDay(key)) <==> n in day.subjects)
      && SubjectMinutes(SubjectOrder(s, OnDay(key)), day.subjects) == day.totalDuration
  {
    var day := SessionsByDate(s)[key];
    var names := SubjectOrder(s, OnDay(key));
    forall n ensures n in names <==> n in day.subjects {
      if n in names {
        var i :| 0 <= i < |s| && OnDay(key)(s[i]) && s[i].subject == n;
      }
      if n in day.subjects {
        var i :| 0 <= i < |s| && DayKey(s[i].date) == key && s[i].subject == n;
        assert OnDay(key)(s[i]);
      }
    }
    SubjectMinutesIsSumSubjects(names, s, key);
    SplitBySubject(s, OnDay(key), Duration);
  }

  lemma {:induction false} SubjectMinutesIsSumSubjects(names: seq<string>, s: seq<Session>, key: string)
    requires exists i :: 0 <= i < |s| && DayKey(s[i].date) == key
    requires forall n :: n in names ==> n in DayNames(s, key)
    ensures SubjectMinutes(names, SessionsByDate(s)[key].subjects)
      == SumSubjects(names, s, OnDay(key), Duration)
  {
    if |names| > 0 {
      SubjectMinutesIsSumSubjects(names[..|names| - 1], s, key);
    }
  }

  /** The minutes a day cell shows: zero for a day without sessions. */
  function DayMinutes(g: map<string, DayData>, key: string): int {
    if key in g then g[key].totalDuration else 0
  }

  datatype GoalClass = GoalMet | GoalWarning | Unmarked

  /** The cell's goal class: met from the goal up, a warning for some study
      below the goal, no mark otherwise. */
  function Classify(minutes: int, goal: int): (c: GoalClass)
    ensures c == GoalMet <==> minutes >= goal
    ensures c == GoalWarning <==> 0 < minutes < goal
    ensures c == Unmarked <==> minutes <= 0 && minutes < goal
  {
    if minutes >= goal then GoalMet
    else if minutes > 0 then GoalWarning
    else Unmarked
  }

  /** A day without sessions is marked met exactly when the goal is not
      positive, and is never a warning. */
  lemma EmptyDayClass(g: map<string, DayData>, key: string, goal: int)
    requires key !in g
    ensures Classify(DayMinutes(g, key), goal) == GoalMet <==> goal <= 0
    ensures Classify(DayMinutes(g, key), goal) != GoalWarning
  {
  }

  /** More minutes on a day never take away a met goal, and never turn a
      studied day back to unmarked. */
  lemma MoreMinutesKeepProgress(a: int, b: int, goal: int)
    requires a <= b
    ensures Classify(a, goal) == GoalMet ==> Classify(b, goal) == GoalMet
    ensures Classify(a, goal) == GoalWarning ==> Classify(b, goal) != Unmarked
  {
  }

  /** The date part `YYYY-MM-DD` of an ISO 8601 timestamp, as
      `toISOString` writes it for the years 1000 to 9999. */
  function IsoDate(year: int, month: int, day: int): (text: string)
    requires 1000 <= year <= 9999 && 1 <= month <= 12 && 1 <= day <= 31
    ensures |text| == 10 && 'T' !in text
  {
    [DigitChar(year / 1000), DigitChar(year / 100 % 10), DigitChar(year / 10 % 10),
     DigitChar(year % 10), '-', DigitChar(month / 10), DigitChar(month % 10), '-',
     DigitChar(day / 10), DigitChar(day % 10)]
  }

  /** A cell's lookup key, `${year}-${pad(month + 1)}-${pad(d)}`, where
      `month` counts from zero. For a four-digit year it is the ISO date of
      that day. */
  function DateKey(year: int, month: int, day: int): (key: string)
    ensures (1000 <= year <= 9999 && 0 <= month < 12 && 1 <= day <= 31)
      ==> key == IsoDate(year, month + 1, day)
  {
    assert (1000 <= year <= 9999 && 0 <= month < 12 && 1 <= day <= 31)
      ==> IntToString(year) + "-" + Pad2(IntToString(month + 1)) + "-" + Pad2(IntToString(day))
          == IsoDate(year, month + 1, day) by {
      if 1000 <= year <= 9999 && 0 <= month < 12 && 1 <= day <= 31 {
        IsoDateDigits(year, month + 1, day);
      }
    }
    IntToString(year) + "-" + Pad2(IntToString(month + 1)) + "-" + Pad2(IntToString(day))
  }


  /** The key of a stored date is its text up to the `T`. */
  lemma {:induction false} DayKeyOfStamp(day: string, rest: string)
    requires 'T' !in day
    ensures DayKey(day + "T" + rest) == day
  {
    if |day| > 0 {
      DayKeyOfStamp(day[1..], rest);
      assert (day + "T" + rest)[1..] == day[1..] + "T" + rest;
    }
  }

  /** The key text of a four-digit year, a month and a day, digit by digit. */
  lemma IsoDateDigits(year: int, month: int, day: int)
    requires 1000 <= year <= 9999 && 1 <= month <= 12 && 1 <= day <= 31
    ensures IntToString(year) + "-" + Pad2(IntToString(month)) + "-" + Pad2(IntToString(day))
      == IsoDate(year, month, day)
  {
    NatToStringFourDigits(year);
    Pad2TwoDigits(month);
    Pad2TwoDigits(day);
    var y := [DigitChar(year / 1000), DigitChar(year / 100 % 10), DigitChar(year / 10 % 10),
              DigitChar(year % 10)];
    var m := [DigitChar(month / 10), DigitChar(month % 10)];
    var d := [DigitChar(day / 10), DigitChar(day % 10)];
    assert IntToString(year) == y;
    assert Pad2(IntToString(month)) == m;
    assert Pad2(IntToString(day)) == d;
    assert IsoDate(year, month, day) == y + "-" + m + "-" + d;
  }

  /** The cell of a date looks up exactly the key of a session stamped on
      that (UTC) date. */
  lemma CellFindsSessionDay(year: int, month: int, day: int, rest: string)
    requires 1000 <= year <= 9999 && 1 <= month <= 12 && 1 <= day <= 31
    ensures DayKey(IsoDate(year, month, day) + "T" + rest) == DateKey(year, month - 1, day)
  {
    DayKeyOfStamp(IsoDate(year, month, day), rest);
  }

  /** The month on show and the selected day key. `month` counts from zero. */
  datatype View = View(year: int, month: int, selected: Option<string>)

  /** `prevMonth`: `new Date(year, month - 1, 1)`, which rolls over into
      the previous year, and the selection is cleared. */
  function PrevMonth(v: View): (r: View)
    ensures 0 <= r.month < 12
    ensures 12 * r.year + r.month == 12 * v.year + v.month - 1
    ensures r.selected == None
  {
    var index := 12 * v.year + v.month - 1;
    View(index / 12, index % 12, None)
  }

  /** `nextMonth`: `new Date(year, month + 1, 1)`, and the selection is cleared. */
  function NextMonth(v: View): (r: View)
    ensures 0 <= r.month < 12
    ensures 12 * r.year + r.month == 12 * v.year + v.month + 1
    ensures r.selected == None
  {
    var index := 12 * v.year + v.month + 1;
    View(index / 12, index % 12, None)
  }

  /** Going forward and back returns to the same month. */
  lemma NavigationInverse(v: View)
    requires 0 <= v.month < 12
    ensures PrevMonth(NextMonth(v)).year == v.year && PrevMonth(NextMonth(v)).month == v.month
    ensures NextMonth(PrevMonth(v)).year == v.year && NextMonth(PrevMonth(v)).month == v.month
  {
  }

  /** A click on a day cell: its key is selected if the day has sessions,
      otherwise the selection is cleared. */
  function Click(v: View, g: map<string, DayData>, key: string): (r: View)
    ensures r.year == v.year && r.month == v.month
    ensures r.selected == Some(key) <==> key in g
    ensures r.selected == None <==> key !in g
  {
    v.(selected := if key in g then Some(key) else None)
  }

  /** The detail panel only ever opens on a day with data. */
  ghost predicate SelectionValid(v: View, g: map<string, DayData>) {
    v.selected.Some? ==> v.selected.value in g
  }

  lemma NavigationKeepsSelectionValid(v: View, g: map<string, DayData>, key: string)
    ensures SelectionValid(Click(v, g, key), g)
    ensures SelectionValid(PrevMonth(v), g) && SelectionValid(NextMonth(v), g)
  {
  }

  /** `formatDuration`: `"{m}m"` in the first hour, `"{h}h {m}m"` otherwise.
      For non-negative counts it is the statistics label, so it is injective
      there too. */
  function FormatDuration(minutes: int): (text: string)
    ensures |text| >= 2 && text[|text| - 1] == 'm'
    ensures minutes >= 0 ==> text == FormatHours(minutes)
  {
    var hours := minutes / 60;
    var mins := JsRem(minutes, 60);
    if hours == 0 then IntToString(mins) + "m"
    else IntToString(hours) + "h " + IntToString(mins) + "m"
  }

  /** Below zero they part: the calendar prints both parts negative. */
  lemma NegativeLabelsDiffer()
    ensures FormatDuration(-5) == "-1h -5m"
    ensures FormatHours(-5) == "-5m"
  {
    assert NatToString(1) == "1" && NatToString(5) == "5";
  }

  /** `a.join(sep)` for a non-empty list of strings. */
  function Join(parts: seq<string>, sep: char): string
    requires |parts| >= 1
  {
    if |parts| == 1 then parts[0] else parts[0] + [sep] + Join(parts[1..], sep)
  }

  /** `s.split(sep)`: the pieces between the separators, in order. */
  function Split(s: string, sep: char): (parts: seq<string>)
    ensures |parts| >= 1
    ensures forall i :: 0 <= i < |parts| ==> sep !in parts[i]
    ensures Join(parts, sep) == s
    decreases |s|
  {
    if sep !in s then [s]
    else
      var i := IndexOf(s, sep);
      assert sep !in s[..i] by {
        forall k | 0 <= k < i ensures s[..i][k] != sep {}
      }
      var rest := Split(s[i + 1..], sep);
      assert s == s[..i] + [sep] + s[i + 1..];
      [s[..i]] + rest
  }

  /** A piece without the separator, then the separator, splits off first. */
  lemma SplitFirst(a: string, rest: string, sep: char)
    requires sep !in a
    ensures Split(a + [sep] + rest, sep) == [a] + Split(rest, sep)
  {
    var s := a + [sep] + rest;
    assert s[|a|] == sep;
    assert forall k :: 0 <= k < |a| ==> s[k] == a[k];
    var i := IndexOf(s, sep);
    assert s[..i] == a && s[i + 1..] == rest;
  }

  function Reverse(parts: seq<string>): (r: seq<string>)
    ensures |r| == |parts|
    ensures forall i :: 0 <= i < |parts| ==> r[i] == parts[|parts| - 1 - i]
  {
    seq(|parts|, i requires 0 <= i < |parts| => parts[|parts| - 1 - i])
  }

  /** The day heading of the detail panel:
      `key.split('-').reverse().join('/')`. */
  function DisplayDate(key: string): string {
    Join(Reverse(Split(key, '-')), '/')
  }

  /** An ISO date key is shown day first: `DD/MM/YYYY`. */
  lemma DisplayIsoDate(year: int, month: int, day: int)
    requires 1000 <= year <= 9999 && 1 <= month <= 12 && 1 <= day <= 31
    ensures var y := [DigitChar(year / 1000), DigitChar(year / 100 % 10), DigitChar(year / 10 % 10),
                      DigitChar(year % 10)];
      DisplayDate(IsoDate(year, month, day))
        == [DigitChar(day / 10), DigitChar(day % 10), '/', DigitChar(month / 10), DigitChar(month % 10), '/'] + y
  {
    var y := [DigitChar(year / 1000), DigitChar(year / 100 % 10), DigitChar(year / 10 % 10),
              DigitChar(year % 10)];
    var m := [DigitChar(month / 10), DigitChar(month % 10)];
    var d := [DigitChar(day / 10), DigitChar(day % 10)];
    assert IsoDate(year, month, day) == y + ['-'] + (m + ['-'] + d);
    SplitFirst(y, m + ['-'] + d, '-');
    SplitFirst(m, d, '-');
    assert Split(d, '-') == [d];
    assert Split(IsoDate(year, month, day), '-') == [y, m, d];
    assert Reverse([y, m, d]) == [d, m, y];
    assert [d, m, y][1..] == [m, y] && [m, y][1..] == [y];
    assert Join([y], '/') == y;
    assert Join([m, y], '/') == m + ['/'] + y;
    assert Join([d, m, y], '/') == d + ['/'] + (m + ['/'] + y);
  }
}
