/**
  The statistics screen: per-subject minutes and question tallies over the
  session history, the hours-and-minutes label and the subject colour
  lookup. The per-subject sums are the reference the calendar's per-day
  grouping reuses.
 */
module Statistics {
  import opened Types
  import opened Text
  import Achievements

  function Duration(x: Session): int { x.duration }
  function Questions(x: Session): int { x.questions }
  function Correct(x: Session): int { x.correctQuestions }
  function All(x: Session): bool { true }

  /** The sum of `f` over the sessions `sel` accepts, in history order. */
  function SumWhere(s: seq<Session>, sel: Session -> bool, f: Session -> int): int {
    if |s| == 0 then 0
    else SumWhere(s[..|s| - 1], sel, f) + (if sel(s[|s| - 1]) then f(s[|s| - 1]) else 0)
  }

  /** The sessions `sel` accepts that belong to the subject named `name`. */
  function Of(sel: Session -> bool, name: string): Session -> bool {
    (x: Session) => sel(x) && x.subject == name
  }

  /** The sum of `f` over the accepted sessions of one subject. */
  function SubjectTotal(s: seq<Session>, sel: Session -> bool, f: Session -> int, name: string): int {
    SumWhere(s, Of(sel, name), f)
  }

  /** One more session changes exactly its own subject's total. */
  lemma SubjectTotalStep(s: seq<Session>, sel: Session -> bool, f: Session -> int, name: string)
    requires |s| > 0
    ensures SubjectTotal(s, sel, f, name) == SubjectTotal(s[..|s| - 1], sel, f, name)
      + (if sel(s[|s| - 1]) && s[|s| - 1].subject == name then f(s[|s| - 1]) else 0)
  {
  }

  predicate Distinct(keys: seq<string>) {
    forall i, j :: 0 <= i < j < |keys| ==> keys[i] != keys[j]
  }

  /** The subject names of the accepted sessions, in order of first
      appearance: the key order of an object filled in history order. */
  function SubjectOrder(s: seq<Session>, sel: Session -> bool): (keys: seq<string>)
    ensures Distinct(keys)
    ensures forall name :: name in keys <==> exists i :: 0 <= i < |s| && sel(s[i]) && s[i].subject == name
  {
    if |s| == 0 then []
    else
      var p := s[..|s| - 1];
      var x := s[|s| - 1];
      var keys := SubjectOrder(p, sel);
      assert forall i :: 0 <= i < |p| ==> p[i] == s[i];
      if !sel(x) || x.subject in keys then keys else keys + [x.subject]
  }

  /** `SubjectTotal` summed over a list of subject names. */
  function SumSubjects(keys: seq<string>, s: seq<Session>, sel: Session -> bool, f: Session -> int): int {
    if |keys| == 0 then 0
    else SumSubjects(keys[..|keys| - 1], s, sel, f) + SubjectTotal(s, sel, f, keys[|keys| - 1])
  }

  lemma {:induction false} SumWhereAppend(a: seq<Session>, b: seq<Session>, sel: Session -> bool, f: Session -> int)
    ensures SumWhere(a + b, sel, f) == SumWhere(a, sel, f) + SumWhere(b, sel, f)
    decreases |b|
  {
    if |b| > 0 {
      var b' := b[..|b| - 1];
      assert (a + b)[..|a + b| - 1] == a + b';
      SumWhereAppend(a, b', sel, f);
    } else {
      assert a + b == a;
    }
  }

  /** Taking one session out of the history takes its share out of the sum. */
  lemma SumWhereRemove(b: seq<Session>, i: int, sel: Session -> bool, f: Session -> int)
    requires 0 <= i < |b|
    ensures SumWhere(b, sel, f)
      == SumWhere(b[..i] + b[i + 1..], sel, f) + (if sel(b[i]) then f(b[i]) else 0)
  {
    var x, l, r := b[i], b[..i], b[i + 1..];
    assert l + ([x] + r) == b;
    SumWhereAppend(l, [x] + r, sel, f);
    SumWhereAppend([x], r, sel, f);
    SumWhereAppend(l, r, sel, f);
    SumWhereSingle(x, sel, f);
  }

  lemma SumWhereSingle(x: Session, sel: Session -> bool, f: Session -> int)
    ensures SumWhere([x], sel, f) == (if sel(x) then f(x) else 0)
  {
    assert [x][..0] == [];
  }

  lemma MultisetRemove(a: seq<Session>, b: seq<Session>, i: int)
    requires multiset(a) == multiset(b)
    requires |a| > 0 && 0 <= i < |b| && b[i] == a[|a| - 1]
    ensures multiset(a[..|a| - 1]) == multiset(b[..i] + b[i + 1..])
  {
    var x, a', l, r := b[i], a[..|a| - 1], b[..i], b[i + 1..];
    assert a == a' + [x];
    assert b == l + [x] + r;
    assert multiset(b) == multiset(l) + multiset{x} + multiset(r);
    assert multiset(l + r) == multiset(l) + multiset(r);
    assert multiset(a) == multiset(a') + multiset{x};
    assert multiset(a') == multiset(a) - multiset{x};
    assert multiset(l + r) == multiset(b) - multiset{x};
  }

  /** The sums do not depend on the order of the history. */
  lemma {:induction false} SumWherePermutation(a: seq<Session>, b: seq<Session>, sel: Session -> bool, f: Session -> int)
    requires multiset(a) == multiset(b)
    ensures SumWhere(a, sel, f) == SumWhere(b, sel, f)
    decreases |a|
  {
    if |a| > 0 {
      var x := a[|a| - 1];
      assert x in multiset(b);
      var i :| 0 <= i < |b| && b[i] == x;
      MultisetRemove(a, b, i);
      SumWherePermutation(a[..|a| - 1], b[..i] + b[i + 1..], sel, f);
      SumWhereRemove(b, i, sel, f);
    } else {
      assert |b| == |multiset(b)| == 0;
    }
  }

  /** Pointwise `f <= g` on the accepted sessions gives `sum f <= sum g`. */
  lemma {:induction false} SumWhereMonotone(s: seq<Session>, sel: Session -> bool, f: Session -> int, g: Session -> int)
    requires forall i :: 0 <= i < |s| && sel(s[i]) ==> f(s[i]) <= g(s[i])
    ensures SumWhere(s, sel, f) <= SumWhere(s, sel, g)
  {
    if |s| > 0 {
      SumWhereMonotone(s[..|s| - 1], sel, f, g);
    }
  }

  /** No accepted session of a subject: its total is zero. */
  lemma {:induction false} SumWhereNone(s: seq<Session>, sel: Session -> bool, f: Session -> int)
    requires forall i :: 0 <= i < |s| ==> !sel(s[i])
    ensures SumWhere(s, sel, f) == 0
  {
    if |s| > 0 {
      SumWhereNone(s[..|s| - 1], sel, f);
    }
  }

  lemma {:induction false} SumSubjectsAppend(keys: seq<string>, p: seq<Session>, x: Session, sel: Session -> bool, f: Session -> int)
    requires Distinct(keys)
    ensures SumSubjects(keys, p + [x], sel, f)
      == SumSubjects(keys, p, sel, f) + (if sel(x) && x.subject in keys then f(x) else 0)
  {
    var s := p + [x];
    assert s[..|s| - 1] == p;
    if |keys| > 0 {
      var k' := keys[..|keys| - 1];
      assert Distinct(k');
      SumSubjectsAppend(k', p, x, sel, f);
      assert forall n :: n in keys <==> n in k' || n == keys[|keys| - 1];
      assert keys[|keys| - 1] !in k';
    }
  }

  /** Splitting the accepted sessions by subject loses and double-counts
      nothing: the per-subject totals add up to the overall total. */
  lemma {:induction false} SplitBySubject(s: seq<Session>, sel: Session -> bool, f: Session -> int)
    ensures SumSubjects(SubjectOrder(s, sel), s, sel, f) == SumWhere(s, sel, f)
  {
    if |s| > 0 {
      var p := s[..|s| - 1];
      var x := s[|s| - 1];
      assert s == p + [x];
      var keys := SubjectOrder(p, sel);
      SplitBySubject(p, sel, f);
      SumSubjectsAppend(keys, p, x, sel, f);
      if sel(x) && x.subject !in keys {
        var ks := keys + [x.subject];
        assert ks[..|ks| - 1] == keys;
        assert forall i :: 0 <= i < |p| ==> !Of(sel, x.subject)(p[i]);
        SumWhereNone(p, Of(sel, x.subject), f);
      }
    }
  }

  /** `timeBySubject`, filled session by session. */
  function TimeBySubject(s: seq<Session>): (m: map<string, int>)
    ensures m.Keys == set i | 0 <= i < |s| :: s[i].subject
    ensures forall name :: name in m ==> m[name] == SubjectTotal(s, All, Duration, name)
  {
    if |s| == 0 then map[]
    else
      var p := s[..|s| - 1];
      var x := s[|s| - 1];
      var m := TimeBySubject(p);
      assert forall i :: 0 <= i < |p| ==> p[i] == s[i];
      assert x.subject !in m ==> SubjectTotal(p, All, Duration, x.subject) == 0 by {
        if x.subject !in m {
          SumWhereNone(p, Of(All, x.subject), Duration);
        }
      }
      assert forall name :: (SubjectTotal(s, All, Duration, name)
          == SubjectTotal(p, All, Duration, name) + (if x.subject == name then x.duration else 0)) by {
        forall name ensures SubjectTotal(s, All, Duration, name)
            == SubjectTotal(p, All, Duration, name) + (if x.subject == name then x.duration else 0) {
          SubjectTotalStep(s, All, Duration, name);
        }
      }
      m[x.subject := (if x.subject in m then m[x.subject] else 0) + x.duration]
  }

  datatype Tally = Tally(total: int, correct: int)

  /** `questionsBySubject`, filled session by session. */
  function QuestionsBySubject(s: seq<Session>): (m: map<string, Tally>)
    ensures m.Keys == set i | 0 <= i < |s| :: s[i].subject
    ensures forall name :: name in m ==>
      m[name].total == SubjectTotal(s, All, Questions, name)
      && m[name].correct == SubjectTotal(s, All, Correct, name)
  {
    if |s| == 0 then map[]
    else
      var p := s[..|s| - 1];
      var x := s[|s| - 1];
      var m := QuestionsBySubject(p);
      assert forall i :: 0 <= i < |p| ==> p[i] == s[i];
      assert x.subject !in m ==>
        SubjectTotal(p, All, Questions, x.subject) == 0 && SubjectTotal(p, All, Correct, x.subject) == 0 by {
        if x.subject !in m {
          SumWhereNone(p, Of(All, x.subject), Questions);
          SumWhereNone(p, Of(All, x.subject), Correct);
        }
      }
      assert forall name :: (SubjectTotal(s, All, Questions, name)
          == SubjectTotal(p, All, Questions, name) + (if x.subject == name then x.questions else 0)
        && SubjectTotal(s, All, Correct, name)
          == SubjectTotal(p, All, Correct, name) + (if x.subject == name then x.correctQuestions else 0)) by {
        forall name ensures SubjectTotal(s, All, Questions, name)
          == SubjectTotal(p, All, Questions, name) + (if x.subject == name then x.questions else 0)
        && SubjectTotal(s, All, Correct, name)
          == SubjectTotal(p, All, Correct, name) + (if x.subject == name then x.correctQuestions else 0) {
          SubjectTotalStep(s, All, Questions, name);
          SubjectTotalStep(s, All, Correct, name);
        }
      }
      var t := if x.subject in m then m[x.subject] else Tally(0, 0);
      m[x.subject := Tally(t.total + x.questions, t.correct + x.correctQuestions)]
  }

  /** The map's values in key order, `Object.values(m).reduce((a, b) => a + b, 0)`. */
  function SumValues(keys: seq<string>, m: map<string, int>): int
    requires forall k :: k in keys ==> k in m
  {
    if |keys| == 0 then 0 else SumValues(keys[..|keys| - 1], m) + m[keys[|keys| - 1]]
  }

  /** The total under the pie chart is the total study time of the history. */
  lemma PieTotalIsTotalMinutes(s: seq<Session>)
    ensures var m := TimeBySubject(s);
      && (forall k :: k in SubjectOrder(s, All) ==> k in m)
      && SumValues(SubjectOrder(s, All), m) == Achievements.TotalMinutes(s)
  {
    var m := TimeBySubject(s);
    var keys := SubjectOrder(s, All);
    forall k | k in keys ensures k in m {
      var i :| 0 <= i < |s| && All(s[i]) && s[i].subject == k;
    }
    SumValuesIsSumSubjects(keys, s);
    SplitBySubject(s, All, Duration);
    TotalIsSumWhere(s);
  }

  lemma {:induction false} SumValuesIsSumSubjects(keys: seq<string>, s: seq<Session>)
    requires forall k :: k in keys ==> k in TimeBySubject(s)
    ensures SumValues(keys, TimeBySubject(s)) == SumSubjects(keys, s, All, Duration)
  {
    if |keys| > 0 {
      SumValuesIsSumSubjects(keys[..|keys| - 1], s);
    }
  }

  lemma {:induction false} TotalIsSumWhere(s: seq<Session>)
    ensures Achievements.TotalMinutes(s) == SumWhere(s, All, Duration)
  {
    if |s| > 0 {
      TotalIsSumWhere(s[..|s| - 1]);
    }
  }

  /** Histories holding the same sessions name the same subjects. */
  lemma SameSubjects(a: seq<Session>, b: seq<Session>)
    requires multiset(a) == multiset(b)
    ensures (set i | 0 <= i < |a| :: a[i].subject) == (set i | 0 <= i < |b| :: b[i].subject)
  {
    var ka := set i | 0 <= i < |a| :: a[i].subject;
    var kb := set i | 0 <= i < |b| :: b[i].subject;
    forall n | n in ka ensures n in kb {
      var i :| 0 <= i < |a| && a[i].subject == n;
      assert a[i] in multiset(b);
      var j :| 0 <= j < |b| && b[j] == a[i];
    }
    forall n | n in kb ensures n in ka {
      var i :| 0 <= i < |b| && b[i].subject == n;
      assert b[i] in multiset(a);
      var j :| 0 <= j < |a| && a[j] == b[i];
    }
  }

  /** Reordering the history does not change the minutes per subject. */
  lemma TimeIgnoresOrder(a: seq<Session>, b: seq<Session>)
    requires multiset(a) == multiset(b)
    ensures TimeBySubject(a) == TimeBySubject(b)
  {
    SameSubjects(a, b);
    var ma, mb := TimeBySubject(a), TimeBySubject(b);
    forall n | n in ma ensures ma[n] == mb[n] {
      SumWherePermutation(a, b, Of(All, n), Duration);
    }
  }

  /** Reordering the history does not change the question tallies. */
  lemma QuestionsIgnoreOrder(a: seq<Session>, b: seq<Session>)
    requires multiset(a) == multiset(b)
    ensures QuestionsBySubject(a) == QuestionsBySubject(b)
  {
    SameSubjects(a, b);
    var ma, mb := QuestionsBySubject(a), QuestionsBySubject(b);
    forall n | n in ma ensures ma[n] == mb[n] {
      SumWherePermutation(a, b, Of(All, n), Questions);
      SumWherePermutation(a, b, Of(All, n), Correct);
    }
  }

  /** With every session answering at most its questions, every subject's
      correct count is at most its total. */
  lemma CorrectWithinTotal(s: seq<Session>)
    requires forall i :: 0 <= i < |s| ==> s[i].correctQuestions <= s[i].questions
    ensures forall name :: name in QuestionsBySubject(s) ==>
      QuestionsBySubject(s)[name].correct <= QuestionsBySubject(s)[name].total
  {
    forall name | name in QuestionsBySubject(s) {
      SumWhereMonotone(s, Of(All, name), Correct, Questions);
    }
  }

  /** Without sessions both maps are empty, which selects the no-data
      panels; with sessions neither is. */
  lemma EmptyIffNoSessions(s: seq<Session>)
    ensures |TimeBySubject(s)| == 0 <==> |s| == 0
    ensures |QuestionsBySubject(s)| == 0 <==> |s| == 0
  {
    if |s| > 0 {
      assert s[0].subject in TimeBySubject(s);
      assert s[0].subject in QuestionsBySubject(s);
    }
  }

  /** `formatHours`: `"{h}h {m}m"` from one hour up, `"{m}m"` below. */
  function FormatHours(minutes: int): (text: string)
    ensures |text| >= 2 && text[|text| - 1] == 'm'
    ensures 'h' in text <==> minutes >= 60
  {
    var hours := minutes / 60;
    var mins := JsRem(minutes, 60);
    if hours > 0 then IntToString(hours) + "h " + IntToString(mins) + "m"
    else
      var digits := IntToString(mins);
      assert 'h' !in digits;
      digits + "m"
  }

  /** The two shapes of the label, for a non-negative count. */
  lemma FormatHoursShape(m: int)
    requires m >= 0
    ensures m < 60 ==> FormatHours(m) == NatToString(m) + "m"
    ensures m >= 60 ==> FormatHours(m) == NatToString(m / 60) + ['h'] + (" " + NatToString(m % 60) + "m")
  {
  }

  /** A string that splits as `x + [c] + y` around a `c` that `x` does not
      contain splits that way only once. */
  lemma SplitAtMarker(x1: string, y1: string, x2: string, y2: string, c: char)
    requires c !in x1 && c !in x2
    requires x1 + [c] + y1 == x2 + [c] + y2
    ensures x1 == x2 && y1 == y2
  {
    var w := x1 + [c] + y1;
    assert w[|x1|] == c && w[|x2|] == c;
    assert forall k :: 0 <= k < |x1| ==> w[k] == x1[k];
    assert forall k :: 0 <= k < |x2| ==> w[k] == x2[k];
    assert x1 == w[..|x1|] == x2;
    assert y1 == w[|x1| + 1..] == y2;
  }

  /** Different non-negative minute counts get different labels. */
  lemma FormatHoursInjective(a: int, b: int)
    requires a >= 0 && b >= 0
    requires FormatHours(a) == FormatHours(b)
    ensures a == b
  {
    FormatHoursShape(a);
    FormatHoursShape(b);
    if a < 60 && b < 60 {
      var ta := FormatHours(a);
      assert NatToString(a) == ta[..|ta| - 1] == NatToString(b);
      NatToStringInjective(a, b);
    } else if a >= 60 && b >= 60 {
      HoursLabelInjective(a, b);
    }
  }

  lemma HoursLabelInjective(a: int, b: int)
    requires a >= 60 && b >= 60
    requires NatToString(a / 60) + ['h'] + (" " + NatToString(a % 60) + "m")
          == NatToString(b / 60) + ['h'] + (" " + NatToString(b % 60) + "m")
    ensures a == b
  {
    var ha, hb := NatToString(a / 60), NatToString(b / 60);
    var ma, mb := NatToString(a % 60), NatToString(b % 60);
    assert 'h' !in ha && 'h' !in hb by {
      assert forall i :: 0 <= i < |ha| ==> IsDigit(ha[i]);
      assert forall i :: 0 <= i < |hb| ==> IsDigit(hb[i]);
    }
    SplitAtMarker(ha, " " + ma + "m", hb, " " + mb + "m", 'h');
    NatToStringInjective(a / 60, b / 60);
    assert ma == (" " + ma + "m")[1..|ma| + 1];
    assert mb == (" " + mb + "m")[1..|mb| + 1];
    NatToStringInjective(a % 60, b % 60);
  }

  /** `getSubjectColor`: the colour of the first catalogue subject with
      exactly this name, unless that colour is empty; grey otherwise. */
  function SubjectColor(subjects: seq<Subject>, name: string): (color: string)
    ensures color != ""
    ensures (forall i :: 0 <= i < |subjects| ==> subjects[i].name != name) ==> color == "#a1a1aa"
    ensures forall i :: (0 <= i < |subjects| && subjects[i].name == name
      && (forall j :: 0 <= j < i ==> subjects[j].name != name)) ==>
        color == (if subjects[i].color == "" then "#a1a1aa" else subjects[i].color)
  {
    if |subjects| == 0 then "#a1a1aa"
    else if subjects[0].name == name then
      (if subjects[0].color == "" then "#a1a1aa" else subjects[0].color)
    else
      var rest := SubjectColor(subjects[1..], name);
      assert forall i :: 1 <= i < |subjects| ==> subjects[i] == subjects[1..][i - 1];
      rest
  }
}
