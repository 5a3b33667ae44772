/**
  The study streak shown in the header: sessions are projected to local
  calendar days (numbered consecutively, so "yesterday" is `d - 1` whatever
  the month), today counts once if studied, and the walk back from yesterday
  counts consecutive studied days up to the first gap.
  The projection of a stored timestamp to its local day and today's local
  day are inputs: the original reads them from the clock and the time zone.
 */
module Streak {
  import opened Types

  /** The distinct local days on which at least one session was recorded. */
  function StudyDays(sessions: seq<Session>, localDay: string -> int): (days: set<int>)
    ensures forall s :: s in sessions ==> localDay(s.date) in days
    ensures forall d :: d in days ==> exists s :: s in sessions && localDay(s.date) == d
  {
    set s | s in sessions :: localDay(s.date)
  }

  /** Days of `days` that are not after `d`; shrinks as the walk goes back. */
  function NotAfter(days: set<int>, d: int): set<int> {
    set x | x in days && x <= d
  }

  /** One step back over a studied day leaves strictly fewer days behind. */
  lemma NotAfterShrinks(days: set<int>, d: int)
    requires d in days
    ensures |NotAfter(days, d - 1)| < |NotAfter(days, d)|
  {
    var before, at := NotAfter(days, d - 1), NotAfter(days, d);
    assert at == before + {d};
  }

  /** `d` and the `k - 1` days before it are all studied, the day before them is not. */
  ghost predicate RunEndsAt(days: set<int>, d: int, k: nat) {
    && (forall x :: d - k < x <= d ==> x in days)
    && d - k !in days
  }

  /** Length of the run of consecutive studied days ending at `d`. */
  function RunLength(days: set<int>, d: int): (k: nat)
    ensures RunEndsAt(days, d, k)
    decreases |NotAfter(days, d)|
  {
    if d in days then
      NotAfterShrinks(days, d);
      1 + RunLength(days, d - 1)
    else 0
  }

  /** The shape of a streak value: today's bonus plus the run ending yesterday. */
  ghost predicate IsStreak(days: set<int>, today: int, count: nat) {
    var bonus := if today in days then 1 else 0;
    count >= bonus && RunEndsAt(days, today - 1, count - bonus)
  }

  /** A run has exactly one length, so a streak has exactly one value. */
  lemma {:induction false} RunEndsAtUnique(days: set<int>, d: int, j: nat, k: nat)
    requires RunEndsAt(days, d, j) && RunEndsAt(days, d, k)
    ensures j == k
  {
  }

  function StreakOfDays(days: set<int>, today: int): (count: nat)
    ensures IsStreak(days, today, count)
  {
    (if today in days then 1 else 0) + RunLength(days, today - 1)
  }

  /** The streak the header shows for a session history and today's local day. */
  function StreakOf(sessions: seq<Session>, localDay: string -> int, today: int): (count: nat)
    ensures IsStreak(StudyDays(sessions, localDay), today, count)
  {
    StreakOfDays(StudyDays(sessions, localDay), today)
  }

  /** The loop of the original: seed with today, then walk back from yesterday. */
  method ComputeStreak(sessions: seq<Session>, localDay: string -> int, today: int)
    returns (count: nat)
    ensures IsStreak(StudyDays(sessions, localDay), today, count)
    ensures count == StreakOf(sessions, localDay, today)
  {
    var dates := StudyDays(sessions, localDay);
    count := 0;
    if today in dates {
      count := 1;
    }
    var current := today - 1;
    while current in dates
      invariant current <= today - 1
      invariant forall x :: current < x <= today - 1 ==> x in dates
      invariant count == (if today in dates then 1 else 0) + (today - 1 - current)
      decreases |NotAfter(dates, current)|
    {
      NotAfterShrinks(dates, current);
      count := count + 1;
      current := current - 1;
    }
    RunEndsAtUnique(dates, today - 1, count - (if today in dates then 1 else 0),
                    RunLength(dates, today - 1));
  }

  /** No history, no streak. */
  lemma StreakOfEmpty(localDay: string -> int, today: int)
    ensures StreakOf([], localDay, today) == 0
  {
    assert StudyDays([], localDay) == {};
  }

  /** The streak is zero exactly when neither today nor yesterday was studied. */
  lemma StreakZeroIff(days: set<int>, today: int)
    ensures StreakOfDays(days, today) == 0 <==> today !in days && today - 1 !in days
  {
  }

  /** A studied yesterday keeps the streak alive before today is logged. */
  lemma YesterdayKeepsStreak(days: set<int>, today: int)
    requires today - 1 in days
    ensures StreakOfDays(days, today) >= 1
    ensures today !in days ==> StreakOfDays(days, today) == RunLength(days, today - 1)
  {
  }

  /** Studying on more days never shortens a run. */
  lemma {:induction false} RunLengthMonotone(small: set<int>, large: set<int>, d: int)
    requires small <= large
    ensures RunLength(small, d) <= RunLength(large, d)
    decreases |NotAfter(small, d)|
  {
    if d in small {
      NotAfterShrinks(small, d);
      RunLengthMonotone(small, large, d - 1);
    }
  }

  /** Recording another session never lowers the streak for the same today. */
  lemma {:induction false} StreakMonotoneUnderAppend(
    sessions: seq<Session>, s: Session, localDay: string -> int, today: int)
    ensures StreakOf(sessions, localDay, today) <= StreakOf(sessions + [s], localDay, today)
  {
    var small := StudyDays(sessions, localDay);
    var large := StudyDays(sessions + [s], localDay);
    assert small <= large by {
      forall d | d in small ensures d in large {
        var t :| t in sessions && localDay(t.date) == d;
        assert t in sessions + [s];
      }
    }
    RunLengthMonotone(small, large, today - 1);
  }

  /** Two sessions on the same local day count once. */
  lemma SameDayCountsOnce(sessions: seq<Session>, s: Session, localDay: string -> int, today: int)
    requires exists t :: t in sessions && localDay(t.date) == localDay(s.date)
    ensures StreakOf(sessions + [s], localDay, today) == StreakOf(sessions, localDay, today)
  {
    assert StudyDays(sessions + [s], localDay) == StudyDays(sessions, localDay);
  }

  /** Today, yesterday and the day before: three; without today: two;
      with yesterday missing: one if today was studied, else none. */
  lemma ThreeDayExamples(today: int)
    ensures StreakOfDays({today, today - 1, today - 2}, today) == 3
    ensures StreakOfDays({today - 1, today - 2}, today) == 2
    ensures StreakOfDays({today, today - 2}, today) == 1
    ensures StreakOfDays({today - 2}, today) == 0
  {
    var a := {today, today - 1, today - 2};
    assert RunEndsAt(a, today - 1, 2);
    RunEndsAtUnique(a, today - 1, 2, RunLength(a, today - 1));
    var b := {today - 1, today - 2};
    assert RunEndsAt(b, today - 1, 2);
    RunEndsAtUnique(b, today - 1, 2, RunLength(b, today - 1));
  }
}
