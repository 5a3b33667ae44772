/**
  The achievement engine and the rank titles. The achievements page and the
  header title each carry their own copy of the nine thresholds; both copies
  are modelled here, as written, and proved to agree.
 */
module Achievements {
  import opened Types

  /** `sessions.reduce((acc, s) => acc + s.duration, 0)`: a left fold. */
  function TotalMinutes(sessions: seq<Session>): (total: int)
    ensures (forall i :: 0 <= i < |sessions| ==> sessions[i].duration >= 0) ==> total >= 0
    ensures |sessions| == 0 ==> total == 0
  {
    if |sessions| == 0 then 0
    else TotalMinutes(sessions[..|sessions| - 1]) + sessions[|sessions| - 1].duration
  }

  /** With no negative durations, no single session exceeds the total. */
  lemma {:induction false} DurationWithinTotal(sessions: seq<Session>, k: nat)
    requires forall i :: 0 <= i < |sessions| ==> sessions[i].duration >= 0
    requires k < |sessions|
    ensures sessions[k].duration <= TotalMinutes(sessions)
  {
    var n := |sessions| - 1;
    if k < n {
      assert sessions[..n][k] == sessions[k];
      DurationWithinTotal(sessions[..n], k);
    } else {
      assert forall i :: 0 <= i < n ==> sessions[..n][i] == sessions[i];
    }
  }

  /** `Math.max(...durations, 0)`: the longest session, or zero without any. */
  function MaxDuration(sessions: seq<Session>): (m: int)
    ensures m >= 0
    ensures forall i :: 0 <= i < |sessions| ==> sessions[i].duration <= m
    ensures m == 0 || exists i :: 0 <= i < |sessions| && sessions[i].duration == m
  {
    if |sessions| == 0 then 0
    else
      var rest := MaxDuration(sessions[1..]);
      assert forall i :: 1 <= i < |sessions| ==> sessions[i] == sessions[1..][i - 1];
      if sessions[0].duration > rest then sessions[0].duration else rest
  }

  /** `new Set(sessions.map(s => s.subject))`: names of deleted subjects included. */
  function StudiedSubjects(sessions: seq<Session>): (names: set<string>)
    ensures forall i :: 0 <= i < |sessions| ==> sessions[i].subject in names
    ensures forall n :: n in names ==> exists i :: 0 <= i < |sessions| && sessions[i].subject == n
  {
    set i | 0 <= i < |sessions| :: sessions[i].subject
  }

  datatype Achievement = Achievement(id: string, title: string, description: string, isUnlocked: bool)

  /** The stable ids, in the order the page lists them. */
  const AchievementIds: seq<string> := [
    "first_step", "iron_focus", "marathon", "dedication", "trinity",
    "golden_week", "monthly_master", "polymath", "librarian"
  ]

  /** The list the achievements page renders (the icon is presentation only). */
  function Evaluate(sessions: seq<Session>, subjects: seq<Subject>, streak: int): (list: seq<Achievement>)
    ensures |list| == |AchievementIds| == 9
    ensures forall i :: 0 <= i < 9 ==> list[i].id == AchievementIds[i]
    ensures list[0].isUnlocked <==> |sessions| >= 1
    ensures list[1].isUnlocked <==> MaxDuration(sessions) >= 50
    ensures list[2].isUnlocked <==> TotalMinutes(sessions) >= 600
    ensures list[3].isUnlocked <==> TotalMinutes(sessions) >= 6000
    ensures list[4].isUnlocked <==> streak >= 3
    ensures list[5].isUnlocked <==> streak >= 7
    ensures list[6].isUnlocked <==> streak >= 30
    ensures list[7].isUnlocked <==> |StudiedSubjects(sessions)| >= 3
    ensures list[8].isUnlocked <==> |subjects| >= 5
  {
    var totalMinutes := TotalMinutes(sessions);
    var uniqueSubjects := |StudiedSubjects(sessions)|;
    var maxDurationSession := MaxDuration(sessions);
    [ Achievement("first_step", "O Início",
        "Complete sua primeira sessão de estudos.", |sessions| >= 1),
      Achievement("iron_focus", "Foco de Ferro",
        "Complete uma sessão única com mais de 50 minutos.", maxDurationSession >= 50),
      Achievement("marathon", "Maratona",
        "Acumule 10 horas totais de estudo.", totalMinutes >= 600),
      Achievement("dedication", "Dedicação Total",
        "Acumule 100 horas totais de estudo.", totalMinutes >= 6000),
      Achievement("trinity", "Trindade",
        "Mantenha uma sequência de 3 dias seguidos.", streak >= 3),
      Achievement("golden_week", "Semana de Ouro",
        "Mantenha uma sequência de 7 dias seguidos.", streak >= 7),
      Achievement("monthly_master", "Mestre Mensal",
        "Mantenha uma sequência de 30 dias seguidos.", streak >= 30),
      Achievement("polymath", "Polímata",
        "Estude pelo menos 3 matérias diferentes.", uniqueSubjects >= 3),
      Achievement("librarian", "Bibliotecário",
        "Crie pelo menos 5 matérias.", |subjects| >= 5)
    ]
  }

  /** Iron focus means some single session lasted at least 50 minutes
      (the description says "more than 50"; the rule is `>=`). */
  lemma IronFocusIff(sessions: seq<Session>, subjects: seq<Subject>, streak: int)
    ensures Evaluate(sessions, subjects, streak)[1].isUnlocked
      <==> exists i :: 0 <= i < |sessions| && sessions[i].duration >= 50
  {
  }

  /** `list.filter(a => a.isUnlocked).length`. */
  function CountUnlocked(list: seq<Achievement>): (n: nat)
    ensures n <= |list|
    ensures n == 0 <==> forall i :: 0 <= i < |list| ==> !list[i].isUnlocked
  {
    if |list| == 0 then 0
    else
      assert forall i :: 1 <= i < |list| ==> list[i] == list[1..][i - 1];
      (if list[0].isUnlocked then 1 else 0) + CountUnlocked(list[1..])
  }

  /** The achievements page's `totalUnlocked`. */
  function TotalUnlocked(sessions: seq<Session>, subjects: seq<Subject>, streak: int): (n: nat)
    ensures n <= 9
  {
    CountUnlocked(Evaluate(sessions, subjects, streak))
  }

  function Flag(b: bool): nat {
    if b then 1 else 0
  }

  /** The header's own copy of the thresholds, incrementing a counter rule by rule. */
  function UnlockedCount(sessions: seq<Session>, subjects: seq<Subject>, streak: int): (n: nat)
    ensures n <= 9
  {
    var totalMinutes := TotalMinutes(sessions);
    var uniqueSubjects := |StudiedSubjects(sessions)|;
    var maxDurationSession := MaxDuration(sessions);
    Flag(|sessions| >= 1) + Flag(maxDurationSession >= 50)
    + Flag(totalMinutes >= 600) + Flag(totalMinutes >= 6000)
    + Flag(streak >= 3) + Flag(streak >= 7) + Flag(streak >= 30)
    + Flag(uniqueSubjects >= 3) + Flag(|subjects| >= 5)
  }

  /** The header title for a number of unlocked achievements. */
  function Title(unlockedCount: int): string {
    if unlockedCount >= 8 then "Mestre do Conhecimento"
    else if unlockedCount >= 6 then "Erudito"
    else if unlockedCount >= 4 then "Estudante Dedicado"
    else if unlockedCount >= 2 then "Aprendiz"
    else "Novato"
  }

  /** The five titles from lowest to highest. */
  const Ranks: seq<string> := ["Novato", "Aprendiz", "Estudante Dedicado", "Erudito", "Mestre do Conhecimento"]

  /** The header title of the original, from the header's own count. */
  function UserTitle(sessions: seq<Session>, subjects: seq<Subject>, streak: int): (title: string)
    ensures title in Ranks
    ensures title == "Novato" <==> UnlockedCount(sessions, subjects, streak) < 2
    ensures title == "Aprendiz" <==> 2 <= UnlockedCount(sessions, subjects, streak) < 4
    ensures title == "Estudante Dedicado" <==> 4 <= UnlockedCount(sessions, subjects, streak) < 6
    ensures title == "Erudito" <==> 6 <= UnlockedCount(sessions, subjects, streak) < 8
    ensures title == "Mestre do Conhecimento" <==> UnlockedCount(sessions, subjects, streak) >= 8
  {
    TitleTiers(UnlockedCount(sessions, subjects, streak));
    Title(UnlockedCount(sessions, subjects, streak))
  }

  /** Position of a title in `Ranks`. */
  function RankIndex(title: string): (k: nat)
    requires title in Ranks
    ensures k < |Ranks| && Ranks[k] == title
  {
    if title == Ranks[0] then 0
    else if title == Ranks[1] then 1
    else if title == Ranks[2] then 2
    else if title == Ranks[3] then 3
    else 4
  }

  /** The title is a step function of the count: every count lands in exactly
      one of the five tiers, and the tier is `min(count / 2, 4)` for counts >= 0. */
  lemma TitleTiers(n: int)
    ensures Title(n) in Ranks
    ensures Title(n) == "Novato" <==> n < 2
    ensures Title(n) == "Aprendiz" <==> 2 <= n < 4
    ensures Title(n) == "Estudante Dedicado" <==> 4 <= n < 6
    ensures Title(n) == "Erudito" <==> 6 <= n < 8
    ensures Title(n) == "Mestre do Conhecimento" <==> n >= 8
    ensures n >= 0 ==> RankIndex(Title(n)) == if n / 2 < 4 then n / 2 else 4
  {
  }

  /** More unlocked achievements never give a lower title. */
  lemma TitleMonotone(a: int, b: int)
    requires a <= b
    ensures RankIndex(Title(a)) <= RankIndex(Title(b))
  {
  }

  datatype NextRank = NextRank(next: string, needed: int)

  /** The counts at which a new title is reached. */
  const RankThresholds: seq<int> := [2, 4, 6, 8]

  /** `getNextRankInfo`: the next title and the count that reaches it. */
  function NextRankInfo(totalUnlocked: int): (r: NextRank)
    ensures r.needed == 99 <==> totalUnlocked >= 8
    ensures r.needed != 99 ==> r.needed in RankThresholds && r.needed > totalUnlocked
    ensures r.needed != 99 ==>
      forall k :: 0 <= k < |RankThresholds| && RankThresholds[k] > totalUnlocked ==> r.needed <= RankThresholds[k]
  {
    if totalUnlocked < 2 then NextRank("Aprendiz", 2)
    else if totalUnlocked < 4 then NextRank("Estudante Dedicado", 4)
    else if totalUnlocked < 6 then NextRank("Erudito", 6)
    else if totalUnlocked < 8 then NextRank("Mestre do Conhecimento", 8)
    else NextRank("Lenda Viva", 99)
  }

  /** The page's "unlock N more to become T" is consistent with the header:
      N is positive, and with exactly `needed` unlocked the header shows T,
      one tier above the current title. */
  lemma NextRankAgreesWithTitle(totalUnlocked: int)
    requires 0 <= totalUnlocked
    ensures var r := NextRankInfo(totalUnlocked);
      r.needed != 99 ==>
        && r.needed - totalUnlocked >= 1
        && Title(r.needed) == r.next
        && RankIndex(Title(r.needed)) == RankIndex(Title(totalUnlocked)) + 1
  {
  }

  /** The two copies of the thresholds agree: the page's count and the
      header's count are the same number for the same inputs. */
  lemma {:induction false} TotalUnlockedAgrees(sessions: seq<Session>, subjects: seq<Subject>, streak: int)
    ensures TotalUnlocked(sessions, subjects, streak) == UnlockedCount(sessions, subjects, streak)
  {
    CountNine(Evaluate(sessions, subjects, streak));
  }

  /** A nine-entry list counts its flags one by one. */
  lemma CountNine(list: seq<Achievement>)
    requires |list| == 9
    ensures CountUnlocked(list) ==
      Flag(list[0].isUnlocked) + Flag(list[1].isUnlocked) + Flag(list[2].isUnlocked)
      + Flag(list[3].isUnlocked) + Flag(list[4].isUnlocked) + Flag(list[5].isUnlocked)
      + Flag(list[6].isUnlocked) + Flag(list[7].isUnlocked) + Flag(list[8].isUnlocked)
  {
    CountUnlockedIsFlags(list, 0);
    assert FlagsFrom(list, 9) == 0;
    assert FlagsFrom(list, 8) == Flag(list[8].isUnlocked);
    assert FlagsFrom(list, 7) == Flag(list[7].isUnlocked) + FlagsFrom(list, 8);
    assert FlagsFrom(list, 6) == Flag(list[6].isUnlocked) + FlagsFrom(list, 7);
    assert FlagsFrom(list, 5) == Flag(list[5].isUnlocked) + FlagsFrom(list, 6);
    assert FlagsFrom(list, 4) == Flag(list[4].isUnlocked) + FlagsFrom(list, 5);
    assert FlagsFrom(list, 3) == Flag(list[3].isUnlocked) + FlagsFrom(list, 4);
    assert FlagsFrom(list, 2) == Flag(list[2].isUnlocked) + FlagsFrom(list, 3);
    assert FlagsFrom(list, 1) == Flag(list[1].isUnlocked) + FlagsFrom(list, 2);
    assert list[0..] == list;
  }

  /** Counting from the front and summing flags from `i` agree. */
  lemma {:induction false} CountUnlockedIsFlags(list: seq<Achievement>, i: nat)
    requires i <= |list|
    ensures CountUnlocked(list[i..]) == FlagsFrom(list, i)
    decreases |list| - i
  {
    if i < |list| {
      CountUnlockedIsFlags(list, i + 1);
      assert list[i..][1..] == list[i + 1..];
    }
  }

  /** Sum of the flags of `list[i..]`, one rule at a time. */
  function FlagsFrom(list: seq<Achievement>, i: nat): nat
    requires i <= |list|
    decreases |list| - i
  {
    if i == |list| then 0 else Flag(list[i].isUnlocked) + FlagsFrom(list, i + 1)
  }

  /** Counts stay within 0..9, so the progress bar's denominator (9) is never zero. */
  lemma UnlockedCountRange(sessions: seq<Session>, subjects: seq<Subject>, streak: int)
    ensures 0 <= TotalUnlocked(sessions, subjects, streak) <= |Evaluate(sessions, subjects, streak)| == 9
  {
  }

  /** Thresholds nest: the harder rule of a family implies the easier one. */
  lemma RulesNest(sessions: seq<Session>, subjects: seq<Subject>, streak: int)
    ensures var list := Evaluate(sessions, subjects, streak);
      && (list[3].isUnlocked ==> list[2].isUnlocked)
      && (list[6].isUnlocked ==> list[5].isUnlocked)
      && (list[5].isUnlocked ==> list[4].isUnlocked)
      && (list[1].isUnlocked ==> list[0].isUnlocked)
  {
  }

  /** Exactly 600 minutes unlock the marathon, 599 do not. */
  lemma MarathonBoundary(sessions: seq<Session>, subjects: seq<Subject>, streak: int)
    ensures TotalMinutes(sessions) == 600 ==> Evaluate(sessions, subjects, streak)[2].isUnlocked
    ensures TotalMinutes(sessions) == 599 ==> !Evaluate(sessions, subjects, streak)[2].isUnlocked
  {
  }

  lemma TotalMinutesAppend(sessions: seq<Session>, s: Session)
    ensures TotalMinutes(sessions + [s]) == TotalMinutes(sessions) + s.duration
  {
    assert (sessions + [s])[..|sessions|] == sessions;
  }

  /** With the catalogue and the streak fixed, recording another session of
      non-negative length never locks an unlocked achievement. */
  lemma {:induction false} AppendKeepsUnlocked(
    sessions: seq<Session>, s: Session, subjects: seq<Subject>, streak: int)
    requires s.duration >= 0
    ensures forall i :: 0 <= i < 9 && Evaluate(sessions, subjects, streak)[i].isUnlocked ==>
      Evaluate(sessions + [s], subjects, streak)[i].isUnlocked
  {
    AggregatesGrow(sessions, s);
    var before, after := Evaluate(sessions, subjects, streak), Evaluate(sessions + [s], subjects, streak);
    forall i | 0 <= i < 9 && before[i].isUnlocked
      ensures after[i].isUnlocked
    {
      if i == 0 {} else if i == 1 {} else if i == 2 {} else if i == 3 {}
      else if i == 7 {} else {}
    }
  }

  /** Every aggregate the rules read grows (or stays) when a session of
      non-negative length is appended. */
  lemma AggregatesGrow(sessions: seq<Session>, s: Session)
    requires s.duration >= 0
    ensures TotalMinutes(sessions) <= TotalMinutes(sessions + [s])
    ensures MaxDuration(sessions) <= MaxDuration(sessions + [s])
    ensures |StudiedSubjects(sessions)| <= |StudiedSubjects(sessions + [s])|
  {
    var more := sessions + [s];
    TotalMinutesAppend(sessions, s);
    MaxDurationAppend(sessions, s);
    assert forall i :: 0 <= i < |sessions| ==> more[i] == sessions[i];
    assert StudiedSubjects(sessions) <= StudiedSubjects(more);
    SubsetCard(StudiedSubjects(sessions), StudiedSubjects(more));
  }

  lemma MaxDurationAppend(sessions: seq<Session>, s: Session)
    ensures MaxDuration(sessions) <= MaxDuration(sessions + [s])
  {
    var more := sessions + [s];
    var m := MaxDuration(sessions);
    if m != 0 {
      var i :| 0 <= i < |sessions| && sessions[i].duration == m;
      assert more[i] == sessions[i];
    }
  }

  lemma SubsetCard<T>(a: set<T>, b: set<T>)
    requires a <= b
    ensures |a| <= |b|
  {
    assert b == a + (b - a);
  }

  /** Pointwise more unlocked flags give at least as large a count. */
  lemma {:induction false} CountUnlockedMonotone(a: seq<Achievement>, b: seq<Achievement>)
    requires |a| == |b|
    requires forall i :: 0 <= i < |a| && a[i].isUnlocked ==> b[i].isUnlocked
    ensures CountUnlocked(a) <= CountUnlocked(b)
  {
    if |a| > 0 {
      CountUnlockedMonotone(a[1..], b[1..]);
    }
  }

  /** Hence the unlocked count, and with it the title, never goes down. */
  lemma AppendNeverLowersTitle(sessions: seq<Session>, s: Session, subjects: seq<Subject>, streak: int)
    requires s.duration >= 0
    ensures TotalUnlocked(sessions, subjects, streak) <= TotalUnlocked(sessions + [s], subjects, streak)
    ensures RankIndex(UserTitle(sessions, subjects, streak)) <= RankIndex(UserTitle(sessions + [s], subjects, streak))
  {
    AppendKeepsUnlocked(sessions, s, subjects, streak);
    CountUnlockedMonotone(Evaluate(sessions, subjects, streak), Evaluate(sessions + [s], subjects, streak));
    TotalUnlockedAgrees(sessions, subjects, streak);
    TotalUnlockedAgrees(sessions + [s], subjects, streak);
    TitleMonotone(UnlockedCount(sessions, subjects, streak), UnlockedCount(sessions + [s], subjects, streak));
  }
}
