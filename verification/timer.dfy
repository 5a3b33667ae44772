/**
  The Pomodoro state machine and the session recorder.

  The original keeps this state in React hooks; each handler calls setters
  that take effect together, the last write to a field winning. Here every
  handler is a pure function from state to state. Two further pieces of the
  original are made explicit:
  - the completion effect, which fires whenever the timer is running with
    zero seconds left (`Settle`), applied after every handled event;
  - which controls the screen offers in a given state (`Enabled`): the
    start button only while stopped, the length inputs only while stopped,
    the subject picker and question counters only during a study phase.
  The one-second interval is a `Tick` event; `now` is the clock reading
  (`Date.now()` and the ISO timestamp) used if a session is recorded.
 */
module Timer {
  import opened Types
  import TimerView

  datatype Stamp = Stamp(millis: int, iso: string)

  datatype State = State(
    isRunning: bool,
    isBreak: bool,
    timeLeft: int,
    studyTime: Length,
    breakTime: Length,
    selectedSubject: string,
    questionsResolved: int,
    correctQuestions: int,
    sessions: seq<Session>)

  /** The screen as it starts: 25/5 minutes, stopped, in a study phase. */
  function Initial(sessions: seq<Session>): (st: State)
    ensures Inv(st) && AnswersWithin(st)
  {
    State(false, false, 25 * 60, Minutes(25), Minutes(5), "", 0, 0, sessions)
  }

  /** What every reachable state satisfies. */
  ghost predicate Inv(st: State) {
    && st.timeLeft >= 0
    && ValidLength(st.studyTime)
    && ValidLength(st.breakTime)
    && !(st.isRunning && st.timeLeft == 0)
  }

  /** Correct answers do not exceed questions. The original keeps this only
      through the correct-answers setter; the questions setter can break it. */
  predicate AnswersWithin(st: State) {
    st.correctQuestions <= st.questionsResolved
  }

  /** The session `finishSession` records: the planned study length, never
      the elapsed time, always marked completed, with the counters as they
      stand at that moment. */
  function NewSession(st: State, now: Stamp): (s: Session)
    ensures s.subject == st.selectedSubject && s.completed
    ensures s.id == now.millis && s.date == now.iso
    ensures s.duration == LengthOr(st.studyTime, 25)
    ensures ValidLength(st.studyTime) ==> s.duration >= 1
    ensures s.questions == st.questionsResolved && s.correctQuestions == st.correctQuestions
  {
    assert ValidLength(st.studyTime) ==> LengthOr(st.studyTime, 25) >= 1 by {
      if ValidLength(st.studyTime) { ValidLengthOrPositive(st.studyTime, 25); }
    }
    Session(now.millis, st.selectedSubject, LengthOr(st.studyTime, 25),
            st.questionsResolved, st.correctQuestions, now.iso, true)
  }

  /** `finishSession`: without a selected subject nothing happens; otherwise
      one session is appended, the counters reset and the timer stops at the
      full study length. */
  function FinishSession(st: State, now: Stamp): (r: State)
    ensures st.selectedSubject == "" ==> r == st
    ensures st.selectedSubject != "" ==>
      && |r.sessions| == |st.sessions| + 1
      && r.sessions[..|st.sessions|] == st.sessions
      && r.sessions[|st.sessions|].subject == st.selectedSubject
      && r.sessions[|st.sessions|].duration == LengthOr(st.studyTime, 25)
      && r.sessions[|st.sessions|].questions == st.questionsResolved
      && r.sessions[|st.sessions|].correctQuestions == st.correctQuestions
      && r.sessions[|st.sessions|].completed
      && !r.isRunning
      && r.timeLeft == LengthOr(st.studyTime, 25) * 60
      && r.questionsResolved == 0 && r.correctQuestions == 0
      && r.isBreak == st.isBreak
      && r.studyTime == st.studyTime && r.breakTime == st.breakTime
      && r.selectedSubject == st.selectedSubject
  {
    if st.selectedSubject == "" then st
    else
      st.(sessions := st.sessions + [NewSession(st, now)],
          isRunning := false,
          timeLeft := LengthOr(st.studyTime, 25) * 60,
          questionsResolved := 0,
          correctQuestions := 0)
  }

  /** `handleTimerComplete`: stop, record the study phase if it was one, and
      switch phase. The break length written last overrides the study length
      `finishSession` wrote. */
  function TimerComplete(st: State, now: Stamp): (r: State)
    ensures !r.isRunning
    ensures r.isBreak == !st.isBreak
    ensures st.isBreak ==> r.timeLeft == LengthOr(st.studyTime, 25) * 60 && r.sessions == st.sessions
    ensures !st.isBreak ==> r.timeLeft == LengthOr(st.breakTime, 5) * 60
    ensures !st.isBreak && st.selectedSubject != "" ==>
      r.sessions == st.sessions + [NewSession(st, now)]
    ensures st.selectedSubject == "" ==> r.sessions == st.sessions
    ensures r.studyTime == st.studyTime && r.breakTime == st.breakTime
    ensures r.selectedSubject == st.selectedSubject
  {
    var currentStudyTime := LengthOr(st.studyTime, 25);
    var currentBreakTime := LengthOr(st.breakTime, 5);
    var stopped := st.(isRunning := false);
    if !st.isBreak then
      FinishSession(stopped, now).(isBreak := true, timeLeft := currentBreakTime * 60)
    else
      stopped.(isBreak := false, timeLeft := currentStudyTime * 60)
  }

  /** The completion effect: fires only while running at zero. */
  function Settle(st: State, now: Stamp): (r: State)
    ensures !(r.isRunning && r.timeLeft == 0)
    ensures !(st.isRunning && st.timeLeft == 0) ==> r == st
  {
    if st.isRunning && st.timeLeft == 0 then TimerComplete(st, now) else st
  }

  /** Completion is edge-triggered: settling twice is settling once. */
  lemma SettleOnce(st: State, now: Stamp, later: Stamp)
    ensures Settle(Settle(st, now), later) == Settle(st, now)
  {
  }

  /** The interval's updater: one second less, floored at zero. */
  function TickValue(prev: int): (next: int)
    ensures next >= 0
    ensures prev >= 1 ==> next == prev - 1
    ensures prev <= 1 ==> next == 0
  {
    if prev <= 1 then 0 else prev - 1
  }

  /** The correct-answers setter: never above the questions counter. */
  function OnCorrectChange(st: State, val: int): (r: State)
    ensures r.correctQuestions <= st.questionsResolved
    ensures r.correctQuestions == val || r.correctQuestions == st.questionsResolved
    ensures r == st.(correctQuestions := r.correctQuestions)
  {
    st.(correctQuestions := if val < st.questionsResolved then val else st.questionsResolved)
  }

  /** The questions setter as written: the correct-answers counter is left
      as it is, even above the new total. */
  function OnQuestionsChangeAsWritten(st: State, val: int): (r: State)
    ensures r.questionsResolved == val && r.correctQuestions == st.correctQuestions
    ensures AnswersWithin(r) <==> st.correctQuestions <= val
    ensures r == st.(questionsResolved := val)
  {
    st.(questionsResolved := val)
  }

  /** The questions setter with the correct-answers counter clamped to the new
      total, as the correct-answers setter and its input's `max` intend. */
  function OnQuestionsChange(st: State, val: int): (r: State)
    ensures r.questionsResolved == val
    ensures r.correctQuestions <= val
    ensures st.correctQuestions <= val ==> r == st.(questionsResolved := val)
  {
    st.(questionsResolved := val,
        correctQuestions := if st.correctQuestions < val then st.correctQuestions else val)
  }

  datatype Event =
    | Start
    | Pause
    | Tick
    | Stop
    | StudyInput(text: string, parsed: Option<int>)
    | BreakInput(text: string, parsed: Option<int>)
    | StudyBlur
    | BreakBlur
    | SelectSubject(name: string)
    | SetQuestions(count: int)
    | SetCorrect(count: int)

  /** The handlers of the original, one per event. Only stop can record a
      session; only the length events change the lengths and only the picker
      the subject; only start sets the timer running; only stop in a break
      changes the phase. */
  function Handle(st: State, e: Event, now: Stamp): (r: State)
    ensures r.sessions == st.sessions
      || (e.Stop? && !st.isBreak && st.selectedSubject != ""
          && r.sessions == st.sessions + [NewSession(st, now)])
    ensures r.selectedSubject == st.selectedSubject || e.SelectSubject?
    ensures r.studyTime == st.studyTime || e.StudyInput? || e.StudyBlur?
    ensures r.breakTime == st.breakTime || e.BreakInput? || e.BreakBlur?
    ensures r.isRunning ==> st.isRunning || e.Start?
    ensures r.isBreak != st.isBreak ==> e.Stop? && st.isBreak
  {
    match e
    case Start =>
      if st.selectedSubject == "" && !st.isBreak then st else st.(isRunning := true)
    case Pause => st.(isRunning := false)
    case Tick => if st.isRunning then st.(timeLeft := TickValue(st.timeLeft)) else st
    case Stop =>
      var currentStudyTime := LengthOr(st.studyTime, 25);
      if st.isBreak then
        st.(isRunning := false, isBreak := false, timeLeft := currentStudyTime * 60)
      else FinishSession(st, now)
    case StudyInput(text, parsed) =>
      (match TimerView.FilterLength(text, parsed)
       case None => st
       case Some(val) =>
         st.(studyTime := val,
             timeLeft := if !st.isRunning then LengthOr(val, 1) * 60 else st.timeLeft))
    case BreakInput(text, parsed) =>
      (match TimerView.FilterLength(text, parsed)
       case None => st
       case Some(val) => st.(breakTime := val))
    case StudyBlur =>
      if st.studyTime.Blank? || st.studyTime.n < 1 then
        st.(studyTime := Minutes(1), timeLeft := if !st.isRunning then 60 else st.timeLeft)
      else st
    case BreakBlur =>
      if st.breakTime.Blank? || st.breakTime.n < 1 then st.(breakTime := Minutes(1)) else st
    case SelectSubject(name) => st.(selectedSubject := name)
    case SetQuestions(count) => OnQuestionsChangeAsWritten(st, count)
    case SetCorrect(count) => OnCorrectChange(st, count)
  }

  /** Which controls the screen offers in a state: while the timer runs only
      pause, the clock, stop and the question counters remain. */
  function Enabled(st: State, e: Event): (ok: bool)
    ensures ok && st.isRunning ==> e.Pause? || e.Tick? || e.Stop? || e.SetQuestions? || e.SetCorrect?
    ensures ok && !st.isRunning ==> !e.Pause? && !e.Tick?
    ensures ok && st.isBreak ==> !e.SelectSubject? && !e.SetQuestions? && !e.SetCorrect?
    ensures e.Stop? ==> ok
    ensures !st.isRunning && !st.isBreak ==> (ok <==> !e.Pause? && !e.Tick?)
  {
    match e
    case Start => !st.isRunning
    case Pause => st.isRunning
    case Tick => st.isRunning
    case Stop => true
    case StudyInput(_, _) => !st.isRunning
    case BreakInput(_, _) => !st.isRunning
    case StudyBlur => !st.isRunning
    case BreakBlur => !st.isRunning
    case SelectSubject(_) => !st.isRunning && !st.isBreak
    case SetQuestions(_) => !st.isBreak
    case SetCorrect(_) => !st.isBreak
  }

  /** One user or clock event, followed by the completion effect. A control
      the screen does not offer does nothing; an offered one never leaves
      the timer running at zero; the history only ever grows at its end. */
  function Step(st: State, e: Event, now: Stamp): (r: State)
    ensures !Enabled(st, e) ==> r == st
    ensures Enabled(st, e) ==> !(r.isRunning && r.timeLeft == 0)
    ensures |r.sessions| >= |st.sessions| && r.sessions[..|st.sessions|] == st.sessions
  {
    if Enabled(st, e) then Settle(Handle(st, e, now), now) else st
  }

  /** Every step keeps the invariant: the countdown is never negative, both
      lengths are blank or at least one minute, and the timer never rests
      running at zero. */
  lemma StepPreservesInv(st: State, e: Event, now: Stamp)
    requires Inv(st)
    ensures Inv(Step(st, e, now))
  {
    if Enabled(st, e) {
      var h := Handle(st, e, now);
      assert h.timeLeft >= 0 && ValidLength(h.studyTime) && ValidLength(h.breakTime);
      ValidLengthOrPositive(h.studyTime, 25);
      ValidLengthOrPositive(h.breakTime, 5);
    }
  }

  /** A step records at most one session, appended at the end, and only a
      study phase with a subject ends in one; its length is the configured
      study length (at least one minute) and it carries the counters as
      they stood before the step. */
  lemma StepRecords(st: State, e: Event, now: Stamp)
    requires Inv(st)
    ensures var r := Step(st, e, now);
      || r.sessions == st.sessions
      || (&& !st.isBreak && st.selectedSubject != ""
          && r.sessions == st.sessions + [NewSession(st, now)]
          && NewSession(st, now).duration >= 1
          && NewSession(st, now).questions == st.questionsResolved
          && NewSession(st, now).correctQuestions == st.correctQuestions)
  {
    ValidLengthOrPositive(st.studyTime, 25);
  }

  /** The step with the questions setter clamped as intended; every other
      event is handled as the original handles it. It keeps correct answers
      within questions. */
  function StepCorrected(st: State, e: Event, now: Stamp): (r: State)
    ensures !e.SetQuestions? ==> r == Step(st, e, now)
    ensures AnswersWithin(st) ==> AnswersWithin(r)
  {
    match e
    case SetQuestions(count) =>
      if Enabled(st, e) then Settle(OnQuestionsChange(st, count), now) else st
    case _ => Step(st, e, now)
  }

  /** The corrected step keeps the whole invariant together with consistent
      answers, and every session it records has correct answers within its
      questions. */
  lemma CorrectedStepKeepsAnswers(st: State, e: Event, now: Stamp)
    requires Inv(st) && AnswersWithin(st)
    ensures var r := StepCorrected(st, e, now);
      && Inv(r) && AnswersWithin(r)
      && forall i :: |st.sessions| <= i < |r.sessions| ==>
           r.sessions[i].correctQuestions <= r.sessions[i].questions
  {
    StepPreservesInv(st, e, now);
    StepRecords(st, e, now);
  }

  /** While the timer runs, no step changes the lengths or the subject. */
  lemma ConfigFrozenWhileRunning(st: State, e: Event, now: Stamp)
    requires st.isRunning
    ensures Step(st, e, now).studyTime == st.studyTime
    ensures Step(st, e, now).breakTime == st.breakTime
    ensures Step(st, e, now).selectedSubject == st.selectedSubject
  {
  }

  /** Start without a subject outside a break does nothing. */
  lemma StartNeedsSubject(st: State, now: Stamp)
    requires st.selectedSubject == "" && !st.isBreak
    ensures Step(st, Start, now) == st
  {
  }

  /** Stop during a break records nothing and returns, stopped, to a study
      phase at the configured study length. */
  lemma StopDuringBreak(st: State, now: Stamp)
    requires Inv(st) && st.isBreak
    ensures var r := Step(st, Stop, now);
      && r.sessions == st.sessions
      && !r.isRunning && !r.isBreak
      && r.timeLeft == LengthOr(st.studyTime, 25) * 60
  {
    ValidLengthOrPositive(st.studyTime, 25);
  }

  /** Stop during a study phase records one full-length session (however
      little time has passed) and stays in the study phase. */
  lemma StopDuringStudy(st: State, now: Stamp)
    requires Inv(st) && !st.isBreak && st.selectedSubject != ""
    ensures var r := Step(st, Stop, now);
      && r.sessions == st.sessions + [NewSession(st, now)]
      && NewSession(st, now).duration == LengthOr(st.studyTime, 25)
      && !r.isRunning && !r.isBreak
      && r.timeLeft == LengthOr(st.studyTime, 25) * 60
      && r.questionsResolved == 0 && r.correctQuestions == 0
  {
    ValidLengthOrPositive(st.studyTime, 25);
  }

  /** Editing a length while stopped retargets the countdown to the new
      study length (even during a break) or leaves it for the break length. */
  lemma EditWhileStopped(st: State, text: string, parsed: Option<int>, now: Stamp)
    requires Inv(st) && !st.isRunning
    requires text == "" || (parsed.Some? && parsed.value >= 1)
    ensures var r := Step(st, StudyInput(text, parsed), now);
      r.timeLeft == (if text == "" then 1 else parsed.value) * 60
    ensures Step(st, BreakInput(text, parsed), now).timeLeft == st.timeLeft
  {
  }

  /** Blurring an empty length field sets it to one minute. */
  lemma BlurCoercesBlank(st: State, now: Stamp)
    requires Inv(st) && !st.isRunning && st.studyTime.Blank? && st.breakTime.Blank?
    ensures Step(st, StudyBlur, now).studyTime == Minutes(1)
    ensures Step(st, StudyBlur, now).timeLeft == 60
    ensures Step(st, BreakBlur, now).breakTime == Minutes(1)
  {
  }

  /** Events applied in order, all at the same clock reading. */
  function Run(st: State, events: seq<Event>, now: Stamp): State
    decreases |events|
  {
    if |events| == 0 then st else Run(Step(st, events[0], now), events[1..], now)
  }

  /** `k` ticks of a running study phase with `t > k` seconds left only count
      down: nothing is recorded and the phase does not change. */
  lemma {:induction false} TicksCountDown(st: State, k: nat, now: Stamp)
    requires Inv(st) && st.isRunning && st.timeLeft > k
    ensures var r := Run(st, seq(k, _ => Tick), now);
      r == st.(timeLeft := st.timeLeft - k)
    decreases k
  {
    if k > 0 {
      var next := Step(st, Tick, now);
      assert next == st.(timeLeft := st.timeLeft - 1);
      assert seq(k, _ => Tick)[1..] == seq(k - 1, _ => Tick);
      TicksCountDown(next, k - 1, now);
    }
  }

  /** A full study phase of `t` seconds: after `t` ticks the session is
      recorded exactly once and the break begins, stopped at its length. */
  lemma {:induction false} StudyPhaseCompletes(st: State, now: Stamp)
    requires Inv(st) && st.isRunning && !st.isBreak && st.selectedSubject != ""
    ensures var r := Run(st, seq(st.timeLeft, _ => Tick), now);
      && r.sessions == st.sessions + [NewSession(st, now)]
      && r.isBreak && !r.isRunning
      && r.timeLeft == LengthOr(st.breakTime, 5) * 60
  {
    var t := st.timeLeft;
    var ticks := seq(t, _ => Tick);
    var last := st.(timeLeft := 1);
    TicksCountDown(st, t - 1, now);
    RunAppend(st, seq(t - 1, _ => Tick), [Tick], now);
    assert ticks == seq(t - 1, _ => Tick) + [Tick];
    assert NewSession(last, now) == NewSession(st, now);
  }

  lemma {:induction false} RunAppend(st: State, a: seq<Event>, b: seq<Event>, now: Stamp)
    ensures Run(st, a + b, now) == Run(Run(st, a, now), b, now)
    decreases |a|
  {
    if |a| > 0 {
      assert (a + b)[0] == a[0];
      assert (a + b)[1..] == a[1..] + b;
      RunAppend(Step(st, a[0], now), a[1..], b, now);
    } else {
      assert a + b == b;
    }
  }

  /** With the defaults, 1500 ticks end the 25-minute phase exactly once,
      and a further tick is not even offered: the timer is stopped. */
  lemma DefaultPhaseExample(sessions: seq<Session>, subject: string, now: Stamp)
    requires subject != ""
    ensures var st := Initial(sessions).(selectedSubject := subject, isRunning := true);
      var r := Run(st, seq(1500, _ => Tick), now);
      && |r.sessions| == |sessions| + 1
      && r.sessions[|sessions|].duration == 25
      && r.isBreak && !r.isRunning && r.timeLeft == 300
      && Step(r, Tick, now) == r
  {
    var st := Initial(sessions).(selectedSubject := subject, isRunning := true);
    StudyPhaseCompletes(st, now);
  }

  /** Stopping two seconds into the default phase still records 25 minutes. */
  lemma EarlyStopExample(sessions: seq<Session>, subject: string, now: Stamp)
    requires subject != ""
    ensures var st := Initial(sessions).(selectedSubject := subject, isRunning := true);
      var r := Step(Run(st, [Tick, Tick], now), Stop, now);
      && |r.sessions| == |sessions| + 1
      && r.sessions[|sessions|].duration == 25
  {
    var st := Initial(sessions).(selectedSubject := subject, isRunning := true);
    TicksCountDown(st, 2, now);
    assert [Tick, Tick] == seq(2, _ => Tick);
  }

  /** The questions setter as written lets the correct-answers counter exceed
      the questions counter (the accuracy line then reads 160%), and the next
      stop records that session. */
  lemma QuestionsSetterAsWrittenBreaksAnswers(sessions: seq<Session>, now: Stamp)
    ensures var st := Initial(sessions).(selectedSubject := "Math",
                                         questionsResolved := 10, correctQuestions := 8);
      var bad := Step(st, SetQuestions(5), now);
      && Inv(st) && AnswersWithin(st)
      && !AnswersWithin(bad)
      && TimerView.Accuracy(bad.questionsResolved, bad.correctQuestions) == 160
      && var rec := Step(bad, Stop, now).sessions[|sessions|];
         rec.correctQuestions == 8 && rec.questions == 5
  {
  }

  /** With the clamped setter, correct answers never exceed questions. */
  lemma QuestionsSetterClamped(st: State, val: int)
    requires st.correctQuestions <= st.questionsResolved
    ensures OnQuestionsChange(st, val).correctQuestions <= OnQuestionsChange(st, val).questionsResolved
  {
  }
}
