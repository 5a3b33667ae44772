# Study app core, modelled in Dafny

This project models the core logic of a browser study planner:

- a Pomodoro timer that records study sessions;
- the daily study streak;
- nine achievements and the rank title derived from them;
- the subject → chapter → task catalogue and the book list;
- per-subject statistics and the calendar's per-day grouping;
- backup and restore over the browser's key–value storage, with the typed settings getters;
- the hex colour parser that picks the text colour of primary buttons.

Everything is pure functions over immutable datatypes that mirror `types.ts`. One module per concern:

| file | module | what it holds |
|---|---|---|
| types.dfy | Types | `Session`, `Subject`/`Chapter`/`Task`, `Book`, the colour and background modes, a length field that is either blank or a number, and `Number(x) \|\| d` |
| text.dfy | Text | decimal rendering of numbers, `padStart(2, '0')`, JavaScript's truncating `%` |
| lists.dfy | Lists | filter, first index, map-where-matching |
| streak.dfy | Streak | study days, the streak as a function and as the original's backwards loop |
| achievements.dfy | Achievements | the nine rules, both unlocked counters, the title and the next-rank hint |
| timer_view.dfy | TimerView | `formatTime`, the length-input filter, `timerMax`, the accuracy percentage |
| timer.dfy | Timer | the timer state, its handlers, the completion effect, and runs of events |
| catalogue.dfy | Catalogue | subject/chapter/task edits, colour choice, book add/remove/toggle |
| statistics.dfy | Statistics | `timeBySubject`, `questionsBySubject`, `formatHours`, `getSubjectColor` |
| calendar.dfy | Calendar | day keys, `sessionsByDate`, the goal classes, month navigation, selection, `formatDuration`, the date heading |
| storage.dfy | Storage | the abstract store, setters and typed getters, `createBackup` and `restoreBackup` |
| colors.dfy | Colors | `hexToRgb` and the brightness rule for button text |

## Modelling choices

Whatever the model cannot compute itself enters as a parameter:

- `JSON.parse` and `JSON.stringify` are the functions `parse` and `stringify`.
- Number-to-text is `render`.
- `parseInt` and `parseFloat` return an `Option`; `None` stands for `NaN`.
- Whether a `localStorage.setItem` call succeeds is `fits(store, key, value)`.
- The local calendar day of a stored timestamp is `localDay`, and today is `today`.
- `Math.random()` is a natural number `pick`.
- `Date.now()` and the ISO timestamp are a `Stamp`.

Days are integers, so "yesterday" is `today - 1`. The streak lemmas hold for every `localDay`.

The timer's React setters become record updates. When one handler writes a field twice, the later write wins: `handleTimerComplete` sets the break length after `finishSession` has set the study length.

The completion effect fires whenever the timer is running at zero. It is applied after every event (`Timer.Step`).

`Timer.Step` passes the questions input to the original's setter unchanged. That setter does not clamp the correct answers, so `Timer.Inv` does not include "correct ≤ questions". `Timer.StepCorrected` is the same step with the clamped setter; the answers property is proved for that step only (see Findings).

Disabled controls are modelled as events that are not enabled while the timer runs (`Timer.Enabled`). These are the length inputs, the subject picker, and the start button while running.

Some behaviours of the code are stated as lemmas because they are easy to miss:

- **Study-length edits.** Editing the study length while stopped retargets the countdown to the new study length, even during a paused break. Editing the break length never retargets (App.tsx:588-591, `Timer.EditWhileStopped`).
- **Stop is not "nothing recorded".** Stop during a study phase records a session of the full planned length, however little time passed (`Timer.EarlyStopExample`).
- **Two day projections.** The calendar groups by the text before `T` of the stored ISO timestamp, which is the UTC day. The streak uses the local day.
- **Restore is not atomic.** A storage failure after validation leaves earlier keys written and reports failure (`Storage.RestoreNotAtomic`).
- **Negative minutes.** `formatDuration` of a negative number prints a doubled sign (`-1h -5m`), while `formatHours` prints `-5m` (`Calendar.NegativeLabelsDiffer`).
- **Iron focus boundary.** The iron-focus rule is `maxDuration >= 50`, so exactly 50 minutes unlocks it, although its description says "more than 50".
- **Two unlocked counters.** The app counts unlocked achievements twice, in the header and on the achievements page. The two counts are proved equal (`Achievements.TotalUnlockedAgrees`).

## Model

| member | source | states |
|---|---|---|
| Types.LengthOr | App.tsx:218 | `Number(len) \|\| d`: a blank or zero length gives the fallback, any other number itself |
| Types.ValidLengthOrPositive | PomodoroTimer.tsx:144-154 | a length the inputs can produce (blank or ≥ 1) always yields a length of at least one minute |
| Text.NatToString | Calendar.tsx:29-30 | decimal rendering: only digits, reads back as the number, no leading zero |
| Text.NatToStringInjective | Statistics.tsx:41-45 | distinct numbers render differently |
| Text.Pad2 | PomodoroTimer.tsx:53-57 | `padStart(2,'0')`: keeps text of length ≥ 2, otherwise left-fills with zeros to length 2 |
| Text.JsRem | Calendar.tsx:29 | JavaScript `%`: truncated division, remainder takes the dividend's sign |
| Lists.Filter | App.tsx:376-378 | `Array.filter`: exactly the elements that pass are kept, and a list where all pass is returned unchanged |
| Lists.FilterAppend | App.tsx:376-378 | filtering a concatenation is the concatenation of the filtered parts, so the kept elements stay in their original order |
| Lists.FilterCount | App.tsx:376-378 | filtering keeps every passing element as many times as it occurred |
| Streak.StudyDays | App.tsx:148-150 | the day set holds exactly the local days of the sessions |
| Streak.RunLength | App.tsx:169-180 | the length of the run of consecutive study days ending at a day |
| Streak.StreakOf | App.tsx:140-183 | the streak is 1 if today was studied, plus the run ending yesterday |
| Streak.ComputeStreak | App.tsx:152-182 | the backwards day-by-day loop computes the same streak |
| Streak.RunEndsAtUnique | App.tsx:169-180 | the run length ending at a day is unique, so the loop and the definition agree |
| Streak.StreakOfEmpty | App.tsx:148-182 | no sessions give streak 0 |
| Streak.StreakZeroIff | App.tsx:162-180 | the streak is 0 exactly when neither today nor yesterday was studied |
| Streak.YesterdayKeepsStreak | App.tsx:159-180 | a study day yesterday keeps the streak alive even if today is empty |
| Streak.StreakMonotoneUnderAppend | App.tsx:148-180 | recording another session never lowers the streak |
| Streak.SameDayCountsOnce | App.tsx:148-150 | a second session on an already-studied day does not change the streak |
| Streak.ThreeDayExamples | App.tsx:162-180 | concrete streaks of 3, 2, 1 and 0 for gaps in the last three days |
| Achievements.TotalMinutes | Achievements.tsx:18 | the total is 0 without sessions and non-negative when no duration is negative |
| Achievements.DurationWithinTotal | Achievements.tsx:18 | with no negative durations, no single session exceeds the total |
| Achievements.MaxDuration | Achievements.tsx:18 | the longest session, or 0 with no sessions, bounds every duration and is attained |
| Achievements.StudiedSubjects | Achievements.tsx:19 | the set of subject names that occur in the sessions |
| Achievements.Evaluate | Achievements.tsx:14-98 | nine achievements in a fixed order; each is unlocked iff its threshold is reached |
| Achievements.IronFocusIff | Achievements.tsx:31-37 | iron focus is unlocked iff some session lasted at least 50 minutes |
| Achievements.CountUnlocked | Achievements.tsx:100-102 | the count is at most the list length and 0 iff nothing is unlocked |
| Achievements.TotalUnlocked | Achievements.tsx:100-102 | the page's unlocked count is at most nine |
| Achievements.UnlockedCount | App.tsx:192-203 | the header's own unlocked count is at most nine |
| Achievements.TotalUnlockedAgrees | App.tsx:194 | the header count and the page count are equal for the same inputs |
| Achievements.UnlockedCountRange | Achievements.tsx:100-102 | the unlocked count lies in 0..9 and the list has nine entries |
| Achievements.UserTitle | App.tsx:186-211 | the header title is one of the five ranks: Novato below 2 unlocked, Aprendiz for 2–3, Estudante Dedicado for 4–5, Erudito for 6–7, Mestre do Conhecimento from 8 |
| Achievements.TitleTiers | App.tsx:206-210 | the exact count intervals of each of the five titles |
| Achievements.TitleMonotone | App.tsx:206-210 | more unlocked achievements never give a lower title |
| Achievements.NextRankInfo | Achievements.tsx:105-111 | the next threshold is the least of 2, 4, 6, 8 above the count, else the sentinel 99 |
| Achievements.NextRankAgreesWithTitle | Achievements.tsx:134-136 | the advertised next rank is the title the header shows at that count |
| Achievements.RulesNest | Achievements.tsx:39-78 | dedication implies marathon; monthly master implies golden week implies trinity |
| Achievements.MarathonBoundary | Achievements.tsx:39-45 | 600 minutes unlocks marathon, 599 does not |
| Achievements.AppendKeepsUnlocked | Achievements.tsx:18-20 | appending a session of non-negative length never locks an unlocked achievement |
| Achievements.AggregatesGrow | Achievements.tsx:18-20 | total, maximum and distinct-subject count never shrink when a session is appended |
| Achievements.CountUnlockedMonotone | Achievements.tsx:100-102 | pointwise more unlocked flags give a count at least as large |
| Achievements.AppendNeverLowersTitle | App.tsx:186-211 | appending a session never lowers the unlocked count or the title |
| TimerView.FormatTime | PomodoroTimer.tsx:53-57 | `mm:ss` with the colon three characters from the end; below 100 minutes exactly the two minute digits, a colon and the two second digits |
| TimerView.FormatTimeInjective | PomodoroTimer.tsx:53-57 | below 100 minutes distinct second counts give distinct labels |
| TimerView.FormatTimeRoundTrip | PomodoroTimer.tsx:53-57 | reading the label back gives the second count |
| TimerView.FilterLength | PomodoroTimer.tsx:144-154 | empty text forwards blank; other text forwards only a parsed whole number ≥ 1; nothing else reaches the state |
| TimerView.TimerMax | PomodoroTimer.tsx:86 | the current phase's length in seconds, at least 60, with 60 for a blank length |
| TimerView.Accuracy | PomodoroTimer.tsx:295 | 0 with no questions, else the rounded percentage; within 0..100 when correct ≤ questions |
| TimerView.AccuracyBounds | PomodoroTimer.tsx:295 | the rounded percentage is within half a point of the exact ratio |
| Timer.Initial | App.tsx:29-36 | the starting screen satisfies the timer invariant |
| Timer.FinishSession | App.tsx:215-240 | no subject: no change; otherwise exactly one full-length completed session is appended and the timer resets |
| Timer.TimerComplete | App.tsx:242-258 | the phase flips and the timer stops at the new phase's length; only a study phase records a session |
| Timer.Settle | App.tsx:284-288 | after the completion effect the timer never rests running at zero; otherwise nothing changes |
| Timer.SettleOnce | App.tsx:284-288 | the completion effect cannot fire twice |
| Timer.TickValue | App.tsx:263-268 | a tick counts down by one and never below zero |
| Timer.OnCorrectChange | App.tsx:606 | the correct-answers setter stores at most the number of questions and changes nothing else |
| Timer.NewSession | App.tsx:215-230 | the recorded session has the selected subject, the planned study length (`Number(studyTime) \|\| 25`, at least one minute for a valid length), the current counters, the time as id and date, and is marked completed |
| Timer.OnQuestionsChangeAsWritten | App.tsx:605 | the questions setter as written stores the count and leaves correct answers as they were, so the answers stay within the count iff they already fit it |
| Timer.OnQuestionsChange | App.tsx:605-606 | corrected setter: stores the count and keeps correct answers within it |
| Timer.Handle | App.tsx:291-606 | only stop in a study phase with a subject records a session, which is appended; only the picker changes the subject; only the length events change the lengths; only start sets the timer running; only stop in a break changes the phase |
| Timer.Enabled | PomodoroTimer.tsx:157-217 | while running, only pause, the clock, stop and the counters are offered; stop is always offered; in a break the picker and counters are hidden; stopped in a study phase, everything but pause and the clock is offered |
| Timer.Step | App.tsx:284-606 | a control not offered does nothing; an offered one never leaves the timer running at zero; the history only grows at its end |
| Timer.StepPreservesInv | App.tsx:215-312 | every step keeps a non-negative countdown, valid lengths, and no rest at zero |
| Timer.StepRecords | App.tsx:215-240 | a step appends at most one session, only from a study phase with a subject; it lasts at least one minute and carries the counters as they stood before the step |
| Timer.StepCorrected | App.tsx:605-606 | the step with the clamped questions setter agrees with `Step` on every other event and keeps correct ≤ questions |
| Timer.CorrectedStepKeepsAnswers | App.tsx:215-312 | the corrected step keeps the invariant and correct ≤ questions, and every session it records has correct ≤ questions |
| Timer.ConfigFrozenWhileRunning | PomodoroTimer.tsx:157 | while running, no step changes the lengths or the subject |
| Timer.StartNeedsSubject | App.tsx:291-297 | start without a subject in a study phase does nothing |
| Timer.StopDuringBreak | App.tsx:303-312 | stop during a break records nothing and returns to a stopped study phase |
| Timer.StopDuringStudy | App.tsx:303-312 | stop during study records one session of the planned length and resets the counters |
| Timer.EditWhileStopped | App.tsx:588-591 | a study-length edit while stopped retargets the countdown; a break-length edit does not |
| Timer.BlurCoercesBlank | App.tsx:593-603 | leaving a blank length field sets it to one minute |
| Timer.TicksCountDown | App.tsx:263-268 | k ticks with more than k seconds left only count down |
| Timer.StudyPhaseCompletes | App.tsx:242-258 | a full study phase of ticks records exactly one session and enters a stopped break |
| Timer.DefaultPhaseExample | App.tsx:29-36 | 1500 ticks of the default phase record one 25-minute session and stop at a 5-minute break |
| Timer.EarlyStopExample | App.tsx:303-312 | stopping two seconds in still records 25 minutes |
| Timer.QuestionsSetterAsWrittenBreaksAnswers | App.tsx:605 | from a state with 8 correct of 10, a step of the original setter to 5 questions shows 160%, and the next stop records 8 correct of 5 |
| Timer.QuestionsSetterClamped | App.tsx:605-606 | with the clamped setter correct answers never exceed questions |
| Catalogue.Unused | App.tsx:353-357 | exactly the palette colours not used by any subject |
| Catalogue.ChooseColor | App.tsx:351-365 | the colour is from the palette, and unused whenever an unused one exists |
| Catalogue.DrawFor | App.tsx:359-365 | every permitted colour can be drawn |
| Catalogue.AddSubject | App.tsx:347-374 | appends one chapterless subject with the given id and name and a palette colour; nothing else changes |
| Catalogue.DeleteSubject | App.tsx:376-378 | removes exactly the subjects with the id; the others keep their multiplicity; with no subject of that id the list is unchanged |
| Catalogue.DeleteSubjectAppend | App.tsx:376-378 | deleting from a concatenation deletes from each part, and a single subject stays iff its id differs; this fixes the order of the result |
| Catalogue.EditChapters | App.tsx:380-423 | only subjects with the id get their chapters changed |
| Catalogue.EditTasks | App.tsx:425-515 | only chapters with the id get their tasks changed |
| Catalogue.AddChapter | App.tsx:380-395 | appends an empty chapter named 'Novo Capítulo' to the matching subjects only |
| Catalogue.UpdateChapterName | App.tsx:397-410 | renames the matching chapters only |
| Catalogue.DropChapters | App.tsx:417 | the filtered chapter list holds exactly the chapters with another id, each as often as before, and is the list itself when no chapter has the id |
| Catalogue.DropChaptersAppend | App.tsx:417 | filtering distributes over concatenation and keeps a single chapter exactly when its id differs, so the survivors keep their order |
| Catalogue.DeleteChapter | App.tsx:412-423 | only the chapter lists of subjects `sid` change; each becomes its filtered list: the chapters with another id, each as often as before, in order; with no chapter `cid` the catalogue is unchanged |
| Catalogue.AddTask | App.tsx:425-448 | appends an undone task to the matching chapter only |
| Catalogue.UpdateTaskName | App.tsx:450-471 | renames the matching tasks only |
| Catalogue.FlipTasks | App.tsx:482-484 | flips `completed` of the tasks with the id; others unchanged |
| Catalogue.ToggleTask | App.tsx:473-494 | flips the matching task's `completed` only |
| Catalogue.DropTasks | App.tsx:506 | the filtered task list holds exactly the tasks with another id, each as often as before, and is the list itself when no task has the id |
| Catalogue.DropTasksAppend | App.tsx:506 | filtering distributes over concatenation and keeps a single task exactly when its id differs, so the survivors keep their order |
| Catalogue.DeleteTask | App.tsx:496-515 | only the task lists of chapters `cid` of subjects `sid` change; each becomes its filtered list: the tasks with another id, each as often as before, in order; with no task `tid` there the catalogue is unchanged |
| Catalogue.AddThenDeleteSubject | App.tsx:347-378 | adding a subject with a fresh id and deleting it gives the list back |
| Catalogue.AddThenDeleteChapter | App.tsx:380-423 | adding a chapter with a fresh id and deleting it gives the catalogue back |
| Catalogue.AddThenDeleteTask | App.tsx:425-515 | adding a task with a fresh id and deleting it gives the catalogue back |
| Catalogue.ToggleTaskTwice | App.tsx:473-494 | toggling a task twice is the identity |
| Catalogue.AddBook | App.tsx:119-123 | the book is prepended; the rest is unchanged |
| Catalogue.RemoveBook | App.tsx:125-129 | exactly the books with another id remain, each as often as before; with no book of that id the list is unchanged |
| Catalogue.RemoveBookAppend | App.tsx:126 | removal distributes over concatenation and keeps a single book exactly when its id differs, so the survivors keep their order |
| Catalogue.AddThenRemoveBook | App.tsx:119-129 | adding a book with a fresh id and removing it gives the list back |
| Catalogue.ToggleBookStatus | App.tsx:131-137 | flips the read status of the matching books only |
| Catalogue.ToggleBookTwice | App.tsx:131-137 | toggling twice restores the status, except that a never-set status becomes "unread" |
| Statistics.SubjectOrder | Statistics.tsx:18-27 | the distinct subject names that occur, each once |
| Statistics.SumWhereAppend | Statistics.tsx:20-24 | a running sum over concatenated histories is the sum of the parts |
| Statistics.SumWherePermutation | Statistics.tsx:20-48 | a sum over sessions does not depend on their order |
| Statistics.SplitBySubject | Statistics.tsx:18-27 | summing per subject and then over the subjects gives the overall sum |
| Statistics.TimeBySubject | Statistics.tsx:18-27 | keys are exactly the subject names that occur; each value is the total duration of that subject |
| Statistics.QuestionsBySubject | Statistics.tsx:29-39 | keys are exactly the subject names; each value sums that subject's questions and correct answers |
| Statistics.PieTotalIsTotalMinutes | Statistics.tsx:67 | the values of the per-subject map add up to the total study time |
| Statistics.TotalIsSumWhere | Achievements.tsx:18 | the achievements' total minutes equal the statistics' sum of durations |
| Statistics.TimeIgnoresOrder | Statistics.tsx:18-27 | reordering the history leaves the time map unchanged |
| Statistics.QuestionsIgnoreOrder | Statistics.tsx:29-39 | reordering the history leaves the questions map unchanged |
| Statistics.CorrectWithinTotal | Statistics.tsx:29-39 | if every session has correct ≤ questions, so does every subject |
| Statistics.EmptyIffNoSessions | Statistics.tsx:47-48 | both maps are empty exactly when there are no sessions |
| Statistics.FormatHours | Statistics.tsx:41-45 | the label ends in `m` and has an `h` part iff there are at least 60 minutes |
| Statistics.FormatHoursShape | Statistics.tsx:41-45 | `{m/60}h {m%60}m` from 60 minutes on, `{m}m` below |
| Statistics.FormatHoursInjective | Statistics.tsx:41-45 | distinct non-negative minute counts give distinct labels |
| Statistics.HoursLabelInjective | Statistics.tsx:41-45 | distinct minute counts from 60 on give distinct labels |
| Statistics.SubjectColor | Statistics.tsx:13-16 | the colour of the first subject with that name, else `#a1a1aa` |
| Calendar.DayKey | Calendar.tsx:40 | the text before the first `T` |
| Calendar.DayKeyOfStamp | Calendar.tsx:40 | the key of `day + "T" + time` is `day` |
| Calendar.SessionsByDate | Calendar.tsx:35-69 | keys are exactly the day keys that occur; each day holds the sums of its own sessions, per day and per subject |
| Calendar.DayStep | Calendar.tsx:42-65 | a session adds its duration, questions and correct answers to its own day and subject |
| Calendar.OtherDayStep | Calendar.tsx:37-40 | a session leaves every other day unchanged |
| Calendar.DaySubjectsAddUp | Calendar.tsx:224-236 | the per-subject durations within a day add up to the day's total |
| Calendar.Classify | Calendar.tsx:109-115 | goal met iff minutes ≥ goal; warning iff 0 < minutes < goal; never both |
| Calendar.EmptyDayClass | Calendar.tsx:109-115 | a day without data is goal-met iff the goal is ≤ 0, and never a warning |
| Calendar.MoreMinutesKeepProgress | Calendar.tsx:109-115 | more minutes never lose the goal mark |
| Calendar.IsoDate | App.tsx:229 | a `YYYY-MM-DD` day is ten characters without a `T` |
| Calendar.DateKey | Calendar.tsx:104 | for a four-digit year, the cell key of a zero-based month is the ISO date of that day |
| Calendar.CellFindsSessionDay | Calendar.tsx:104-105 | a cell's key equals the day key of any timestamp on that UTC day |
| Calendar.PrevMonth | Calendar.tsx:86-89 | one month back, month kept in 0..11, selection cleared |
| Calendar.NextMonth | Calendar.tsx:91-94 | one month forward, month kept in 0..11, selection cleared |
| Calendar.NavigationInverse | Calendar.tsx:86-94 | previous and next month undo each other |
| Calendar.Click | Calendar.tsx:121 | a click selects the day iff it has data and clears the selection otherwise |
| Calendar.NavigationKeepsSelectionValid | Calendar.tsx:121 | the selection only ever names a day with data |
| Calendar.FormatDuration | Calendar.tsx:27-32 | the label always ends in `m`, and for non-negative minutes it is the same label as `formatHours` |
| Calendar.NegativeLabelsDiffer | Calendar.tsx:27-32 | for −5 minutes it prints `-1h -5m` where `formatHours` prints `-5m` |
| Calendar.Split | Calendar.tsx:180 | `split`: no part contains the separator and joining the parts gives the text back |
| Calendar.Reverse | Calendar.tsx:180 | `reverse`: same parts in the opposite order |
| Calendar.DisplayIsoDate | Calendar.tsx:180 | the heading of `YYYY-MM-DD` is `DD/MM/YYYY` |
| Storage.ItemOr | storage.ts:189-194 | `getItem(key) \|\| fallback`: the stored text unless absent or empty |
| Storage.SetItem | storage.ts:61-67 | a write that fits stores the value; one that does not changes nothing; other keys are untouched |
| Storage.SaveList | storage.ts:26-50 | `saveSubjects`, `saveSessions`, `saveBooks`: a write that fits stores the JSON text; otherwise the store is unchanged; no other key changes |
| Storage.SaveDailyGoal | storage.ts:61-67 | a write that fits stores the goal's text; otherwise the store is unchanged; no other key changes |
| Storage.SavePrimaryColor | storage.ts:77-83 | after a write that fits, the getter reads the colour back (white for an empty one); otherwise the store is unchanged; no other key changes |
| Storage.SaveColorMode | storage.ts:94-100 | after a write that fits, the getter reads the mode back; otherwise the store is unchanged; no other key changes |
| Storage.SaveBackgroundMode | storage.ts:115-121 | after a write that fits, the getter reads the mode back; otherwise the store is unchanged; no other key changes |
| Storage.SaveVolume | storage.ts:132-138 | a write that fits stores the volume's text; otherwise the store is unchanged; no other key changes |
| Storage.SaveNotifications | storage.ts:149-155 | a write that fits stores the flag's JSON text; otherwise the store is unchanged; no other key changes |
| Storage.ClearAll | storage.ts:175-181 | after clearing, the store holds no key at all |
| Storage.GetList | storage.ts:16-24 | the parsed stored array, or `[]` when absent, empty or unparsable |
| Storage.GetDailyGoal | storage.ts:52-59 | 120 when absent, else `parseInt` of the stored text |
| Storage.GetPrimaryColor | storage.ts:69-75 | the stored colour, else `#ffffff` |
| Storage.GetColorMode | storage.ts:85-92 | monochrome iff stored exactly as `monochrome`, else vibrant |
| Storage.GetBackgroundMode | storage.ts:102-113 | one of the eight known modes if stored exactly, else default |
| Storage.GetVolume | storage.ts:123-130 | 0.5 when absent, else `parseFloat` of the stored text |
| Storage.GetNotifications | storage.ts:140-147 | true when absent or unparsable, else the parsed value |
| Storage.SettingsRoundTrip | storage.ts:52-155 | each setter followed by its getter gives the value back |
| Storage.ClearAllGivesDefaults | storage.ts:16-165 | after clearing, every getter returns its default |
| Storage.BackgroundNameInjective | storage.ts:102-121 | distinct background modes are stored under distinct names |
| Storage.CreateBackup | storage.ts:185-200 | the backup exists iff the three stored lists (or `[]` when missing or empty) parse; the lists are whatever that text parses to, with no check that it is an array; the six settings are their stored text, or their default text when missing or empty |
| Storage.Acceptable | storage.ts:208-217 | only an object can pass; subjects and sessions must be arrays; a library that is present must be an array or falsy; without a library the two list checks decide |
| Storage.Writes | storage.ts:220-235 | the restore writes subjects, sessions and library always, and each setting only when truthy |
| Storage.ApplyWrites | storage.ts:219-241 | unwritten keys are unchanged; with room for every write, all of them land |
| Storage.Restore | storage.ts:202-242 | unparsable or malformed backups report failure and write nothing; keys outside the app are never touched; success writes what the backup holds |
| Storage.BackupRoundTrip | storage.ts:185-242 | when the stored lists parse to arrays and the JSON text reads back as written, restoring a fresh backup succeeds and all nine getters read what they read before |
| Storage.RestoreNotAtomic | storage.ts:219-241 | a failed write after validation reports failure with earlier keys already overwritten |
| Colors.HexToRgb | CustomStyles.tsx:11-18 | exactly `#?` plus six hex digits parse to three bytes; anything else gives white |
| Colors.HexRoundTrip | CustomStyles.tsx:11-18 | parsing a `#rrggbb` rendering of a colour gives the colour back |
| Colors.HexCaseAndHashIgnored | CustomStyles.tsx:12 | letter case and the leading `#` do not matter |
| Colors.ShortAndAlphaFormsRejected | CustomStyles.tsx:17 | the three-digit and eight-digit forms fall back to white |
| Colors.Brightness | CustomStyles.tsx:23 | the weighted sum times a thousand: 0 to 255000 for byte channels, and a thousand times the channel for a grey |
| Colors.BrightnessMonotone | CustomStyles.tsx:23 | a colour at least as bright in every channel has at least the same brightness |
| Colors.ButtonTextColor | CustomStyles.tsx:20-24 | dark text iff weighted brightness exceeds 128, white otherwise |
| Colors.ButtonTextExamples | CustomStyles.tsx:20-24 | white gets dark text, black gets white text, unparsable text counts as white |
| Colors.BrighterKeepsDarkText | CustomStyles.tsx:20-24 | a brighter colour never switches dark text to white |

## Left out

- Rendering: JSX markup, the stylesheet body and background CSS, and the UI toggles of the subject manager. These are presentation only.
- Interval scheduling (App.tsx:260-281): the one-second timer is the `Tick` event, and starting and clearing intervals is not modelled.
- Audio (sound.ts) and browser notifications: these are side effects with no state the model reads.
- The book search (Library.tsx) and the settings screen's file import, download and reload. These are network and file I/O; the restore logic they call is modelled.
- Pie arcs, bar widths, progress percentages and dash offsets. These are floating-point geometry.
- `JSON.parse`/`JSON.stringify` text, `parseInt`/`parseFloat`, and `localStorage` exceptions on read. Parsing is abstract; a read either yields a stored string or nothing.
- Storage.CreateBackup: an exception from `JSON.parse` on a stored list escapes the original; the model returns `None` instead.
- `Date` arithmetic: month lengths, the first weekday of a month, and time zones. The local day of a timestamp and today are parameters; calendar cells are keyed by `DateKey`.
- The `|| 0` applied to missing `questions` and `correctQuestions` (Calendar.tsx:52-53, 64-65). The model's sessions are typed records that always hold a number.
- Statistics.TimeBySubject: a subject whose name is an `Object.prototype` property (such as `constructor`) is treated like any other name; the original's plain-object accumulator would misbehave on it.
- Statistics.QuestionsBySubject: same limitation on prototype-property names as `TimeBySubject`.
- Calendar.SessionsByDate: same limitation on prototype-property names for day keys and subject names.
- The key order of JavaScript objects (integer-like keys first). Maps here are unordered.
- TimerView.Accuracy: computed with exact integers (`Math.round` of an exact ratio), not floating point.
- Timer.State: the question counters are whole numbers; the number inputs' handling of fractional or non-numeric text is not modelled.
- Storage.SaveVolume: the volume is an exact real and `render` is abstract; the float clamp in sound.ts is left out.
- Storage.GetDailyGoal: the goal is returned as `parseInt`'s result, an integer or `None` for `NaN`; the calendar is modelled for integer goals.
- Catalogue.ChooseColor: `Math.floor(Math.random() * n)` is any natural number reduced modulo `n`; uniformity of the draw is not modelled.
- `Date.now()` ids carry no uniqueness guarantee; the inverse lemmas assume a fresh id as an explicit precondition.

## Findings

| source | as written | input that shows it | evidently intended | confidence | as-written member | corrected member |
|---|---|---|---|---|---|---|
| App.tsx:605 | the questions setter stores the new count without re-clamping the correct answers, unlike the correct-answers setter at line 606 and the input's `max` | questions 10, correct 8, then questions set to 5: accuracy shows 160% and stop records 8 correct of 5 | lowering the question count also lowers correct answers to at most the new count | not executed | Timer.QuestionsSetterAsWrittenBreaksAnswers | Timer.StepCorrected |
