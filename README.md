# TaskQuest and Whisper hotkey: a Dafny model

This project models two small programs.

**TaskQuest** is a terminal task tracker that awards points for finished work. The model covers:

- the task and statistics records (`taskquest/src/models.rs`);
- the scoring engine (`taskquest/src/scoring.rs`): points for a finished task, the streak rules with their decaying bonus pool, the milestone awards, and the focus and efficiency scores;
- the part of the SQLite store the app depends on (`taskquest/src/db.rs`): the status codec, the shape of a freshly created row, the difficulty CHECK, the pending listing, UPDATE and DELETE;
- the `App` state machine (`taskquest/src/app.rs`): selection, the add/edit form, submit, delete, toggle (start, pause, resume) and complete.

**Whisper hotkey** is a push-to-talk dictation script. The model covers two parts of `whisper-voice-to-text/whisper-hotkey.py`:

- pulling the spoken text out of whisper-cli's timestamped output;
- `_filter_hallucinations`, which drops the stock video endings Whisper tends to invent.

How the model is laid out:

- `models.dfy` (`Models`) holds the records.
- `store.dfy` (`Store`) holds the `tasks` table, as a sequence of rows with new rows in front, and proves that order stays newest first when the clock does not run back.
- `lifecycle.dfy` (`Lifecycle`) holds the task state machine as transition functions, plus a timing invariant they keep.
- `scoring.dfy` (`Scoring`) holds the scoring engine. `update_streak` and `update_stats_on_completion` are methods that update the record step by step, proved equal to declarative functions.
- `app.dfy` (`TaskApp`) holds `App` as a class. It has the same fields plus `table`, `nextId` and `storedStats`, which stand for the database. Each method's `ensures` gives its whole new state.
- `whisper.dfy` (`Whisper`) holds the Python loops as methods. Each is proved equal to a recursive function, and the properties are lemmas about those functions.
- `pytext.dfy`, `rusttext.dfy` and `strings.dfy` hold the pieces of Python's `str` and Rust's `str`/`i32` the code relies on: `strip`, `rstrip`, `lower`, `split`, `join`, `trim`, `parse::<i32>` and `to_string`.

Modelling conventions:

- Times are whole seconds (`Timestamp = int`), and "now" is always a parameter.
- `f32`/`f64` arithmetic is done on `real`.
- `as i32` truncates toward zero (`Scoring.Truncate`).
- chrono's `num_days` is division rounding toward zero (`Scoring.TruncDiv`).

## Model

| member | source | states |
|---|---|---|
| Models.AsStr | taskquest/src/models.rs:27-34 | every status has a non-empty label; only InProgress is labelled "In Progress" |
| Models.AsStrInjective | taskquest/src/models.rs:27-34 | no two statuses share a label |
| Models.DefaultStats | taskquest/src/models.rs:48-60 | a fresh record has zero points, streaks, completions and focus time, no last date, and a full bonus pool of 1.0 |
| Store.StatusToString | taskquest/src/db.rs:321-328 | every status is stored under a non-empty name |
| Store.ParseStatus | taskquest/src/db.rs:311-319 | an unknown name reads back as Pending; a known name reads back as the status stored under it |
| Store.ParseStatusRoundTrip | taskquest/src/db.rs:311-328 | storing a status and reading it back gives the same status |
| Store.StatusToStringInjective | taskquest/src/db.rs:321-328 | two statuses share a stored name exactly when they are equal |
| Store.DisplayLabelIsNotStoredName | taskquest/src/db.rs:311-319 | the label "In Progress" read back as a stored name gives Pending; every other label equals its stored name |
| Store.NewTask | taskquest/src/db.rs:79-102 | a created row has the given id, title, difficulty and creation time, is Pending, has no start, pause or completion time, and has zero pause time and points |
| Store.UpdateRow | taskquest/src/db.rs:159-177 | rows with the task's id take every field of the task except id and creation time; all other rows are unchanged; the difficulty CHECK is kept |
| Store.UpdateRowKeepsIdsBelow | taskquest/src/db.rs:159-177 | an UPDATE never raises an id above the AUTOINCREMENT bound |
| Store.DeleteRow | taskquest/src/db.rs:179-182 | a row is kept exactly when it was in the table and has another id; the CHECK is kept |
| Store.PendingListing | taskquest/src/db.rs:131-136 | a row is listed exactly when it is in the table and not Completed; the CHECK is kept |
| Store.NewRowKeepsNewestFirst | taskquest/src/db.rs:104-108 | a table ordered by creation time, newest first, stays so with a row no older than any other put in front |
| Store.UpdateRowKeepsNewestFirst | taskquest/src/db.rs:159-177 | an UPDATE keeps the newest-first order, since it never changes a creation time |
| Store.DeleteRowKeepsNewestFirst | taskquest/src/db.rs:179-182 | a DELETE keeps the newest-first order |
| Store.PendingListingKeepsNewestFirst | taskquest/src/db.rs:131-136 | the pending listing of a newest-first table is newest first (`ORDER BY created_at DESC`) |
| Lifecycle.Toggled | taskquest/src/app.rs:209-237 | Pending becomes InProgress started at now; InProgress becomes Paused at now; Paused becomes InProgress with no pause start and the pause total from FoldPause; every other field is unchanged in each case; Completed is left as it is |
| Lifecycle.FoldPause | taskquest/src/app.rs:226-230 | leaving a pause adds exactly now minus the pause start to the total (never less than before for a clock that does not run back); no pause start adds nothing |
| Lifecycle.Resumed | taskquest/src/app.rs:226-234 | a resumed task is InProgress with no pause start and the folded pause total |
| Lifecycle.Finished | taskquest/src/app.rs:259-269 | a completed task is Completed at now; a Paused one gets its pause folded in; nothing else changes |
| Lifecycle.PauseThenResume | taskquest/src/app.rs:221-234 | pausing at p and resuming at q adds exactly q - p to the pause total and returns to InProgress |
| Lifecycle.CompleteFromPausedFoldsLikeResume | taskquest/src/app.rs:259-265 | completing from Paused gives the same pause total as resuming first and then completing |
| Lifecycle.NewTaskWellTimed | taskquest/src/db.rs:79-102 | a freshly created task satisfies the timing invariant |
| Lifecycle.ToggleKeepsWellTimed | taskquest/src/app.rs:209-245 | with a clock that does not run back, toggling keeps the timing invariant |
| Lifecycle.FinishKeepsWellTimed | taskquest/src/app.rs:259-269 | with a clock that does not run back, completing keeps the timing invariant |
| Lifecycle.ActiveTimeInRange | taskquest/src/scoring.rs:81-84 | for a well-timed completed task, completion minus start minus pauses is never negative |
| Lifecycle.ToggleRunKeepsWellTimed | taskquest/src/app.rs:209-245 | any run of toggles at non-decreasing instants keeps the invariant, never completes a task, and never lowers the pause total |
| Scoring.TruncDiv | taskquest/src/scoring.rs:100 | the day count rounds toward zero for gaps of either sign |
| Scoring.Truncate | taskquest/src/scoring.rs:27 | `as i32` drops the fraction toward zero |
| Scoring.HalfTruncates | taskquest/src/scoring.rs:118 | `(streak as f32 * 0.5) as i32` is half the streak, rounded toward zero |
| Scoring.TimeBonus | taskquest/src/scoring.rs:33-49 | untimed earns 0; the first of its difficulty earns 2·d; at or above the average earns 0; never above half the base; strictly positive when faster than a positive average |
| Scoring.FasterEarnsMore | taskquest/src/scoring.rs:33-49 | less active time never earns a smaller time bonus |
| Scoring.StreakBonus | taskquest/src/scoring.rs:52-58 | 5% per streak day, capped at 50% |
| Scoring.StreakMultiplier | taskquest/src/scoring.rs:52-58 | the multiplier lies between the pool and 1.5 × the pool; for valid statistics it lies in (0, 1.5] |
| Scoring.FocusBonus | taskquest/src/scoring.rs:61-73 | never negative; 0 when untimed or with no elapsed time; at most a tenth of the base; exactly a tenth with no pauses |
| Scoring.FocusShareBound | taskquest/src/scoring.rs:67-72 | the share above 80%, at half rate, lies in [0, base/10], and equals base/10 with no pauses |
| Scoring.TaskPoints | taskquest/src/scoring.rs:9-30 | the award is never below half the base; untimed it is the scaled base, floored at half the base |
| Scoring.Award | taskquest/src/scoring.rs:27-29 | the truncated total is never below half the base; with no bonuses it is the scaled base, floored |
| Scoring.WorkedExample | taskquest/src/scoring.rs:9-73 | difficulty 5, 100 s without pauses, no average and no streak: time bonus 10, focus bonus 5, multiplier 1, award 65 |
| Scoring.PointsBounded | taskquest/src/scoring.rs:9-30 | for a valid difficulty, valid statistics and non-negative pauses, the award is at most 21 × difficulty |
| Scoring.AwardAtMost | taskquest/src/scoring.rs:27-29 | with multiplier ≤ 1.5, time bonus ≤ base/2 and focus bonus ≤ base/10, the award is at most 21·d |
| Scoring.UpdateStreak | taskquest/src/scoring.rs:96-132 | the record after the step-by-step update equals StreakUpdated |
| Scoring.StreakUpdated | taskquest/src/scoring.rs:96-132 | records today; keeps points, count and focus time; never lowers the longest streak; keeps the pool in (0, 1] |
| Scoring.DaysSince | taskquest/src/scoring.rs:100 | the whole days in the gap, rounded toward zero: 0 exactly when the gap is under a day either way, and otherwise bracketing the gap to within a day on its own side of zero |
| Scoring.StreakRules | taskquest/src/scoring.rs:96-132 | for every record and instant: the first completion sets the streak to 1; a gap of 0 days only records today; 1 day adds one to the streak, 0.1 to the pool capped at 1.0, and raises the longest streak to the new streak; 2 or 3 days halve the streak and multiply the pool by 0.7; any other gap resets the streak and multiplies the pool by 0.3; nothing else changes |
| Scoring.SameDayKeepsStreak | taskquest/src/scoring.rs:103-106 | a same-day completion, or two within one day, leaves the streak, the record and the pool as they were |
| Scoring.LongGapResets | taskquest/src/scoring.rs:100-124 | five days away resets the streak and multiplies the pool by 0.3; a clock a whole day back resets it; half a day back keeps it |
| Scoring.FirstCompletionOutrunsLongest | taskquest/src/scoring.rs:126-129 | the first completion ever gives current streak 1 while the longest stays 0 |
| Scoring.PoolStaysInRange | taskquest/src/scoring.rs:96-132 | any run of streak updates keeps valid statistics and never lowers the longest streak |
| Scoring.MilestoneBonusFor | taskquest/src/scoring.rs:90-92 | a bonus is paid exactly at the thresholds, and it is 100 × count / 10 |
| Scoring.MilestoneAwards | taskquest/src/scoring.rs:90-92 | 100, 200, 500, 1000, 2500 and 5000 at 10, 25, 50, 100, 250 and 500; nothing at 9, 11, 24 and 26 |
| Scoring.StatsAfterCompletion | taskquest/src/scoring.rs:76-93 | one more completion; points plus any milestone added; active time added to focus time; last date set; current streak, longest streak and pool as StreakUpdated leaves them; validity kept |
| Scoring.UpdateStatsOnCompletion | taskquest/src/scoring.rs:76-93 | the record after the step-by-step update equals StatsAfterCompletion |
| Scoring.CompletedCount | taskquest/src/scoring.rs:154 | the divisor is at most the slice length; it equals the length exactly when every task is Completed, and is 0 exactly when none is |
| Scoring.CompletedCountIsMultiplicity | taskquest/src/scoring.rs:154 | the divisor is the number of times Completed occurs among the slice's statuses |
| Scoring.ScaledMean | taskquest/src/scoring.rs:156-160 | no completed task gives 0; every score is capped at 100 |
| Scoring.ScaledMeanUncapped | taskquest/src/scoring.rs:156-160 | when every term is bounded so that the mean stays under 100, the cap never applies |
| Scoring.FocusRatio | taskquest/src/scoring.rs:140-152 | a term exists exactly for timed tasks with positive elapsed time; times the elapsed time it gives the active time; it lies in [0, 1] when the pauses lie within the elapsed time |
| Scoring.FocusScore | taskquest/src/scoring.rs:135-161 | 0 for no tasks or no completed task; never above 100 |
| Scoring.FocusRatioSumNonNegative | taskquest/src/scoring.rs:140-152 | pauses within the elapsed time make the sum non-negative |
| Scoring.FocusRatioSumAtMostCount | taskquest/src/scoring.rs:140-152 | non-negative pauses keep the sum at most the number of tasks |
| Scoring.FocusScoreOnCompletedSlice | taskquest/src/scoring.rs:135-161 | on completed, well-timed tasks the score is the mean active share × 100, uncapped and non-negative |
| Scoring.FocusScoreUncapped | taskquest/src/scoring.rs:135-161 | a sum within [0, n] gives the mean × 100, non-negative |
| Scoring.UninterruptedRatioSum | taskquest/src/scoring.rs:140-152 | timed tasks without pauses and with positive elapsed time each add a term of exactly 1 |
| Scoring.FullFocus | taskquest/src/scoring.rs:135-161 | completed, timed tasks never paused and with positive elapsed time score exactly 100 |
| Scoring.PercentOfCount | taskquest/src/scoring.rs:156-160 | a mean of terms in [0, 1] as a percentage is uncapped and non-negative |
| Scoring.LookupAverage | taskquest/src/scoring.rs:178 | no average exactly when no entry has the difficulty; otherwise the first entry with the difficulty carries the value returned |
| Scoring.EfficiencyTerm | taskquest/src/scoring.rs:172-188 | a term exists exactly for timed tasks with positive active time and a recorded average; it is the average over the active time, or 2 when that ratio is above 2 |
| Scoring.EfficiencyScore | taskquest/src/scoring.rs:164-197 | 0 for no tasks or no completed task; never above 100 |
| Scoring.EfficiencySumBound | taskquest/src/scoring.rs:172-188 | the sum is at most twice the number of tasks |
| Scoring.EfficiencyScoreOnCompletedSlice | taskquest/src/scoring.rs:164-197 | on completed tasks the score is the mean term × 50, uncapped |
| Scoring.OnPaceSum | taskquest/src/scoring.rs:172-188 | tasks whose active time equals the first recorded average for their difficulty each add a term of exactly 1 |
| Scoring.OnPaceScoresFifty | taskquest/src/scoring.rs:164-197 | completed tasks that each took exactly their recorded average score exactly 50 |
| Scoring.UnfinishedTaskIsNotCounted | taskquest/src/scoring.rs:135-197 | an unfinished, untimed task changes neither score: it adds no term and does not enlarge the divisor |
| RustText.Trim | taskquest/src/app.rs:161-162 | the trimmed title neither starts nor ends with whitespace, and it is empty exactly when the input is all whitespace |
| RustText.ParseI32 | taskquest/src/app.rs:167 | an empty string is an error; any value returned fits 32 bits; digits within range parse to their value |
| RustText.DecimalString | taskquest/src/app.rs:118 | `to_string` of an integer is non-empty, and only digits for a non-negative one |
| RustText.NatDigitsRoundTrip | taskquest/src/app.rs:118 | reading back the decimal digits of a natural number gives the number |
| RustText.ParseDecimalRoundTrip | taskquest/src/app.rs:118 | parsing what `to_string` printed gives back every 32-bit integer |
| TaskApp.Flipped | taskquest/src/app.rs:131-136 | focus always moves to the other field |
| TaskApp.FlippedTwice | taskquest/src/app.rs:131-136 | switching focus twice returns to the start |
| TaskApp.Clamp | taskquest/src/app.rs:167 | the result lies in range, is the input when in range, and is the violated bound otherwise |
| TaskApp.ParsedDifficulty | taskquest/src/app.rs:167 | always a valid difficulty: 5 when unparsable, otherwise the parsed value clamped to 1..10 |
| TaskApp.EditKeepsDifficulty | taskquest/src/app.rs:108-121 | the form pre-filled for editing gives the task's own difficulty back on submit |
| TaskApp.DifficultyFallbacks | taskquest/src/app.rs:167 | "" gives 5, "0" gives 1, "99" gives 10, "7" gives 7 |
| TaskApp.DecimalDifficultyFits | taskquest/src/app.rs:138-147 | the edit form's difficulty text fits the two-digit field |
| TaskApp.Listing | taskquest/src/app.rs:66-73 | all rows when completed tasks are shown; otherwise exactly the rows not Completed; a newest-first table gives a newest-first list |
| TaskApp.FirstWithId | taskquest/src/app.rs:175-184 | the position of the first task with the id, or none when no task has it |
| TaskApp.CompletedWithPoints | taskquest/src/app.rs:247-283 | the stored task is the finished task (Completed at now, pause folded in, every other field kept) with the award for that state, never below half its base |
| TaskApp.App.constructor | taskquest/src/app.rs:44-64 | every stored task is listed; normal mode, title focus, first row selected, empty form, no message |
| TaskApp.App.RefreshTasks | taskquest/src/app.rs:66-73 | the list is reloaded from the table by the view setting |
| TaskApp.App.RefreshStats | taskquest/src/app.rs:75-78 | the statistics are reloaded from their stored row |
| TaskApp.App.ReplaceTask | taskquest/src/app.rs:289-293 | the task replaces the selected entry of the list and its row in the table |
| TaskApp.App.MoveSelectionUp | taskquest/src/app.rs:88-92 | one row up, never below the first |
| TaskApp.App.MoveSelectionDown | taskquest/src/app.rs:94-99 | one row down, never past the last; a selection in range stays in range |
| TaskApp.App.StartAddTask | taskquest/src/app.rs:101-106 | adding mode with an empty title, focus on it, difficulty "5" |
| TaskApp.App.StartEditTask | taskquest/src/app.rs:108-121 | with a selection, the form holds its title and difficulty and remembers its id; without one, nothing changes |
| TaskApp.App.CancelInput | taskquest/src/app.rs:123-129 | back to normal mode with an empty form and no edited id |
| TaskApp.App.ToggleInputFocus | taskquest/src/app.rs:131-136 | focus moves to the other field |
| TaskApp.App.HandleInputChar | taskquest/src/app.rs:138-147 | the title takes any character; the difficulty field takes a digit only while shorter than two; nothing else changes |
| TaskApp.App.HandleInputBackspace | taskquest/src/app.rs:149-158 | the focused field loses its last character, if any |
| TaskApp.App.AddTask | taskquest/src/app.rs:170-174 | a new Pending row with the next id goes in front of the table; the list is reloaded; the message names the title; when no row is newer than now, a newest-first table and list stay newest first |
| TaskApp.App.EditTask | taskquest/src/app.rs:175-184 | the first listed task with the id takes the new title and difficulty, in the list and in its table row; otherwise nothing changes |
| TaskApp.App.SubmitTask | taskquest/src/app.rs:160-190 | a blank title only sets an error message; otherwise the trimmed title and the parsed difficulty are added or applied to the edited task, and the form is closed |
| TaskApp.App.DeleteSelectedTask | taskquest/src/app.rs:192-207 | the selected task's rows are deleted; the message names its title; the list is reloaded; the selection stays in range |
| TaskApp.App.ToggleTask | taskquest/src/app.rs:209-245 | a Completed or missing selection changes nothing; otherwise the task takes its toggled state in list and table, with its message |
| TaskApp.ToggleMessage | taskquest/src/app.rs:216-233 | a message for each status that the toggle changes, and none for Completed |
| TaskApp.ToggleMessagesDistinct | taskquest/src/app.rs:216-233 | two statuses get the same message exactly when they are equal |
| TaskApp.App.ToggleStep | taskquest/src/app.rs:215-234 | the task after the match is Toggled, and the message is the one for its old status |
| TaskApp.App.FinishTask | taskquest/src/app.rs:259-269 | the task after the completion steps is Finished |
| TaskApp.App.RecordCompletion | taskquest/src/app.rs:286-302 | the row is updated; the statistics take the completion and are saved; the list is reloaded; the message reports the points; the selection is pulled back into range |
| TaskApp.App.SaveCompletion | taskquest/src/app.rs:286-293 | the statistics take the completion and are saved; the task replaces its list entry and its row |
| TaskApp.App.ReloadAfterCompletion | taskquest/src/app.rs:295-302 | the award is reported; list and statistics are reloaded; the selection is pulled back into range |
| TaskApp.App.CompleteTask | taskquest/src/app.rs:247-305 | a missing selection changes nothing; a Completed one only gets "Task already completed!"; otherwise the task is stored Completed with its award and the statistics take the completion; valid statistics stay valid |
| TaskApp.App.ToggleCompletedView | taskquest/src/app.rs:307-312 | the view flips, the list is reloaded for it, and the first row is selected |
| PyText.Strip | whisper-voice-to-text/whisper-hotkey.py:589 | the result has no whitespace at its ends and is no longer than the input |
| PyText.StripCharsFrom | whisper-voice-to-text/whisper-hotkey.py:589 | every character the strip keeps comes from the input |
| PyText.StripKeepsNonSpace | whisper-voice-to-text/whisper-hotkey.py:589 | every non-whitespace character survives the strip |
| PyText.StripWindow | whisper-voice-to-text/whisper-hotkey.py:589 | the strip is the window from the first to the last non-whitespace character |
| PyText.RStripPunct | whisper-voice-to-text/whisper-hotkey.py:605 | a prefix of the input not ending in `.,!?`, with only those characters after it |
| PyText.Lower | whisper-voice-to-text/whisper-hotkey.py:589 | same length, lower-cased character by character |
| PyText.LowerIdempotent | whisper-voice-to-text/whisper-hotkey.py:592 | lower-casing twice is lower-casing once |
| PyText.SlicePrefix | whisper-voice-to-text/whisper-hotkey.py:599-603 | `s[:n]` is a prefix of length n, clipped, with a negative n counting from the end |
| PyText.Split | whisper-voice-to-text/whisper-hotkey.py:482 | at least one piece, none holding the separator |
| PyText.JoinSplit | whisper-voice-to-text/whisper-hotkey.py:482 | joining the pieces of a split with the separator gives the string back |
| Whisper.AfterFirst | whisper-voice-to-text/whisper-hotkey.py:486 | the text after the first `]`, and nothing before that `]` is another `]` |
| Whisper.AfterFirstAt | whisper-voice-to-text/whisper-hotkey.py:486 | splitting `[stamp]body` at the first `]` gives the body |
| Whisper.LineText | whisper-voice-to-text/whisper-hotkey.py:485-488 | a line contributes nothing or a clean text, and something only when it starts with `[` and holds `]` |
| Whisper.LineTextShape | whisper-voice-to-text/whisper-hotkey.py:485-488 | a line contributes only when it starts with `[` and holds `]`; it contributes the stripped text after the first `]`, which is clean |
| Whisper.Segments | whisper-voice-to-text/whisper-hotkey.py:483-488 | at most one part per line |
| Whisper.SegmentsAreClean | whisper-voice-to-text/whisper-hotkey.py:487-488 | every collected part is non-empty, stripped and does not start with `(` |
| Whisper.TimestampedText | whisper-voice-to-text/whisper-hotkey.py:485-488 | one iteration of the loop yields the line's text |
| Whisper.CollectTextParts | whisper-voice-to-text/whisper-hotkey.py:483-488 | the loop collects exactly the segments of the lines |
| Whisper.ExtractTranscript | whisper-voice-to-text/whisper-hotkey.py:482-490 | the extracted text is the joined segments of the stripped output's lines |
| Whisper.JoinOfCleanIsStripped | whisper-voice-to-text/whisper-hotkey.py:490 | clean parts joined with spaces have no whitespace at the ends and are non-empty when any part exists |
| Whisper.TranscriptNeedsNoFinalStrip | whisper-voice-to-text/whisper-hotkey.py:490 | the closing `.strip()` changes nothing |
| Whisper.LineTextOfStamped | whisper-voice-to-text/whisper-hotkey.py:485-488 | a `[stamp]body` line contributes the stripped body unless that is empty or a note |
| Whisper.NoteLineIsSkipped | whisper-voice-to-text/whisper-hotkey.py:487 | a `(music)` note after the timestamp is skipped |
| Whisper.PhraseLast | whisper-voice-to-text/whisper-hotkey.py:558-587 | the table of last characters matches the 28 phrases |
| Whisper.LoweredIsCanonical | whisper-voice-to-text/whisper-hotkey.py:589 | `text.lower().strip()` is stripped, no longer than the text and has no upper-case ASCII letter |
| Whisper.CutOnce | whisper-voice-to-text/whisper-hotkey.py:597-607 | a phrase the lowered text does not end with keeps the text; giving up the whole text needs the lowered text to end with the phrase; a kept text is never longer |
| Whisper.CutSuffixes | whisper-voice-to-text/whisper-hotkey.py:596-607 | no phrases keep the text; a kept text is never longer than the input |
| Whisper.KeepIfMeaningful | whisper-voice-to-text/whisper-hotkey.py:610-617 | what survives is longer than two characters and stripped |
| Whisper.FilterAsWritten | whisper-voice-to-text/whisper-hotkey.py:554-617 | empty input stays empty; an exact phrase gives ""; any non-empty result is stripped and longer than two characters |
| Whisper.CutStep | whisper-voice-to-text/whisper-hotkey.py:596-607 | the loop from phrase k is one pass with phrase k, then the rest |
| Whisper.CutOnePhrase | whisper-voice-to-text/whisper-hotkey.py:597-607 | one iteration equals one pass of the as-written loop |
| Whisper.CutPhrases | whisper-voice-to-text/whisper-hotkey.py:596-607 | the loop equals the as-written suffix loop |
| Whisper.FilterWith | whisper-voice-to-text/whisper-hotkey.py:554-617 | the method equals the as-written filter for the blacklist it is given |
| Whisper.FilterHallucinations | whisper-voice-to-text/whisper-hotkey.py:527-617 | the method equals the as-written filter with the source's blacklist |
| Whisper.BareSuffixIsDropped | whisper-voice-to-text/whisper-hotkey.py:598-607 | a lowered text that is only whitespace plus a blacklisted ending makes the loop give up the whole text |
| Whisper.OnlySuffixIsDropped | whisper-voice-to-text/whisper-hotkey.py:596-607 | such a text is filtered to "" |
| Whisper.CutOnceKeepsChars | whisper-voice-to-text/whisper-hotkey.py:602-605 | a pass only keeps characters of the text it cut |
| Whisper.CutSuffixesKeepsChars | whisper-voice-to-text/whisper-hotkey.py:596-607 | the loop only keeps characters of the original text |
| Whisper.StripKeepsNonSpaceChars | whisper-voice-to-text/whisper-hotkey.py:614-617 | with plain spaces only, stripping keeps the set of non-space characters |
| Whisper.PlainTextResultHasThreeDistinct | whisper-voice-to-text/whisper-hotkey.py:614-617 | for a text whose only whitespace is the plain space, a non-empty result has more than two distinct non-space characters |
| Whisper.TabCountsAsDistinct | whisper-voice-to-text/whisper-hotkey.py:614-617 | "aab\t" is kept as "aab", which has only two distinct characters |
| Whisper.SkipPhrases | whisper-voice-to-text/whisper-hotkey.py:596-598 | phrases ending in another character than the lowered text are passed over |
| Whisper.PassOver | whisper-voice-to-text/whisper-hotkey.py:597-598 | a phrase the lowered text does not end with leaves the text as it is |
| Whisper.DotCutsToYes | whisper-voice-to-text/whisper-hotkey.py:596-605 | the pass with "." cuts "yes..." to "yes" |
| Whisper.StaleLoweredCutsYes | whisper-voice-to-text/whisper-hotkey.py:596-605 | as written, the pass with "..." still matches the stale lowered "yes..." and cuts "yes" to "" |
| Whisper.StaleLoopEmptiesYes | whisper-voice-to-text/whisper-hotkey.py:596-607 | as written, any blacklist ending in "." and "..." (and with no other phrase ending in a dot) empties "yes..." |
| Whisper.AsWrittenLoopEmptiesYes | whisper-voice-to-text/whisper-hotkey.py:596-607 | as written, the loop turns "yes..." into "" |
| Whisper.AsWrittenDropsYes | whisper-voice-to-text/whisper-hotkey.py:589-617 | as written, the reply "yes..." is filtered to "" |
| Whisper.EmptiedIsDropped | whisper-voice-to-text/whisper-hotkey.py:610-611 | a text the loop cuts down to nothing is filtered to "" |
| Whisper.FilterCorrected | whisper-voice-to-text/whisper-hotkey.py:554-617 | with the loop re-lowering the current text: empty stays empty; an exact phrase gives ""; a non-empty result is stripped and longer than two characters |
| Whisper.CorrectedCutRemovesPhrase | whisper-voice-to-text/whisper-hotkey.py:598-605 | a corrected pass removes the phrase from the end of the stripped text and then only whitespace and `.,!?` |
| Whisper.CorrectedCutKeepsContent | whisper-voice-to-text/whisper-hotkey.py:598-605 | a corrected pass never cuts a content character that comes before the phrase |
| Whisper.CutOnceKeepsPrefix | whisper-voice-to-text/whisper-hotkey.py:598-605 | on a stripped text that ends with the phrase, a pass that keeps something removes the phrase and then only whitespace and `.,!?` |
| Whisper.ContentBeforePhraseIsKept | whisper-voice-to-text/whisper-hotkey.py:599-600 | a non-whitespace character before the phrase means the pass keeps something |
| Whisper.CutOnceFixed | whisper-voice-to-text/whisper-hotkey.py:597-607 | with the current text re-lowered: a phrase it does not end with keeps the text; giving up the text needs it to end with the phrase; a kept text is never longer |
| Whisper.CutSuffixesFixed | whisper-voice-to-text/whisper-hotkey.py:596-607 | the corrected loop with no phrases keeps the text; a kept text is never longer than the input |
| Whisper.SkipPhrasesFixed | whisper-voice-to-text/whisper-hotkey.py:596-598 | the corrected loop passes over phrases ending in another character than the current text |
| Whisper.CutStepFixed | whisper-voice-to-text/whisper-hotkey.py:596-607 | the corrected loop from phrase k is one corrected pass, then the rest |
| Whisper.FixedLoopKeepsYes | whisper-voice-to-text/whisper-hotkey.py:596-607 | the corrected loop over any blacklist ending in "." and "..." cuts "yes..." to "yes" |
| Whisper.CorrectedLoopKeepsYes | whisper-voice-to-text/whisper-hotkey.py:596-607 | the corrected loop over the source's blacklist cuts "yes..." to "yes" |
| Whisper.CorrectedKeepsYes | whisper-voice-to-text/whisper-hotkey.py:589-617 | with the loop corrected, the reply "yes..." is kept as "yes" |
| Whisper.LongTextIsNoPhrase | whisper-voice-to-text/whisper-hotkey.py:558-587 | no blacklisted phrase is longer than 25 characters |
| Whisper.CutAfterContent | whisper-voice-to-text/whisper-hotkey.py:598-605 | content, a space and a lower-case phrase: the pass cuts back to exactly the content |
| Whisper.FilterContentThenPhrase | whisper-voice-to-text/whisper-hotkey.py:589-617 | content followed by the first phrase, when the later phrases pass and the content is meaningful, is filtered to the content |
| Whisper.DocExampleHelloWorld | whisper-voice-to-text/whisper-hotkey.py:549 | "Hello world thank you for watching" becomes "Hello world" |
| Whisper.ExactPhraseIsDropped | whisper-voice-to-text/whisper-hotkey.py:591-593 | any blacklisted phrase given as the whole text becomes "" |
| Whisper.DocExampleThanks | whisper-voice-to-text/whisper-hotkey.py:550 | "thanks for watching" becomes "" |
| Whisper.DocExampleYou | whisper-voice-to-text/whisper-hotkey.py:552 | "you" becomes "" |
| Whisper.BellSkipsAll | whisper-voice-to-text/whisper-hotkey.py:596-607 | no phrase ends in `l`, so a lowered text ending in `l` passes the loop untouched |
| Whisper.DocExampleBellIsKept | whisper-voice-to-text/whisper-hotkey.py:551 | "Please subscribe and hit the bell" is kept as it is, not filtered to "" as the docstring says |

## Left out

- SQLite I/O and every `?` error path of `db.rs`. The table is a sequence of rows, AUTOINCREMENT is the `nextId` counter, and the `user_stats` row is `storedStats`.
- `Database::get_avg_time_by_difficulty` (a JULIANDAY average over completed rows): the averages are an input `avgTimes` of `CompleteTask`, `EfficiencyScore` and `TaskPoints`.
- RFC 3339 date parsing and formatting. Times are whole seconds, and the clock is a parameter. `update_streak` reads its own `Utc::now()`; here it gets the same `now` as `complete_task`.
- `f32`/`f64` rounding, infinities and underflow: scores and bonuses are `real`. The one infinite case that matters is the time bonus against a zero average with non-positive active time, where the IEEE ratio is infinite and the bonus caps at 50%. That case is written out explicitly.
- 32- and 64-bit overflow of ids, points and counters, and the saturation of `as i32` at the i32 bounds. Integers are unbounded. `parse::<i32>` does check the i32 range.
- Scoring.TaskPoints: its `ensures` gives the floor and the untimed case. The upper bound is the separate lemma `PointsBounded`, and the exact timed value is left to its body.
- `str.lower()` is modelled for ASCII letters only. Python also folds non-ASCII letters.
- `ui.rs` and `main.rs` (drawing, key handling and the event loop), plus `App::switch_view`, `View`, `visible_tasks`, `selected_task` and `should_quit`. These are screen navigation, not task logic.
- The Whisper script's recording, the whisper-cli subprocess, its timeout, the clipboard, typing, hotkeys and threads. The model starts from whisper-cli's standard output as a string.
- Whisper.PlainTextResultHasThreeDistinct: holds only for texts whose only whitespace is the plain space. The distinct-character test runs before the final strip, so a tab or newline counts as a character; `TabCountsAsDistinct` shows "aab\t" kept as "aab".
- The comment in `calculate_focus_bonus` (scoring.rs line 68) says "up to 20%". The code pays at most 10% of the base, and the model follows the code (`FocusBonus`).
- `update_streak` never raises `longest_streak` on the first completion, so the current streak can exceed the longest. `FirstCompletionOutrunsLongest` states this as the code has it.
- The docstring of `_filter_hallucinations` says "Please subscribe and hit the bell" is filtered out. The code keeps it, because no phrase ends in "l"; the model follows the code (`DocExampleBellIsKept`).
- The order of the listings: the table keeps insertion order with new rows in front, which equals `ORDER BY created_at DESC` only while the clock never runs back. `NewestFirst` is proved kept by insertion at a time no earlier than any row, by UPDATE, DELETE and the pending listing; rows with equal creation times may come out in another order than SQLite's.
- `App::new` loads every task with `get_all_tasks` although `show_completed` starts false. The model follows the code, so the first list can include Completed tasks until the next refresh.

## Findings

| source | as written | input that shows it | evidently intended | confidence | as-written member | corrected member |
|---|---|---|---|---|---|---|
| whisper-voice-to-text/whisper-hotkey.py:596-607 | `text_lower` is computed once before the suffix loop and never refreshed. After one phrase is cut from `text`, later phrases are still tested against the old lowered text, while the cut of `len(halluc)` characters is applied to the already shortened `text`. | "yes..." — "." cuts it to "yes", then "..." still matches the stale "yes..." and cuts "yes" to "", so the reply is dropped | each phrase is tested against the current text (lowered and stripped), so "yes..." becomes "yes" | not executed | Whisper.AsWrittenDropsYes | Whisper.CorrectedKeepsYes |
