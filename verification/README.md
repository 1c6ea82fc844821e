# Fit-streak workout tracker: a Dafny model of its state logic

The application is a single-page React workout tracker with five screens of
logic. This project models the state each screen keeps and the handlers that
change it, as pure Dafny functions over immutable datatypes, and proves what
those handlers promise.

- **The live workout screen** (`WorkoutTracker.tsx`) is split into two modules:
  - `WorkoutLedger` is the exercise/set ledger. It holds the set edits (update a field, add a blank set, remove a set, the reset of "Start New Workout"), the completed-set count, the progress percentage and the total volume.
  - `WorkoutSession` is the three-phase state machine (not started, in progress, completed) over that ledger. It offers only the controls the screen renders: the weight input is hidden for push-ups, a set's remove button needs at least two sets, and "Complete Workout" is disabled until a set is done.
- **The progress screen** (`ProgressTracker.tsx`) is split into two modules:
  - `Strength` holds the rounded Epley one-rep-max estimate and the weight-then-reps "new record" comparison.
  - `ProgressSeries` holds the latest/previous entry look-up, the stat-card analysis and the seed history.
- **The split editor** (`SplitManager.tsx`) is the module `SplitEditor`. It covers the check-box toggles, submit in create and edit mode, edit, delete and form reset.
- **The exercise library** (`ExerciseLibrary.tsx`) is the module `ExerciseCatalog`. It covers:
  - case-insensitive substring search with the two "All"-or-exact drop-downs;
  - adding an exercise;
  - the muscle-group colour table.
- **The month calendar** (`WorkoutCalendar.tsx`) is the module `WorkoutCalendar`. It covers month navigation, the grid of leading blanks and day cells, and the today and workout flags.
  - Its date arithmetic, in `Gregorian`, follows the day-number definitions of ECMA-262 section 21.4.1: `DayFromYear`, `MakeDay` and `WeekDay`.

Shared helpers:

- `Wrappers` has `Option`.
- `Seqs` has an order-preserving `Filter`, plus `Map`. The contract of `Filter` covers the subsequence order, membership and the multiplicity of every element.

Model conventions:

- Identifiers that the source draws from `Date.now()` are parameters of the handlers.
- The current date and "today" are parameters of the calendar.
- Numbers are unbounded integers. The percentage is an exact rational.

## Model

| member | source | states |
|---|---|---|
| WorkoutLedger.UpdateSet | src/components/WorkoutTracker.tsx:60-71 | a set receives the new field value exactly when both its exercise id and its own id match; the shape and every other field stay; unknown ids leave the ledger unchanged |
| WorkoutLedger.AddSet | src/components/WorkoutTracker.tsx:73-87 | each matching exercise keeps its sets as a prefix and gains one blank set (0 reps, 0 weight, not done) with the new id at the end; other exercises are untouched |
| WorkoutLedger.RemoveSet | src/components/WorkoutTracker.tsx:89-98 | each matching exercise keeps, in order and with their multiplicities, exactly the sets whose id differs from the removed one; other exercises are untouched; an unknown id changes nothing |
| WorkoutLedger.ResetSets | src/components/WorkoutTracker.tsx:144-153 | every set ends up not done while ids, reps, weights, order and exercise fields are kept |
| WorkoutLedger.TotalSets | src/components/WorkoutTracker.tsx:108 | the set total is at least the set count of every exercise, and is 0 exactly when no exercise has a set |
| WorkoutLedger.CompletedSets | src/components/WorkoutTracker.tsx:109-111 | the completed count never exceeds the total and is positive exactly when some set is done |
| WorkoutLedger.TickMovesCountByOne | src/components/WorkoutTracker.tsx:60-71 | in a ledger with distinct ids, ticking one set off raises the completed count by exactly 1, unticking lowers it by 1, and the total stays |
| WorkoutLedger.TickInSets | src/components/WorkoutTracker.tsx:110 | within one exercise with distinct set ids, writing one set's flag moves the number of done sets by exactly 1 |
| WorkoutLedger.CompletedSetsBySets | src/components/WorkoutTracker.tsx:109-111 | the completed count depends only on the sets of each exercise |
| WorkoutLedger.CompletedSetsPointUpdate | src/components/WorkoutTracker.tsx:109-111 | changing the sets of one exercise changes the completed count by exactly the change in that exercise's done sets |
| WorkoutLedger.ProgressPercentage | src/components/WorkoutTracker.tsx:113 | the bar width lies in 0..100, is 0 for an empty ledger, and is positive exactly when some set is done |
| WorkoutLedger.Percent | src/components/WorkoutTracker.tsx:113 | with sets present, the percentage times the total equals the completed count times 100; it lies in 0..100, is 0 without sets, and is positive exactly when something is done |
| WorkoutLedger.FortyPercentScenario | src/components/WorkoutTracker.tsx:108-113 | two of five sets done gives 5 total, 2 completed, 40% |
| WorkoutLedger.SetsVolume | src/components/WorkoutTracker.tsx:137 | the weight-times-reps sum of one exercise is 0 when every set is done without weight; SetsVolumeSnoc and SetsVolumePointUpdate fix it as the sum of weight times reps |
| WorkoutLedger.TotalVolume | src/components/WorkoutTracker.tsx:137 | the "Total Volume" figure is 0 for a session without any weighted set; TotalVolumePointUpdate and EditMovesVolume fix it as the sum of every set's weight times reps |
| WorkoutLedger.SetsVolumeSnoc | src/components/WorkoutTracker.tsx:137 | appending a set adds exactly its weight times its reps to an exercise's volume |
| WorkoutLedger.SetsVolumePointUpdate | src/components/WorkoutTracker.tsx:137 | changing one set alone moves an exercise's volume by the change in that set's weight times reps |
| WorkoutLedger.TotalVolumePointUpdate | src/components/WorkoutTracker.tsx:137 | changing one exercise's sets alone moves the total volume by the change in that exercise's volume |
| WorkoutLedger.SetsVolumeRemove | src/components/WorkoutTracker.tsx:137 | filtering out the set with a unique id takes exactly its weight times reps off the exercise's volume |
| WorkoutLedger.EditMovesVolume | src/components/WorkoutTracker.tsx:60-71 | editing one field of one set moves the total volume from that set's old weight times reps to its new one; a weight edit from w0 to w on n reps adds (w - w0) * n, a tick adds nothing |
| WorkoutLedger.AddKeepsVolume | src/components/WorkoutTracker.tsx:73-87 | "Add Set" leaves the total volume unchanged, since the new set has weight 0 |
| WorkoutLedger.RemoveLowersVolume | src/components/WorkoutTracker.tsx:89-98 | removing a set by its id takes exactly its weight times reps off the total volume |
| WorkoutLedger.VolumeNonNegative | src/components/WorkoutTracker.tsx:137 | the total volume of non-negative reps and weights is non-negative |
| WorkoutLedger.SetsVolumeNonNegative | src/components/WorkoutTracker.tsx:137 | the volume of one exercise's non-negative sets is non-negative |
| WorkoutLedger.ZeroWeightAddsNothing | src/components/WorkoutTracker.tsx:137 | dropping the zero-weight sets (push-ups) does not change an exercise's volume |
| WorkoutLedger.VolumeIgnoresCompletion | src/components/WorkoutTracker.tsx:137 | two ledgers of the same shape with equal reps and weights have equal total volume, whatever is ticked off |
| WorkoutLedger.SetsVolumeIgnoresCompletion | src/components/WorkoutTracker.tsx:137 | the same for the sets of one exercise |
| WorkoutLedger.AddRaisesTotal | src/components/WorkoutTracker.tsx:73-87 | in a well-formed ledger, "Add Set" raises the set total by exactly one |
| WorkoutLedger.RemoveLowersTotal | src/components/WorkoutTracker.tsx:89-98 | in a well-formed ledger, removing a set by its id lowers the set total by exactly one |
| WorkoutLedger.TotalSetsPointUpdate | src/components/WorkoutTracker.tsx:108 | changing the sets of one exercise changes the total by exactly the change in that exercise's set count |
| WorkoutLedger.TotalSetsByShape | src/components/WorkoutTracker.tsx:108 | ledgers with the same number of sets per exercise have the same set total |
| WorkoutLedger.ResetClearsProgress | src/components/WorkoutTracker.tsx:144-153 | after the reset nothing is done, and the set total, the volume and well-formedness are kept |
| WorkoutLedger.ToggleTwiceRestores | src/components/WorkoutTracker.tsx:246-247 | clicking a set's check button twice gives back the ledger |
| WorkoutLedger.AddThenRemoveRestores | src/components/WorkoutTracker.tsx:73-98 | adding a set with a fresh id and removing that id gives back the ledger |
| WorkoutLedger.RemoveUniqueSet | src/components/WorkoutTracker.tsx:94 | removing an id that occurs once drops exactly one set and keeps the ids distinct |
| WorkoutSession.Enabled | src/components/WorkoutTracker.tsx:172-276 | every control belongs to one view: start to the pre-start view, "Start New Workout" to the summary, all other controls to the in-progress view |
| WorkoutSession.Step | src/components/WorkoutTracker.tsx:115-283 | an action takes effect exactly when the current view offers its control. Start moves to in progress with the ledger kept. Complete moves to the summary with the ledger kept and a set done. Start-new returns to not started with the reset ledger, nothing done and the same set total. A field edit, an added set and a removed set stay in progress with the ledger that `UpdateSet`, `AddSet` and `RemoveSet` give |
| WorkoutSession.InitialInv | src/components/WorkoutTracker.tsx:23-58 | the seed Push Day has distinct ids, no empty exercise and nothing done |
| WorkoutSession.StepPreservesInv | src/components/WorkoutTracker.tsx:115-283 | every offered action keeps ids distinct and every exercise non-empty; the start screen never shows done sets and the summary screen always has one |
| WorkoutSession.EditKeepsWellFormed | src/components/WorkoutTracker.tsx:60-71 | a field edit keeps ids distinct and set counts unchanged |
| WorkoutSession.AddKeepsWellFormed | src/components/WorkoutTracker.tsx:73-87 | adding a set with an id fresh in that exercise keeps ids distinct |
| WorkoutSession.RemoveKeepsInv | src/components/WorkoutTracker.tsx:257-264 | removal offered only on exercises with more than one set never empties one, and keeps ids distinct |
| WorkoutSession.CompleteNeedsProgress | src/components/WorkoutTracker.tsx:274-276 | "Complete Workout" is enabled exactly when the progress bar is not empty |
| WorkoutSession.StartOnlyWhenNotStarted | src/components/WorkoutTracker.tsx:172-179 | start is offered only before the start; complete followed by start-new returns to not started with the reset ledger |
| Strength.RoundThirtieths | src/components/ProgressTracker.tsx:77 | the result is the integer nearest to n/30, halves rounded up |
| Strength.OneRepMax | src/components/ProgressTracker.tsx:75-78 | a single rep gives the weight itself; otherwise the estimate is weight*(30+reps)/30 rounded half up |
| Strength.OneRepMaxAtLeastWeight | src/components/ProgressTracker.tsx:75-78 | for non-negative inputs the estimate is never below the weight |
| Strength.OneRepMaxMonotoneInWeight | src/components/ProgressTracker.tsx:75-78 | at a fixed rep count a heavier set never gets a smaller estimate |
| Strength.OneRepMaxMonotoneInReps | src/components/ProgressTracker.tsx:75-78 | at a fixed non-negative weight more reps never give a smaller estimate |
| Strength.OneRepMaxExamples | src/components/ProgressTracker.tsx:75-78 | concrete estimates: 245x3 is 270, 150x6 is 180, 155x6 is 186, 160x5 and 165x4 are 187, 275x2 is 293, 285x1 is 285 |
| Strength.Improved | src/components/ProgressTracker.tsx:64-66 | an improvement never lifts less weight, and never repeats the same weight and reps |
| Strength.SameWeightRecordKeepsEstimate | src/components/ProgressTracker.tsx:64-66 | a record at the same weight (more reps) never lowers the estimated maximum |
| Strength.ImprovedIsStrictLexOrder | src/components/ProgressTracker.tsx:64-66 | the improvement test is the strict lexicographic order on (weight, reps) and ignores the date |
| ProgressSeries.SeriesFor | src/components/ProgressTracker.tsx:60 | a known exercise yields its series, an unknown one the empty series |
| ProgressSeries.Latest | src/components/ProgressTracker.tsx:61 | present exactly when the series is non-empty, and then it is the last entry |
| ProgressSeries.Previous | src/components/ProgressTracker.tsx:62 | present exactly when the series has at least two entries, and then it is the second-to-last |
| ProgressSeries.HasImproved | src/components/ProgressTracker.tsx:64-66 | false when either entry is missing; with both present, it is the improvement test on them |
| ProgressSeries.MaxOf | src/components/ProgressTracker.tsx:80-81 | 0 for a missing entry, otherwise the entry's one-rep estimate, which is at least its weight for a real lift |
| ProgressSeries.Analyze | src/components/ProgressTracker.tsx:60-82 | the cards show the last and second-to-last entries. The current and previous estimates are the one-rep estimates of those entries, or 0 where an entry is missing. The flag is raised exactly when there are two entries and the last improves on the one before. The delta is current minus previous |
| ProgressSeries.AnalyzeReadsLastTwo | src/components/ProgressTracker.tsx:60-82 | the analysis depends on the last two entries only |
| ProgressSeries.AppendShiftsLatest | src/components/ProgressTracker.tsx:61-66 | logging an entry makes it the latest, makes the old latest the previous, and sets the flag by comparing the two |
| ProgressSeries.ImprovedWithoutGain | src/components/ProgressTracker.tsx:12-82 | on the seed bench-press and deadlift histories the record flag is raised while the estimate gains 0 and -8, so no "+N lbs" appears |
| ProgressSeries.UnknownExerciseIsEmpty | src/components/ProgressTracker.tsx:60-82 | an exercise without history shows no entries, no flag and zero estimates |
| ProgressSeries.TwoEntryScenario | src/components/ProgressTracker.tsx:75-82 | 150x6 then 155x6 is a record with estimates 180 and 186 and a gain of 6 |
| SplitEditor.Toggle | src/components/SplitManager.tsx:84-100 | the item is selected afterwards exactly when it was not before, other items keep their state, an absent item is appended, a present one is removed |
| SplitEditor.ToggleKeepsNoDuplicates | src/components/SplitManager.tsx:84-100 | toggling keeps a duplicate-free selection duplicate-free |
| SplitEditor.ToggleTwice | src/components/SplitManager.tsx:84-100 | toggling twice restores the selected set, and restores the list when the item was unselected |
| SplitEditor.ToggleDay | src/components/SplitManager.tsx:84-91 | flips one day and leaves the name, the exercises and every other day alone |
| SplitEditor.ToggleExercise | src/components/SplitManager.tsx:93-100 | flips one exercise and leaves the name, the days and every other exercise alone |
| SplitEditor.ReplaceFields | src/components/SplitManager.tsx:47-52 | splits with the edited id take the form's fields and keep their id and position; the others are unchanged |
| SplitEditor.Create | src/components/SplitManager.tsx:53-58 | the list grows by one split, with the new id and the form's fields, at the end |
| SplitEditor.ResetForm | src/components/SplitManager.tsx:64-68 | the form is empty, nothing is being edited and the modal is closed, with the splits kept |
| SplitEditor.Submit | src/components/SplitManager.tsx:44-62 | submit edits in place when a split is being edited and creates otherwise, then resets the form |
| SplitEditor.EditSplit | src/components/SplitManager.tsx:70-78 | the form holds the split's fields, the split is the edit target and the modal is open |
| SplitEditor.DeleteSplit | src/components/SplitManager.tsx:80-82 | keeps, in order and with their multiplicities, exactly the splits with a different id; an unknown id changes nothing |
| SplitEditor.EditSubmitReplacesOne | src/components/SplitManager.tsx:44-62 | with distinct ids, submitting an edit changes only the edited position and keeps the length |
| SplitEditor.EditUnchangedIsIdentity | src/components/SplitManager.tsx:44-78 | opening a split for edit and submitting unchanged leaves the splits as they were |
| SplitEditor.CreateThenDeleteRestores | src/components/SplitManager.tsx:53-82 | creating with a fresh id then deleting it gives back the list; creating keeps ids distinct |
| ExerciseCatalog.LowerChar | src/components/ExerciseLibrary.tsx:42 | upper-case ASCII letters map to their lower-case letters, every other character to itself |
| ExerciseCatalog.Includes | src/components/ExerciseLibrary.tsx:42 | true exactly when the needle occurs at some position of the haystack |
| ExerciseCatalog.Matches | src/components/ExerciseLibrary.tsx:42-45 | a match needs a search term no longer than the name; the empty search with both drop-downs on "All" matches every entry |
| ExerciseCatalog.Filtered | src/components/ExerciseLibrary.tsx:41-46 | the list is an in-order selection of the catalog holding exactly the entries whose lower-cased name contains the lower-cased search and that pass both drop-downs, each as often as in the catalog |
| ExerciseCatalog.UnfilteredIsCatalog | src/components/ExerciseLibrary.tsx:27-46 | with an empty search and both drop-downs on "All" the whole catalog is shown |
| ExerciseCatalog.NarrowingShrinks | src/components/ExerciseLibrary.tsx:41-46 | typing more characters or choosing a specific group or equipment shows a sub-list of what was shown |
| ExerciseCatalog.SearchIgnoresCase | src/components/ExerciseLibrary.tsx:42 | lower-casing the name or the search term first does not change the result |
| ExerciseCatalog.AddExercise | src/components/ExerciseLibrary.tsx:48-57 | the catalog is kept as a prefix and the new entry with the form's fields is appended |
| ExerciseCatalog.AddedExerciseListedIfMatching | src/components/ExerciseLibrary.tsx:41-57 | after adding, the filtered list is the old one followed by the new entry exactly when it matches |
| ExerciseCatalog.Lookup | src/components/ExerciseLibrary.tsx:68 | the value of the first entry with the key, or the default when no entry has the key |
| ExerciseCatalog.MuscleGroupColor | src/components/ExerciseLibrary.tsx:59-69 | each of the six groups in the table gets its table colour, and the gray fallback is returned exactly for the groups outside it |
| ExerciseCatalog.ColorsDistinguishGroups | src/components/ExerciseLibrary.tsx:59-69 | distinct known groups get distinct colours |
| Gregorian.DayFromYear | src/components/WorkoutCalendar.tsx:15-18 | the day number of 1 January is negative exactly for the years before 1970 |
| Gregorian.MakeDay | src/components/WorkoutCalendar.tsx:15-18 | after the month carries into the year, the first of the month lies within that year |
| Gregorian.DaysInMonth | src/components/WorkoutCalendar.tsx:16-17 | every month has 28 to 31 days, and February has 29 exactly in leap years |
| Gregorian.WeekDay | src/components/WorkoutCalendar.tsx:18 | the weekday is in 0..6 |
| Gregorian.DayFromYearStep | src/components/WorkoutCalendar.tsx:15-18 | consecutive years start 365 or 366 days apart according to the leap rule |
| Gregorian.NextMonthStart | src/components/WorkoutCalendar.tsx:15-17 | the first of the next month lies the month's length after the first of this month, across a year end too |
| Gregorian.LastDayTrick | src/components/WorkoutCalendar.tsx:16-17 | day 0 of the next month is the last day of this month, so its date is the month's length |
| Gregorian.NextMonthWeekDay | src/components/WorkoutCalendar.tsx:15-18 | the weekday of the first advances by the month's length modulo 7 |
| Gregorian.EpochIsThursday | src/components/WorkoutCalendar.tsx:18 | day 0, 1 January 1970, is a Thursday |
| Gregorian.NewYear2024IsMonday | src/components/WorkoutCalendar.tsx:18 | 1 January 2024 is a Monday |
| Gregorian.LeapExamples | src/components/WorkoutCalendar.tsx:16-17 | February has 29 days in 2024 and 2000, 28 in 1900 |
| WorkoutCalendar.NavigateMonth | src/components/WorkoutCalendar.tsx:27-29 | the result is the first of the month one before or after the current month |
| WorkoutCalendar.NavigateRollsOverYear | src/components/WorkoutCalendar.tsx:27-29 | December steps to January of the next year and January back to December of the previous year |
| WorkoutCalendar.NavigateRoundTrip | src/components/WorkoutCalendar.tsx:27-29 | next then prev, or prev then next, returns to the first of the month |
| WorkoutCalendar.MakeFullYear | src/components/WorkoutCalendar.tsx:28 | the year passed to `Date` is never left a two-digit year: it comes back unchanged or moved up by 1900 |
| WorkoutCalendar.NavigateAsWritten | src/components/WorkoutCalendar.tsx:28 | outside years 0..99 the as-written step equals the intended one; inside them it steps from the year plus 1900 |
| WorkoutCalendar.NavigateAsWrittenSkipsCenturies | src/components/WorkoutCalendar.tsx:28 | prev from January of year 100 reaches December 99, from where next gives January 2000 and the round trip gives December 1999 |
| WorkoutCalendar.StartingDayOfWeek | src/components/WorkoutCalendar.tsx:15-18 | the number of leading blanks is the weekday of the first, in 0..6 |
| WorkoutCalendar.MonthShapeAsWritten | src/components/WorkoutCalendar.tsx:15-18 | outside years 0..99 the as-written blanks and month length equal the intended ones |
| WorkoutCalendar.MonthShapeAsWrittenLosesLeapDay | src/components/WorkoutCalendar.tsx:15-17 | the as-written month shape gives February of the leap year 0 only 28 days; the navigation never displays year 0, so this shows the mechanism, not a reachable screen |
| WorkoutCalendar.December99StartsLate | src/components/WorkoutCalendar.tsx:15-28 | paging back from January 100 displays December 99, whose as-written grid starts at weekday 3 (1 December 1999) instead of 2 (1 December 99); both give 31 days |
| WorkoutCalendar.IsToday | src/components/WorkoutCalendar.tsx:31-35 | a day is today's exactly when its date in the displayed month equals today's date |
| WorkoutCalendar.HasWorkout | src/components/WorkoutCalendar.tsx:37-39 | a day is marked exactly when its number is at some position of the list |
| WorkoutCalendar.MarkedDaysFitEveryMonth | src/components/WorkoutCalendar.tsx:9 | the twelve seeded day numbers increase, all exist in every month, and the 2nd is not among them |
| WorkoutCalendar.Grid | src/components/WorkoutCalendar.tsx:41-74 | the given number of blanks, then one cell per day in order, flagged today exactly on today's date and workout exactly on listed numbers |
| WorkoutCalendar.Layout | src/components/WorkoutCalendar.tsx:15-74 | each date of the displayed month appears once, in the column of its own weekday |
| WorkoutCalendar.RenderCalendarDays | src/components/WorkoutCalendar.tsx:41-74 | given the weekday of the first and the month length, the two loops produce exactly that many blanks followed by one cell per day, each flagged today and workout as the two predicates say |
| WorkoutCalendar.LayoutShape | src/components/WorkoutCalendar.tsx:41-74 | the grid is the weekday-of-the-first blanks followed by days 1..length in increasing order, and fits 42 cells |
| WorkoutCalendar.AtMostOneToday | src/components/WorkoutCalendar.tsx:31-35 | at most one cell is flagged today; one is flagged only in today's month and year, at today's day, and it is flagged whenever today falls in the displayed month |
| WorkoutCalendar.WorkoutFlagIgnoresMonth | src/components/WorkoutCalendar.tsx:37-39 | day d carries the workout flag in every displayed month alike, exactly when d is in the list |
| WorkoutCalendar.CellStyle | src/components/WorkoutCalendar.tsx:57-63 | the today style is used exactly on today's cell and the workout style exactly on the other workout days |
| WorkoutCalendar.ShowsDot | src/components/WorkoutCalendar.tsx:66-68 | the dot is drawn exactly on the cells in the workout style |
| WorkoutCalendar.DottedDaysAreListedDays | src/components/WorkoutCalendar.tsx:57-68 | in a displayed month, a day carries the dot exactly when its number is in the workout list and its date is not today's, and every dotted day is drawn in the workout style |

## Left out

- Rendering: JSX, layout classes other than the calendar cell style, icons, toasts, modals and the progress chart are not modelled, because they are presentation only.
- The dashboard is not modelled: it shows constant streak and workout figures and a motivational message drawn with `Math.random`, and it hosts the calendar modelled in `WorkoutCalendar`. The app shell and the navigation bar are not modelled, because they only switch screens.
- Identifiers from `Date.now().toString()` are a caller-supplied `newId`. Where freshness matters (adding a set) it is a precondition of the action, because the clock cannot be modelled.
- Text-to-number input parsing (`parseInt(...) || 0`) is not modelled. Field edits carry the already-parsed integer.
- Strength.OneRepMax: computes with exact rationals rather than IEEE doubles. `Math.round(weight * (1 + reps / 30))` on doubles may differ by one at exact halves, where the double product lands just below .5.
- WorkoutLedger.ProgressPercentage: is an exact rational rather than a double.
- Number formatting is not modelled: `toLocaleString` for the volume and `toLocaleDateString` for chart dates.
- Time zones are not modelled. The calendar works on local year, month and day; the current date and today are parameters.
- Dates outside the `Date` range of plus or minus 10^8 days (where JavaScript yields an invalid date) are not modelled; years are unbounded integers.
- ExerciseCatalog.LowerChar: lower-cases ASCII letters only, not the full Unicode case mapping of `toLowerCase`.
- The HTML `required` attributes of the add-exercise and split forms are not modelled. Submission is modelled for any field values.
- The "Current Best" card's `latestEntry?.weight || 0` display fallback is not modelled.
- Lookups of inherited object properties are not modelled, for example `colors["constructor"]` or `progressData["toString"]`. The colour table and the history are treated as plain maps.
- The progress screen's selector only offers the five seeded exercises. The model accepts any name and shows the empty series for unknown ones.

## Findings

| source | as written | input that shows it | evidently intended | confidence | as-written member | corrected member |
|---|---|---|---|---|---|---|
| src/components/WorkoutCalendar.tsx:28 | `new Date(year, month +- 1, 1)` reinterprets a year from 0 to 99 as 1900 to 1999 (the Date constructor's MakeFullYear step) | paging back from January of year 100 shows December 99; "next" then jumps to January 2000, and next-then-prev lands on December 1999 | step to the adjacent month of the same calendar | not executed | WorkoutCalendar.NavigateAsWrittenSkipsCenturies | WorkoutCalendar.NavigateRoundTrip |
| src/components/WorkoutCalendar.tsx:15-17 | the first day and the month length are read from `new Date(year, ...)` with the same two-digit-year reinterpretation | paging back from January 100 displays December 99; its grid starts on Wednesday, the weekday of 1 December 1999, instead of Tuesday | lay out the displayed year's own month | not executed | WorkoutCalendar.December99StartsLate | WorkoutCalendar.LayoutShape |
