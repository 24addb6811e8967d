# teumteum scheduling core in Dafny

teumteum is a React Native day planner. Its non-UI core keeps a task
database in one storage slot and places "recommended tasks" into the free
time around a day's fixed schedules. This project models that core and
proves properties of the model:

- **Task store** (`TaskStore`). The three collections are long-term tasks,
  recommended tasks and daily schedules. `ScheduleStore` is a class whose one
  field, `slot`, is the storage key's content. It is absent, a saved document
  whose dates are ISO text, or text that cannot be parsed. `getDB`, `setDB`,
  `initializeDB`, `resetDB`, the three `add…` operations and
  `toggleDailyScheduleComplete` are read–modify–write methods on that field.
- **Retention sweeper** (`Retention`). It drops completed daily schedules 30
  days after completion. `cleanUpOldSchedules` writes back only when something
  was dropped.
- **Clock** (`Clock`). These are the "HH:MM" ↔ minutes conversions
  (`timeToMinutes`/`minutesToTime`, and `toMinutes`/`toTimeStr` in the main
  screen), with JavaScript's `Math.floor`, `%` and `padStart` written out.
- **Three placement engines.** They really do differ, and each is modelled as
  written:
  - `DisplayTimeline` (`generateDisplayTasksForDate`). It fills each inner gap
    with a longest fitting task. Ties are broken by the random index. The pool
    never shrinks.
  - `AutoInsert` (`autoInsertRecommendedTasks`). It computes the free slots of
    an 08:00–22:00 day. Each slot gets the first of the longest fitting tasks,
    and that task is then used up. It yields the `addTask` calls it makes.
  - `MainPage` (`insertRecommendedTasks`). It walks the day from 06:00 to
    24:00. Tasks are packed back to back at each boundary when
    `gap >= hours * 60 + 10`.
- **Checkbox handler** (`MainPage`). `handleCheckboxToggle` toggles a
  schedule in the database and in the visible list.

Each imperative operation is a method proved against a specification
function. Its properties are lemmas about that function.

Where the code and the specification disagree, the model follows the code:

- In `generateDisplayTasksForDate`, the recommended entry spans the whole gap,
  from `current.endTime` to `next.startTime`.
- In the same function, a placed candidate is not removed from the pool.
- In the same function, there is no test that the gap is positive. A gap of
  zero or less still gets an entry when some candidate's duration is at most
  the gap (for instance a zero or negative duration).

These are stated in `DisplayTimeline.Recommend`,
`DisplayTimeline.SingleCandidateFillsEveryGapItFits` and
`DisplayTimeline.InsertionChoosesLongestFit`, which has no positive-gap
condition.

Names for the same collection differ: `DailyTasks` in some files,
`dailySchedules` in the store. The model has one collection,
`dailySchedules`.

## Model

| member | source | states |
|---|---|---|
| Clock.TimeToMinutes | teumteum/utils/autoInsertRecommended.tsx:4-7 | a well-formed "HH:MM" gives hours * 60 + minutes, a minute of the day in [0, 1440) |
| Clock.TwoDigitForm | teumteum/utils/autoInsertRecommended.tsx:10-11 | below 100, `String(n).padStart(2, '0')` is exactly the two decimal digits of n |
| Clock.FormatThenParse | teumteum/utils/autoInsertRecommended.tsx:4-13 | for 0 <= m < 1440, `minutesToTime(m)` is a zero-padded "HH:MM" and `timeToMinutes` reads back m |
| Clock.ParseThenFormat | teumteum/screens/MainPage.tsx:50-59 | `toTimeStr(toMinutes(s)) == s` for every well-formed time; together with FormatThenParse, the two are inverse on [0, 1440) |
| Clock.LexLessIsMinuteOrder | teumteum/screens/MainPage.tsx:62 | for well-formed times, `localeCompare` string order is minute order, so sorting the strings sorts by start minute |
| TaskStore.Serialize | teumteum/storage/scheduleStorage.ts:38-51 | `setDB`'s conversion succeeds exactly when every Date is valid; otherwise `toISOString` throws (InvalidTimeValue); recommended tasks are copied unchanged |
| TaskStore.Load | teumteum/storage/scheduleStorage.ts:57-78 | an empty slot loads as the empty database; loading fails (CorruptDocument) exactly when the stored text is unparsable |
| TaskStore.SaveThenLoad | teumteum/storage/scheduleStorage.ts:38-78 | saving a database with valid dates and loading it back gives the same database; an absent `completedDate` stays absent |
| TaskStore.FindSchedule | teumteum/storage/scheduleStorage.ts:141 | `find` returns the first index whose id matches, and nothing exactly when no schedule has the id |
| TaskStore.Toggled | teumteum/storage/scheduleStorage.ts:143-144 | flips `isCompleted`, sets `completedDate` to now exactly when it becomes completed (absent otherwise), changes no other field |
| TaskStore.AddLongTermTaskKeepsConsistent | teumteum/storage/scheduleStorage.ts:94-105 | appending a task with a fresh id keeps ids unique and completion dates consistent |
| TaskStore.AddRecommendedTaskKeepsConsistent | teumteum/storage/scheduleStorage.ts:108-119 | the same for a recommended task |
| TaskStore.AddDailyScheduleKeepsConsistent | teumteum/storage/scheduleStorage.ts:122-136 | the same for a not completed schedule without `completedDate` |
| TaskStore.ToggleKeepsConsistent | teumteum/storage/scheduleStorage.ts:139-147 | toggling one schedule keeps the database consistent |
| TaskStore.InitializedSlot | teumteum/storage/scheduleStorage.ts:81-91 | an existing slot is left as it is; an absent one gets a document that loads as the empty database |
| TaskStore.InitializeIsIdempotent | teumteum/storage/scheduleStorage.ts:81-91 | initialising twice is initialising once |
| TaskStore.ScheduleStore.GetDB | teumteum/storage/scheduleStorage.ts:57-78 | returns the slot's database, the empty one when the slot is absent, an error when it is corrupt |
| TaskStore.ScheduleStore.SetDB | teumteum/storage/scheduleStorage.ts:38-54 | succeeds exactly when all dates are valid; the slot then loads back as the given database; on failure the slot is unchanged |
| TaskStore.ScheduleStore.InitializeDB | teumteum/storage/scheduleStorage.ts:81-91 | the new slot is `InitializedSlot` of the old one |
| TaskStore.ScheduleStore.ResetDB | teumteum/storage/scheduleStorage.ts:150-158 | whatever it held, the slot afterwards holds the empty database |
| TaskStore.ScheduleStore.AddLongTermTask | teumteum/storage/scheduleStorage.ts:94-105 | appends exactly `{freshId, title, dueDate, false}` to `longTermTasks`, changes no other collection and returns that task; a corrupt slot or an invalid date makes no write; consistency is kept |
| TaskStore.ScheduleStore.AddRecommendedTask | teumteum/storage/scheduleStorage.ts:108-119 | appends exactly `{freshId, title, duration, false}` to `recommendedTasks` with no check of `duration`, changes nothing else and returns it |
| TaskStore.ScheduleStore.AddDailySchedule | teumteum/storage/scheduleStorage.ts:122-136 | appends a not completed schedule without `completedDate` to `dailySchedules` only and returns it |
| TaskStore.ScheduleStore.ToggleDailyScheduleComplete | teumteum/storage/scheduleStorage.ts:139-147 | an unknown id writes nothing; otherwise the first schedule with the id is `Toggled` and saved; consistency is kept |
| Retention.RetainedInMillis | teumteum/utils/scheduleUtils.ts:7-16 | a schedule is kept unless it is completed, has a valid `completedDate`, and `now - completedAt >= 30 * 86400000` ms |
| Retention.RemoveOldCompletedSchedules | teumteum/utils/scheduleUtils.ts:3-18 | the result holds exactly the retained schedules of the input |
| Retention.SweepPreservesOrder | teumteum/utils/scheduleUtils.ts:6 | the result is an order-preserving subsequence of the input |
| Retention.SweepIsIdempotent | teumteum/utils/scheduleUtils.ts:6-17 | sweeping twice with the same `now` is sweeping once |
| Retention.SameLengthMeansNothingDropped | teumteum/utils/scheduleUtils.ts:27 | the length test sees a change exactly when some schedule was dropped |
| Retention.CleanUpOldSchedules | teumteum/utils/scheduleUtils.ts:20-35 | writes the swept database only when the length changed; a load or save failure leaves the slot unchanged |
| Retention.RetentionExamples | teumteum/utils/scheduleUtils.ts:13-16 | completed 31 days ago is dropped, 29 days ago is kept, completed without a date is kept |
| DisplayTimeline.GapMinutes | utils/autoInsertRecommended.tsx:24-28 | the minute difference of two times of one day is positive exactly when the first is earlier |
| DisplayTimeline.GapReachesEnd | utils/autoInsertRecommended.tsx:24-28 | the start plus the gap is the end time |
| DisplayTimeline.DaySchedules | utils/autoInsertRecommended.tsx:35-37 | the schedules of the date, exactly, reordered by start time |
| DisplayTimeline.CandidatePool | utils/autoInsertRecommended.tsx:39-42 | the candidates are exactly the recommended tasks not completed |
| DisplayTimeline.MaxDuration | utils/autoInsertRecommended.tsx:71 | the maximum: one candidate has it and none exceeds it |
| DisplayTimeline.Longest | utils/autoInsertRecommended.tsx:74 | the candidates tied at the maximum, all of them and only them |
| DisplayTimeline.InsertionChoosesLongestFit | utils/autoInsertRecommended.tsx:63-78 | an entry is inserted exactly when some candidate fits the gap; it is a fitting candidate of maximal duration |
| DisplayTimeline.EveryTieCanBeChosen | utils/autoInsertRecommended.tsx:76-78 | every candidate tied at the maximum is chosen by some random index |
| DisplayTimeline.EntryAfterSchedule | utils/autoInsertRecommended.tsx:47-92 | each schedule's entry comes first, then at most one recommendation, only when there is a next schedule and something fits |
| DisplayTimeline.EntriesAreShaped | utils/autoInsertRecommended.tsx:47-95 | every block is a schedule followed by at most one recommendation; the last block has no recommendation |
| DisplayTimeline.ShapedLength | utils/autoInsertRecommended.tsx:47-95 | n blocks give between n and 2n entries |
| DisplayTimeline.ShapedNoTwoRecommendationsInARow | utils/autoInsertRecommended.tsx:47-95 | no two recommendations are adjacent |
| DisplayTimeline.TimelineShowsEverySchedule | utils/autoInsertRecommended.tsx:47-58 | the schedule entries are the sorted schedules, each once, in order |
| DisplayTimeline.TimelineShape | utils/autoInsertRecommended.tsx:47-95 | first and last entries are schedules; n >= 1 schedules give n to 2n - 1 entries; 0 or 1 schedules give no recommendation |
| DisplayTimeline.SingleCandidateFillsEveryGapItFits | utils/autoInsertRecommended.tsx:65-92 | the pool is not shrunk: one task fills every gap it fits |
| DisplayTimeline.RecommendationForGap | utils/autoInsertRecommended.tsx:63-92 | the loop body computes `Insertion`, the longest fitting candidate picked by the index |
| DisplayTimeline.BuildDisplayList | utils/autoInsertRecommended.tsx:45-96 | the loop, with its `break`, builds the timeline of the sorted schedules |
| DisplayTimeline.GenerateDisplayTasksForDate | utils/autoInsertRecommended.tsx:31-97 | the result is the timeline of the date's sorted schedules over the not completed tasks |
| AutoInsert.LastEnd | teumteum/utils/autoInsertRecommended.tsx:38-46 | `lastEnd` is at least 08:00 and at least every end seen so far |
| AutoInsert.ComputeEmptySlots | teumteum/utils/autoInsertRecommended.tsx:36-50 | the loop and the trailing push give `EmptySlots` of the sorted schedules |
| AutoInsert.LastEndGrows | teumteum/utils/autoInsertRecommended.tsx:45 | `lastEnd` never decreases |
| AutoInsert.InnerSlotOrigin | teumteum/utils/autoInsertRecommended.tsx:40-44 | each slot of the loop runs from `lastEnd` to the start of a schedule that begins after it |
| AutoInsert.SlotsAreProper | teumteum/utils/autoInsertRecommended.tsx:33-50 | every slot has start < end, starts at 08:00 or later and ends before 24:00 |
| AutoInsert.InnerSlotsOrdered | teumteum/utils/autoInsertRecommended.tsx:38-46 | when every schedule starts no later than it ends, the loop's slots are ascending and disjoint, and end by the current `lastEnd` |
| AutoInsert.SlotsInOrder | teumteum/utils/autoInsertRecommended.tsx:36-50 | when every schedule starts no later than it ends, all slots are ascending and pairwise disjoint |
| AutoInsert.SlotsAvoidSchedules | teumteum/utils/autoInsertRecommended.tsx:38-46 | no slot overlaps any schedule's [start, end) |
| AutoInsert.FreeMinutesAreCovered | teumteum/utils/autoInsertRecommended.tsx:36-50 | every minute of 08:00–22:00 outside all schedules lies in some slot |
| AutoInsert.TrailingSlot | teumteum/utils/autoInsertRecommended.tsx:48-50 | the last slot is [lastEnd, 22:00) exactly when lastEnd < 22:00 |
| AutoInsert.FirstLongestFit | teumteum/utils/autoInsertRecommended.tsx:59-62 | the reference choice: a task that fits the slot |
| AutoInsert.FirstLongestFitExistsIffSomeFit | teumteum/utils/autoInsertRecommended.tsx:59-64 | a task is chosen exactly when some remaining task fits |
| AutoInsert.FirstLongestFitIsLongest | teumteum/utils/autoInsertRecommended.tsx:59-62 | the chosen task is at least as long as every fitting task |
| AutoInsert.FirstLongestFitIsFirst | teumteum/utils/autoInsertRecommended.tsx:59-62 | among fitting tasks of that duration, the first in list order is chosen |
| AutoInsert.LongestFitIsFirstLongest | teumteum/utils/autoInsertRecommended.tsx:60-62 | filter plus stable descending sort plus `[0]` equals the reference choice |
| AutoInsert.FirstIndexWithId | teumteum/utils/autoInsertRecommended.tsx:76 | the first index with the id, as `findIndex` gives it; where no task has the id the source gets -1 and the model the length, a case the fill never reaches (`AutoInsert.FillSlotTakes`) |
| AutoInsert.RemoveFirstWithIdDropsOne | teumteum/utils/autoInsertRecommended.tsx:76 | the splice removes exactly one occurrence of the id and adds nothing |
| AutoInsert.PlacementsFit | teumteum/utils/autoInsertRecommended.tsx:56-67 | every placed task fits its slot, and each slot is used at most once, in slot order |
| AutoInsert.FillConsumesPlacedTasks | teumteum/utils/autoInsertRecommended.tsx:76 | placed ids plus remaining ids are exactly the ids the fill started with |
| AutoInsert.PlacedAtMostOnce | teumteum/utils/autoInsertRecommended.tsx:76 | with unique ids, no task is placed twice |
| AutoInsert.PlacementsAvoidSchedules | teumteum/utils/autoInsertRecommended.tsx:56-67 | a placed task, [slot.start, slot.start + duration), overlaps no schedule |
| AutoInsert.PlacementsDoNotOverlap | teumteum/utils/autoInsertRecommended.tsx:56-67 | when every schedule starts no later than it ends, placed tasks do not overlap each other and come in time order |
| AutoInsert.PlacementsWithinDay | teumteum/utils/autoInsertRecommended.tsx:66-67 | a placed task starts at 08:00 or later, ends before 24:00 and, for a non-negative duration, does not end before it starts |
| AutoInsert.Requests | teumteum/utils/autoInsertRecommended.tsx:69-73 | one `addTask` call per placement, in placement order |
| AutoInsert.RequestTimesParse | teumteum/utils/autoInsertRecommended.tsx:66-67 | a call's time strings are well-formed and read back as the placement's minutes |
| AutoInsert.FillSlotByChoice | teumteum/utils/autoInsertRecommended.tsx:60-77 | a slot where nothing fits changes nothing; otherwise the choice is spliced out at its `findIndex` and placed |
| AutoInsert.PlaceLongestFit | teumteum/utils/autoInsertRecommended.tsx:57-77 | the loop body is one step of the fill and appends that step's call |
| AutoInsert.FillSlots | teumteum/utils/autoInsertRecommended.tsx:56-78 | the loop over the slots makes exactly the calls of the fill |
| AutoInsert.AutoInsertRecommendedTasks | teumteum/utils/autoInsertRecommended.tsx:20-81 | an unreadable database rejects (CorruptDocument) before any call; otherwise the calls are the plan for the database and date |
| AutoInsert.PlanMatchesPlacements | teumteum/utils/autoInsertRecommended.tsx:66-73 | the calls' times are the placements' start and end minutes, written out |
| AutoInsert.PlanTimesAreWellFormed | teumteum/utils/autoInsertRecommended.tsx:66-67 | every call has well-formed times, starts at 08:00 or later and does not end before it starts |
| AutoInsert.PlanAvoidsSchedules | teumteum/utils/autoInsertRecommended.tsx:40-67 | no call overlaps a schedule of the date |
| AutoInsert.PlanCallsInOrder | teumteum/utils/autoInsertRecommended.tsx:56-73 | each call ends no later than the next one starts |
| AutoInsert.PlacedFromPool | teumteum/utils/autoInsertRecommended.tsx:53 | placed tasks come from the list the fill started from |
| AutoInsert.PlanUsesOpenTasksOnce | teumteum/utils/autoInsertRecommended.tsx:53-76 | every placed task is a not completed recommended task of the database; with unique ids, none is placed twice |
| MainPage.SortedDaily | teumteum/screens/MainPage.tsx:62 | `sortedDaily` is a permutation of `daily`, sorted by start minute |
| MainPage.InsertRecommendedTasks | teumteum/screens/MainPage.tsx:61-97 | the nested loops compute the walk with the gap measured once per boundary |
| MainPage.PlaceAtBoundary | teumteum/screens/MainPage.tsx:70-88 | the inner loop, with `splice(j, 1)` and `j--`, pushes exactly the run's suggestions and leaves exactly the tasks the run keeps |
| MainPage.RunIsChain | teumteum/screens/MainPage.tsx:76-84 | the suggestions at a boundary are the placed tasks packed back to back from the running end; the end advances by their total minutes |
| MainPage.ChainIsContiguous | teumteum/screens/MainPage.tsx:76-84 | the first packed suggestion starts at the running end; each ends where the next starts; the last ends after all their minutes |
| MainPage.RunPartitionsPool | teumteum/screens/MainPage.tsx:72-88 | each remaining task is either placed or kept, exactly once |
| MainPage.StaleRunPlacesEveryFit | teumteum/screens/MainPage.tsx:70-75 | with the gap measured once, a boundary takes every task with `hours * 60 + 10 <= gap`, whatever the tasks before it used |
| MainPage.WalkAccounts | teumteum/screens/MainPage.tsx:67-94 | after n boundaries, the fixed rows are the first n sorted rows in order, the suggestions pair up with the placed tasks, and the tasks are partitioned |
| MainPage.InsertRecommendedAccounts | teumteum/screens/MainPage.tsx:61-97 | the non-suggested rows of the result are the sorted daily rows, each once; the suggested rows are one per placed task, unchecked, titled with the suggestion prefix + title; placed and kept tasks partition the recommended list; length = daily + placed |
| MainPage.EmptyDayPacksFromDayOpen | teumteum/screens/MainPage.tsx:65-69 | with no schedules, the one gap runs 06:00–24:00, and from 06:00 every task that fits it is packed |
| MainPage.FreshRunIsSafe | teumteum/screens/MainPage.tsx:70-88 | with the gap measured again before every task, each suggestion starts no earlier than the running end and ends at least 10 minutes before the boundary |
| MainPage.StaleGapOverlapsNextSchedule | teumteum/screens/MainPage.tsx:67-88 | as written: a 10:00–11:00 schedule and two 3-hour tasks give suggestions at 06:00 and 09:00; the second ends at 12:00, after the schedule starts |
| MainPage.InsertRecommendedFreshIsSafe | teumteum/screens/MainPage.tsx:61-97 | corrected: every suggestion has well-formed times and ends at least 10 minutes before every later schedule starts |
| MainPage.ToggleMatchingAgreesWithStore | teumteum/screens/MainPage.tsx:154-163 | with unique ids, the screen's `map` toggles exactly the store's found schedule, or nothing for an unknown id; consistency is kept |
| MainPage.VisibleToggleMirrorsStore | teumteum/screens/MainPage.tsx:154-170 | the rows of the toggled schedules are the toggled rows; rows without id are untouched; toggling twice restores the rows |
| MainPage.HandleCheckboxToggle | teumteum/screens/MainPage.tsx:148-171 | a missing or empty id does nothing; an unreadable database rejects (CorruptDocument) and a save that throws rejects (InvalidTimeValue), both with nothing written and no row changed; otherwise the toggled database is saved and the visible rows flipped |

## Left out

- Storage I/O: AsyncStorage and JSON are one class field, `slot`. Revived dates are a datatype: the ISO text, the empty string, or other text. All other text is read as Invalid Date, although `new Date` accepts some non-ISO forms; `setDB` writes only ISO text.
- AutoInsert.FirstIndexWithId: gives the list's length, not -1, where no task has the id, so `RemoveFirstWithId` then drops nothing where `splice(-1, 1)` would drop the last task. The fill never reaches that case, because the chosen task is taken from the same list (`AutoInsert.FillSlotTakes`).
- A rejected promise is an `Err` result. `getDB` has no `try`, so an unreadable slot makes `autoInsertRecommendedTasks` and `handleCheckboxToggle` reject; both methods return that error.
- `generateDisplayTasksForDate`'s own read is not modelled: `DisplayTimeline.GenerateDisplayTasksForDate` takes the loaded database, so the rejection on an unreadable slot is outside it.
- Date filter: the engines compare `task.date === date` with a date string, while the store revives `date` as a `Date` object, which is never `===` a string. The model reads this comparison as equality of the store's dates (`DisplayTimeline.OnDate`, `AutoInsert.DayWellTimed`). The code as written would select no schedule at all.
- Concurrency: the async steps are not modelled. Each operation is atomic, so lost-update races between concurrent handlers are not captured.
- Nondeterminism and the clock:
  - `uuidv4` is a `freshId` parameter, required not to be in use.
  - `Math.random` is the `pick` parameter.
  - `new Date()` is the `now` parameter.
  - The `addTask` calls are returned as values, because `addTask`'s own source is not part of this model.
- Dates in the display engine: `parseTimeToDate` is a minute difference within one day. Clock changes during the day (DST) are not modelled.
- Malformed times: the engines require well-formed "HH:MM" times. The NaN arithmetic on malformed strings is not modelled.
- Floating point: the retention filter's float division is modelled with exact real division. It differs from the float result only for dividends far above any real timestamp.
- MainPage durations: the model keeps the main screen reading `duration` as hours (`duration * 60`), although the store documents minutes. Nothing shows which reading is intended.
- MainPage inputs: `insertRecommendedTasks` receives every recommended task, completed ones included, as the screen passes them. The model does the same.
- UI and formatting: `loadAll`'s date filter, `getTodayString`/`formatDate`, and the long-term list of the main screen are left out. So are the other screens and components.
- `teumteum/storage/scheduleTypes.ts` is not part of this model; its types duplicate those of the store.
- MainPage.FreshRunIsSafe, MainPage.InsertRecommendedFreshIsSafe: stated for non-negative durations; a negative duration makes a suggestion end before it starts, which the source does not reject.
- AutoInsert.PlanTimesAreWellFormed, AutoInsert.PlanAvoidsSchedules, AutoInsert.PlanCallsInOrder, AutoInsert.PlanMatchesPlacements: stated for non-negative durations of open tasks, for the same reason.
- MainPage.ToggleMatchingAgreesWithStore, AutoInsert.PlacedAtMostOnce: stated for lists with unique ids; with duplicate ids the screen's `map` flips every match while the store flips the first, and the fill may place a duplicate again.
- MainPage.InsertRecommendedTasks: a ghost `Walk` stands for the suggested rows before their times are written out. The returned rows are proved equal to that walk's rendering.

## Findings

| source | as written | input that shows it | evidently intended | confidence | as-written member | corrected member |
|---|---|---|---|---|---|---|
| teumteum/screens/MainPage.tsx:70-86 | `gap` is computed once per boundary, before the inner loop. Every task with `gap >= hours * 60 + 10` is then packed from the running `lastEnd`, even after earlier placements used up the gap. | A schedule 10:00–11:00 and two recommended tasks of 3 hours: both are placed before 10:00, at 06:00–09:00 and 09:00–12:00, and the second overlaps the schedule. | The gap is measured from the running end before each task (`currentStart - lastEnd`). Then every suggestion ends at least 10 minutes before the next schedule. | not executed; the overlap follows from the code as written | MainPage.StaleGapOverlapsNextSchedule | MainPage.InsertRecommendedFreshIsSafe |
