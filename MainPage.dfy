/** The main screen's day view: the schedules of the selected date with
    recommended tasks slotted into the gaps between them, and the checkbox
    handler that toggles a schedule's completion. */
module MainPage {
  import opened Wrappers
  import opened Sequences
  import opened Clock
  import opened TaskStore

  /** One row of the day view. Suggested rows carry no `id`. */
  datatype ScheduleItem = ScheduleItem(
    timeStart: string, timeEnd: string, text: string, checked: bool, isRecommended: bool, id: Option<string>)

  /** The walk starts at 06:00 and the last gap runs up to 24:00. */
  const DayOpen: int := 6 * 60
  const DayClose: int := 24 * 60

  /** A task fits a gap only with ten minutes to spare. */
  const Margin: int := 10

  /** "[추천] ", the label in front of a suggested task's title. */
  const SuggestionPrefix: string := "[\U{CD94}\U{CC9C}] "

  const IsSuggestedRow: ScheduleItem -> bool := (x: ScheduleItem) => x.isRecommended
  const IsFixedRow: ScheduleItem -> bool := (x: ScheduleItem) => !x.isRecommended

  /** The sort key of a row: its start in minutes (0 for a malformed time). */
  function ItemStartKey(x: ScheduleItem): int
  {
    if IsTime(x.timeStart) then TimeToMinutes(x.timeStart) else 0
  }

  /** Every row has well-formed start and end times. */
  predicate WellTimedItems(items: seq<ScheduleItem>)
  {
    forall x :: x in items ==> IsTime(x.timeStart) && IsTime(x.timeEnd)
  }

  /** No row is marked as a suggestion, as for the rows built from schedules. */
  predicate FixedRows(items: seq<ScheduleItem>)
  {
    forall x :: x in items ==> !x.isRecommended
  }

  function Min(a: int, b: int): int
  {
    if a <= b then a else b
  }

  // ---------------------------------------------------------------------------
  // ---------------------------------------------------------------------------
  // Suggestions at one boundary

  /** `durationMins`: the main screen reads a recommended task's duration in hours. */
  function DurationMins(t: RecommendedTask): int
  {
    t.duration * 60
  }

  /** The row `insertRecommendedTasks` builds for task `t` placed at minute `at`. */
  function Suggestion(t: RecommendedTask, at: int): ScheduleItem
  {
    ScheduleItem(MinutesToTime(at), MinutesToTime(at + DurationMins(t)), SuggestionPrefix + t.title, false, true, None)
  }

  /** A row of the day view before its times are written out: a schedule's
      own row, or a recommended task placed at a minute of the day. */
  datatype Entry = Fixed(row: ScheduleItem) | Suggested(task: RecommendedTask, at: int)

  const IsFixedEntry: Entry -> bool := (e: Entry) => e.Fixed?
  const IsSuggestedEntry: Entry -> bool := (e: Entry) => e.Suggested?

  /** The row an entry is shown as. */
  function Row(e: Entry): ScheduleItem
  {
    match e
    case Fixed(row) => row
    case Suggested(t, at) => Suggestion(t, at)
  }

  /** The rows of a list of entries, one per entry. */
  function Render(entries: seq<Entry>): (rows: seq<ScheduleItem>)
    ensures |rows| == |entries|
  {
    seq(|entries|, k requires 0 <= k < |entries| => Row(entries[k]))
  }

  lemma RenderConcat(a: seq<Entry>, b: seq<Entry>)
    ensures Render(a + b) == Render(a) + Render(b)
  {
    assert forall k :: 0 <= k < |a| ==> (a + b)[k] == a[k];
    assert forall k :: |a| <= k < |a| + |b| ==> (a + b)[k] == b[k - |a|];
  }

  /** The entries of schedule rows. */
  function Fixeds(rows: seq<ScheduleItem>): (e: seq<Entry>)
    ensures |e| == |rows|
  {
    seq(|rows|, k requires 0 <= k < |rows| => Fixed(rows[k]))
  }

  /** Schedule rows are shown as themselves. */
  lemma RenderFixeds(rows: seq<ScheduleItem>)
    ensures Render(Fixeds(rows)) == rows
  {
  }

  /** The minutes the tasks take together. */
  function TotalMins(placed: seq<RecommendedTask>): int
  {
    if placed == [] then 0 else DurationMins(placed[0]) + TotalMins(placed[1..])
  }

  /** Where the `k`-th of `placed` starts when they are packed from minute `at`. */
  function ChainStart(placed: seq<RecommendedTask>, at: int, k: nat): int
    requires k <= |placed|
  {
    at + TotalMins(placed[..k])
  }

  /** The suggestions for `placed`, packed back to back from minute `at`. */
  function Chain(placed: seq<RecommendedTask>, at: int): (c: seq<Entry>)
  {
    seq(|placed|, k requires 0 <= k < |placed| => Suggested(placed[k], ChainStart(placed, at, k)))
  }

  /** How a boundary's gap is measured. `StaleGap` is the code as written: the
      gap is computed once, before any task is placed at the boundary.
      `FreshGap` measures it again from the running end before every task. */
  datatype GapRule = StaleGap | FreshGap

  /** Whether a task is placed: `gap >= durationMins + 10`. */
  predicate Fits(rule: GapRule, boundary: int, runStart: int, lastEnd: int, t: RecommendedTask)
  {
    var gap := if rule == StaleGap then boundary - runStart else boundary - lastEnd;
    gap >= DurationMins(t) + Margin
  }

  /** The outcome of the inner loop at one boundary: the suggestions it
      pushed, the tasks it placed, the tasks left for later boundaries and
      the running end. */
  datatype Run = Run(items: seq<Entry>, placed: seq<RecommendedTask>, remaining: seq<RecommendedTask>, lastEnd: int)

  /** The inner loop over the remaining tasks at a boundary that starts at
      minute `boundary`, from a running end `lastEnd` that was `runStart`
      when the boundary was reached. */
  function PlaceRun(rule: GapRule, pool: seq<RecommendedTask>, boundary: int, runStart: int, lastEnd: int): Run
  {
    if pool == [] then Run([], [], [], lastEnd)
    else if Fits(rule, boundary, runStart, lastEnd, pool[0]) then
      var rest := PlaceRun(rule, pool[1..], boundary, runStart, lastEnd + DurationMins(pool[0]));
      Run([Suggested(pool[0], lastEnd)] + rest.items, [pool[0]] + rest.placed, rest.remaining, rest.lastEnd)
    else
      var rest := PlaceRun(rule, pool[1..], boundary, runStart, lastEnd);
      Run(rest.items, rest.placed, [pool[0]] + rest.remaining, rest.lastEnd)
  }

  /** A run continued after some suggestions were pushed, tasks placed and tasks kept. */
  function Resume(items: seq<Entry>, placed: seq<RecommendedTask>, kept: seq<RecommendedTask>, r: Run): Run
  {
    Run(items + r.items, placed + r.placed, kept + r.remaining, r.lastEnd)
  }

  /** One step of a run that places the first task. */
  lemma ResumeTake(items: seq<Entry>, placed: seq<RecommendedTask>, kept: seq<RecommendedTask>,
    rule: GapRule, pool: seq<RecommendedTask>, boundary: int, runStart: int, lastEnd: int)
    requires pool != [] && Fits(rule, boundary, runStart, lastEnd, pool[0])
    ensures Resume(items, placed, kept, PlaceRun(rule, pool, boundary, runStart, lastEnd)) ==
      Resume(items + [Suggested(pool[0], lastEnd)], placed + [pool[0]], kept,
        PlaceRun(rule, pool[1..], boundary, runStart, lastEnd + DurationMins(pool[0])))
  {
    var rest := PlaceRun(rule, pool[1..], boundary, runStart, lastEnd + DurationMins(pool[0]));
    assert items + ([Suggested(pool[0], lastEnd)] + rest.items) == items + [Suggested(pool[0], lastEnd)] + rest.items;
    assert placed + ([pool[0]] + rest.placed) == placed + [pool[0]] + rest.placed;
  }

  /** One step of a run that keeps the first task. */
  lemma ResumeKeep(items: seq<Entry>, placed: seq<RecommendedTask>, kept: seq<RecommendedTask>,
    rule: GapRule, pool: seq<RecommendedTask>, boundary: int, runStart: int, lastEnd: int)
    requires pool != [] && !Fits(rule, boundary, runStart, lastEnd, pool[0])
    ensures Resume(items, placed, kept, PlaceRun(rule, pool, boundary, runStart, lastEnd)) ==
      Resume(items, placed, kept + [pool[0]], PlaceRun(rule, pool[1..], boundary, runStart, lastEnd))
  {
    var rest := PlaceRun(rule, pool[1..], boundary, runStart, lastEnd);
    assert kept + ([pool[0]] + rest.remaining) == kept + [pool[0]] + rest.remaining;
  }

  /** Adding one more task adds its minutes. */
  lemma {:induction false} TotalMinsSnoc(placed: seq<RecommendedTask>, k: nat)
    requires k < |placed|
    ensures TotalMins(placed[..k + 1]) == TotalMins(placed[..k]) + DurationMins(placed[k])
  {
    if k > 0 {
      TotalMinsSnoc(placed[1..], k - 1);
      assert placed[..k + 1][1..] == placed[1..][..k];
      assert placed[..k][1..] == placed[1..][..k - 1];
      assert placed[1..][k - 1] == placed[k];
    } else {
      assert placed[..1][1..] == [];
    }
  }

  /** The chain from `at` of a list with a first task is that task at `at`,
      then the chain of the rest from `at` plus its minutes. */
  lemma ChainCons(t: RecommendedTask, placed: seq<RecommendedTask>, at: int)
    ensures Chain([t] + placed, at) == [Suggested(t, at)] + Chain(placed, at + DurationMins(t))
  {
    var all := [t] + placed;
    forall k | 1 <= k < |all|
      ensures ChainStart(all, at, k) == ChainStart(placed, at + DurationMins(t), k - 1)
    {
      assert all[..k][0] == t && all[..k][1..] == placed[..k - 1];
    }
    assert all[..0] == [];
  }

  /** The suggestions of a run are its placed tasks packed back to back from
      the running end, and the run ends after all their minutes. */
  lemma {:induction false} RunIsChain(rule: GapRule, pool: seq<RecommendedTask>, boundary: int, runStart: int, lastEnd: int)
    ensures PlaceRun(rule, pool, boundary, runStart, lastEnd).items == Chain(PlaceRun(rule, pool, boundary, runStart, lastEnd).placed, lastEnd)
    ensures PlaceRun(rule, pool, boundary, runStart, lastEnd).lastEnd == lastEnd + TotalMins(PlaceRun(rule, pool, boundary, runStart, lastEnd).placed)
  {
    if pool != [] {
      var d := DurationMins(pool[0]);
      if Fits(rule, boundary, runStart, lastEnd, pool[0]) {
        RunIsChain(rule, pool[1..], boundary, runStart, lastEnd + d);
        var rest := PlaceRun(rule, pool[1..], boundary, runStart, lastEnd + d);
        ChainCons(pool[0], rest.placed, lastEnd);
        var placed := [pool[0]] + rest.placed;
        assert placed[0] == pool[0] && placed[1..] == rest.placed;
      } else {
        RunIsChain(rule, pool[1..], boundary, runStart, lastEnd);
      }
    }
  }

  /** Packed suggestions are contiguous: the first starts at `at`, each ends
      where the next one starts, and the last ends after all their minutes. */
  lemma ChainIsContiguous(placed: seq<RecommendedTask>, at: int)
    ensures |placed| > 0 ==> Chain(placed, at)[0].at == at
    ensures forall k :: 0 <= k < |placed| - 1 ==>
      Chain(placed, at)[k].at + DurationMins(placed[k]) == Chain(placed, at)[k + 1].at
    ensures |placed| > 0 ==>
      Chain(placed, at)[|placed| - 1].at + DurationMins(placed[|placed| - 1]) == at + TotalMins(placed)
  {
    if placed != [] {
      assert placed[..0] == [];
      TotalMinsSnoc(placed, |placed| - 1);
      assert placed[..|placed|] == placed;
    }
    forall k | 0 <= k < |placed| - 1
      ensures ChainStart(placed, at, k) + DurationMins(placed[k]) == ChainStart(placed, at, k + 1)
    {
      TotalMinsSnoc(placed, k);
    }
  }

  /** A chain holds suggestions only. */
  lemma ChainEntries(placed: seq<RecommendedTask>, at: int)
    ensures Filter(Chain(placed, at), IsFixedEntry) == []
    ensures Filter(Chain(placed, at), IsSuggestedEntry) == Chain(placed, at)
  {
    var c := Chain(placed, at);
    FilterMembers(c, IsFixedEntry);
    if Filter(c, IsFixedEntry) != [] {
      assert Filter(c, IsFixedEntry)[0] in c;
      assert false;
    }
    FilterKeepsLengthOnlyWhenIdentity(c, IsSuggestedEntry);
  }

  /** A run splits the tasks it is given: each is either placed or kept, once. */
  lemma {:induction false} RunPartitionsPool(rule: GapRule, pool: seq<RecommendedTask>, boundary: int, runStart: int, lastEnd: int)
    ensures multiset(PlaceRun(rule, pool, boundary, runStart, lastEnd).placed) +
      multiset(PlaceRun(rule, pool, boundary, runStart, lastEnd).remaining) == multiset(pool)
  {
    if pool != [] {
      assert pool == [pool[0]] + pool[1..];
      if Fits(rule, boundary, runStart, lastEnd, pool[0]) {
        RunPartitionsPool(rule, pool[1..], boundary, runStart, lastEnd + DurationMins(pool[0]));
      } else {
        RunPartitionsPool(rule, pool[1..], boundary, runStart, lastEnd);
      }
    }
  }

  /** Whether a task fits a gap measured once. */
  function FitsGap(gap: int): RecommendedTask -> bool
  {
    (t: RecommendedTask) => gap >= DurationMins(t) + Margin
  }

  /** With the gap measured once, a boundary takes every remaining task whose
      duration plus the margin fits that one gap, in list order, however many
      minutes the earlier placements there have already used. */
  lemma {:induction false} StaleRunPlacesEveryFit(pool: seq<RecommendedTask>, boundary: int, runStart: int, lastEnd: int)
    ensures PlaceRun(StaleGap, pool, boundary, runStart, lastEnd).placed == Filter(pool, FitsGap(boundary - runStart))
    ensures PlaceRun(StaleGap, pool, boundary, runStart, lastEnd).remaining == Filter(pool, t => !FitsGap(boundary - runStart)(t))
  {
    if pool != [] {
      if Fits(StaleGap, boundary, runStart, lastEnd, pool[0]) {
        StaleRunPlacesEveryFit(pool[1..], boundary, runStart, lastEnd + DurationMins(pool[0]));
      } else {
        StaleRunPlacesEveryFit(pool[1..], boundary, runStart, lastEnd);
      }
    }
  }

  /** A suggestion of non-negative length that starts no earlier than minute
      `from` and ends at least the margin before minute `until`. */
  predicate PlacedWithin(e: Entry, from: int, until: int)
  {
    e.Suggested? && from <= e.at && 0 <= DurationMins(e.task) && e.at + DurationMins(e.task) + Margin <= until
  }

  /** With the gap measured again before every task, and tasks of
      non-negative duration, every suggestion of a run starts no earlier than
      the running end it began from and ends at least the margin before the
      boundary, and the running end does not move back. */
  lemma {:induction false} FreshRunIsSafe(pool: seq<RecommendedTask>, boundary: int, runStart: int, lastEnd: int)
    requires forall t :: t in pool ==> t.duration >= 0
    ensures lastEnd <= PlaceRun(FreshGap, pool, boundary, runStart, lastEnd).lastEnd
    ensures forall k :: 0 <= k < |PlaceRun(FreshGap, pool, boundary, runStart, lastEnd).items| ==>
      PlacedWithin(PlaceRun(FreshGap, pool, boundary, runStart, lastEnd).items[k], lastEnd, boundary)
  {
    if pool != [] {
      var d := DurationMins(pool[0]);
      if Fits(FreshGap, boundary, runStart, lastEnd, pool[0]) {
        FreshRunIsSafe(pool[1..], boundary, runStart, lastEnd + d);
        var rest := PlaceRun(FreshGap, pool[1..], boundary, runStart, lastEnd + d);
        var items := [Suggested(pool[0], lastEnd)] + rest.items;
        assert forall k :: 1 <= k < |items| ==> items[k] == rest.items[k - 1];
      } else {
        FreshRunIsSafe(pool[1..], boundary, runStart, lastEnd);
      }
    }
  }

  // ---------------------------------------------------------------------------
  // The walk over the boundaries

  /** The state of `insertRecommendedTasks` between boundaries: the entries
      behind `result`, the tasks placed so far, `remainingRecommended` and
      `lastEnd`. */
  datatype Walk = Walk(entries: seq<Entry>, placed: seq<RecommendedTask>, remaining: seq<RecommendedTask>, lastEnd: int)

  /** `currentStart` at boundary `i`: the start of the `i`-th sorted row, or
      24:00 after the last one. */
  function Boundary(sorted: seq<ScheduleItem>, i: nat): int
    requires i <= |sorted| && WellTimedItems(sorted)
  {
    if i < |sorted| then TimeToMinutes(sorted[i].timeStart) else DayClose
  }

  /** One iteration of the outer loop: the run at boundary `i`, then the
      `i`-th row and its end as the new running end. */
  function WalkStep(rule: GapRule, sorted: seq<ScheduleItem>, w: Walk, i: nat): Walk
    requires i <= |sorted| && WellTimedItems(sorted)
  {
    var run := PlaceRun(rule, w.remaining, Boundary(sorted, i), w.lastEnd, w.lastEnd);
    if i < |sorted| then
      Walk(w.entries + run.items + [Fixed(sorted[i])], w.placed + run.placed, run.remaining, TimeToMinutes(sorted[i].timeEnd))
    else
      Walk(w.entries + run.items, w.placed + run.placed, run.remaining, run.lastEnd)
  }

  /** The state after the first `n` boundaries. */
  function WalkUpTo(rule: GapRule, sorted: seq<ScheduleItem>, recommended: seq<RecommendedTask>, n: nat): Walk
    requires n <= |sorted| + 1 && WellTimedItems(sorted)
  {
    if n == 0 then Walk([], [], recommended, DayOpen)
    else WalkStep(rule, sorted, WalkUpTo(rule, sorted, recommended, n - 1), n - 1)
  }

  /** `[...daily].sort((a, b) => a.timeStart.localeCompare(b.timeStart))`: on
      well-formed times, comparing the strings is comparing the minutes
      (`Clock.LexLessIsMinuteOrder`), and the sort is stable. */
  function SortedDaily(daily: seq<ScheduleItem>): (sorted: seq<ScheduleItem>)
    requires WellTimedItems(daily)
    ensures WellTimedItems(sorted) && SortedBy(sorted, ItemStartKey)
    ensures multiset(sorted) == multiset(daily)
  {
    var sorted := SortBy(daily, ItemStartKey);
    assert forall x :: x in sorted ==> x in daily by {
      forall x | x in sorted ensures x in daily {
        assert x in multiset(sorted);
      }
    }
    sorted
  }

  /** The final state of `insertRecommendedTasks`. */
  function InsertWalk(rule: GapRule, daily: seq<ScheduleItem>, recommended: seq<RecommendedTask>): Walk
    requires WellTimedItems(daily)
  {
    var sorted := SortedDaily(daily);
    WalkUpTo(rule, sorted, recommended, |sorted| + 1)
  }

  /** The rows `insertRecommendedTasks` returns. */
  function InsertRecommended(rule: GapRule, daily: seq<ScheduleItem>, recommended: seq<RecommendedTask>): seq<ScheduleItem>
    requires WellTimedItems(daily)
  {
    Render(InsertWalk(rule, daily, recommended).entries)
  }

  /** `insertRecommendedTasks(daily, recommended)` as written. */
  method InsertRecommendedTasks(daily: seq<ScheduleItem>, recommended: seq<RecommendedTask>) returns (result: seq<ScheduleItem>)
    requires WellTimedItems(daily)
    ensures result == InsertRecommended(StaleGap, daily, recommended)
  {
    var sortedDaily := SortedDaily(daily);
    result := [];
    var remainingRecommended := recommended;
    var lastEnd := DayOpen;
    ghost var entries: seq<Entry> := [];
    ghost var placed: seq<RecommendedTask> := [];
    for i := 0 to |sortedDaily| + 1
      invariant result == Render(entries)
      invariant Walk(entries, placed, remainingRecommended, lastEnd) == WalkUpTo(StaleGap, sortedDaily, recommended, i)
    {
      var currentStart := if i < |sortedDaily| then TimeToMinutes(sortedDaily[i].timeStart) else DayClose;
      assert currentStart == Boundary(sortedDaily, i);
      ghost var w := Walk(entries, placed, remainingRecommended, lastEnd);
      assert WalkUpTo(StaleGap, sortedDaily, recommended, i + 1) == WalkStep(StaleGap, sortedDaily, w, i);
      ghost var run: Run;
      result, remainingRecommended, lastEnd, run := PlaceAtBoundary(result, remainingRecommended, currentStart, lastEnd);
      RenderConcat(entries, run.items);
      entries := entries + run.items;
      placed := placed + run.placed;
      if i < |sortedDaily| {
        var current := sortedDaily[i];
        assert current in sortedDaily;
        RenderConcat(entries, [Fixed(current)]);
        result := result + [current];
        entries := entries + [Fixed(current)];
        lastEnd := TimeToMinutes(current.timeEnd);
      }
    }
  }

  /** The inner loop at one boundary: the gap is taken once; every task that
      fits it is pushed at the running end and spliced out of the list, and
      the index steps back so that the next task is not skipped. */
  method PlaceAtBoundary(result: seq<ScheduleItem>, remaining: seq<RecommendedTask>, currentStart: int, lastEnd: int)
    returns (result': seq<ScheduleItem>, remaining': seq<RecommendedTask>, lastEnd': int, ghost run: Run)
    ensures run == PlaceRun(StaleGap, remaining, currentStart, lastEnd, lastEnd)
    ensures result' == result + Render(run.items) && remaining' == run.remaining && lastEnd' == run.lastEnd
  {
    var gap := currentStart - lastEnd;
    result', remaining', lastEnd' := result, remaining, lastEnd;
    ghost var items: seq<Entry> := [];
    ghost var placed: seq<RecommendedTask> := [];
    var j := 0;
    while j < |remaining'|
      invariant 0 <= j <= |remaining'|
      invariant result' == result + Render(items)
      invariant PlaceRun(StaleGap, remaining, currentStart, lastEnd, lastEnd) ==
        Resume(items, placed, remaining'[..j], PlaceRun(StaleGap, remaining'[j..], currentStart, lastEnd, lastEnd'))
      decreases |remaining'| - j
    {
      var task := remaining'[j];
      var durationMins := task.duration * 60;
      ghost var rest := remaining'[j..];
      assert rest[0] == task && rest[1..] == remaining'[j + 1..];
      if gap >= durationMins + 10 {
        ResumeTake(items, placed, remaining'[..j], StaleGap, rest, currentStart, lastEnd, lastEnd');
        RenderConcat(items, [Suggested(task, lastEnd')]);
        var newTask := Suggestion(task, lastEnd');
        result' := result' + [newTask];
        items := items + [Suggested(task, lastEnd')];
        placed := placed + [task];
        lastEnd' := lastEnd' + durationMins;
        assert remaining'[..j] + remaining'[j + 1..] == remaining'[..j] + rest[1..];
        remaining' := remaining'[..j] + remaining'[j + 1..];
        assert remaining'[..j] + rest[1..] == remaining';
        j := j - 1;
      } else {
        ResumeKeep(items, placed, remaining'[..j], StaleGap, rest, currentStart, lastEnd, lastEnd');
        assert remaining'[..j + 1] == remaining'[..j] + [task];
      }
      j := j + 1;
    }
    assert remaining'[..j] == remaining';
    run := PlaceRun(StaleGap, remaining, currentStart, lastEnd, lastEnd);
  }

  // ---------------------------------------------------------------------------
  // What the walk keeps

  /** Extending the schedule entries by one more row. */
  lemma FixedsSnoc(sorted: seq<ScheduleItem>, i: nat)
    requires i < |sorted|
    ensures Fixeds(sorted[..i]) + [Fixed(sorted[i])] == Fixeds(sorted[..i + 1])
  {
  }

  /** The bookkeeping of a walk that has passed `m` sorted rows: its schedule
      entries are those rows, in order; its suggestions are one per placed
      task, in placement order; every task is placed or still remaining,
      exactly once; and it holds nothing else. */
  predicate Accounts(sorted: seq<ScheduleItem>, recommended: seq<RecommendedTask>, m: nat, w: Walk)
    requires m <= |sorted|
  {
    Filter(w.entries, IsFixedEntry) == Fixeds(sorted[..m]) &&
    Paired(Filter(w.entries, IsSuggestedEntry), w.placed) &&
    multiset(w.placed) + multiset(w.remaining) == multiset(recommended) &&
    |w.entries| == m + |w.placed|
  }

  /** The `k`-th entry is a suggestion of the `k`-th task, for every `k`. */
  predicate Paired(suggestions: seq<Entry>, placed: seq<RecommendedTask>)
  {
    |suggestions| == |placed| &&
    forall k :: 0 <= k < |placed| ==> suggestions[k].Suggested? && suggestions[k].task == placed[k]
  }

  /** After the first `n` boundaries the walk accounts for the first `n`
      sorted rows (all of them once the last boundary is passed). */
  lemma {:induction false} WalkAccounts(rule: GapRule, sorted: seq<ScheduleItem>, recommended: seq<RecommendedTask>, n: nat, w: Walk)
    requires n <= |sorted| + 1 && WellTimedItems(sorted)
    requires w == WalkUpTo(rule, sorted, recommended, n)
    ensures Accounts(sorted, recommended, Min(n, |sorted|), w)
  {
    if n > 0 {
      var w0 := WalkUpTo(rule, sorted, recommended, n - 1);
      WalkAccounts(rule, sorted, recommended, n - 1, w0);
      WalkStepAccounts(rule, sorted, recommended, w0, n - 1);
    }
  }

  /** One iteration of the outer loop keeps the bookkeeping. */
  lemma WalkStepAccounts(rule: GapRule, sorted: seq<ScheduleItem>, recommended: seq<RecommendedTask>, w0: Walk, i: nat)
    requires i <= |sorted| && WellTimedItems(sorted)
    requires Accounts(sorted, recommended, Min(i, |sorted|), w0)
    ensures Accounts(sorted, recommended, Min(i + 1, |sorted|), WalkStep(rule, sorted, w0, i))
  {
    var b := Boundary(sorted, i);
    var run := PlaceRun(rule, w0.remaining, b, w0.lastEnd, w0.lastEnd);
    RunIsChain(rule, w0.remaining, b, w0.lastEnd, w0.lastEnd);
    RunPartitionsPool(rule, w0.remaining, b, w0.lastEnd, w0.lastEnd);
    ChainEntries(run.placed, w0.lastEnd);
    AppendRun(w0.entries, w0.placed, run.items, run.placed);
    if i < |sorted| {
      AppendRow(w0.entries + run.items, w0.placed + run.placed, sorted, i);
    } else {
      assert sorted[..i] == sorted;
    }
  }

  /** Appending a run's suggestions keeps the schedule entries and pairs the
      new suggestions with the newly placed tasks. */
  lemma AppendRun(entries: seq<Entry>, placed: seq<RecommendedTask>, items: seq<Entry>, more: seq<RecommendedTask>)
    requires Paired(Filter(entries, IsSuggestedEntry), placed) && Paired(items, more)
    requires Filter(items, IsFixedEntry) == [] && Filter(items, IsSuggestedEntry) == items
    ensures Filter(entries + items, IsFixedEntry) == Filter(entries, IsFixedEntry)
    ensures Paired(Filter(entries + items, IsSuggestedEntry), placed + more)
  {
    FilterConcat(entries, items, IsFixedEntry);
    FilterConcat(entries, items, IsSuggestedEntry);
  }

  /** Appending the `i`-th sorted row adds it to the schedule entries and
      leaves the suggestions as they are. */
  lemma AppendRow(entries: seq<Entry>, placed: seq<RecommendedTask>, sorted: seq<ScheduleItem>, i: nat)
    requires i < |sorted|
    requires Filter(entries, IsFixedEntry) == Fixeds(sorted[..i])
    requires Paired(Filter(entries, IsSuggestedEntry), placed)
    ensures Filter(entries + [Fixed(sorted[i])], IsFixedEntry) == Fixeds(sorted[..i + 1])
    ensures Paired(Filter(entries + [Fixed(sorted[i])], IsSuggestedEntry), placed)
  {
    var x := Fixed(sorted[i]);
    FilterConcat(entries, [x], IsFixedEntry);
    FilterConcat(entries, [x], IsSuggestedEntry);
    assert [x][1..] == [];
    FixedsSnoc(sorted, i);
  }

  /** Filtering the rows is filtering the entries, when the two tests agree
      on every entry and the row it is shown as. */
  lemma {:induction false} RenderFilter(e: seq<Entry>, pe: Entry -> bool, pr: ScheduleItem -> bool)
    requires forall k :: 0 <= k < |e| ==> (pr(Row(e[k])) <==> pe(e[k]))
    ensures Filter(Render(e), pr) == Render(Filter(e, pe))
  {
    if e != [] {
      var rows, x := Render(e), e[0];
      assert rows[1..] == Render(e[1..]);
      RenderFilter(e[1..], pe, pr);
      assert rows[0] == Row(x) && (pr(Row(x)) <==> pe(x));
      RenderConcat([x], Filter(e[1..], pe));
      assert Render([x]) == [Row(x)];
    }
  }

  /** Rendering keeps the split between schedules and suggestions when no
      schedule row is itself marked as a suggestion. */
  lemma RenderSplits(e: seq<Entry>)
    requires forall k :: 0 <= k < |e| && e[k].Fixed? ==> !e[k].row.isRecommended
    ensures Filter(Render(e), IsFixedRow) == Render(Filter(e, IsFixedEntry))
    ensures Filter(Render(e), IsSuggestedRow) == Render(Filter(e, IsSuggestedEntry))
  {
    RenderFilter(e, IsFixedEntry, IsFixedRow);
    RenderFilter(e, IsSuggestedEntry, IsSuggestedRow);
  }

  /** Every sorted row is in the day view once, in start order, beside one
      suggestion per placed task, unchecked and labelled with the task's
      title; every recommended task is placed at most once; and the view is
      as long as the daily rows plus the placements. */
  lemma InsertRecommendedAccounts(rule: GapRule, daily: seq<ScheduleItem>, recommended: seq<RecommendedTask>, w: Walk)
    requires WellTimedItems(daily) && FixedRows(daily)
    requires w == InsertWalk(rule, daily, recommended)
    ensures Filter(InsertRecommended(rule, daily, recommended), IsFixedRow) == SortBy(daily, ItemStartKey)
    ensures |Filter(InsertRecommended(rule, daily, recommended), IsSuggestedRow)| == |w.placed|
    ensures forall k :: 0 <= k < |w.placed| ==>
      Filter(InsertRecommended(rule, daily, recommended), IsSuggestedRow)[k].text == SuggestionPrefix + w.placed[k].title &&
      !Filter(InsertRecommended(rule, daily, recommended), IsSuggestedRow)[k].checked
    ensures multiset(w.placed) + multiset(w.remaining) == multiset(recommended)
    ensures |InsertRecommended(rule, daily, recommended)| == |daily| + |w.placed|
  {
    var sorted := SortedDaily(daily);
    WalkAccounts(rule, sorted, recommended, |sorted| + 1, w);
    assert |sorted| == |daily| by {
      assert |multiset(sorted)| == |multiset(daily)|;
    }
    assert sorted[..|sorted|] == sorted;
    FixedEntriesAreFixedRows(w.entries, sorted, daily);
    RenderSplits(w.entries);
    RenderFixeds(sorted);
    assert InsertRecommended(rule, daily, recommended) == Render(w.entries);
  }

  /** Entries whose schedule entries are those of a reordering of rows none of
      which is a suggestion hold no schedule row marked as a suggestion. */
  lemma FixedEntriesAreFixedRows(entries: seq<Entry>, sorted: seq<ScheduleItem>, daily: seq<ScheduleItem>)
    requires Filter(entries, IsFixedEntry) == Fixeds(sorted)
    requires multiset(sorted) == multiset(daily) && FixedRows(daily)
    ensures forall k :: 0 <= k < |entries| && entries[k].Fixed? ==> !entries[k].row.isRecommended
  {
    FilterMembers(entries, IsFixedEntry);
    forall k | 0 <= k < |entries| && entries[k].Fixed?
      ensures !entries[k].row.isRecommended
    {
      var e := entries[k];
      assert e in Filter(entries, IsFixedEntry);
      var j :| 0 <= j < |sorted| && Fixeds(sorted)[j] == e;
      assert e.row in multiset(daily);
    }
  }

  /** On a day with no schedules the only gap is 06:00 to 24:00: the code as
      written packs, from 06:00, every task whose hours plus the margin fit
      those eighteen hours. */
  lemma EmptyDayPacksFromDayOpen(recommended: seq<RecommendedTask>)
    ensures InsertWalk(StaleGap, [], recommended).entries == Chain(Filter(recommended, FitsGap(DayClose - DayOpen)), DayOpen)
  {
    RunIsChain(StaleGap, recommended, DayClose, DayOpen, DayOpen);
    StaleRunPlacesEveryFit(recommended, DayClose, DayOpen, DayOpen);
    var sorted := SortedDaily([]);
    assert sorted == [];
    assert Boundary(sorted, 0) == DayClose;
    var w0 := WalkUpTo(StaleGap, sorted, recommended, 0);
    assert w0 == Walk([], [], recommended, DayOpen);
    var run := PlaceRun(StaleGap, recommended, DayClose, DayOpen, DayOpen);
    assert WalkUpTo(StaleGap, sorted, recommended, 1) == WalkStep(StaleGap, sorted, w0, 0);
    assert WalkStep(StaleGap, sorted, w0, 0).entries == [] + run.items;
  }

  // ---------------------------------------------------------------------------
  // Suggestions and the schedules after them

  /** Every suggested row has well-formed times and does not end before it starts. */
  predicate SuggestionsWellTimed(rows: seq<ScheduleItem>)
  {
    forall k :: 0 <= k < |rows| && rows[k].isRecommended ==>
      IsTime(rows[k].timeStart) && IsTime(rows[k].timeEnd) &&
      TimeToMinutes(rows[k].timeStart) <= TimeToMinutes(rows[k].timeEnd)
  }

  /** Every suggested row ends at least the margin before every later
      non-suggested row starts. */
  predicate ClearOfLaterRows(rows: seq<ScheduleItem>)
  {
    forall k, m :: 0 <= k < m < |rows| && rows[k].isRecommended && !rows[m].isRecommended ==>
      IsTime(rows[k].timeEnd) && IsTime(rows[m].timeStart) &&
      TimeToMinutes(rows[k].timeEnd) + Margin <= TimeToMinutes(rows[m].timeStart)
  }

  /** The same two properties on entries, in minutes: every suggestion lies
      within the day, and ends the margin before every later schedule row,
      whose start is well-formed. */
  predicate EntriesSafe(e: seq<Entry>)
  {
    (forall k :: 0 <= k < |e| && e[k].Suggested? ==> PlacedWithin(e[k], 0, DayClose)) &&
    (forall k, m :: 0 <= k < m < |e| && e[k].Suggested? && e[m].Fixed? ==>
      IsTime(e[m].row.timeStart) && e[k].at + DurationMins(e[k].task) + Margin <= TimeToMinutes(e[m].row.timeStart))
  }

  /** Safe entries render to safe rows. */
  lemma RenderIsSafe(e: seq<Entry>)
    requires EntriesSafe(e)
    requires forall k :: 0 <= k < |e| && e[k].Fixed? ==> !e[k].row.isRecommended
    ensures SuggestionsWellTimed(Render(e)) && ClearOfLaterRows(Render(e))
  {
    var rows := Render(e);
    forall k | 0 <= k < |e| && e[k].Suggested?
      ensures IsTime(rows[k].timeStart) && IsTime(rows[k].timeEnd)
      ensures TimeToMinutes(rows[k].timeStart) == e[k].at
      ensures TimeToMinutes(rows[k].timeEnd) == e[k].at + DurationMins(e[k].task)
    {
      assert rows[k] == Suggestion(e[k].task, e[k].at);
      SuggestionTimes(e[k].task, e[k].at);
    }
    assert forall k :: 0 <= k < |e| ==> (rows[k].isRecommended <==> e[k].Suggested?);
  }

  /** A suggestion within the day has well-formed times that read back as
      its start and end minutes. */
  lemma SuggestionTimes(t: RecommendedTask, at: int)
    requires 0 <= at && 0 <= DurationMins(t) && at + DurationMins(t) < DayClose
    ensures IsTime(Suggestion(t, at).timeStart) && TimeToMinutes(Suggestion(t, at).timeStart) == at
    ensures IsTime(Suggestion(t, at).timeEnd) && TimeToMinutes(Suggestion(t, at).timeEnd) == at + DurationMins(t)
  {
    FormatThenParse(at);
    FormatThenParse(at + DurationMins(t));
  }

  /** Boundaries do not decrease along the sorted rows. */
  lemma BoundaryGrows(sorted: seq<ScheduleItem>, i: nat)
    requires 0 < i <= |sorted| && WellTimedItems(sorted) && SortedBy(sorted, ItemStartKey)
    ensures Boundary(sorted, i - 1) <= Boundary(sorted, i)
  {
    assert ItemStartKey(sorted[i - 1]) == Boundary(sorted, i - 1);
    if i < |sorted| {
      assert ItemStartKey(sorted[i]) == Boundary(sorted, i);
    }
  }

  /** With the gap measured again before every task: after the first `n`
      boundaries (for well-formed rows sorted by start and tasks of
      non-negative duration) the entries are safe, their schedule rows come
      from the sorted rows, and every suggestion ends the margin before the
      last boundary reached. */
  lemma {:induction false} FreshWalkIsSafe(sorted: seq<ScheduleItem>, recommended: seq<RecommendedTask>, n: nat, w: Walk)
    requires n <= |sorted| + 1 && WellTimedItems(sorted) && SortedBy(sorted, ItemStartKey)
    requires forall t :: t in recommended ==> t.duration >= 0
    requires w == WalkUpTo(FreshGap, sorted, recommended, n)
    ensures 0 <= w.lastEnd
    ensures forall t :: t in w.remaining ==> t in recommended
    ensures EntriesSafe(w.entries)
    ensures forall k :: 0 <= k < |w.entries| && w.entries[k].Fixed? ==> w.entries[k].row in sorted
    ensures n > 0 ==> forall k :: 0 <= k < |w.entries| && w.entries[k].Suggested? ==>
      w.entries[k].at + DurationMins(w.entries[k].task) + Margin <= Boundary(sorted, n - 1)
  {
    if n > 0 {
      var i := n - 1;
      var w0 := WalkUpTo(FreshGap, sorted, recommended, i);
      FreshWalkIsSafe(sorted, recommended, i, w0);
      var b := Boundary(sorted, i);
      assert b <= DayClose by {
        if i < |sorted| {
          assert sorted[i] in sorted;
        }
      }
      var run := PlaceRun(FreshGap, w0.remaining, b, w0.lastEnd, w0.lastEnd);
      FreshRunIsSafe(w0.remaining, b, w0.lastEnd, w0.lastEnd);
      RemainingShrinks(FreshGap, w0.remaining, b, w0.lastEnd);
      if i > 0 {
        BoundaryGrows(sorted, i);
      }
      var mid := w0.entries + run.items;
      SafeAppend(w0.entries, run.items, b);
      if i < |sorted| {
        var row := sorted[i];
        assert row in sorted;
        assert IsTime(row.timeStart) && TimeToMinutes(row.timeStart) == b;
        SafeAppendRow(mid, row, b);
      }
    }
  }

  /** A run keeps only tasks it was given. */
  lemma RemainingShrinks(rule: GapRule, pool: seq<RecommendedTask>, boundary: int, lastEnd: int)
    ensures forall t :: t in PlaceRun(rule, pool, boundary, lastEnd, lastEnd).remaining ==> t in pool
  {
    var run := PlaceRun(rule, pool, boundary, lastEnd, lastEnd);
    RunPartitionsPool(rule, pool, boundary, lastEnd, lastEnd);
    forall t | t in run.remaining ensures t in pool {
      assert t in multiset(run.remaining);
      assert t in multiset(pool);
    }
  }

  /** Appending suggestions that end the margin before `b`, after entries
      whose suggestions already do. */
  lemma SafeAppend(entries: seq<Entry>, items: seq<Entry>, b: int)
    requires b <= DayClose && EntriesSafe(entries)
    requires forall k :: 0 <= k < |entries| && entries[k].Suggested? ==>
      entries[k].at + DurationMins(entries[k].task) + Margin <= b
    requires forall k :: 0 <= k < |items| ==> PlacedWithin(items[k], 0, b)
    ensures EntriesSafe(entries + items)
    ensures forall k :: 0 <= k < |entries + items| && (entries + items)[k].Suggested? ==>
      (entries + items)[k].at + DurationMins((entries + items)[k].task) + Margin <= b
    ensures forall k :: 0 <= k < |entries + items| && (entries + items)[k].Fixed? ==> (entries + items)[k] in entries
  {
    var all := entries + items;
    assert forall k :: 0 <= k < |entries| ==> all[k] == entries[k];
    assert forall k :: |entries| <= k < |all| ==> all[k] == items[k - |entries|];
  }

  /** Appending a schedule row that starts at `b`. */
  lemma SafeAppendRow(entries: seq<Entry>, row: ScheduleItem, b: int)
    requires EntriesSafe(entries) && IsTime(row.timeStart) && TimeToMinutes(row.timeStart) == b
    requires forall k :: 0 <= k < |entries| && entries[k].Suggested? ==>
      entries[k].at + DurationMins(entries[k].task) + Margin <= b
    ensures EntriesSafe(entries + [Fixed(row)])
  {
    var all := entries + [Fixed(row)];
    assert forall k :: 0 <= k < |entries| ==> all[k] == entries[k];
  }

  /** CORRECTED: with the gap measured again before every task, every
      suggested row of the day view has well-formed times and ends at least
      ten minutes before every later schedule starts (for schedules with
      well-formed times and recommended tasks of non-negative duration). */
  lemma InsertRecommendedFreshIsSafe(daily: seq<ScheduleItem>, recommended: seq<RecommendedTask>)
    requires WellTimedItems(daily) && FixedRows(daily)
    requires forall t :: t in recommended ==> t.duration >= 0
    ensures SuggestionsWellTimed(InsertRecommended(FreshGap, daily, recommended))
    ensures ClearOfLaterRows(InsertRecommended(FreshGap, daily, recommended))
  {
    var sorted := SortedDaily(daily);
    var w := InsertWalk(FreshGap, daily, recommended);
    FreshWalkIsSafe(sorted, recommended, |sorted| + 1, w);
    forall k | 0 <= k < |w.entries| && w.entries[k].Fixed?
      ensures !w.entries[k].row.isRecommended
    {
      assert w.entries[k].row in multiset(sorted);
    }
    RenderIsSafe(w.entries);
  }

  /** A schedule from 10:00 to 11:00 ... */
  const ExampleDaily: seq<ScheduleItem> := [ScheduleItem("10:00", "11:00", "class", false, false, Some("d1"))]

  /** ... and two recommended tasks of three hours each. */
  const ExampleTasks: seq<RecommendedTask> := [RecommendedTask("r1", "read", 3, false), RecommendedTask("r2", "walk", 3, false)]

  /** AS WRITTEN: the gap before 10:00 is measured once as four hours, so both
      three-hour tasks are taken there; the second is packed from 09:00 to
      12:00, across the 10:00 schedule. */
  lemma StaleGapOverlapsNextSchedule()
    ensures WellTimedItems(ExampleDaily) && FixedRows(ExampleDaily)
    ensures InsertWalk(StaleGap, ExampleDaily, ExampleTasks).entries ==
      [Suggested(ExampleTasks[0], 6 * 60), Suggested(ExampleTasks[1], 9 * 60), Fixed(ExampleDaily[0])]
    ensures !ClearOfLaterRows(InsertRecommended(StaleGap, ExampleDaily, ExampleTasks))
  {
    var row := ExampleDaily[0];
    assert IsTime(row.timeStart) && TimeToMinutes(row.timeStart) == 600;
    assert IsTime(row.timeEnd) && TimeToMinutes(row.timeEnd) == 660;
    assert WellTimedItems(ExampleDaily);
    var sorted := SortedDaily(ExampleDaily);
    assert sorted == [row];
    var a, c := ExampleTasks[0], ExampleTasks[1];
    assert PlaceRun(StaleGap, [], 600, 360, 720) == Run([], [], [], 720);
    assert ExampleTasks[1..] == [c] && [c][1..] == [];
    assert PlaceRun(StaleGap, [c], 600, 360, 540) == Run([Suggested(c, 540)], [c], [], 720);
    assert PlaceRun(StaleGap, ExampleTasks, 600, 360, 360) == Run([Suggested(a, 360), Suggested(c, 540)], [a, c], [], 720);
    var w1 := WalkUpTo(StaleGap, sorted, ExampleTasks, 1);
    assert w1 == Walk([Suggested(a, 360), Suggested(c, 540), Fixed(row)], [a, c], [], 660);
    var w2 := WalkUpTo(StaleGap, sorted, ExampleTasks, 2);
    assert w2 == Walk(w1.entries, [a, c], [], 660);
    assert InsertRecommended(StaleGap, ExampleDaily, ExampleTasks) == Render(w2.entries);
    SuggestionRunsInto(w2.entries, 1, 2);
  }

  /** A suggestion that ends less than the margin before a later schedule
      row starts leaves the rendered rows not clear of later rows. */
  lemma SuggestionRunsInto(e: seq<Entry>, k: nat, m: nat)
    requires k < m < |e| && e[k].Suggested? && e[m].Fixed? && !e[m].row.isRecommended
    requires 0 <= e[k].at + DurationMins(e[k].task) < DayClose
    requires IsTime(e[m].row.timeStart) && TimeToMinutes(e[m].row.timeStart) < e[k].at + DurationMins(e[k].task) + Margin
    ensures !ClearOfLaterRows(Render(e))
  {
    var rows, end := Render(e), e[k].at + DurationMins(e[k].task);
    FormatThenParse(end);
    assert rows[k].timeEnd == MinutesToTime(end) && rows[k].isRecommended;
    assert rows[m] == e[m].row;
    assert TimeToMinutes(rows[m].timeStart) < TimeToMinutes(rows[k].timeEnd) + Margin;
  }

  // The checkbox handler

  /** The row `loadAll` builds for a schedule. */
  function ScheduleRow(s: DailySchedule): ScheduleItem
  {
    ScheduleItem(s.startTime, s.endTime, s.title, s.isCompleted, false, Some(s.id))
  }

  /** The rows for a list of schedules. */
  function ScheduleRows(schedules: seq<DailySchedule>): (rows: seq<ScheduleItem>)
    ensures |rows| == |schedules|
  {
    seq(|schedules|, k requires 0 <= k < |schedules| => ScheduleRow(schedules[k]))
  }

  /** The transform `handleCheckboxToggle` applies to `db.dailySchedules`:
      every schedule with the id is toggled (`Store.Toggled`), the others are
      kept. */
  function ToggleMatching(schedules: seq<DailySchedule>, id: string, now: int): (r: seq<DailySchedule>)
    ensures |r| == |schedules|
  {
    seq(|schedules|, k requires 0 <= k < |schedules| =>
      if schedules[k].id == id then Toggled(schedules[k], now) else schedules[k])
  }

  /** Under unique ids the screen's transform is the store's
      `toggleDailyScheduleComplete` update: no change for an unknown id, else
      the one schedule with the id toggled. Its result stays consistent. */
  lemma ToggleMatchingAgreesWithStore(db: TaskDB, id: string, now: int)
    requires DailyIdsUnique(db.dailySchedules)
    ensures FindSchedule(db.dailySchedules, id).None? ==> ToggleMatching(db.dailySchedules, id, now) == db.dailySchedules
    ensures FindSchedule(db.dailySchedules, id).Some? ==>
      ToggleMatching(db.dailySchedules, id, now) ==
        db.dailySchedules[FindSchedule(db.dailySchedules, id).value := Toggled(db.dailySchedules[FindSchedule(db.dailySchedules, id).value], now)]
    ensures Consistent(db) ==> Consistent(db.(dailySchedules := ToggleMatching(db.dailySchedules, id, now)))
  {
    var s := db.dailySchedules;
    var r := ToggleMatching(s, id, now);
    match FindSchedule(s, id)
    case None =>
      assert r == s;
    case Some(j) =>
      assert forall k :: 0 <= k < |s| && k != j ==> s[k].id != id;
      assert r == s[j := Toggled(s[j], now)];
      if Consistent(db) {
        ToggleKeepsConsistent(db, j, now);
      }
  }

  /** The visible list update: flip `checked` on every row with the id. */
  function ToggleChecked(rows: seq<ScheduleItem>, id: string): (r: seq<ScheduleItem>)
    ensures |r| == |rows|
  {
    seq(|rows|, k requires 0 <= k < |rows| =>
      if rows[k].id == Some(id) then rows[k].(checked := !rows[k].checked) else rows[k])
  }

  /** The visible update mirrors the saved one: the rows of the toggled
      schedules are the toggled rows; suggested rows, which have no id, are
      left alone; and toggling twice restores the rows. */
  lemma VisibleToggleMirrorsStore(schedules: seq<DailySchedule>, rows: seq<ScheduleItem>, id: string, now: int)
    ensures ScheduleRows(ToggleMatching(schedules, id, now)) == ToggleChecked(ScheduleRows(schedules), id)
    ensures forall k :: 0 <= k < |rows| && rows[k].id.None? ==> ToggleChecked(rows, id)[k] == rows[k]
    ensures ToggleChecked(ToggleChecked(rows, id), id) == rows
  {
    var left := ScheduleRows(ToggleMatching(schedules, id, now));
    var right := ToggleChecked(ScheduleRows(schedules), id);
    assert forall k :: 0 <= k < |left| ==> left[k] == right[k];
  }

  /** `handleCheckboxToggle(item)`: an item whose id is missing or empty
      (`!item.id`) does nothing; otherwise the database is read, every
      schedule with the id is toggled and the database saved, and then the
      visible rows are updated. The handler has no `try`: a read or save that
      throws rejects its promise, with nothing written and the rows as they
      were. */
  method HandleCheckboxToggle(store: ScheduleStore, itemId: Option<string>, now: int, visible: seq<ScheduleItem>)
    returns (r: Result<seq<ScheduleItem>, StoreError>)
    modifies store
    ensures itemId.None? || itemId == Some("") ==> store.slot == old(store.slot) && r == Ok(visible)
    ensures itemId.Some? && itemId != Some("") && Load(old(store.slot)).Err? ==>
      store.slot == old(store.slot) && r == Err(CorruptDocument)
    ensures itemId.Some? && itemId != Some("") && Load(old(store.slot)).Ok? ==>
      var db := Load(old(store.slot)).value;
      var db' := db.(dailySchedules := ToggleMatching(db.dailySchedules, itemId.value, now));
      (DatesValid(db') ==> Load(store.slot) == Ok(db') && r == Ok(ToggleChecked(visible, itemId.value))) &&
      (!DatesValid(db') ==> store.slot == old(store.slot) && r == Err(InvalidTimeValue))
  {
    if itemId.None? || itemId.value == "" {
      return Ok(visible);
    }
    var loaded := store.GetDB();
    if loaded.Err? {
      return Err(loaded.error);
    }
    var db := loaded.value;
    var updatedSchedules := ToggleMatching(db.dailySchedules, itemId.value, now);
    db := db.(dailySchedules := updatedSchedules);
    var saved := store.SetDB(db);
    if saved.Err? {
      return Err(saved.error);
    }
    return Ok(ToggleChecked(visible, itemId.value));
  }
}
