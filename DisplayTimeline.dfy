/** The display timeline of one date (`generateDisplayTasksForDate`): the
    date's daily schedules in start-time order, with one recommended task
    shown in each gap between consecutive schedules where one fits. */
module DisplayTimeline {
  import opened Wrappers
  import opened Sequences
  import opened Clock
  import opened TaskStore

  /** The entry's `type`: '일정' for a schedule, '추천' for a recommendation. */
  datatype EntryKind = Schedule | Recommendation

  datatype DisplayTask = DisplayTask(
    kind: EntryKind, id: string, date: Date, timeStart: string, timeEnd: string,
    text: string, checked: bool, isRecommended: bool, duration: Option<int>)

  /** `getTimeGapInMinutes`: the minutes from `start` to `end` on the same day. */
  function GapMinutes(start: string, end: string): (gap: int)
    requires IsTime(start) && IsTime(end)
    ensures -24 * 60 < gap < 24 * 60
    ensures gap > 0 <==> LexLess(start, end)
  {
    LexLessIsMinuteOrder(start, end);
    TimeToMinutes(end) - TimeToMinutes(start)
  }

  /** Moving on from `start` by the gap lands exactly on `end`. */
  lemma GapReachesEnd(start: string, end: string)
    requires IsTime(start) && IsTime(end)
    ensures MinutesToTime(TimeToMinutes(start) + GapMinutes(start, end)) == end
  {
    ParseThenFormat(end);
  }

  /** The sort key of `a.startTime.localeCompare(b.startTime)`; on well-formed
      times string order and minute order agree (`Clock.LexLessIsMinuteOrder`). */
  function StartKey(d: DailySchedule): int
  {
    if IsTime(d.startTime) then TimeToMinutes(d.startTime) else 0
  }

  function OnDate(date: Date): DailySchedule -> bool
  {
    (d: DailySchedule) => d.date == date
  }

  /** The daily schedules of `date`, sorted by start time. */
  function DaySchedules(all: seq<DailySchedule>, date: Date): (r: seq<DailySchedule>)
    ensures multiset(r) == multiset(Filter(all, OnDate(date)))
    ensures forall d :: d in r <==> d in all && d.date == date
    ensures SortedBy(r, StartKey)
  {
    var onDate := Filter(all, OnDate(date));
    FilterMembers(all, OnDate(date));
    var r := SortBy(onDate, StartKey);
    assert forall d :: d in r <==> d in onDate by {
      forall d ensures d in r <==> d in onDate {
        assert d in r <==> d in multiset(r);
        assert d in onDate <==> d in multiset(onDate);
      }
    }
    r
  }

  const Incomplete: RecommendedTask -> bool := (t: RecommendedTask) => !t.isCompleted

  /** The candidate pool: the recommended tasks not completed, in reverse order. */
  function CandidatePool(recommended: seq<RecommendedTask>): (pool: seq<RecommendedTask>)
    ensures forall t :: t in pool <==> t in recommended && !t.isCompleted
  {
    var open := Filter(recommended, Incomplete);
    FilterMembers(recommended, Incomplete);
    var pool := Reverse(open);
    assert forall t :: t in pool <==> t in open by {
      forall t ensures t in pool <==> t in open {
        if t in open {
          var k :| 0 <= k < |open| && open[k] == t;
          assert pool[|open| - 1 - k] == t;
        }
        if t in pool {
          var k :| 0 <= k < |pool| && pool[k] == t;
          assert open[|open| - 1 - k] == t;
        }
      }
    }
    pool
  }

  function FitsIn(gap: int): RecommendedTask -> bool
  {
    (t: RecommendedTask) => t.duration <= gap
  }

  function HasDuration(d: int): RecommendedTask -> bool
  {
    (t: RecommendedTask) => t.duration == d
  }

  /** `Math.max(...candidates.map(t => t.duration))`. */
  function MaxDuration(c: seq<RecommendedTask>): (m: int)
    requires c != []
    ensures exists k :: 0 <= k < |c| && c[k].duration == m
    ensures forall k :: 0 <= k < |c| ==> c[k].duration <= m
  {
    if |c| == 1 then c[0].duration
    else
      var rest := MaxDuration(c[1..]);
      assert forall k :: 1 <= k < |c| ==> c[k] == c[1..][k - 1];
      if c[0].duration >= rest then c[0].duration else rest
  }

  /** A daily schedule as a display entry. */
  function Fixed(d: DailySchedule): DisplayTask
  {
    DisplayTask(Schedule, d.id, d.date, d.startTime, d.endTime, d.title, d.isCompleted, false, None)
  }

  /** Candidate `t` shown in the gap from `current` to `next`: the entry spans
      the whole gap, on `current`'s date. */
  function Recommend(current: DailySchedule, next: DailySchedule, t: RecommendedTask): DisplayTask
  {
    DisplayTask(Recommendation, t.id, current.date, current.endTime, next.startTime,
      t.title, t.isCompleted, true, Some(t.duration))
  }

  /** The candidates tied at the longest duration. */
  function Longest(candidates: seq<RecommendedTask>): (ties: seq<RecommendedTask>)
    requires candidates != []
    ensures ties != []
    ensures forall k :: 0 <= k < |ties| ==> ties[k] in candidates && ties[k].duration == MaxDuration(candidates)
    ensures forall k :: 0 <= k < |candidates| && candidates[k].duration == MaxDuration(candidates) ==> candidates[k] in ties
  {
    LongestIsTaken(candidates);
    FilterMembers(candidates, HasDuration(MaxDuration(candidates)));
    Filter(candidates, HasDuration(MaxDuration(candidates)))
  }

  lemma LongestIsTaken(candidates: seq<RecommendedTask>)
    requires candidates != []
    ensures Filter(candidates, HasDuration(MaxDuration(candidates))) != []
  {
    var w :| 0 <= w < |candidates| && candidates[w].duration == MaxDuration(candidates);
    FilterMembers(candidates, HasDuration(MaxDuration(candidates)));
    assert candidates[w] in Filter(candidates, HasDuration(MaxDuration(candidates)));
  }

  /** The recommended entry for the gap between `current` and `next`: a
      longest candidate that fits, the `pickValue`-th among the tied ones
      (modulo their number, standing for `Math.floor(Math.random() * n)`). */
  function Insertion(current: DailySchedule, next: DailySchedule, pool: seq<RecommendedTask>, pickValue: nat): Option<DisplayTask>
    requires IsTime(current.endTime) && IsTime(next.startTime)
  {
    var gap := GapMinutes(current.endTime, next.startTime);
    if |pool| == 0 then None
    else
      var candidates := Filter(pool, FitsIn(gap));
      FilterMembers(pool, FitsIn(gap));
      if |candidates| == 0 then None
      else
        var maxDurationTasks := Longest(candidates);
        Some(Recommend(current, next, maxDurationTasks[pickValue % |maxDurationTasks|]))
  }

  predicate WellTimed(days: seq<DailySchedule>)
  {
    forall k :: 0 <= k < |days| ==> IsTime(days[k].startTime) && IsTime(days[k].endTime)
  }

  function OptionToSeq<T>(o: Option<T>): seq<T>
  {
    if o.Some? then [o.value] else []
  }

  /** What the loop pushes for schedule `i`: its entry, then the gap's
      recommendation when there is a next schedule. */
  function Entry(days: seq<DailySchedule>, pool: seq<RecommendedTask>, pick: nat -> nat, i: nat): seq<DisplayTask>
    requires WellTimed(days) && i < |days|
  {
    [Fixed(days[i])] +
    (if i + 1 < |days| then OptionToSeq(Insertion(days[i], days[i + 1], pool, pick(i))) else [])
  }

  /** The entries pushed for each schedule, in order. */
  function Entries(days: seq<DailySchedule>, pool: seq<RecommendedTask>, pick: nat -> nat): (r: seq<seq<DisplayTask>>)
    requires WellTimed(days)
    ensures |r| == |days|
    ensures forall i :: 0 <= i < |days| ==> r[i] == Entry(days, pool, pick, i)
  {
    seq(|days|, i requires 0 <= i < |days| => Entry(days, pool, pick, i))
  }

  /** The display list: every schedule's entries, one schedule after another. */
  function Timeline(days: seq<DailySchedule>, pool: seq<RecommendedTask>, pick: nat -> nat): seq<DisplayTask>
    requires WellTimed(days)
  {
    Flatten(Entries(days, pool, pick))
  }

  /** A recommendation is shown exactly when some candidate fits the gap; the
      one shown is a candidate that fits, has the longest duration among those
      that fit, and spans the whole gap on the earlier schedule's date. */
  lemma InsertionChoosesLongestFit(current: DailySchedule, next: DailySchedule, pool: seq<RecommendedTask>, pickValue: nat)
    requires IsTime(current.endTime) && IsTime(next.startTime)
    ensures var gap := GapMinutes(current.endTime, next.startTime);
      Insertion(current, next, pool, pickValue).Some? <==> exists k :: 0 <= k < |pool| && pool[k].duration <= gap
    ensures var gap := GapMinutes(current.endTime, next.startTime);
      var e := Insertion(current, next, pool, pickValue);
      e.Some? ==> exists k :: (0 <= k < |pool| && pool[k].duration <= gap &&
        e.value == Recommend(current, next, pool[k]) &&
        forall j :: 0 <= j < |pool| && pool[j].duration <= gap ==> pool[j].duration <= pool[k].duration)
  {
    var gap := GapMinutes(current.endTime, next.startTime);
    var candidates := Filter(pool, FitsIn(gap));
    FilterMembers(pool, FitsIn(gap));
    if exists k :: 0 <= k < |pool| && pool[k].duration <= gap {
      var k :| 0 <= k < |pool| && pool[k].duration <= gap;
      assert pool[k] in candidates;
    }
    if |pool| > 0 && |candidates| > 0 {
      var ties := Longest(candidates);
      var chosen := ties[pickValue % |ties|];
      assert chosen in candidates;
      var c :| 0 <= c < |candidates| && candidates[c] == chosen;
      var k :| 0 <= k < |pool| && pool[k] == chosen;
      forall j | 0 <= j < |pool| && pool[j].duration <= gap
        ensures pool[j].duration <= chosen.duration
      {
        assert pool[j] in candidates;
      }
    }
  }

  /** The random tie-break can land on any candidate of the longest fitting duration. */
  lemma EveryTieCanBeChosen(current: DailySchedule, next: DailySchedule, pool: seq<RecommendedTask>, k: nat)
    requires IsTime(current.endTime) && IsTime(next.startTime)
    requires k < |pool|
    requires pool[k].duration <= GapMinutes(current.endTime, next.startTime)
    requires forall j :: 0 <= j < |pool| && pool[j].duration <= GapMinutes(current.endTime, next.startTime) ==>
      pool[j].duration <= pool[k].duration
    ensures exists pickValue: nat :: Insertion(current, next, pool, pickValue) == Some(Recommend(current, next, pool[k]))
  {
    var gap := GapMinutes(current.endTime, next.startTime);
    var candidates := Filter(pool, FitsIn(gap));
    FilterMembers(pool, FitsIn(gap));
    assert pool[k] in candidates;
    var c :| 0 <= c < |candidates| && candidates[c] == pool[k];
    var w :| 0 <= w < |candidates| && candidates[w].duration == MaxDuration(candidates);
    assert candidates[w] in pool;
    var ties := Longest(candidates);
    assert pool[k] in ties;
    var i :| 0 <= i < |ties| && ties[i] == pool[k];
    ModOfSmaller(i, |ties|);
    assert Insertion(current, next, pool, i) == Some(Recommend(current, next, pool[k]));
  }

  lemma ModOfSmaller(i: nat, n: nat)
    requires i < n
    ensures i % n == i
  {
  }

  /** What follows schedule `i`: its own entry, then a recommendation exactly
      when `i` has a successor and some candidate fits the gap up to it. */
  lemma EntryAfterSchedule(days: seq<DailySchedule>, pool: seq<RecommendedTask>, pick: nat -> nat, i: nat)
    requires WellTimed(days) && i < |days|
    ensures Entry(days, pool, pick, i)[0] == Fixed(days[i])
    ensures |Entry(days, pool, pick, i)| == 2 <==>
      i + 1 < |days| &&
      exists k :: 0 <= k < |pool| && pool[k].duration <= GapMinutes(days[i].endTime, days[i + 1].startTime)
    ensures |Entry(days, pool, pick, i)| == 2 ==>
      Entry(days, pool, pick, i)[1] == Insertion(days[i], days[i + 1], pool, pick(i)).value
    ensures 1 <= |Entry(days, pool, pick, i)| <= 2
  {
    if i + 1 < |days| {
      InsertionChoosesLongestFit(days[i], days[i + 1], pool, pick(i));
    }
  }

  /** Each block starts with a schedule entry and holds at most one
      recommendation after it. */
  predicate Shaped(blocks: seq<seq<DisplayTask>>)
  {
    forall i :: 0 <= i < |blocks| ==>
      1 <= |blocks[i]| <= 2 && !blocks[i][0].isRecommended && (|blocks[i]| == 2 ==> blocks[i][1].isRecommended)
  }

  lemma EntriesAreShaped(days: seq<DailySchedule>, pool: seq<RecommendedTask>, pick: nat -> nat)
    requires WellTimed(days)
    ensures Shaped(Entries(days, pool, pick))
    ensures forall i :: 0 <= i < |days| ==> Entries(days, pool, pick)[i][0] == Fixed(days[i])
    ensures |days| > 0 ==> Entries(days, pool, pick)[|days| - 1] == [Fixed(days[|days| - 1])]
  {
    forall i | 0 <= i < |days|
      ensures var e := Entry(days, pool, pick, i);
        1 <= |e| <= 2 && e[0] == Fixed(days[i]) && (|e| == 2 ==> e[1].isRecommended)
    {
      EntryAfterSchedule(days, pool, pick, i);
    }
  }

  const IsScheduleEntry: DisplayTask -> bool := (e: DisplayTask) => !e.isRecommended

  /** The first entry of every block. */
  function Heads(blocks: seq<seq<DisplayTask>>): seq<DisplayTask>
    requires forall i :: 0 <= i < |blocks| ==> blocks[i] != []
  {
    seq(|blocks|, i requires 0 <= i < |blocks| => blocks[i][0])
  }

  lemma ScheduleEntryOfBlock(e: seq<DisplayTask>)
    requires 1 <= |e| <= 2 && !e[0].isRecommended && (|e| == 2 ==> e[1].isRecommended)
    ensures Filter(e, IsScheduleEntry) == [e[0]]
  {
    if |e| == 2 {
      assert e == [e[0]] + [e[1]];
      FilterConcat([e[0]], [e[1]], IsScheduleEntry);
    }
  }

  /** Keeping the schedule entries of shaped blocks keeps exactly their heads. */
  lemma {:induction false} ScheduleEntriesAreHeads(blocks: seq<seq<DisplayTask>>)
    requires Shaped(blocks)
    ensures Filter(Flatten(blocks), IsScheduleEntry) == Heads(blocks)
  {
    if blocks != [] {
      var n := |blocks| - 1;
      var e := blocks[n];
      ScheduleEntriesAreHeads(blocks[..n]);
      FilterConcat(Flatten(blocks[..n]), e, IsScheduleEntry);
      ScheduleEntryOfBlock(e);
      assert Heads(blocks) == Heads(blocks[..n]) + [e[0]];
    }
  }

  /** Shaped blocks hold between one and two entries each. */
  lemma {:induction false} ShapedLength(blocks: seq<seq<DisplayTask>>)
    requires Shaped(blocks)
    ensures |blocks| <= |Flatten(blocks)| <= 2 * |blocks|
  {
    if blocks != [] {
      ShapedLength(blocks[..|blocks| - 1]);
    }
  }

  /** No recommendation directly follows another. */
  predicate NoTwoRecommendationsInARow(t: seq<DisplayTask>)
  {
    forall p :: 0 <= p < |t| - 1 && t[p].isRecommended ==> !t[p + 1].isRecommended
  }

  /** In shaped blocks no recommendation directly follows another. */
  lemma {:induction false} ShapedNoTwoRecommendationsInARow(blocks: seq<seq<DisplayTask>>)
    requires Shaped(blocks)
    ensures NoTwoRecommendationsInARow(Flatten(blocks))
  {
    if blocks != [] {
      var n := |blocks| - 1;
      ShapedNoTwoRecommendationsInARow(blocks[..n]);
      var before := Flatten(blocks[..n]);
      var e := blocks[n];
      var t := before + e;
      assert Flatten(blocks) == t;
      assert 1 <= |e| <= 2 && !e[0].isRecommended && (|e| == 2 ==> e[1].isRecommended);
      assert |before| < |t| && t[|before|] == e[0];
      forall p | 0 <= p < |t| - 1 && t[p].isRecommended
        ensures !t[p + 1].isRecommended
      {
        if p + 1 < |before| {
          assert t[p] == before[p] && t[p + 1] == before[p + 1];
          assert before[p].isRecommended;
        } else if p + 1 == |before| {
          assert t[p + 1] == e[0];
        } else {
          assert false;
        }
      }
    }
  }

  /** The schedules shown, in order, are exactly the date's sorted schedules. */
  lemma TimelineShowsEverySchedule(days: seq<DailySchedule>, pool: seq<RecommendedTask>, pick: nat -> nat)
    requires WellTimed(days)
    ensures Filter(Timeline(days, pool, pick), IsScheduleEntry) == seq(|days|, k requires 0 <= k < |days| => Fixed(days[k]))
  {
    EntriesAreShaped(days, pool, pick);
    ScheduleEntriesAreHeads(Entries(days, pool, pick));
  }

  /** The timeline starts and ends with a schedule, holds between `n` and
      `2n - 1` entries for `n` schedules, never shows two recommendations in
      a row, and without a gap (zero or one schedule) shows no recommendation. */
  lemma TimelineShape(days: seq<DailySchedule>, pool: seq<RecommendedTask>, pick: nat -> nat)
    requires WellTimed(days)
    ensures var t := Timeline(days, pool, pick);
      (|days| == 0 ==> t == []) &&
      (|days| >= 1 ==> |days| <= |t| <= 2 * |days| - 1 && t[0] == Fixed(days[0]) && t[|t| - 1] == Fixed(days[|days| - 1])) &&
      (|days| <= 1 ==> forall p :: 0 <= p < |t| ==> !t[p].isRecommended) &&
      NoTwoRecommendationsInARow(t)
  {
    var blocks := Entries(days, pool, pick);
    EntriesAreShaped(days, pool, pick);
    ShapedNoTwoRecommendationsInARow(blocks);
    if |days| >= 1 {
      var n := |days| - 1;
      ShapedLength(blocks[..n]);
      FlattenPrefix(blocks, 1);
      assert blocks[..1] == [blocks[0]];
      FlattenSnoc([], blocks[0]);
    }
  }

  /** The candidate pool is never shrunk: a candidate alone in the pool is
      shown in every gap it fits, however many there are. */
  lemma SingleCandidateFillsEveryGapItFits(days: seq<DailySchedule>, t: RecommendedTask, pick: nat -> nat, i: nat)
    requires WellTimed(days) && i + 1 < |days|
    requires t.duration <= GapMinutes(days[i].endTime, days[i + 1].startTime)
    ensures |Entry(days, [t], pick, i)| == 2
    ensures Entry(days, [t], pick, i)[1].id == t.id
  {
    EntryAfterSchedule(days, [t], pick, i);
    InsertionChoosesLongestFit(days[i], days[i + 1], [t], pick(i));
  }

  /** `generateDisplayTasksForDate` on the database `getDB` returned: select
      and sort the date's schedules, take the candidate pool, and build the
      list; `pick` supplies the random tie-break of each gap. */
  method GenerateDisplayTasksForDate(db: TaskDB, date: Date, pick: nat -> nat) returns (displayList: seq<DisplayTask>)
    requires forall d :: d in db.dailySchedules && d.date == date ==> IsTime(d.startTime) && IsTime(d.endTime)
    ensures WellTimed(DaySchedules(db.dailySchedules, date))
    ensures displayList == Timeline(DaySchedules(db.dailySchedules, date), CandidatePool(db.recommendedTasks), pick)
  {
    var dailyTasks := DaySchedules(db.dailySchedules, date);
    var recommendedTasks := CandidatePool(db.recommendedTasks);
    displayList := BuildDisplayList(dailyTasks, recommendedTasks, pick);
  }

  /** The loop of `generateDisplayTasksForDate` over the sorted schedules. */
  method BuildDisplayList(dailyTasks: seq<DailySchedule>, recommendedTasks: seq<RecommendedTask>, pick: nat -> nat)
    returns (displayList: seq<DisplayTask>)
    requires WellTimed(dailyTasks)
    ensures displayList == Timeline(dailyTasks, recommendedTasks, pick)
  {
    ghost var blocks := Entries(dailyTasks, recommendedTasks, pick);
    displayList := [];
    for i := 0 to |dailyTasks|
      invariant displayList == Flatten(blocks[..i])
    {
      FlattenTake(blocks, i);
      var current := dailyTasks[i];
      displayList := displayList + [Fixed(current)];
      if i + 1 >= |dailyTasks| {
        assert blocks[..i + 1] == blocks;
        break;
      }
      var next := dailyTasks[i + 1];
      var inserted := RecommendationForGap(current, next, recommendedTasks, pick(i));
      if inserted.Some? {
        displayList := displayList + [inserted.value];
      }
    }
    assert blocks[..|dailyTasks|] == blocks;
  }

  /** The body of the loop for the gap after `current`: the longest fitting
      candidates, one of them picked by `pickValue`. */
  method RecommendationForGap(current: DailySchedule, next: DailySchedule, recommendedTasks: seq<RecommendedTask>, pickValue: nat)
    returns (inserted: Option<DisplayTask>)
    requires IsTime(current.endTime) && IsTime(next.startTime)
    ensures inserted == Insertion(current, next, recommendedTasks, pickValue)
  {
    inserted := None;
    var gap := GapMinutes(current.endTime, next.startTime);
    if |recommendedTasks| > 0 {
      var candidates := Filter(recommendedTasks, FitsIn(gap));
      if |candidates| > 0 {
        var maxDuration := MaxDuration(candidates);
        var maxDurationTasks := Filter(candidates, HasDuration(maxDuration));
        LongestIsTaken(candidates);
        var randomIndex := pickValue % |maxDurationTasks|;
        var recommended := maxDurationTasks[randomIndex];
        inserted := Some(DisplayTask(Recommendation, recommended.id, current.date,
          current.endTime, next.startTime, recommended.title, recommended.isCompleted, true,
          Some(recommended.duration)));
      }
    }
  }
}
