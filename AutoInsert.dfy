/** Automatic placement of recommended tasks into a day
    (`autoInsertRecommendedTasks`): the free slots of a 08:00-22:00 day
    around the date's schedules, each filled with the longest remaining
    recommended task that fits, which is then used up. */
module AutoInsert {
  import opened Wrappers
  import opened Sequences
  import opened Clock
  import opened TaskStore
  import opened DisplayTimeline

  /** The working day: 08:00 to 22:00, in minutes after midnight. */
  const DayStart := 8 * 60
  const DayEnd := 22 * 60

  /** A free interval [start, end) of the day, in minutes. */
  datatype TimeSlot = TimeSlot(start: int, end: int)

  function Max(a: int, b: int): int
  {
    if a >= b then a else b
  }

  function Start(t: DailySchedule): int
    requires IsTime(t.startTime)
  {
    TimeToMinutes(t.startTime)
  }

  function End(t: DailySchedule): int
    requires IsTime(t.endTime)
  {
    TimeToMinutes(t.endTime)
  }

  /** `lastEnd` after the first `n` schedules: the latest end seen so far,
      and never before the day's start. */
  function LastEnd(tasks: seq<DailySchedule>, n: nat): (r: int)
    requires WellTimed(tasks) && n <= |tasks|
    ensures r >= DayStart
    ensures forall j :: 0 <= j < n ==> End(tasks[j]) <= r
  {
    if n == 0 then DayStart else Max(LastEnd(tasks, n - 1), End(tasks[n - 1]))
  }

  /** The slot pushed while visiting schedule `k`: the stretch from `lastEnd`
      up to the schedule's start, when it starts later. */
  function SlotBefore(tasks: seq<DailySchedule>, k: nat): seq<TimeSlot>
    requires WellTimed(tasks) && k < |tasks|
  {
    if Start(tasks[k]) > LastEnd(tasks, k) then [TimeSlot(LastEnd(tasks, k), Start(tasks[k]))] else []
  }

  /** The slots pushed by the loop over the first `n` schedules. */
  function InnerSlots(tasks: seq<DailySchedule>, n: nat): seq<TimeSlot>
    requires WellTimed(tasks) && n <= |tasks|
  {
    if n == 0 then [] else InnerSlots(tasks, n - 1) + SlotBefore(tasks, n - 1)
  }

  /** All free slots: the loop's slots, then the stretch from the final
      `lastEnd` to 22:00 when the day is not filled up to then. */
  function EmptySlots(tasks: seq<DailySchedule>): seq<TimeSlot>
    requires WellTimed(tasks)
  {
    var lastEnd := LastEnd(tasks, |tasks|);
    InnerSlots(tasks, |tasks|) + (if lastEnd < DayEnd then [TimeSlot(lastEnd, DayEnd)] else [])
  }

  /** Step 4 of `autoInsertRecommendedTasks`: the free slots of the sorted schedules. */
  method ComputeEmptySlots(sortedTasks: seq<DailySchedule>) returns (emptySlots: seq<TimeSlot>)
    requires WellTimed(sortedTasks)
    ensures emptySlots == EmptySlots(sortedTasks)
  {
    emptySlots := [];
    var lastEnd := DayStart;
    for i := 0 to |sortedTasks|
      invariant emptySlots == InnerSlots(sortedTasks, i)
      invariant lastEnd == LastEnd(sortedTasks, i)
    {
      var task := sortedTasks[i];
      var taskStart := TimeToMinutes(task.startTime);
      if taskStart > lastEnd {
        emptySlots := emptySlots + [TimeSlot(lastEnd, taskStart)];
      }
      lastEnd := Max(lastEnd, TimeToMinutes(task.endTime));
    }
    if lastEnd < DayEnd {
      emptySlots := emptySlots + [TimeSlot(lastEnd, DayEnd)];
    }
  }

  /** `lastEnd` never decreases. */
  lemma {:induction false} LastEndGrows(tasks: seq<DailySchedule>, m: nat, n: nat)
    requires WellTimed(tasks) && m <= n <= |tasks|
    ensures LastEnd(tasks, m) <= LastEnd(tasks, n)
  {
    if m < n {
      LastEndGrows(tasks, m, n - 1);
    }
  }

  /** Slot `i` of the loop is `SlotBefore` schedule `k`: it runs from
      `lastEnd` at `k` up to the start of `k`. */
  lemma {:induction false} InnerSlotOrigin(tasks: seq<DailySchedule>, n: nat, i: nat) returns (k: nat)
    requires WellTimed(tasks) && n <= |tasks| && i < |InnerSlots(tasks, n)|
    ensures k < n && Start(tasks[k]) > LastEnd(tasks, k)
    ensures InnerSlots(tasks, n)[i] == TimeSlot(LastEnd(tasks, k), Start(tasks[k]))
  {
    var before := InnerSlots(tasks, n - 1);
    var slot := SlotBefore(tasks, n - 1);
    assert InnerSlots(tasks, n) == before + slot;
    if i < |before| {
      k := InnerSlotOrigin(tasks, n - 1, i);
      assert (before + slot)[i] == before[i];
    } else {
      k := n - 1;
      assert (before + slot)[i] == slot[0];
    }
  }

  /** Each slot is non-empty, starts no earlier than 08:00 and ends before
      midnight (a slot before a schedule that starts after 22:00 runs up to
      that schedule, past 22:00). */
  lemma SlotsAreProper(tasks: seq<DailySchedule>)
    requires WellTimed(tasks)
    ensures forall i :: 0 <= i < |EmptySlots(tasks)| ==>
      DayStart <= EmptySlots(tasks)[i].start < EmptySlots(tasks)[i].end < 24 * 60
  {
    var inner := InnerSlots(tasks, |tasks|);
    forall i | 0 <= i < |EmptySlots(tasks)|
      ensures DayStart <= EmptySlots(tasks)[i].start < EmptySlots(tasks)[i].end < 24 * 60
    {
      if i < |inner| {
        var k := InnerSlotOrigin(tasks, |tasks|, i);
      }
    }
  }

  /** The slots come in ascending order and do not overlap each other. */
  predicate Ordered(slots: seq<TimeSlot>)
  {
    forall i, j :: 0 <= i < j < |slots| ==> slots[i].end <= slots[j].start
  }

  /** For schedules that do not end before they start, the loop's slots are
      ordered and all end by the current `lastEnd`. */
  lemma {:induction false} InnerSlotsOrdered(tasks: seq<DailySchedule>, n: nat)
    requires WellTimed(tasks) && n <= |tasks|
    requires forall j :: 0 <= j < |tasks| ==> Start(tasks[j]) <= End(tasks[j])
    ensures Ordered(InnerSlots(tasks, n))
    ensures forall i :: 0 <= i < |InnerSlots(tasks, n)| ==> InnerSlots(tasks, n)[i].end <= LastEnd(tasks, n)
  {
    if n > 0 {
      InnerSlotsOrdered(tasks, n - 1);
      LastEndGrows(tasks, n - 1, n);
      var before := InnerSlots(tasks, n - 1);
      var all := InnerSlots(tasks, n);
      assert all == before + SlotBefore(tasks, n - 1);
      assert forall i :: 0 <= i < |before| ==> all[i] == before[i];
    }
  }

  /** The slots come out in ascending order and are pairwise disjoint. */
  lemma SlotsInOrder(tasks: seq<DailySchedule>)
    requires WellTimed(tasks)
    requires forall j :: 0 <= j < |tasks| ==> Start(tasks[j]) <= End(tasks[j])
    ensures Ordered(EmptySlots(tasks))
  {
    var inner := InnerSlots(tasks, |tasks|);
    InnerSlotsOrdered(tasks, |tasks|);
    assert forall i :: 0 <= i < |inner| ==> EmptySlots(tasks)[i] == inner[i];
  }

  /** No slot overlaps a schedule of the (start-sorted) day. */
  lemma SlotsAvoidSchedules(tasks: seq<DailySchedule>)
    requires WellTimed(tasks) && SortedBy(tasks, StartKey)
    ensures forall i, j :: 0 <= i < |EmptySlots(tasks)| && 0 <= j < |tasks| ==>
      EmptySlots(tasks)[i].end <= Start(tasks[j]) || End(tasks[j]) <= EmptySlots(tasks)[i].start
  {
    var slots := EmptySlots(tasks);
    var inner := InnerSlots(tasks, |tasks|);
    forall i, j | 0 <= i < |slots| && 0 <= j < |tasks|
      ensures slots[i].end <= Start(tasks[j]) || End(tasks[j]) <= slots[i].start
    {
      if i < |inner| {
        var k := InnerSlotOrigin(tasks, |tasks|, i);
        assert slots[i] == inner[i];
        if j < k {
          assert End(tasks[j]) <= LastEnd(tasks, k);
        } else {
          assert StartKey(tasks[k]) <= StartKey(tasks[j]);
        }
      }
    }
  }

  /** `lastEnd` before schedule `k` is at most `m` when the day starts by
      `m` and every earlier schedule has ended by `m`. */
  lemma {:induction false} LastEndAtMost(tasks: seq<DailySchedule>, k: nat, m: int)
    requires WellTimed(tasks) && k <= |tasks|
    requires DayStart <= m
    requires forall j :: 0 <= j < k ==> End(tasks[j]) <= m
    ensures LastEnd(tasks, k) <= m
  {
    if k > 0 {
      LastEndAtMost(tasks, k - 1, m);
    }
  }

  /** The loop's slots only ever grow. */
  lemma {:induction false} InnerSlotsGrow(tasks: seq<DailySchedule>, m: nat, n: nat)
    requires WellTimed(tasks) && m <= n <= |tasks|
    ensures InnerSlots(tasks, m) <= InnerSlots(tasks, n)
  {
    if m < n {
      InnerSlotsGrow(tasks, m, n - 1);
    }
  }

  /** Every free minute of the working day lies in some slot: a minute
      between 08:00 and 22:00 that no schedule covers is never lost. */
  lemma FreeMinutesAreCovered(tasks: seq<DailySchedule>, m: int)
    requires WellTimed(tasks)
    requires DayStart <= m < DayEnd
    requires forall j :: 0 <= j < |tasks| ==> !(Start(tasks[j]) <= m < End(tasks[j]))
    ensures exists i :: 0 <= i < |EmptySlots(tasks)| && EmptySlots(tasks)[i].start <= m < EmptySlots(tasks)[i].end
  {
    var slots := EmptySlots(tasks);
    var inner := InnerSlots(tasks, |tasks|);
    var k := 0;
    while k < |tasks| && Start(tasks[k]) <= m
      invariant k <= |tasks|
      invariant forall j :: 0 <= j < k ==> End(tasks[j]) <= m
    {
      k := k + 1;
    }
    LastEndAtMost(tasks, k, m);
    if k < |tasks| {
      InnerSlotsGrow(tasks, k + 1, |tasks|);
      var i := |InnerSlots(tasks, k)|;
      assert InnerSlots(tasks, k + 1)[i] == TimeSlot(LastEnd(tasks, k), Start(tasks[k]));
      assert slots[i] == inner[i];
    } else {
      assert slots[|inner|] == TimeSlot(LastEnd(tasks, |tasks|), DayEnd);
    }
  }

  /** The last slot is the stretch from the final `lastEnd` to 22:00
      exactly when the schedules leave the day free before 22:00. */
  lemma TrailingSlot(tasks: seq<DailySchedule>)
    requires WellTimed(tasks)
    ensures var slots := EmptySlots(tasks);
      (|slots| > 0 && slots[|slots| - 1] == TimeSlot(LastEnd(tasks, |tasks|), DayEnd)) <==>
      LastEnd(tasks, |tasks|) < DayEnd
  {
    var slots := EmptySlots(tasks);
    if LastEnd(tasks, |tasks|) >= DayEnd && |slots| > 0 {
      var k := InnerSlotOrigin(tasks, |tasks|, |slots| - 1);
      LastEndGrows(tasks, k, |tasks|);
    }
  }

  /** The comparator `(a, b) => b.duration - a.duration` as a sort key:
      ascending in minus the duration, so longer tasks come first. */
  const LongerFirst: RecommendedTask -> int := (t: RecommendedTask) => -t.duration

  /** `recommended.filter(r => r.duration <= slotDuration).sort(...)[0]`,
      with `None` for the `undefined` of an empty list. */
  function LongestFit(pool: seq<RecommendedTask>, slotDuration: int): Option<RecommendedTask>
  {
    var fitting := Filter(pool, FitsIn(slotDuration));
    if fitting == [] then None
    else
      var sorted := SortBy(fitting, LongerFirst);
      assert |sorted| == |fitting| by {
        assert |multiset(sorted)| == |multiset(fitting)|;
      }
      Some(sorted[0])
  }

  /** The reference choice, written independently of sorting: scanning the
      list, a task that fits replaces the current choice only when it is
      strictly longer, so the first of the longest fitting tasks is chosen. */
  function FirstLongestFit(pool: seq<RecommendedTask>, slotDuration: int): (r: Option<RecommendedTask>)
    ensures r.Some? ==> r.value.duration <= slotDuration
  {
    if pool == [] then None
    else
      var rest := FirstLongestFit(pool[1..], slotDuration);
      if pool[0].duration > slotDuration then rest
      else if rest.None? || rest.value.duration <= pool[0].duration then Some(pool[0])
      else rest
  }

  /** The reference choice exists exactly when some task fits. */
  lemma {:induction false} FirstLongestFitExistsIffSomeFit(pool: seq<RecommendedTask>, slotDuration: int)
    ensures FirstLongestFit(pool, slotDuration).Some? <==>
      exists k :: 0 <= k < |pool| && pool[k].duration <= slotDuration
  {
    if pool != [] {
      FirstLongestFitExistsIffSomeFit(pool[1..], slotDuration);
      if exists k :: 0 <= k < |pool| && pool[k].duration <= slotDuration {
        var k :| 0 <= k < |pool| && pool[k].duration <= slotDuration;
        if k > 0 {
          assert pool[1..][k - 1] == pool[k];
        }
      }
    }
  }

  /** The reference choice is at least as long as every task that fits. */
  lemma {:induction false} FirstLongestFitIsLongest(pool: seq<RecommendedTask>, slotDuration: int)
    ensures var r := FirstLongestFit(pool, slotDuration);
      r.Some? ==> forall k :: 0 <= k < |pool| && pool[k].duration <= slotDuration ==> pool[k].duration <= r.value.duration
  {
    if pool != [] {
      FirstLongestFitIsLongest(pool[1..], slotDuration);
      FirstLongestFitExistsIffSomeFit(pool[1..], slotDuration);
      assert forall k :: 1 <= k < |pool| ==> pool[k] == pool[1..][k - 1];
    }
  }

  /** The reference choice is the first task of the list with its duration among those that fit. */
  lemma {:induction false} FirstLongestFitIsFirst(pool: seq<RecommendedTask>, slotDuration: int) returns (k: nat)
    requires FirstLongestFit(pool, slotDuration).Some?
    ensures k < |pool| && pool[k] == FirstLongestFit(pool, slotDuration).value
    ensures forall j :: 0 <= j < k && pool[j].duration <= slotDuration ==>
      pool[j].duration < FirstLongestFit(pool, slotDuration).value.duration
  {
    var rest := FirstLongestFit(pool[1..], slotDuration);
    if pool[0].duration <= slotDuration && (rest.None? || rest.value.duration <= pool[0].duration) {
      k := 0;
    } else {
      var k' := FirstLongestFitIsFirst(pool[1..], slotDuration);
      k := k' + 1;
      assert forall j :: 1 <= j < |pool| ==> pool[j] == pool[1..][j - 1];
    }
  }

  /** Filtering and then taking the head of the stable descending sort picks
      the reference choice: the longest task that fits, the first of them on a tie. */
  lemma {:induction false} LongestFitIsFirstLongest(pool: seq<RecommendedTask>, slotDuration: int)
    ensures LongestFit(pool, slotDuration) == FirstLongestFit(pool, slotDuration)
  {
    if pool != [] {
      var rest := pool[1..];
      LongestFitIsFirstLongest(rest, slotDuration);
      var f := Filter(pool, FitsIn(slotDuration));
      var fr := Filter(rest, FitsIn(slotDuration));
      if pool[0].duration <= slotDuration {
        assert f == [pool[0]] + fr;
        SortByHead(f, LongerFirst);
        if fr != [] {
          SortByHead(fr, LongerFirst);
          assert f[1..] == fr;
        }
      } else {
        assert f == fr;
      }
    }
  }

  /** `recommended.findIndex(t => t.id === id)`: the index of the first task
      with the id. Where no task has the id, `findIndex` gives -1 and
      `splice(-1, 1)` would drop the last task; the model gives the length of
      the list and `RemoveFirstWithId` drops nothing. The fill never meets
      that case: its choice is always in the list (`FillSlotTakes`). */
  function FirstIndexWithId(pool: seq<RecommendedTask>, id: string): (j: nat)
    ensures j <= |pool|
    ensures j < |pool| ==> pool[j].id == id
    ensures forall k :: 0 <= k < j ==> pool[k].id != id
  {
    if pool == [] || pool[0].id == id then 0
    else 1 + FirstIndexWithId(pool[1..], id)
  }

  /** The ids of a list of tasks, in order. */
  function Ids(pool: seq<RecommendedTask>): (ids: seq<string>)
    ensures |ids| == |pool|
    ensures forall k :: 0 <= k < |pool| ==> ids[k] == pool[k].id
  {
    seq(|pool|, k requires 0 <= k < |pool| => pool[k].id)
  }

  /** `recommended.splice(recommended.findIndex(t => t.id === id), 1)`. */
  function RemoveFirstWithId(pool: seq<RecommendedTask>, id: string): seq<RecommendedTask>
  {
    var j := FirstIndexWithId(pool, id);
    if j < |pool| then pool[..j] + pool[j + 1..] else pool
  }

  /** Splicing out the first task with an id removes one occurrence of that
      id and keeps every other task in order. */
  lemma RemoveFirstWithIdDropsOne(pool: seq<RecommendedTask>, id: string)
    requires exists k :: 0 <= k < |pool| && pool[k].id == id
    ensures multiset(Ids(RemoveFirstWithId(pool, id))) + multiset{id} == multiset(Ids(pool))
    ensures multiset(RemoveFirstWithId(pool, id)) <= multiset(pool)
  {
    var j := FirstIndexWithId(pool, id);
    assert j < |pool|;
    var a, b := pool[..j], pool[j + 1..];
    assert pool == a + [pool[j]] + b;
    assert RemoveFirstWithId(pool, id) == a + b;
    IdsConcat(a, [pool[j]]);
    IdsConcat(a + [pool[j]], b);
    IdsConcat(a, b);
    assert Ids([pool[j]]) == [id];
    assert Ids(pool) == Ids(a) + [id] + Ids(b);
    assert multiset(Ids(pool)) == multiset(Ids(a)) + multiset{id} + multiset(Ids(b));
  }

  lemma IdsConcat(a: seq<RecommendedTask>, b: seq<RecommendedTask>)
    ensures Ids(a + b) == Ids(a) + Ids(b)
  {
  }

  /** A recommended task placed into the slot with the given index. */
  datatype Placed = Placed(task: RecommendedTask, slot: nat)

  /** The remaining recommended list and the placements so far. */
  datatype FillState = FillState(remaining: seq<RecommendedTask>, placed: seq<Placed>)

  /** One slot of the fill: the slot takes the first of the longest remaining
      tasks that fit, which leaves the list; a slot where nothing fits changes nothing. */
  function FillSlot(st: FillState, slot: TimeSlot, index: nat): FillState
  {
    var fit := FirstLongestFit(st.remaining, slot.end - slot.start);
    if fit.None? then st
    else FillState(RemoveFirstWithId(st.remaining, fit.value.id), st.placed + [Placed(fit.value, index)])
  }

  /** Step 6 of `autoInsertRecommendedTasks` after the first `n` slots. */
  function FillUpTo(slots: seq<TimeSlot>, pool: seq<RecommendedTask>, n: nat): (r: FillState)
    requires n <= |slots|
    ensures forall i :: 0 <= i < |r.placed| ==> r.placed[i].slot < n
  {
    if n == 0 then FillState(pool, []) else FillSlot(FillUpTo(slots, pool, n - 1), slots[n - 1], n - 1)
  }

  /** Every placement's task fits its slot. */
  predicate FitTheirSlots(slots: seq<TimeSlot>, placed: seq<Placed>)
  {
    forall i :: 0 <= i < |placed| ==>
      placed[i].slot < |slots| &&
      placed[i].task.duration <= slots[placed[i].slot].end - slots[placed[i].slot].start
  }

  /** Placements are in strictly increasing slot order, so no slot is used twice. */
  predicate OnePerSlot(placed: seq<Placed>)
  {
    forall i, j :: 0 <= i < j < |placed| ==> placed[i].slot < placed[j].slot
  }

  /** One slot of the fill keeps the placements fitting and in slot order. */
  lemma FillSlotKeepsPlacementsInOrder(slots: seq<TimeSlot>, st: FillState, n: nat)
    requires n < |slots|
    requires FitTheirSlots(slots, st.placed) && OnePerSlot(st.placed)
    requires forall i :: 0 <= i < |st.placed| ==> st.placed[i].slot < n
    ensures FitTheirSlots(slots, FillSlot(st, slots[n], n).placed)
    ensures OnePerSlot(FillSlot(st, slots[n], n).placed)
  {
    var fit := FirstLongestFit(st.remaining, slots[n].end - slots[n].start);
    if fit.Some? {
      var placed := st.placed + [Placed(fit.value, n)];
      forall i, j | 0 <= i < j < |placed| ensures placed[i].slot < placed[j].slot {
        assert placed[i] == st.placed[i];
        if j < |st.placed| {
          assert placed[j] == st.placed[j];
        }
      }
    }
  }

  /** Every placement's task fits its slot, and the slots used strictly increase. */
  lemma {:induction false} PlacementsFit(slots: seq<TimeSlot>, pool: seq<RecommendedTask>, n: nat)
    requires n <= |slots|
    ensures FitTheirSlots(slots, FillUpTo(slots, pool, n).placed)
    ensures OnePerSlot(FillUpTo(slots, pool, n).placed)
  {
    if n > 0 {
      PlacementsFit(slots, pool, n - 1);
      FillSlotKeepsPlacementsInOrder(slots, FillUpTo(slots, pool, n - 1), n - 1);
    }
  }

  /** The ids of the placed tasks. */
  function PlacedIds(placed: seq<Placed>): (ids: seq<string>)
    ensures |ids| == |placed|
    ensures forall k :: 0 <= k < |placed| ==> ids[k] == placed[k].task.id
  {
    seq(|placed|, k requires 0 <= k < |placed| => placed[k].task.id)
  }

  lemma PlacedIdsSnoc(placed: seq<Placed>, p: Placed)
    ensures PlacedIds(placed + [p]) == PlacedIds(placed) + [p.task.id]
  {
  }

  /** One slot of the fill moves at most one id from the list to the placements. */
  lemma FillSlotConservesIds(st: FillState, slot: TimeSlot, index: nat)
    ensures var next := FillSlot(st, slot, index);
      multiset(PlacedIds(next.placed)) + multiset(Ids(next.remaining)) ==
      multiset(PlacedIds(st.placed)) + multiset(Ids(st.remaining))
  {
    var fit := FirstLongestFit(st.remaining, slot.end - slot.start);
    if fit.Some? {
      var k := FirstLongestFitIsFirst(st.remaining, slot.end - slot.start);
      RemoveFirstWithIdDropsOne(st.remaining, fit.value.id);
      PlacedIdsSnoc(st.placed, Placed(fit.value, index));
    }
  }

  /** Nothing is lost or duplicated: the placed tasks' ids and the remaining
      tasks' ids together are the ids of the list the fill started from. */
  lemma {:induction false} FillConsumesPlacedTasks(slots: seq<TimeSlot>, pool: seq<RecommendedTask>, n: nat)
    requires n <= |slots|
    ensures multiset(PlacedIds(FillUpTo(slots, pool, n).placed)) + multiset(Ids(FillUpTo(slots, pool, n).remaining))
      == multiset(Ids(pool))
  {
    if n > 0 {
      FillConsumesPlacedTasks(slots, pool, n - 1);
      FillSlotConservesIds(FillUpTo(slots, pool, n - 1), slots[n - 1], n - 1);
    } else {
      assert PlacedIds([]) == [];
    }
  }

  // ---------------------------------------------------------------------------
  // Uniqueness: no recommended task is placed twice

  /** Filtering keeps ids unique. */
  lemma {:induction false} FilterKeepsIdsUnique(pool: seq<RecommendedTask>, p: RecommendedTask -> bool)
    requires RecommendedIdsUnique(pool)
    ensures RecommendedIdsUnique(Filter(pool, p))
  {
    if pool != [] {
      var rest := pool[1..];
      FilterKeepsIdsUnique(rest, p);
      FilterMembers(rest, p);
      var fr := Filter(rest, p);
      if p(pool[0]) {
        var f := [pool[0]] + fr;
        assert Filter(pool, p) == f;
        forall k | 0 <= k < |fr| ensures fr[k].id != pool[0].id {
          assert fr[k] in rest;
          var m :| 0 <= m < |rest| && rest[m] == fr[k];
          assert pool[m + 1] == rest[m];
        }
        forall i, j | 0 <= i < j < |f| ensures f[i].id != f[j].id {
          assert f[j] == fr[j - 1];
          if i > 0 {
            assert f[i] == fr[i - 1];
          }
        }
      } else {
        assert Filter(pool, p) == fr;
      }
    }
  }

  /** Unique ids are distinct as a list of ids. */
  lemma IdsOfUnique(pool: seq<RecommendedTask>)
    ensures RecommendedIdsUnique(pool) <==> Distinct(Ids(pool))
  {
  }

  /** When the list the fill starts from has unique ids, no task is placed
      twice: the placed tasks' ids are pairwise different. */
  lemma PlacedAtMostOnce(slots: seq<TimeSlot>, pool: seq<RecommendedTask>, n: nat)
    requires n <= |slots|
    requires RecommendedIdsUnique(pool)
    ensures var placed := FillUpTo(slots, pool, n).placed;
      forall i, j :: 0 <= i < j < |placed| ==> placed[i].task.id != placed[j].task.id
  {
    var r := FillUpTo(slots, pool, n);
    var ids := PlacedIds(r.placed);
    FillConsumesPlacedTasks(slots, pool, n);
    IdsOfUnique(pool);
    DistinctIffCountsAtMostOne(Ids(pool));
    assert forall x :: multiset(ids)[x] <= multiset(Ids(pool))[x];
    DistinctIffCountsAtMostOne(ids);
    assert Distinct(ids);
    forall i, j | 0 <= i < j < |r.placed| ensures r.placed[i].task.id != r.placed[j].task.id {
      assert ids[i] != ids[j];
    }
  }

  // ---------------------------------------------------------------------------
  // Where the placed tasks go

  /** Minute at which a placed task starts: the start of its slot. */
  function PlacedStart(slots: seq<TimeSlot>, p: Placed): int
    requires p.slot < |slots|
  {
    slots[p.slot].start
  }

  /** Minute at which a placed task ends: its slot's start plus its duration. */
  function PlacedEnd(slots: seq<TimeSlot>, p: Placed): int
    requires p.slot < |slots|
  {
    slots[p.slot].start + p.task.duration
  }

  /** Placed tasks never overlap a schedule of the day. */
  lemma PlacementsAvoidSchedules(tasks: seq<DailySchedule>, pool: seq<RecommendedTask>)
    requires WellTimed(tasks) && SortedBy(tasks, StartKey)
    ensures var slots := EmptySlots(tasks);
      var placed := FillUpTo(slots, pool, |slots|).placed;
      forall i, j :: 0 <= i < |placed| && 0 <= j < |tasks| ==>
        PlacedEnd(slots, placed[i]) <= Start(tasks[j]) || End(tasks[j]) <= PlacedStart(slots, placed[i])
  {
    var slots := EmptySlots(tasks);
    var placed := FillUpTo(slots, pool, |slots|).placed;
    PlacementsFit(slots, pool, |slots|);
    SlotsAvoidSchedules(tasks);
    forall i, j | 0 <= i < |placed| && 0 <= j < |tasks|
      ensures PlacedEnd(slots, placed[i]) <= Start(tasks[j]) || End(tasks[j]) <= PlacedStart(slots, placed[i])
    {
      var s := placed[i].slot;
      assert slots[s].end <= Start(tasks[j]) || End(tasks[j]) <= slots[s].start;
    }
  }

  /** For schedules that do not end before they start, placed tasks do not
      overlap each other: each ends before the next one starts. */
  lemma PlacementsDoNotOverlap(tasks: seq<DailySchedule>, pool: seq<RecommendedTask>)
    requires WellTimed(tasks)
    requires forall j :: 0 <= j < |tasks| ==> Start(tasks[j]) <= End(tasks[j])
    ensures var slots := EmptySlots(tasks);
      var placed := FillUpTo(slots, pool, |slots|).placed;
      forall i, j :: 0 <= i < j < |placed| ==> PlacedEnd(slots, placed[i]) <= PlacedStart(slots, placed[j])
  {
    var slots := EmptySlots(tasks);
    var placed := FillUpTo(slots, pool, |slots|).placed;
    PlacementsFit(slots, pool, |slots|);
    SlotsInOrder(tasks);
    forall i, j | 0 <= i < j < |placed|
      ensures PlacedEnd(slots, placed[i]) <= PlacedStart(slots, placed[j])
    {
      assert placed[i].slot < placed[j].slot;
    }
  }

  /** A placed task starts no earlier than 08:00 and, when its duration is
      not negative, ends no earlier than it starts and before midnight. */
  lemma PlacementsWithinDay(tasks: seq<DailySchedule>, pool: seq<RecommendedTask>)
    requires WellTimed(tasks)
    ensures var slots := EmptySlots(tasks);
      var placed := FillUpTo(slots, pool, |slots|).placed;
      forall i :: 0 <= i < |placed| ==>
        DayStart <= PlacedStart(slots, placed[i]) &&
        PlacedEnd(slots, placed[i]) < 24 * 60 &&
        (placed[i].task.duration >= 0 ==> PlacedStart(slots, placed[i]) <= PlacedEnd(slots, placed[i]))
  {
    var slots := EmptySlots(tasks);
    PlacementsFit(slots, pool, |slots|);
    SlotsAreProper(tasks);
  }

  // ---------------------------------------------------------------------------
  // The calls to `addTask`

  /** The category `'일정'` (a schedule) that every call passes. */
  const ScheduleCategory: string := "\U{C77C}\U{C815}"

  /** The arguments of one `addTask(category, title, { date, startTime, endTime })` call. */
  datatype AddTaskRequest = AddTaskRequest(category: string, title: string, date: Date, startTime: string, endTime: string)

  /** The call made for a placement (`addTask('일정', fit.title, { date, startTime, endTime })`):
      the task's title, `startTime` formatted from the slot's start and
      `endTime` from the slot's start plus the task's duration. */
  function Request(date: Date, slots: seq<TimeSlot>, p: Placed): AddTaskRequest
    requires p.slot < |slots|
  {
    AddTaskRequest(ScheduleCategory, p.task.title, date,
      MinutesToTime(slots[p.slot].start), MinutesToTime(slots[p.slot].start + p.task.duration))
  }

  /** The calls made for the placements, in order. */
  function Requests(date: Date, slots: seq<TimeSlot>, placed: seq<Placed>): (r: seq<AddTaskRequest>)
    requires forall i :: 0 <= i < |placed| ==> placed[i].slot < |slots|
    ensures |r| == |placed|
    ensures forall i :: 0 <= i < |placed| ==> r[i] == Request(date, slots, placed[i])
  {
    seq(|placed|, i requires 0 <= i < |placed| => Request(date, slots, placed[i]))
  }

  /** A placement appends its call to the calls made so far. */
  lemma RequestsSnoc(date: Date, slots: seq<TimeSlot>, placed: seq<Placed>, p: Placed)
    requires forall i :: 0 <= i < |placed| ==> placed[i].slot < |slots|
    requires p.slot < |slots|
    ensures Requests(date, slots, placed + [p]) == Requests(date, slots, placed) + [Request(date, slots, p)]
  {
    assert forall i :: 0 <= i < |placed| ==> (placed + [p])[i] == placed[i];
  }

  /** The times of a call parse back to the placement's minutes. */
  lemma RequestTimesParse(date: Date, slots: seq<TimeSlot>, p: Placed)
    requires p.slot < |slots|
    requires 0 <= PlacedStart(slots, p) <= PlacedEnd(slots, p) < 24 * 60
    ensures var r := Request(date, slots, p);
      IsTime(r.startTime) && IsTime(r.endTime) &&
      TimeToMinutes(r.startTime) == PlacedStart(slots, p) &&
      TimeToMinutes(r.endTime) == PlacedEnd(slots, p)
  {
    FormatThenParse(PlacedStart(slots, p));
    FormatThenParse(PlacedEnd(slots, p));
  }

  /** When the reference choice is `t`, one slot of the fill splices out the
      first task with `t`'s id, which is present, and places `t`. */
  lemma FillSlotTakes(st: FillState, slot: TimeSlot, index: nat, t: RecommendedTask) returns (j: nat)
    requires FirstLongestFit(st.remaining, slot.end - slot.start) == Some(t)
    ensures j == FirstIndexWithId(st.remaining, t.id) && j < |st.remaining|
    ensures FillSlot(st, slot, index).remaining == st.remaining[..j] + st.remaining[j + 1..]
    ensures FillSlot(st, slot, index).placed == st.placed + [Placed(t, index)]
  {
    var k := FirstLongestFitIsFirst(st.remaining, slot.end - slot.start);
    j := FirstIndexWithId(st.remaining, t.id);
    assert j < |st.remaining| by {
      assert st.remaining[k].id == t.id;
    }
  }

  /** One slot of the fill, given the reference choice: nothing changes when
      no task fits; otherwise the first task with the chosen id is spliced
      out of the list and the chosen task is placed in the slot. */
  lemma FillSlotByChoice(st: FillState, slot: TimeSlot, index: nat, fit: Option<RecommendedTask>) returns (j: nat)
    requires fit == FirstLongestFit(st.remaining, slot.end - slot.start)
    ensures fit.None? ==> FillSlot(st, slot, index) == st
    ensures fit.Some? ==> j == FirstIndexWithId(st.remaining, fit.value.id) && j < |st.remaining|
    ensures fit.Some? ==> FillSlot(st, slot, index).remaining == st.remaining[..j] + st.remaining[j + 1..]
    ensures fit.Some? ==> FillSlot(st, slot, index).placed == st.placed + [Placed(fit.value, index)]
  {
    j := 0;
    if fit.Some? {
      j := FillSlotTakes(st, slot, index, fit.value);
    }
  }

  /** One slot of the fill is one more step of the fill. */
  lemma FillUpToStep(slots: seq<TimeSlot>, pool: seq<RecommendedTask>, i: nat, st: FillState)
    requires i < |slots| && st == FillUpTo(slots, pool, i)
    ensures FillUpTo(slots, pool, i + 1) == FillSlot(st, slots[i], i)
  {
  }

  /** Step 6 of `autoInsertRecommendedTasks`: for each slot, place the
      longest remaining task that fits. */
  method FillSlots(date: Date, emptySlots: seq<TimeSlot>, pool: seq<RecommendedTask>)
    returns (requests: seq<AddTaskRequest>)
    ensures requests == Requests(date, emptySlots, FillUpTo(emptySlots, pool, |emptySlots|).placed)
  {
    var recommended := pool;
    ghost var placed: seq<Placed> := [];
    requests := [];
    for i := 0 to |emptySlots|
      invariant FillState(recommended, placed) == FillUpTo(emptySlots, pool, i)
      invariant requests == Requests(date, emptySlots, placed)
    {
      FillUpToStep(emptySlots, pool, i, FillState(recommended, placed));
      recommended, requests, placed := PlaceLongestFit(date, emptySlots, i, recommended, requests, placed);
    }
  }

  /** The body of step 6 for the slot with index `i`: take the first of the
      longest remaining tasks that fit, request it from the slot's start, and
      splice it out of the list. */
  method PlaceLongestFit(date: Date, emptySlots: seq<TimeSlot>, i: nat, recommended: seq<RecommendedTask>,
    requests: seq<AddTaskRequest>, ghost placed: seq<Placed>)
    returns (recommended': seq<RecommendedTask>, requests': seq<AddTaskRequest>, ghost placed': seq<Placed>)
    requires i < |emptySlots|
    requires forall k :: 0 <= k < |placed| ==> placed[k].slot < i
    requires requests == Requests(date, emptySlots, placed)
    ensures FillState(recommended', placed') == FillSlot(FillState(recommended, placed), emptySlots[i], i)
    ensures forall k :: 0 <= k < |placed'| ==> placed'[k].slot < i + 1
    ensures requests' == Requests(date, emptySlots, placed')
  {
    var slot := emptySlots[i];
    var slotDuration := slot.end - slot.start;
    var fit := LongestFit(recommended, slotDuration);
    LongestFitIsFirstLongest(recommended, slotDuration);
    ghost var at := FillSlotByChoice(FillState(recommended, placed), slot, i, fit);
    recommended', requests', placed' := recommended, requests, placed;
    if fit.Some? {
      var p := Placed(fit.value, i);
      RequestsSnoc(date, emptySlots, placed, p);
      requests' := requests + [Request(date, emptySlots, p)];
      var j := FirstIndexWithId(recommended, fit.value.id);
      recommended' := recommended[..j] + recommended[j + 1..];
      placed' := placed + [Placed(fit.value, i)];
    }
  }

  // ---------------------------------------------------------------------------
  // The whole operation

  /** Every schedule of the date has well-formed times. */
  predicate DayWellTimed(db: TaskDB, date: Date)
  {
    forall d :: d in db.dailySchedules && d.date == date ==> IsTime(d.startTime) && IsTime(d.endTime)
  }

  /** The free slots of the date: steps 1 to 4. */
  function DaySlots(db: TaskDB, date: Date): seq<TimeSlot>
    requires DayWellTimed(db, date)
  {
    EmptySlots(DaySchedules(db.dailySchedules, date))
  }

  /** The placements of the date: steps 5 and 6 over the not completed recommended tasks. */
  function DayPlacements(db: TaskDB, date: Date): (placed: seq<Placed>)
    requires DayWellTimed(db, date)
    ensures forall i :: 0 <= i < |placed| ==> placed[i].slot < |DaySlots(db, date)|
  {
    var slots := DaySlots(db, date);
    FillUpTo(slots, Filter(db.recommendedTasks, Incomplete), |slots|).placed
  }

  /** The `addTask` calls `autoInsertRecommendedTasks` makes for a database and date. */
  function Plan(db: TaskDB, date: Date): seq<AddTaskRequest>
    requires DayWellTimed(db, date)
  {
    Requests(date, DaySlots(db, date), DayPlacements(db, date))
  }

  /** `autoInsertRecommendedTasks(date)`: read the database and compute the
      calls to `addTask`. A database that cannot be read makes the read
      throw, and the promise rejects with that error before any call. */
  method AutoInsertRecommendedTasks(store: ScheduleStore, date: Date) returns (r: Result<seq<AddTaskRequest>, StoreError>)
    requires Load(store.slot).Ok? ==> DayWellTimed(Load(store.slot).value, date)
    ensures Load(store.slot).Err? ==> r == Err(CorruptDocument)
    ensures Load(store.slot).Ok? ==> r == Ok(Plan(Load(store.slot).value, date))
  {
    var loaded := store.GetDB();
    if loaded.Err? {
      return Err(loaded.error);
    }
    var db := loaded.value;
    var sortedTasks := DaySchedules(db.dailySchedules, date);
    var emptySlots := ComputeEmptySlots(sortedTasks);
    var recommended := Filter(db.recommendedTasks, Incomplete);
    var requests := FillSlots(date, emptySlots, recommended);
    return Ok(requests);
  }

  /** The calls' times are their placements' times, written out and parsed
      back: every call of the plan has well-formed times whose minutes are
      the start and end of the placement it comes from, inside the day. */
  lemma PlanMatchesPlacements(db: TaskDB, date: Date, plan: seq<AddTaskRequest>)
    requires DayWellTimed(db, date)
    requires forall t :: t in db.recommendedTasks && !t.isCompleted ==> t.duration >= 0
    requires plan == Plan(db, date)
    ensures |plan| == |DayPlacements(db, date)|
    ensures forall i :: 0 <= i < |plan| ==>
      IsTime(plan[i].startTime) && IsTime(plan[i].endTime) &&
      TimeToMinutes(plan[i].startTime) == PlacedStart(DaySlots(db, date), DayPlacements(db, date)[i]) &&
      TimeToMinutes(plan[i].endTime) == PlacedEnd(DaySlots(db, date), DayPlacements(db, date)[i])
  {
    var day := DaySchedules(db.dailySchedules, date);
    var slots := DaySlots(db, date);
    var pool := Filter(db.recommendedTasks, Incomplete);
    var placed := DayPlacements(db, date);
    assert slots == EmptySlots(day);
    assert placed == FillUpTo(slots, pool, |slots|).placed;
    assert forall j :: 0 <= j < |day| ==> day[j] in day;
    PlacementsWithinDay(day, pool);
    PlacedFromPool(slots, pool, |slots|);
    FilterMembers(db.recommendedTasks, Incomplete);
    forall i | 0 <= i < |plan|
      ensures IsTime(plan[i].startTime) && IsTime(plan[i].endTime)
      ensures TimeToMinutes(plan[i].startTime) == PlacedStart(slots, placed[i])
      ensures TimeToMinutes(plan[i].endTime) == PlacedEnd(slots, placed[i])
    {
      assert placed[i].task in pool;
      RequestTimesParse(date, slots, placed[i]);
    }
  }

  /** Every call has well-formed times, starts at 08:00 or later and does
      not end before it starts (for not completed recommended tasks of
      non-negative duration). */
  lemma PlanTimesAreWellFormed(db: TaskDB, date: Date, plan: seq<AddTaskRequest>)
    requires DayWellTimed(db, date)
    requires forall t :: t in db.recommendedTasks && !t.isCompleted ==> t.duration >= 0
    requires plan == Plan(db, date)
    ensures forall i :: 0 <= i < |plan| ==>
      IsTime(plan[i].startTime) && IsTime(plan[i].endTime) &&
      DayStart <= TimeToMinutes(plan[i].startTime) <= TimeToMinutes(plan[i].endTime)
  {
    var day := DaySchedules(db.dailySchedules, date);
    var pool := Filter(db.recommendedTasks, Incomplete);
    var slots := DaySlots(db, date);
    var placed := DayPlacements(db, date);
    assert slots == EmptySlots(day);
    assert placed == FillUpTo(slots, pool, |slots|).placed;
    assert forall j :: 0 <= j < |day| ==> day[j] in day;
    PlanMatchesPlacements(db, date, plan);
    PlacementsWithinDay(day, pool);
    PlacedFromPool(slots, pool, |slots|);
    FilterMembers(db.recommendedTasks, Incomplete);
    forall i | 0 <= i < |plan|
      ensures DayStart <= PlacedStart(slots, placed[i]) <= PlacedEnd(slots, placed[i])
    {
      assert placed[i].task in pool;
    }
  }

  /** No call overlaps a schedule of the date (for schedules that do not end
      before they start, and recommended tasks of non-negative duration). */
  lemma PlanAvoidsSchedules(db: TaskDB, date: Date, plan: seq<AddTaskRequest>, day: seq<DailySchedule>)
    requires DayWellTimed(db, date)
    requires forall t :: t in db.recommendedTasks && !t.isCompleted ==> t.duration >= 0
    requires plan == Plan(db, date)
    requires day == DaySchedules(db.dailySchedules, date)
    ensures forall i, j :: 0 <= i < |plan| && 0 <= j < |day| ==>
      IsTime(plan[i].startTime) && IsTime(plan[i].endTime) &&
      IsTime(day[j].startTime) && IsTime(day[j].endTime) &&
      (TimeToMinutes(plan[i].endTime) <= Start(day[j]) || End(day[j]) <= TimeToMinutes(plan[i].startTime))
  {
    var pool := Filter(db.recommendedTasks, Incomplete);
    var slots := DaySlots(db, date);
    var placed := DayPlacements(db, date);
    assert slots == EmptySlots(day);
    assert placed == FillUpTo(slots, pool, |slots|).placed;
    assert forall j :: 0 <= j < |day| ==> day[j] in day;
    PlanMatchesPlacements(db, date, plan);
    PlacementsAvoidSchedules(day, pool);
    forall i, j | 0 <= i < |plan| && 0 <= j < |day|
      ensures TimeToMinutes(plan[i].endTime) <= Start(day[j]) || End(day[j]) <= TimeToMinutes(plan[i].startTime)
    {
      assert PlacedEnd(slots, placed[i]) <= Start(day[j]) || End(day[j]) <= PlacedStart(slots, placed[i]);
    }
  }

  /** The calls do not overlap each other: each ends no later than the next
      one starts (for schedules that do not end before they start and
      recommended tasks of non-negative duration). */
  lemma PlanCallsInOrder(db: TaskDB, date: Date, plan: seq<AddTaskRequest>)
    requires DayWellTimed(db, date)
    requires forall d :: d in db.dailySchedules && d.date == date ==> TimeToMinutes(d.startTime) <= TimeToMinutes(d.endTime)
    requires forall t :: t in db.recommendedTasks && !t.isCompleted ==> t.duration >= 0
    requires plan == Plan(db, date)
    ensures forall i, j :: 0 <= i < j < |plan| ==>
      IsTime(plan[i].endTime) && IsTime(plan[j].startTime) &&
      TimeToMinutes(plan[i].endTime) <= TimeToMinutes(plan[j].startTime)
  {
    var day := DaySchedules(db.dailySchedules, date);
    var pool := Filter(db.recommendedTasks, Incomplete);
    var slots := DaySlots(db, date);
    var placed := DayPlacements(db, date);
    assert slots == EmptySlots(day);
    assert placed == FillUpTo(slots, pool, |slots|).placed;
    assert forall j :: 0 <= j < |day| ==> day[j] in day;
    assert forall j :: 0 <= j < |day| ==> Start(day[j]) <= End(day[j]);
    PlanMatchesPlacements(db, date, plan);
    PlacementsDoNotOverlap(day, pool);
    forall i, j | 0 <= i < j < |plan|
      ensures TimeToMinutes(plan[i].endTime) <= TimeToMinutes(plan[j].startTime)
    {
      assert PlacedEnd(slots, placed[i]) <= PlacedStart(slots, placed[j]);
    }
  }

  /** Every placed task comes from the list the fill started from. */
  lemma {:induction false} PlacedFromPool(slots: seq<TimeSlot>, pool: seq<RecommendedTask>, n: nat)
    requires n <= |slots|
    ensures forall i :: 0 <= i < |FillUpTo(slots, pool, n).placed| ==> FillUpTo(slots, pool, n).placed[i].task in pool
    ensures multiset(FillUpTo(slots, pool, n).remaining) <= multiset(pool)
  {
    if n > 0 {
      PlacedFromPool(slots, pool, n - 1);
      var st := FillUpTo(slots, pool, n - 1);
      FillUpToStep(slots, pool, n - 1, st);
      FillSlotStaysInPool(st, slots[n - 1], n - 1, pool);
    }
  }

  /** One slot of the fill only moves tasks of the list into the placements. */
  lemma FillSlotStaysInPool(st: FillState, slot: TimeSlot, index: nat, pool: seq<RecommendedTask>)
    requires forall i :: 0 <= i < |st.placed| ==> st.placed[i].task in pool
    requires multiset(st.remaining) <= multiset(pool)
    ensures forall i :: 0 <= i < |FillSlot(st, slot, index).placed| ==> FillSlot(st, slot, index).placed[i].task in pool
    ensures multiset(FillSlot(st, slot, index).remaining) <= multiset(pool)
  {
    var fit := FirstLongestFit(st.remaining, slot.end - slot.start);
    if fit.Some? {
      var k := FirstLongestFitIsFirst(st.remaining, slot.end - slot.start);
      RemoveFirstWithIdDropsOne(st.remaining, fit.value.id);
      assert fit.value in multiset(st.remaining);
      var placed := st.placed + [Placed(fit.value, index)];
      assert forall i :: 0 <= i < |st.placed| ==> placed[i] == st.placed[i];
    }
  }

  /** Every placed task is a not completed recommended task of the database,
      and with unique recommended ids none is placed twice. */
  lemma PlanUsesOpenTasksOnce(db: TaskDB, date: Date)
    requires DayWellTimed(db, date)
    ensures var placed := DayPlacements(db, date);
      forall i :: 0 <= i < |placed| ==> placed[i].task in db.recommendedTasks && !placed[i].task.isCompleted
    ensures RecommendedIdsUnique(db.recommendedTasks) ==>
      var placed := DayPlacements(db, date);
      forall i, j :: 0 <= i < j < |placed| ==> placed[i].task.id != placed[j].task.id
  {
    var slots := DaySlots(db, date);
    var pool := Filter(db.recommendedTasks, Incomplete);
    PlacedFromPool(slots, pool, |slots|);
    FilterMembers(db.recommendedTasks, Incomplete);
    if RecommendedIdsUnique(db.recommendedTasks) {
      FilterKeepsIdsUnique(db.recommendedTasks, Incomplete);
      PlacedAtMostOnce(slots, pool, |slots|);
    }
  }
}
