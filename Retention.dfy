/** The retention sweeper: completed daily schedules are dropped thirty days
    after their completion date. */
module Retention {
  import opened Wrappers
  import opened Sequences
  import opened TaskStore

  const MillisPerDay: int := 1000 * 60 * 60 * 24
  const RetentionDays: int := 30

  /** The filter callback of `removeOldCompletedSchedules`. Elapsed days are a
      real quotient, as the source's floating-point division computes them
      (the dividend is an integer number of milliseconds, so the quotient
      is never rounded across 30). */
  predicate Retained(s: DailySchedule, now: int)
  {
    if !s.isCompleted then true
    else if s.completedDate.None? then true
    else if s.completedDate.value.InvalidDate? then true
    else (now - s.completedDate.value.time) as real / MillisPerDay as real < RetentionDays as real
  }

  function RetainedAt(now: int): DailySchedule -> bool
  {
    (s: DailySchedule) => Retained(s, now)
  }

  /** In whole milliseconds: a schedule is dropped only when it is completed,
      has a valid completion date, and that date is 30 days or more before `now`. */
  lemma RetainedInMillis(s: DailySchedule, now: int)
    ensures Retained(s, now) <==>
      !s.isCompleted || s.completedDate.None? || s.completedDate.value.InvalidDate? ||
      now - s.completedDate.value.time < RetentionDays * MillisPerDay
  {
    if s.isCompleted && s.completedDate.Some? && s.completedDate.value.At? {
      var d := now - s.completedDate.value.time;
      var q := d as real / MillisPerDay as real;
      assert q * MillisPerDay as real == d as real;
    }
  }

  /** `removeOldCompletedSchedules` with the clock reading `now` as a parameter. */
  function RemoveOldCompletedSchedules(schedules: seq<DailySchedule>, now: int): (r: seq<DailySchedule>)
    ensures |r| <= |schedules|
    ensures forall s :: s in r <==> s in schedules && Retained(s, now)
  {
    FilterMembers(schedules, RetainedAt(now));
    Filter(schedules, RetainedAt(now))
  }

  /** The sweep keeps the surviving schedules in their original order. */
  lemma SweepPreservesOrder(schedules: seq<DailySchedule>, now: int)
    ensures IsSubsequence(RemoveOldCompletedSchedules(schedules, now), schedules)
  {
    FilterIsSubsequence(schedules, RetainedAt(now));
  }

  /** Sweeping twice with the same clock reading is sweeping once. */
  lemma SweepIsIdempotent(schedules: seq<DailySchedule>, now: int)
    ensures RemoveOldCompletedSchedules(RemoveOldCompletedSchedules(schedules, now), now)
         == RemoveOldCompletedSchedules(schedules, now)
  {
    FilterIdempotent(schedules, RetainedAt(now));
  }

  /** The length comparison in `cleanUpOldSchedules` detects exactly whether
      anything was dropped. */
  lemma SameLengthMeansNothingDropped(schedules: seq<DailySchedule>, now: int)
    ensures |RemoveOldCompletedSchedules(schedules, now)| == |schedules| <==>
            RemoveOldCompletedSchedules(schedules, now) == schedules
    ensures |RemoveOldCompletedSchedules(schedules, now)| == |schedules| <==>
            forall k :: 0 <= k < |schedules| ==> Retained(schedules[k], now)
  {
    FilterKeepsLengthOnlyWhenIdentity(schedules, RetainedAt(now));
  }

  /** `cleanUpOldSchedules`: sweep the daily schedules and save only when the
      sweep dropped something; a load or save failure is swallowed and leaves
      the store as it was. */
  method CleanUpOldSchedules(store: ScheduleStore, now: int)
    modifies store
    ensures Load(old(store.slot)).Err? ==> store.slot == old(store.slot)
    ensures Load(old(store.slot)).Ok? ==>
      var db := Load(old(store.slot)).value;
      var kept := RemoveOldCompletedSchedules(db.dailySchedules, now);
      var db' := db.(dailySchedules := kept);
      (|kept| == |db.dailySchedules| ==> store.slot == old(store.slot)) &&
      (|kept| != |db.dailySchedules| && DatesValid(db') ==> Load(store.slot) == Ok(db')) &&
      (|kept| != |db.dailySchedules| && !DatesValid(db') ==> store.slot == old(store.slot))
  {
    var loaded := store.GetDB();
    if loaded.Err? {
      return;
    }
    var db := loaded.value;
    var filteredSchedules := RemoveOldCompletedSchedules(db.dailySchedules, now);
    if |filteredSchedules| != |db.dailySchedules| {
      db := db.(dailySchedules := filteredSchedules);
      var written := store.SetDB(db);
    }
  }

  /** The three cases named for the sweeper: completed 31 days ago is dropped,
      29 days ago is kept, completed without a date is kept. */
  lemma RetentionExamples(now: int)
    ensures !Retained(DailySchedule("a", "t", At(now), "09:00", "10:00", true, Some(At(now - 31 * MillisPerDay))), now)
    ensures Retained(DailySchedule("b", "t", At(now), "09:00", "10:00", true, Some(At(now - 29 * MillisPerDay))), now)
    ensures Retained(DailySchedule("c", "t", At(now), "09:00", "10:00", true, None), now)
  {
    RetainedInMillis(DailySchedule("a", "t", At(now), "09:00", "10:00", true, Some(At(now - 31 * MillisPerDay))), now);
    RetainedInMillis(DailySchedule("b", "t", At(now), "09:00", "10:00", true, Some(At(now - 29 * MillisPerDay))), now);
  }
}
