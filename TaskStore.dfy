/** The task database and its single storage slot: the entity types, the
    serialised document that `setDB` writes and `getDB` revives, and the
    read–modify–write operations over the slot. */
module TaskStore {
  import opened Wrappers

  /** A JavaScript `Date`: a time value in milliseconds, or NaN ("Invalid Date"). */
  datatype Date = At(time: int) | InvalidDate

  datatype LongTermTask = LongTermTask(id: string, title: string, dueDate: Date, isCompleted: bool)

  /** `duration` is in minutes; the store does not validate it. */
  datatype RecommendedTask = RecommendedTask(id: string, title: string, duration: int, isCompleted: bool)

  /** `startTime` and `endTime` are "HH:MM" strings; `completedDate` is optional. */
  datatype DailySchedule = DailySchedule(
    id: string, title: string, date: Date, startTime: string, endTime: string,
    isCompleted: bool, completedDate: Option<Date>)

  datatype TaskDB = TaskDB(
    longTermTasks: seq<LongTermTask>,
    recommendedTasks: seq<RecommendedTask>,
    dailySchedules: seq<DailySchedule>)

  const EmptyDB: TaskDB := TaskDB([], [], [])

  // ---------------------------------------------------------------------------
  // The serialised document

  /** A date as the stored JSON holds it: the ISO text `toISOString` wrote
      (which `new Date` reads back exactly), the empty string, or other text.
      The model revives all other text as Invalid Date; `new Date` accepts
      some non-ISO forms too, but `setDB` only ever writes ISO text. */
  datatype DateText = IsoText(time: int) | EmptyText | OtherText

  datatype StoredLongTermTask = StoredLongTermTask(id: string, title: string, dueDate: DateText, isCompleted: bool)

  datatype StoredDailySchedule = StoredDailySchedule(
    id: string, title: string, date: DateText, startTime: string, endTime: string,
    isCompleted: bool, completedDate: Option<DateText>)

  datatype Document = Document(
    longTermTasks: seq<StoredLongTermTask>,
    recommendedTasks: seq<RecommendedTask>,
    dailySchedules: seq<StoredDailySchedule>)

  /** What the storage key holds: a document, or text that `JSON.parse` or
      the date revival in `getDB` throws on. */
  datatype Stored = Saved(doc: Document) | Corrupt

  datatype StoreError = CorruptDocument | InvalidTimeValue

  const EmptyDocument: Document := Document([], [], [])

  /** Every Date in the database has a time value, so `toISOString` succeeds on all of them. */
  predicate DatesValid(db: TaskDB)
  {
    (forall i :: 0 <= i < |db.longTermTasks| ==> db.longTermTasks[i].dueDate.At?) &&
    (forall i :: 0 <= i < |db.dailySchedules| ==> DailyDatesValid(db.dailySchedules[i]))
  }

  predicate DailyDatesValid(s: DailySchedule)
  {
    s.date.At? && (s.completedDate.Some? ==> s.completedDate.value.At?)
  }

  function EncodeLongTermTask(t: LongTermTask): StoredLongTermTask
    requires t.dueDate.At?
  {
    StoredLongTermTask(t.id, t.title, IsoText(t.dueDate.time), t.isCompleted)
  }

  function EncodeDailySchedule(s: DailySchedule): StoredDailySchedule
    requires DailyDatesValid(s)
  {
    StoredDailySchedule(s.id, s.title, IsoText(s.date.time), s.startTime, s.endTime, s.isCompleted,
      if s.completedDate.Some? then Some(IsoText(s.completedDate.value.time)) else None)
  }

  /** The conversion in `setDB`: every Date becomes its ISO text and an absent
      `completedDate` stays absent; `toISOString` on an Invalid Date throws a
      RangeError, so then nothing is produced. */
  function Serialize(db: TaskDB): (r: Result<Document, StoreError>)
    ensures r.Ok? <==> DatesValid(db)
    ensures r.Err? ==> r.error == InvalidTimeValue
    ensures r.Ok? ==> r.value.recommendedTasks == db.recommendedTasks
  {
    if !DatesValid(db) then Err(InvalidTimeValue)
    else Ok(Document(
      seq(|db.longTermTasks|, i requires 0 <= i < |db.longTermTasks| => EncodeLongTermTask(db.longTermTasks[i])),
      db.recommendedTasks,
      seq(|db.dailySchedules|, i requires 0 <= i < |db.dailySchedules| => EncodeDailySchedule(db.dailySchedules[i]))))
  }

  /** `new Date(text)`. */
  function ReviveDate(t: DateText): Date
  {
    match t
    case IsoText(ms) => At(ms)
    case _ => InvalidDate
  }

  /** `s.completedDate ? new Date(s.completedDate) : undefined`: the empty
      string is falsy and revives as absent. */
  function ReviveCompletedDate(t: Option<DateText>): Option<Date>
  {
    match t
    case None => None
    case Some(EmptyText) => None
    case Some(text) => Some(ReviveDate(text))
  }

  /** The date revival in `getDB`. */
  function Deserialize(doc: Document): TaskDB
  {
    TaskDB(
      seq(|doc.longTermTasks|, i requires 0 <= i < |doc.longTermTasks| =>
        var t := doc.longTermTasks[i];
        LongTermTask(t.id, t.title, ReviveDate(t.dueDate), t.isCompleted)),
      doc.recommendedTasks,
      seq(|doc.dailySchedules|, i requires 0 <= i < |doc.dailySchedules| =>
        var s := doc.dailySchedules[i];
        DailySchedule(s.id, s.title, ReviveDate(s.date), s.startTime, s.endTime, s.isCompleted,
          ReviveCompletedDate(s.completedDate))))
  }

  /** What `getDB` yields for a slot: the empty database when nothing is
      stored, an error when the stored text cannot be parsed. */
  function Load(slot: Option<Stored>): (r: Result<TaskDB, StoreError>)
    ensures slot.None? ==> r == Ok(EmptyDB)
    ensures r.Err? <==> slot == Some(Corrupt)
    ensures r.Err? ==> r.error == CorruptDocument
  {
    match slot
    case None => Ok(EmptyDB)
    case Some(Corrupt) => Err(CorruptDocument)
    case Some(Saved(doc)) => Ok(Deserialize(doc))
  }

  /** Saving and then loading gives back the database that was saved, field
      for field; in particular an absent `completedDate` stays absent. */
  lemma SaveThenLoad(db: TaskDB)
    requires DatesValid(db)
    ensures Load(Some(Saved(Serialize(db).value))) == Ok(db)
  {
    var back := Deserialize(Serialize(db).value);
    assert back.longTermTasks == db.longTermTasks;
    assert back.dailySchedules == db.dailySchedules by {
      forall i | 0 <= i < |db.dailySchedules|
        ensures back.dailySchedules[i] == db.dailySchedules[i]
      {
        var s := db.dailySchedules[i];
        assert s.completedDate.Some? ==> ReviveCompletedDate(Some(IsoText(s.completedDate.value.time))) == s.completedDate;
      }
    }
  }

  // ---------------------------------------------------------------------------
  // Invariants of a database

  /** `id` is the id of some task in one of the three collections. */
  predicate IdInUse(db: TaskDB, id: string)
  {
    (exists i :: 0 <= i < |db.longTermTasks| && db.longTermTasks[i].id == id) ||
    (exists i :: 0 <= i < |db.recommendedTasks| && db.recommendedTasks[i].id == id) ||
    (exists i :: 0 <= i < |db.dailySchedules| && db.dailySchedules[i].id == id)
  }

  predicate DailyIdsUnique(s: seq<DailySchedule>)
  {
    forall i, j :: 0 <= i < j < |s| ==> s[i].id != s[j].id
  }

  predicate RecommendedIdsUnique(s: seq<RecommendedTask>)
  {
    forall i, j :: 0 <= i < j < |s| ==> s[i].id != s[j].id
  }

  predicate LongTermIdsUnique(s: seq<LongTermTask>)
  {
    forall i, j :: 0 <= i < j < |s| ==> s[i].id != s[j].id
  }

  /** A daily schedule carries a `completedDate` exactly when it is completed. */
  predicate CompletionConsistent(s: DailySchedule)
  {
    s.isCompleted <==> s.completedDate.Some?
  }

  /** Ids are unique within each collection and every daily schedule's
      `completedDate` agrees with its `isCompleted`. */
  predicate Consistent(db: TaskDB)
  {
    LongTermIdsUnique(db.longTermTasks) &&
    RecommendedIdsUnique(db.recommendedTasks) &&
    DailyIdsUnique(db.dailySchedules) &&
    forall i :: 0 <= i < |db.dailySchedules| ==> CompletionConsistent(db.dailySchedules[i])
  }

  /** Index of the first daily schedule with the given id (`Array.prototype.find`). */
  function FindSchedule(s: seq<DailySchedule>, id: string): (r: Option<nat>)
    ensures r.Some? ==> r.value < |s| && s[r.value].id == id
    ensures r.Some? ==> forall j :: 0 <= j < r.value ==> s[j].id != id
    ensures r.None? <==> forall j :: 0 <= j < |s| ==> s[j].id != id
  {
    if s == [] then None
    else if s[0].id == id then Some(0)
    else
      match FindSchedule(s[1..], id)
      case None => None
      case Some(k) => Some(k + 1)
  }

  /** The toggle of `toggleDailyScheduleComplete` (and of the main screen's
      checkbox handler): flip `isCompleted` and set `completedDate` to `now`
      exactly when the schedule becomes completed. */
  function Toggled(s: DailySchedule, now: int): (r: DailySchedule)
    ensures r.isCompleted == !s.isCompleted
    ensures CompletionConsistent(r)
    ensures r.isCompleted ==> r.completedDate == Some(At(now))
    ensures r.(isCompleted := s.isCompleted, completedDate := s.completedDate) == s
  {
    var done := !s.isCompleted;
    s.(isCompleted := done, completedDate := if done then Some(At(now)) else None)
  }

  lemma {:induction false} AddLongTermTaskKeepsConsistent(db: TaskDB, t: LongTermTask)
    requires Consistent(db) && !IdInUse(db, t.id)
    ensures Consistent(db.(longTermTasks := db.longTermTasks + [t]))
  {
    var s := db.longTermTasks + [t];
    forall i, j | 0 <= i < j < |s| ensures s[i].id != s[j].id {
      if j == |s| - 1 {
        assert s[i] == db.longTermTasks[i];
      }
    }
  }

  lemma {:induction false} AddRecommendedTaskKeepsConsistent(db: TaskDB, t: RecommendedTask)
    requires Consistent(db) && !IdInUse(db, t.id)
    ensures Consistent(db.(recommendedTasks := db.recommendedTasks + [t]))
  {
    var s := db.recommendedTasks + [t];
    forall i, j | 0 <= i < j < |s| ensures s[i].id != s[j].id {
      if j == |s| - 1 {
        assert s[i] == db.recommendedTasks[i];
      }
    }
  }

  lemma {:induction false} AddDailyScheduleKeepsConsistent(db: TaskDB, d: DailySchedule)
    requires Consistent(db) && !IdInUse(db, d.id)
    requires !d.isCompleted && d.completedDate.None?
    ensures Consistent(db.(dailySchedules := db.dailySchedules + [d]))
  {
    var s := db.dailySchedules + [d];
    forall i, j | 0 <= i < j < |s| ensures s[i].id != s[j].id {
      if j == |s| - 1 {
        assert s[i] == db.dailySchedules[i];
      }
    }
  }

  lemma {:induction false} ToggleKeepsConsistent(db: TaskDB, k: nat, now: int)
    requires Consistent(db) && k < |db.dailySchedules|
    ensures Consistent(db.(dailySchedules := db.dailySchedules[k := Toggled(db.dailySchedules[k], now)]))
  {
  }

  // ---------------------------------------------------------------------------
  // The storage slot and the operations over it

  /** Whether initialisation writes: only when nothing is stored. */
  function InitializedSlot(slot: Option<Stored>): (r: Option<Stored>)
    ensures r.Some?
    ensures slot.Some? ==> r == slot
    ensures slot.None? ==> Load(r) == Ok(EmptyDB)
  {
    assert Deserialize(EmptyDocument) == EmptyDB;
    if slot.None? then Some(Saved(EmptyDocument)) else slot
  }

  /** Initialising twice is initialising once. */
  lemma InitializeIsIdempotent(slot: Option<Stored>)
    ensures InitializedSlot(InitializedSlot(slot)) == InitializedSlot(slot)
  {
  }

  class ScheduleStore {
    /** The text under the key `@teumteum_schedule_db`; None when nothing is stored. */
    var slot: Option<Stored>

    constructor ()
      ensures slot == None
    {
      slot := None;
    }

    /** `getDB`: the stored database, or the empty one when nothing is stored. */
    method GetDB() returns (r: Result<TaskDB, StoreError>)
      ensures r == Load(slot)
      ensures slot.None? ==> r == Ok(EmptyDB)
    {
      match slot {
        case None =>
          r := Ok(EmptyDB);
        case Some(Corrupt) =>
          r := Err(CorruptDocument);
        case Some(Saved(doc)) =>
          r := Ok(Deserialize(doc));
      }
    }

    /** `setDB`: overwrite the slot with the serialised database, unless
        serialising throws. */
    method SetDB(db: TaskDB) returns (r: Result<(), StoreError>)
      modifies this
      ensures r.Ok? <==> DatesValid(db)
      ensures r.Ok? ==> slot == Some(Saved(Serialize(db).value)) && Load(slot) == Ok(db)
      ensures r.Err? ==> r.error == InvalidTimeValue && slot == old(slot)
    {
      var doc := Serialize(db);
      if doc.Err? {
        return Err(doc.error);
      }
      slot := Some(Saved(doc.value));
      SaveThenLoad(db);
      r := Ok(());
    }

    /** `initializeDB`: write the empty database only when nothing is stored. */
    method InitializeDB()
      modifies this
      ensures slot == InitializedSlot(old(slot))
    {
      if slot.None? {
        var written := SetDB(EmptyDB);
      }
    }

    /** `resetDB`: store the empty database whatever was there before. */
    method ResetDB()
      modifies this
      ensures slot == Some(Saved(EmptyDocument))
      ensures Load(slot) == Ok(EmptyDB)
    {
      var written := SetDB(EmptyDB);
    }

    /** `addLongTermTask`: append a new, not completed task with a fresh id
        to `longTermTasks`, save, and return it. */
    method AddLongTermTask(title: string, dueDate: Date, freshId: string) returns (r: Result<LongTermTask, StoreError>)
      requires Load(slot).Ok? ==> !IdInUse(Load(slot).value, freshId)
      modifies this
      ensures Load(old(slot)).Err? ==> r == Err(CorruptDocument) && slot == old(slot)
      ensures Load(old(slot)).Ok? ==>
        var db := Load(old(slot)).value;
        var t := LongTermTask(freshId, title, dueDate, false);
        var db' := db.(longTermTasks := db.longTermTasks + [t]);
        (dueDate.At? && DatesValid(db) ==> r == Ok(t) && Load(slot) == Ok(db')) &&
        (!(dueDate.At? && DatesValid(db)) ==> r == Err(InvalidTimeValue) && slot == old(slot)) &&
        (Consistent(db) ==> Consistent(db'))
    {
      var loaded := GetDB();
      if loaded.Err? {
        return Err(loaded.error);
      }
      var db := loaded.value;
      var newTask := LongTermTask(freshId, title, dueDate, false);
      db := db.(longTermTasks := db.longTermTasks + [newTask]);
      assert forall i :: 0 <= i < |loaded.value.longTermTasks| ==> db.longTermTasks[i] == loaded.value.longTermTasks[i];
      assert db.longTermTasks[|db.longTermTasks| - 1] == newTask;
      assert DatesValid(db) <==> dueDate.At? && DatesValid(loaded.value);
      var written := SetDB(db);
      if written.Err? {
        return Err(written.error);
      }
      r := Ok(newTask);
      if Consistent(loaded.value) {
        AddLongTermTaskKeepsConsistent(loaded.value, newTask);
      }
    }

    /** `addRecommendedTask`: append `{fresh id, title, duration, not completed}`
        to `recommendedTasks`; the duration is not checked. */
    method AddRecommendedTask(title: string, duration: int, freshId: string) returns (r: Result<RecommendedTask, StoreError>)
      requires Load(slot).Ok? ==> !IdInUse(Load(slot).value, freshId)
      modifies this
      ensures Load(old(slot)).Err? ==> r == Err(CorruptDocument) && slot == old(slot)
      ensures Load(old(slot)).Ok? ==>
        var db := Load(old(slot)).value;
        var t := RecommendedTask(freshId, title, duration, false);
        var db' := db.(recommendedTasks := db.recommendedTasks + [t]);
        (DatesValid(db) ==> r == Ok(t) && Load(slot) == Ok(db')) &&
        (!DatesValid(db) ==> r == Err(InvalidTimeValue) && slot == old(slot)) &&
        (Consistent(db) ==> Consistent(db'))
    {
      var loaded := GetDB();
      if loaded.Err? {
        return Err(loaded.error);
      }
      var db := loaded.value;
      var newTask := RecommendedTask(freshId, title, duration, false);
      db := db.(recommendedTasks := db.recommendedTasks + [newTask]);
      assert DatesValid(db) <==> DatesValid(loaded.value);
      var written := SetDB(db);
      if written.Err? {
        return Err(written.error);
      }
      r := Ok(newTask);
      if Consistent(loaded.value) {
        AddRecommendedTaskKeepsConsistent(loaded.value, newTask);
      }
    }

    /** `addDailySchedule`: append a not completed schedule without a
        `completedDate` to `dailySchedules`. */
    method AddDailySchedule(title: string, date: Date, startTime: string, endTime: string, freshId: string)
      returns (r: Result<DailySchedule, StoreError>)
      requires Load(slot).Ok? ==> !IdInUse(Load(slot).value, freshId)
      modifies this
      ensures Load(old(slot)).Err? ==> r == Err(CorruptDocument) && slot == old(slot)
      ensures Load(old(slot)).Ok? ==>
        var db := Load(old(slot)).value;
        var d := DailySchedule(freshId, title, date, startTime, endTime, false, None);
        var db' := db.(dailySchedules := db.dailySchedules + [d]);
        (date.At? && DatesValid(db) ==> r == Ok(d) && Load(slot) == Ok(db')) &&
        (!(date.At? && DatesValid(db)) ==> r == Err(InvalidTimeValue) && slot == old(slot)) &&
        (Consistent(db) ==> Consistent(db'))
    {
      var loaded := GetDB();
      if loaded.Err? {
        return Err(loaded.error);
      }
      var db := loaded.value;
      var newSchedule := DailySchedule(freshId, title, date, startTime, endTime, false, None);
      db := db.(dailySchedules := db.dailySchedules + [newSchedule]);
      assert forall i :: 0 <= i < |loaded.value.dailySchedules| ==> db.dailySchedules[i] == loaded.value.dailySchedules[i];
      assert db.dailySchedules[|db.dailySchedules| - 1] == newSchedule;
      assert DatesValid(db) <==> date.At? && DatesValid(loaded.value);
      var written := SetDB(db);
      if written.Err? {
        return Err(written.error);
      }
      r := Ok(newSchedule);
      if Consistent(loaded.value) {
        AddDailyScheduleKeepsConsistent(loaded.value, newSchedule);
      }
    }

    /** `toggleDailyScheduleComplete`: toggle the first schedule with the id
        and save; an unknown id writes nothing. */
    method ToggleDailyScheduleComplete(scheduleId: string, now: int) returns (r: Result<(), StoreError>)
      modifies this
      ensures Load(old(slot)).Err? ==> r == Err(CorruptDocument) && slot == old(slot)
      ensures Load(old(slot)).Ok? ==>
        var db := Load(old(slot)).value;
        match FindSchedule(db.dailySchedules, scheduleId)
        case None => r.Ok? && slot == old(slot)
        case Some(k) =>
          var db' := db.(dailySchedules := db.dailySchedules[k := Toggled(db.dailySchedules[k], now)]);
          (DatesValid(db') ==> r.Ok? && Load(slot) == Ok(db')) &&
          (!DatesValid(db') ==> r == Err(InvalidTimeValue) && slot == old(slot)) &&
          (Consistent(db) ==> Consistent(db'))
    {
      var loaded := GetDB();
      if loaded.Err? {
        return Err(loaded.error);
      }
      var db := loaded.value;
      var found := FindSchedule(db.dailySchedules, scheduleId);
      if found.None? {
        return Ok(());
      }
      var k := found.value;
      db := db.(dailySchedules := db.dailySchedules[k := Toggled(db.dailySchedules[k], now)]);
      r := SetDB(db);
      if Consistent(loaded.value) {
        ToggleKeepsConsistent(loaded.value, k, now);
      }
    }
  }
}
