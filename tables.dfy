// The four tables of the habit database (habits, completion_log, streaks,
// last_updates) with their AUTOINCREMENT counters, and each store operation
// of main.js as a function from the database before to the database after.
// The Store class in store.dfy performs these operations step by step and
// is proved to produce exactly these states.

module Tables {
  import opened Calendar
  import opened Stamps

  datatype Option<T> = None | Some(value: T)

  /** A row of `habits`; `completed` is the INTEGER flag (0 or 1). */
  datatype Habit = Habit(id: nat, name: string, description: string, creationDate: Date, completed: bool)

  /** A row of `completion_log`; habit_id is whatever id the caller sent. */
  datatype CompletionEvent =
    CompletionEvent(id: nat, habitId: int, date: Date, dayOfWeek: nat, time: Seconds, status: nat)

  /** A row of `streaks`; end_date and length are NULL-able. */
  datatype Streak =
    Streak(id: nat, habitId: int, startDate: Date, endDate: Option<Date>, length: Option<int>)

  /** A row of `last_updates`. */
  datatype Marker = Marker(id: nat, lastInteraction: Stamp)

  /** The whole database; the `...Seq` fields are the AUTOINCREMENT counters
      (the largest id each table has ever handed out). */
  datatype Db = Db(
    habits: seq<Habit>,
    completionLog: seq<CompletionEvent>,
    streaks: seq<Streak>,
    lastUpdates: seq<Marker>,
    habitSeq: nat,
    logSeq: nat,
    streakSeq: nat,
    markerSeq: nat)

  /** What `new Date()` tells an operation: the UTC calendar date
      (toISOString), the local calendar date, the local time of day, and
      whether the local zone is west of UTC (a negative UTC offset). */
  datatype Clock = Clock(todayUtc: Date, todayLocal: Date, timeLocal: Seconds, westOfUtc: bool)

  /** The two dates of a clock agree with its zone: west of UTC the UTC date
      is the local date or the next day; at or east of UTC it is the local
      date or the previous day. */
  predicate ClockCoherent(c: Clock) {
    c.todayUtc == c.todayLocal
    || if c.westOfUtc then PrevDay(c.todayUtc) == c.todayLocal else PrevDay(c.todayLocal) == c.todayUtc
  }

  const EmptyDb := Db([], [], [], [], 0, 0, 0, 0)

  /** '23:59:59', the time written on synthetic missed events. */
  const EndOfDay: Seconds := 86399

  // ---------------------------------------------------------------------
  // Row ids

  function HabitIds(hs: seq<Habit>): seq<nat> {
    seq(|hs|, i requires 0 <= i < |hs| => hs[i].id)
  }

  function EventIds(es: seq<CompletionEvent>): seq<nat> {
    seq(|es|, i requires 0 <= i < |es| => es[i].id)
  }

  function StreakIds(ss: seq<Streak>): seq<nat> {
    seq(|ss|, i requires 0 <= i < |ss| => ss[i].id)
  }

  function MarkerIds(ms: seq<Marker>): seq<nat> {
    seq(|ms|, i requires 0 <= i < |ms| => ms[i].id)
  }

  /** AUTOINCREMENT ids in rowid order: positive, strictly ascending and never
      above the table's counter. */
  predicate AscendingIds(ids: seq<nat>, top: nat) {
    (forall i, j :: 0 <= i < j < |ids| ==> ids[i] < ids[j])
    && (forall i :: 0 <= i < |ids| ==> 0 < ids[i] <= top)
  }

  predicate DbValid(db: Db) {
    AscendingIds(HabitIds(db.habits), db.habitSeq)
    && AscendingIds(EventIds(db.completionLog), db.logSeq)
    && AscendingIds(StreakIds(db.streaks), db.streakSeq)
    && AscendingIds(MarkerIds(db.lastUpdates), db.markerSeq)
  }

  // ---------------------------------------------------------------------
  // createHabit, getHabits, logInteraction

  /** INSERT INTO habits (name, description, creation_date): the new row
      takes the next id and the column default completed = 0. */
  function InsertHabit(db: Db, name: string, description: string, todayUtc: Date): Db {
    var id := db.habitSeq + 1;
    db.(habits := db.habits + [Habit(id, name, description, todayUtc, false)], habitSeq := id)
  }

  /** INSERT INTO last_updates (last_interaction): the local date and time. */
  function InsertMarker(db: Db, at: Stamp): Db {
    var id := db.markerSeq + 1;
    db.(lastUpdates := db.lastUpdates + [Marker(id, at)], markerSeq := id)
  }

  /** SELECT last_interaction FROM last_updates ORDER BY id DESC LIMIT 1. */
  function LastInteraction(ms: seq<Marker>): (r: Option<Marker>)
    ensures r.None? <==> ms == []
    ensures r.Some? ==> r.value in ms && forall m :: m in ms ==> m.id <= r.value.id
  {
    if ms == [] then None
    else
      var last := ms[|ms| - 1];
      match LastInteraction(ms[..|ms| - 1])
      case None => Some(last)
      case Some(m) => if m.id <= last.id then Some(last) else Some(m)
  }

  // ---------------------------------------------------------------------
  // checkLastUpdate and logUnfinishedHabitsAppNotRunning

  /** The rows INSERT ... SELECT id, ?, ?, '23:59:59', 0 FROM habits WHERE
      completed = 0 adds, in rowid order, with ids counting up from firstId. */
  function MissedEvents(hs: seq<Habit>, date: Date, dayOfWeek: nat, firstId: nat): seq<CompletionEvent> {
    if hs == [] then []
    else
      var before := MissedEvents(hs[..|hs| - 1], date, dayOfWeek, firstId);
      var h := hs[|hs| - 1];
      if h.completed then before
      else before + [CompletionEvent(firstId + |before|, h.id, date, dayOfWeek, EndOfDay, 0)]
  }

  /** UPDATE habits SET completed = 0. */
  function ResetCompleted(hs: seq<Habit>): seq<Habit> {
    seq(|hs|, i requires 0 <= i < |hs| => hs[i].(completed := false))
  }

  /** logUnfinishedHabitsAppNotRunning: the missed events are dated with the
      UTC date of now (setDate(getDate()) does not step back a day) and carry
      the local weekday; then every habit is reset. */
  function Rollover(db: Db, clock: Clock): Db {
    var missed := MissedEvents(db.habits, clock.todayUtc, DayOfWeek(clock.todayLocal), db.logSeq + 1);
    db.(completionLog := db.completionLog + missed,
        logSeq := db.logSeq + |missed|,
        habits := ResetCompleted(db.habits))
  }

  /** The test of checkLastUpdate: the latest marker's local midnight lies
      before today's, and its time text sorts before '23:59:59'. */
  predicate RolloverDue(ms: seq<Marker>, todayLocal: Date) {
    match LastInteraction(ms)
    case None => false
    case Some(m) =>
      DayNumber(m.lastInteraction.date) < DayNumber(todayLocal)
      && LexLess(TimeText(m.lastInteraction.time), "23:59:59")
  }

  function CheckLastUpdate(db: Db, clock: Clock): Db {
    if RolloverDue(db.lastUpdates, clock.todayLocal) then Rollover(db, clock) else db
  }

  /** Start-up: checkLastUpdate, then logInteraction. */
  function Startup(db: Db, clock: Clock): Db {
    InsertMarker(CheckLastUpdate(db, clock), Stamp(clock.todayLocal, clock.timeLocal))
  }

  // ---------------------------------------------------------------------
  // The update-habit-completion handler

  /** UPDATE habits SET completed = ? WHERE id = ?. */
  function SetCompleted(hs: seq<Habit>, id: int, completed: bool): seq<Habit> {
    seq(|hs|, i requires 0 <= i < |hs| => if hs[i].id == id then hs[i].(completed := completed) else hs[i])
  }

  /** The latest date among the log rows of one habit: the date of whichever
      row ORDER BY date DESC LIMIT 1 returns. */
  function LatestDate(log: seq<CompletionEvent>, habitId: int): (r: Option<Date>)
    ensures r.None? <==> forall e :: e in log ==> e.habitId != habitId
    ensures r.Some? ==>
      (exists e :: e in log && e.habitId == habitId && e.date == r.value)
      && forall e :: e in log && e.habitId == habitId ==> !Before(r.value, e.date)
  {
    if log == [] then None
    else
      var e := log[|log| - 1];
      var rest := LatestDate(log[..|log| - 1], habitId);
      assert forall x :: x in log ==> x in log[..|log| - 1] || x == e;
      if e.habitId != habitId then rest
      else match rest
        case None => Some(e.date)
        case Some(d) => if Before(d, e.date) then Some(e.date) else Some(d)
  }

  /** A row ORDER BY date DESC LIMIT 1 may return: any row of the habit whose
      date no other row of the habit exceeds. */
  predicate IsLatestRow(log: seq<CompletionEvent>, habitId: int, row: CompletionEvent) {
    row in log && row.habitId == habitId
    && forall e :: e in log && e.habitId == habitId ==> !Before(row.date, e.date)
  }

  /** julianday(end_date) - julianday(start_date), evaluated on the row as it
      was before the UPDATE: NULL while end_date is NULL. */
  function LengthBeforeClose(s: Streak): Option<int> {
    match s.endDate
    case None => None
    case Some(e) => Some(DayNumber(e) - DayNumber(s.startDate))
  }

  /** UPDATE streaks SET end_date = ?, length = julianday(end_date) -
      julianday(start_date) WHERE id = ?. */
  function CloseStreak(ss: seq<Streak>, streakId: int, endDate: Date): seq<Streak> {
    seq(|ss|, i requires 0 <= i < |ss| =>
      if ss[i].id == streakId then ss[i].(endDate := Some(endDate), length := LengthBeforeClose(ss[i]))
      else ss[i])
  }

  /** INSERT INTO streaks (habit_id, start_date, end_date, length) VALUES
      (?, ?, NULL, 0). */
  function OpenStreak(db: Db, habitId: int, start: Date): Db {
    var id := db.streakSeq + 1;
    db.(streaks := db.streaks + [Streak(id, habitId, start, None, Some(0))], streakSeq := id)
  }

  /** INSERT INTO completion_log: today's local date and weekday, the local
      time, and status 1 (the handler only inserts when completing). */
  function InsertCompletion(db: Db, habitId: int, clock: Clock): Db {
    db.(completionLog := db.completionLog + [CompletionRow(db, habitId, clock)], logSeq := db.logSeq + 1)
  }

  /** The row that INSERT INTO completion_log writes: the next id, today's
      local date and weekday, the local time, and status 1. */
  function CompletionRow(db: Db, habitId: int, clock: Clock): CompletionEvent {
    CompletionEvent(db.logSeq + 1, habitId, clock.todayLocal, DayOfWeek(clock.todayLocal), clock.timeLocal, 1)
  }

  /** The local getters of `new Date(d)` for a stored 'YYYY-MM-DD' text:
      such a text parses as UTC midnight, which west of UTC is still the
      evening of the previous local day. */
  function ParsedLocalDate(d: Date, westOfUtc: bool): Date {
    if westOfUtc then PrevDay(d) else d
  }

  /** The streak step after today's row is inserted: nothing when the local
      getters of the latest row's parsed date give today's date; otherwise
      the streak whose id equals the habit id is closed at that row's date
      (toISOString of UTC midnight gives the stored date back) and a new one
      is opened today. */
  function StreakStep(db: Db, habitId: int, clock: Clock): Db {
    match LatestDate(db.completionLog, habitId)
    case None => OpenStreak(db, habitId, clock.todayLocal)
    case Some(d) =>
      if ParsedLocalDate(d, clock.westOfUtc) == clock.todayLocal then db
      else OpenStreak(db.(streaks := CloseStreak(db.streaks, habitId, d)), habitId, clock.todayLocal)
  }

  /** The whole update-habit-completion handler, in source order. */
  function UpdateHabitCompletion(db: Db, id: int, completed: bool, clock: Clock): Db {
    var marked := InsertMarker(db, Stamp(clock.todayLocal, clock.timeLocal));
    var updated := marked.(habits := SetCompleted(marked.habits, id, completed));
    if completed then StreakStep(InsertCompletion(updated, id, clock), id, clock)
    else updated
  }
}
