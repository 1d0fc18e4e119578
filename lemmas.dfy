// What the store operations of main.js guarantee, stated over the
// functions of module Tables.

module StoreLemmas {
  import opened Calendar
  import opened Stamps
  import opened Tables

  // ---------------------------------------------------------------------
  // Ids

  /** The habits the rollover's WHERE completed = 0 selects, in rowid order:
      every habit whose flag is clear, as often as it occurs, and no other. */
  function Uncompleted(hs: seq<Habit>): (r: seq<Habit>)
    ensures forall h :: h in r ==> h in hs && !h.completed
    ensures forall h :: h in hs && !h.completed ==> h in r
    ensures |r| <= |hs|
  {
    if hs == [] then []
    else
      var init, h := hs[..|hs| - 1], hs[|hs| - 1];
      assert forall x :: x in hs ==> x in init || x == h;
      Uncompleted(init) + (if h.completed then [] else [h])
  }

  /** WHERE completed = 0 keeps every habit whose flag is clear exactly as
      often as the table holds it, and drops every other one. */
  lemma {:induction false} UncompletedCounts(hs: seq<Habit>)
    ensures forall h :: multiset(Uncompleted(hs))[h] == if h.completed then 0 else multiset(hs)[h]
  {
    if hs != [] {
      var init, last := hs[..|hs| - 1], hs[|hs| - 1];
      UncompletedCounts(init);
      assert hs == init + [last];
    }
  }

  lemma AscendingAppend(ids: seq<nat>, top: nat)
    requires AscendingIds(ids, top)
    ensures AscendingIds(ids + [top + 1], top + 1)
  {
  }

  /** In an AUTOINCREMENT table two rows never share an id. */
  lemma AscendingUnique(ids: seq<nat>, top: nat, i: int, j: int)
    requires AscendingIds(ids, top)
    requires 0 <= i < |ids| && 0 <= j < |ids| && ids[i] == ids[j]
    ensures i == j
  {
  }

  /** Only the newest marker, the one with the highest id, is read back by
      ORDER BY id DESC LIMIT 1. */
  lemma LatestMarkerIsLast(ms: seq<Marker>, top: nat)
    requires AscendingIds(MarkerIds(ms), top) && ms != []
    ensures LastInteraction(ms) == Some(ms[|ms| - 1])
  {
    var init, last := ms[..|ms| - 1], ms[|ms| - 1];
    match LastInteraction(init)
    case None =>
    case Some(m) =>
      var k :| 0 <= k < |init| && init[k] == m;
      assert MarkerIds(ms)[k] == m.id && MarkerIds(ms)[|ms| - 1] == last.id;
  }

  // ---------------------------------------------------------------------
  // createHabit and getHabits

  /** createHabit appends exactly one habit, with the given name and
      description, created today, not completed and with an id no other row
      has; nothing else changes, so the habits getHabits then lists are the
      old rows followed by the new one. */
  lemma CreateHabitAppends(db: Db, name: string, description: string, todayUtc: Date)
    requires DbValid(db)
    ensures var db' := InsertHabit(db, name, description, todayUtc);
      && DbValid(db')
      && db'.habits == db.habits + [Habit(db.habitSeq + 1, name, description, todayUtc, false)]
      && (forall h :: h in db.habits ==> h.id != db.habitSeq + 1)
      && db'.completionLog == db.completionLog && db'.streaks == db.streaks
      && db'.lastUpdates == db.lastUpdates
      && db'.logSeq == db.logSeq && db'.streakSeq == db.streakSeq && db'.markerSeq == db.markerSeq
  {
    var db' := InsertHabit(db, name, description, todayUtc);
    assert HabitIds(db'.habits) == HabitIds(db.habits) + [db.habitSeq + 1];
    AscendingAppend(HabitIds(db.habits), db.habitSeq);
    forall h | h in db.habits ensures h.id != db.habitSeq + 1 {
      var k :| 0 <= k < |db.habits| && db.habits[k] == h;
      assert HabitIds(db.habits)[k] == h.id;
    }
  }

  // ---------------------------------------------------------------------
  // logInteraction

  /** logInteraction appends exactly one marker and changes no other table;
      the marker checkLastUpdate reads next is that one. */
  lemma LogInteractionReadBack(db: Db, at: Stamp)
    requires DbValid(db)
    ensures var db' := InsertMarker(db, at);
      && DbValid(db')
      && db'.lastUpdates == db.lastUpdates + [Marker(db.markerSeq + 1, at)]
      && LastInteraction(db'.lastUpdates) == Some(Marker(db.markerSeq + 1, at))
      && db'.habits == db.habits && db'.completionLog == db.completionLog
      && db'.streaks == db.streaks
      && db'.habitSeq == db.habitSeq && db'.logSeq == db.logSeq && db'.streakSeq == db.streakSeq
  {
    var db' := InsertMarker(db, at);
    assert MarkerIds(db'.lastUpdates) == MarkerIds(db.lastUpdates) + [db.markerSeq + 1];
    AscendingAppend(MarkerIds(db.lastUpdates), db.markerSeq);
    LatestMarkerIsLast(db'.lastUpdates, db'.markerSeq);
  }

  // ---------------------------------------------------------------------
  // checkLastUpdate

  /** The rollover is due exactly when there is a marker, the newest one's
      calendar day is before today, and its time is before 23:59:59. */
  lemma RolloverDueIff(ms: seq<Marker>, top: nat, todayLocal: Date)
    requires AscendingIds(MarkerIds(ms), top)
    ensures RolloverDue(ms, todayLocal) <==>
      ms != []
      && Before(ms[|ms| - 1].lastInteraction.date, todayLocal)
      && ms[|ms| - 1].lastInteraction.time < EndOfDay
  {
    if ms != [] {
      LatestMarkerIsLast(ms, top);
      var at := ms[|ms| - 1].lastInteraction;
      BeforeIffDayNumber(at.date, todayLocal);
      EndOfDayText(EndOfDay);
      TimeTextOrder(at.time, EndOfDay);
    }
  }

  /** With no marker, a marker dated today (or later), or a marker at exactly
      23:59:59, checkLastUpdate changes no table. */
  lemma NoRolloverCases(db: Db, clock: Clock)
    requires DbValid(db)
    requires db.lastUpdates == []
      || !Before(db.lastUpdates[|db.lastUpdates| - 1].lastInteraction.date, clock.todayLocal)
      || db.lastUpdates[|db.lastUpdates| - 1].lastInteraction.time == EndOfDay
    ensures CheckLastUpdate(db, clock) == db
  {
    RolloverDueIff(db.lastUpdates, db.markerSeq, clock.todayLocal);
  }

  // ---------------------------------------------------------------------
  // logUnfinishedHabitsAppNotRunning

  /** INSERT ... SELECT writes, for the i-th habit not completed, one event
      with the next id, that habit's id, the given date and weekday, time
      23:59:59 and status 0. */
  lemma {:induction false} MissedEventsShape(hs: seq<Habit>, date: Date, dayOfWeek: nat, firstId: nat)
    ensures var r, u := MissedEvents(hs, date, dayOfWeek, firstId), Uncompleted(hs);
      |r| == |u|
      && forall i :: 0 <= i < |r| ==> r[i] == CompletionEvent(firstId + i, u[i].id, date, dayOfWeek, EndOfDay, 0)
  {
    if hs != [] {
      MissedEventsShape(hs[..|hs| - 1], date, dayOfWeek, firstId);
    }
  }

  /** The missed events carry no habit id of a completed habit. */
  lemma MissedSkipsCompleted(hs: seq<Habit>, top: nat, date: Date, dayOfWeek: nat, firstId: nat)
    requires AscendingIds(HabitIds(hs), top)
    ensures forall h, e :: h in hs && h.completed && e in MissedEvents(hs, date, dayOfWeek, firstId) ==> e.habitId != h.id
  {
    var missed, u := MissedEvents(hs, date, dayOfWeek, firstId), Uncompleted(hs);
    MissedEventsShape(hs, date, dayOfWeek, firstId);
    forall h, e | h in hs && h.completed && e in missed ensures e.habitId != h.id {
      var i :| 0 <= i < |missed| && missed[i] == e;
      var g := u[i];
      assert g in hs && !g.completed;
      var a :| 0 <= a < |hs| && hs[a] == g;
      var b :| 0 <= b < |hs| && hs[b] == h;
      assert a != b;
      if g.id == h.id {
        AscendingUnique(HabitIds(hs), top, a, b);
      }
    }
  }

  /** Appending rows numbered top + 1, top + 2, ... keeps the ids ascending. */
  lemma AppendNumbered(log: seq<CompletionEvent>, top: nat, added: seq<CompletionEvent>)
    requires AscendingIds(EventIds(log), top)
    requires forall i :: 0 <= i < |added| ==> added[i].id == top + 1 + i
    ensures AscendingIds(EventIds(log + added), top + |added|)
  {
    var ids := EventIds(log + added);
    forall i | 0 <= i < |ids| ensures 0 < ids[i] <= top + |added| {
      if i >= |log| {
        assert ids[i] == added[i - |log|].id;
      } else {
        assert ids[i] == EventIds(log)[i];
      }
    }
    forall i, j | 0 <= i < j < |ids| ensures ids[i] < ids[j] {
      if j >= |log| {
        assert ids[j] == added[j - |log|].id;
        if i >= |log| {
          assert ids[i] == added[i - |log|].id;
        } else {
          assert ids[i] == EventIds(log)[i];
        }
      } else {
        assert ids[i] == EventIds(log)[i];
        assert ids[j] == EventIds(log)[j];
      }
    }
  }

  /** The rollover appends exactly one missed event per habit that was not
      completed (in rowid order, dated with today's UTC date, time 23:59:59,
      status 0) and none for completed habits; afterwards the same habits
      remain, every one of them not completed, and the streaks and markers
      are untouched. */
  lemma RolloverEffects(db: Db, clock: Clock)
    requires DbValid(db)
    ensures var db', u, n := Rollover(db, clock), Uncompleted(db.habits), |db.completionLog|;
      && DbValid(db')
      && |db'.completionLog| == n + |u|
      && db'.completionLog[..n] == db.completionLog
      && (forall i :: 0 <= i < |u| ==>
            db'.completionLog[n + i] == CompletionEvent(db.logSeq + 1 + i, u[i].id, clock.todayUtc,
                                                        DayOfWeek(clock.todayLocal), EndOfDay, 0))
      && (forall h, j :: h in db.habits && h.completed && n <= j < |db'.completionLog| ==>
            db'.completionLog[j].habitId != h.id)
      && |db'.habits| == |db.habits|
      && (forall i :: 0 <= i < |db.habits| ==> db'.habits[i] == db.habits[i].(completed := false))
      && db'.streaks == db.streaks && db'.lastUpdates == db.lastUpdates
      && db'.logSeq == db.logSeq + |u|
      && db'.habitSeq == db.habitSeq && db'.streakSeq == db.streakSeq && db'.markerSeq == db.markerSeq
  {
    RolloverValid(db, clock);
    RolledOver(db, Rollover(db, clock), clock.todayUtc, DayOfWeek(clock.todayLocal));
  }

  /** The effects of the rollover on any database made from db by its two
      statements. */
  lemma RolledOver(db: Db, db': Db, date: Date, dow: nat)
    requires AscendingIds(HabitIds(db.habits), db.habitSeq)
    requires db'.completionLog == db.completionLog + MissedEvents(db.habits, date, dow, db.logSeq + 1)
    requires db'.habits == ResetCompleted(db.habits)
    requires db'.streaks == db.streaks && db'.lastUpdates == db.lastUpdates
    ensures var u, n := Uncompleted(db.habits), |db.completionLog|;
      && |db'.completionLog| == n + |u|
      && db'.completionLog[..n] == db.completionLog
      && (forall i :: 0 <= i < |u| ==>
            db'.completionLog[n + i] == CompletionEvent(db.logSeq + 1 + i, u[i].id, date, dow, EndOfDay, 0))
      && (forall h, j :: h in db.habits && h.completed && n <= j < |db'.completionLog| ==>
            db'.completionLog[j].habitId != h.id)
      && |db'.habits| == |db.habits|
      && (forall i :: 0 <= i < |db.habits| ==> db'.habits[i] == db.habits[i].(completed := false))
  {
    MissedAppended(db.completionLog, db.habits, db.habitSeq, date, dow, db.logSeq + 1);
  }

  /** The log after the INSERT ... SELECT: the old rows, then one missed
      event per uncompleted habit, none for a completed one. */
  lemma MissedAppended(log: seq<CompletionEvent>, hs: seq<Habit>, top: nat, date: Date, dow: nat, first: nat)
    requires AscendingIds(HabitIds(hs), top)
    ensures var log', u := log + MissedEvents(hs, date, dow, first), Uncompleted(hs);
      && |log'| == |log| + |u|
      && log'[..|log|] == log
      && (forall i :: 0 <= i < |u| ==> log'[|log| + i] == CompletionEvent(first + i, u[i].id, date, dow, EndOfDay, 0))
      && (forall h, j :: h in hs && h.completed && |log| <= j < |log'| ==> log'[j].habitId != h.id)
  {
    var missed := MissedEvents(hs, date, dow, first);
    MissedEventsShape(hs, date, dow, first);
    MissedSkipsCompleted(hs, top, date, dow, first);
    AppendedParts(log, missed);
    forall h, j | h in hs && h.completed && |log| <= j < |log + missed|
      ensures (log + missed)[j].habitId != h.id
    {
      assert (log + missed)[j] == missed[j - |log|];
    }
  }

  lemma AppendedParts<T>(s: seq<T>, t: seq<T>)
    ensures (s + t)[|s|..] == t && (s + t)[..|s|] == s && |s + t| == |s| + |t|
  {
  }

  /** The rollover keeps the AUTOINCREMENT ids valid. */
  lemma RolloverValid(db: Db, clock: Clock)
    requires DbValid(db)
    ensures DbValid(Rollover(db, clock))
  {
    var date, dow := clock.todayUtc, DayOfWeek(clock.todayLocal);
    MissedNumbered(db.completionLog, db.logSeq, db.habits, date, dow);
    ResetKeepsIds(db.habits);
  }

  lemma MissedNumbered(log: seq<CompletionEvent>, top: nat, hs: seq<Habit>, date: Date, dow: nat)
    requires AscendingIds(EventIds(log), top)
    ensures var missed := MissedEvents(hs, date, dow, top + 1);
      AscendingIds(EventIds(log + missed), top + |missed|)
  {
    MissedEventsShape(hs, date, dow, top + 1);
    AppendNumbered(log, top, MissedEvents(hs, date, dow, top + 1));
  }

  lemma ResetKeepsIds(hs: seq<Habit>)
    ensures HabitIds(ResetCompleted(hs)) == HabitIds(hs)
  {
    assert forall i :: 0 <= i < |hs| ==> HabitIds(ResetCompleted(hs))[i] == HabitIds(hs)[i];
  }

  // ---------------------------------------------------------------------
  // Start-up

  /** After start-up, a later check on the same local day, at any time of
      day and on either side of UTC, finds the marker just written, dated
      today, and rolls nothing over: the missed-day backfill happens at most
      once per gap. */
  lemma SecondStartupQuiet(db: Db, clock: Clock, clock2: Clock)
    requires DbValid(db)
    requires clock2.todayLocal == clock.todayLocal
    ensures DbValid(Startup(db, clock))
    ensures CheckLastUpdate(Startup(db, clock), clock2) == Startup(db, clock)
  {
    var checked := CheckLastUpdate(db, clock);
    if RolloverDue(db.lastUpdates, clock.todayLocal) {
      RolloverEffects(db, clock);
    }
    assert DbValid(checked);
    var at := Stamp(clock.todayLocal, clock.timeLocal);
    LogInteractionReadBack(checked, at);
    NoRolloverCases(InsertMarker(checked, at), clock2);
  }

  // ---------------------------------------------------------------------
  // update-habit-completion

  /** UPDATE habits SET completed = ? WHERE id = ? keeps every row but the
      matching one, and an id that matches no habit changes no row. */
  lemma SetCompletedEffects(hs: seq<Habit>, id: int, completed: bool)
    ensures |SetCompleted(hs, id, completed)| == |hs|
    ensures forall i :: 0 <= i < |hs| && hs[i].id != id ==> SetCompleted(hs, id, completed)[i] == hs[i]
    ensures forall i :: 0 <= i < |hs| && hs[i].id == id ==>
      SetCompleted(hs, id, completed)[i] == hs[i].(completed := completed)
    ensures (forall h :: h in hs ==> h.id != id) ==> SetCompleted(hs, id, completed) == hs
  {
  }

  /** Toggling to false changes only that habit's flag and appends the
      interaction marker: no completion event and no streak row is written. */
  lemma UncheckEffects(db: Db, id: int, clock: Clock)
    requires DbValid(db)
    ensures var db' := UpdateHabitCompletion(db, id, false, clock);
      && DbValid(db')
      && db'.lastUpdates == db.lastUpdates + [Marker(db.markerSeq + 1, Stamp(clock.todayLocal, clock.timeLocal))]
      && db'.habits == SetCompleted(db.habits, id, false)
      && db'.completionLog == db.completionLog && db'.logSeq == db.logSeq
      && db'.streaks == db.streaks && db'.streakSeq == db.streakSeq
      && db'.habitSeq == db.habitSeq
  {
    var at := Stamp(clock.todayLocal, clock.timeLocal);
    LogInteractionReadBack(db, at);
    assert HabitIds(SetCompleted(db.habits, id, false)) == HabitIds(db.habits);
  }

  /** The event the handler inserts is one of the habit's rows, so the
      latest date it then reads is never before today. */
  lemma LatestAfterInsert(db: Db, id: int, clock: Clock)
    ensures var log := InsertCompletion(db, id, clock).completionLog;
      LatestDate(log, id).Some? && !Before(LatestDate(log, id).value, clock.todayLocal)
  {
    var log := InsertCompletion(db, id, clock).completionLog;
    assert log[|log| - 1] in log;
  }

  /** Inserting today's completion row and running the streak step keep
      the AUTOINCREMENT ids valid. */
  lemma RecordCompletionValid(db: Db, id: int, clock: Clock)
    requires DbValid(db)
    ensures DbValid(StreakStep(InsertCompletion(db, id, clock), id, clock))
  {
    InsertCompletionValid(db, id, clock);
    StreakStepValid(InsertCompletion(db, id, clock), id, clock);
  }

  lemma InsertCompletionValid(db: Db, id: int, clock: Clock)
    requires DbValid(db)
    ensures DbValid(InsertCompletion(db, id, clock))
  {
    var inserted := InsertCompletion(db, id, clock);
    assert EventIds(inserted.completionLog) == EventIds(db.completionLog) + [db.logSeq + 1];
    AscendingAppend(EventIds(db.completionLog), db.logSeq);
  }

  /** The streak step writes only the streaks table and its counter, and
      keeps its ids valid. */
  lemma StreakStepValid(db: Db, id: int, clock: Clock)
    requires DbValid(db)
    ensures var db' := StreakStep(db, id, clock);
      && DbValid(db')
      && db'.habits == db.habits && db'.completionLog == db.completionLog
      && db'.lastUpdates == db.lastUpdates && db'.logSeq == db.logSeq
  {
    var today := clock.todayLocal;
    AscendingAppend(StreakIds(db.streaks), db.streakSeq);
    match LatestDate(db.completionLog, id)
    case None =>
      assert StreakIds(OpenStreak(db, id, today).streaks) == StreakIds(db.streaks) + [db.streakSeq + 1];
    case Some(d) =>
      if ParsedLocalDate(d, clock.westOfUtc) != today {
        RestartValid(db, id, d, today);
      }
  }

  /** Closing the streak whose id equals the habit id and opening one keeps
      the streak ids valid and changes no other table. */
  lemma RestartValid(db: Db, id: int, endDate: Date, today: Date)
    requires DbValid(db)
    ensures var db' := OpenStreak(db.(streaks := CloseStreak(db.streaks, id, endDate)), id, today);
      && DbValid(db')
      && db'.habits == db.habits && db'.completionLog == db.completionLog
      && db'.lastUpdates == db.lastUpdates && db'.logSeq == db.logSeq
  {
    var closed := db.(streaks := CloseStreak(db.streaks, id, endDate));
    AscendingAppend(StreakIds(db.streaks), db.streakSeq);
    assert StreakIds(closed.streaks) == StreakIds(db.streaks);
    assert StreakIds(OpenStreak(closed, id, today).streaks) == StreakIds(db.streaks) + [db.streakSeq + 1];
  }

  /** Toggling to true appends the marker, sets the flag, and appends one
      completion event for that id dated today (local) with status 1. */
  lemma CheckEffects(db: Db, id: int, clock: Clock)
    requires DbValid(db)
    ensures var db' := UpdateHabitCompletion(db, id, true, clock);
      && DbValid(db')
      && db'.lastUpdates == db.lastUpdates + [Marker(db.markerSeq + 1, Stamp(clock.todayLocal, clock.timeLocal))]
      && db'.habits == SetCompleted(db.habits, id, true)
      && db'.completionLog == db.completionLog +
           [CompletionEvent(db.logSeq + 1, id, clock.todayLocal, DayOfWeek(clock.todayLocal), clock.timeLocal, 1)]
  {
    var at := Stamp(clock.todayLocal, clock.timeLocal);
    var marked := InsertMarker(db, at);
    var updated := marked.(habits := SetCompleted(marked.habits, id, true));
    MarkAndFlagValid(db, at, id, true);
    var inserted := InsertCompletion(updated, id, clock);
    InsertCompletionValid(updated, id, clock);
    StreakStepValid(inserted, id, clock);
    CompletionBeforeStreakStep(db, id, clock);
  }

  /** The handler's first two statements, the marker and the flag, keep the
      ids valid. */
  lemma MarkAndFlagValid(db: Db, at: Stamp, id: int, completed: bool)
    requires DbValid(db)
    ensures var marked := InsertMarker(db, at);
      DbValid(marked.(habits := SetCompleted(marked.habits, id, completed)))
  {
    LogInteractionReadBack(db, at);
    assert HabitIds(SetCompleted(db.habits, id, completed)) == HabitIds(db.habits);
  }

  /** What completing a habit writes before the streak step: today's row
      at the end of the log, and no change to the streaks. */
  lemma CompletionBeforeStreakStep(db: Db, id: int, clock: Clock)
    ensures var marked := InsertMarker(db, Stamp(clock.todayLocal, clock.timeLocal));
      var inserted := InsertCompletion(marked.(habits := SetCompleted(marked.habits, id, true)), id, clock);
      && UpdateHabitCompletion(db, id, true, clock) == StreakStep(inserted, id, clock)
      && inserted.completionLog == db.completionLog + [CompletionRow(db, id, clock)]
      && inserted.streaks == db.streaks && inserted.streakSeq == db.streakSeq
  {
  }

  /** `new Date(d)` of a stored date is UTC midnight, and its local getters
      report today exactly when d is today (at or east of UTC) or tomorrow
      (west of UTC). */
  lemma ParsedAsTodayIff(d: Date, clock: Clock)
    ensures ParsedLocalDate(d, clock.westOfUtc) == clock.todayLocal <==>
      if clock.westOfUtc then DayNumber(d) == DayNumber(clock.todayLocal) + 1 else d == clock.todayLocal
  {
    PrevDayNumber(d);
    BeforeIffDayNumber(PrevDay(d), clock.todayLocal);
  }

  /** The streak step when the latest row's parsed date falls on today. */
  lemma StreakStepKeeps(db: Db, id: int, clock: Clock, d: Date)
    requires LatestDate(db.completionLog, id) == Some(d)
    requires ParsedLocalDate(d, clock.westOfUtc) == clock.todayLocal
    ensures StreakStep(db, id, clock) == db
  {
  }

  /** The streak step when it does not: the streak whose id is the habit id
      is closed at the latest date and one open streak is appended. */
  lemma StreakStepRestarts(db: Db, id: int, clock: Clock, d: Date)
    requires LatestDate(db.completionLog, id) == Some(d)
    requires ParsedLocalDate(d, clock.westOfUtc) != clock.todayLocal
    ensures StreakStep(db, id, clock).streaks
      == CloseStreak(db.streaks, id, d) + [Streak(db.streakSeq + 1, id, clock.todayLocal, None, Some(0))]
    ensures StreakStep(db, id, clock).streakSeq == db.streakSeq + 1
  {
  }

  /** When no earlier row of the habit is dated after today, the row just
      inserted, dated today, holds the latest date. */
  lemma InsertedRowIsLatest(log: seq<CompletionEvent>, row: CompletionEvent, id: int, today: Date)
    requires forall e :: e in log && e.habitId == id ==> !Before(today, e.date)
    requires row.habitId == id && row.date == today
    ensures LatestDate(log + [row], id) == Some(today)
  {
    LatestIsDate(log + [row], id, today, row);
  }

  /** When the habit has no row dated after today, the latest row the
      handler reads back is the one it has just inserted, dated today. At or
      east of UTC its parsed date falls on today and the streaks table is
      left as it was, so no first streak is ever opened. West of UTC it falls
      on yesterday, so every such completion closes the streak whose id
      equals the habit id at today's date and opens a new one. */
  lemma CheckWithNoLaterRow(db: Db, id: int, clock: Clock)
    requires forall e :: e in db.completionLog && e.habitId == id ==> !Before(clock.todayLocal, e.date)
    ensures var db' := UpdateHabitCompletion(db, id, true, clock);
      if clock.westOfUtc then
        && db'.streaks == CloseStreak(db.streaks, id, clock.todayLocal)
             + [Streak(db.streakSeq + 1, id, clock.todayLocal, None, Some(0))]
        && db'.streakSeq == db.streakSeq + 1
      else
        db'.streaks == db.streaks && db'.streakSeq == db.streakSeq
  {
    CompletionBeforeStreakStep(db, id, clock);
    var marked := InsertMarker(db, Stamp(clock.todayLocal, clock.timeLocal));
    var inserted := InsertCompletion(marked.(habits := SetCompleted(marked.habits, id, true)), id, clock);
    StepWithNoLaterRow(db.completionLog, CompletionRow(db, id, clock), inserted, id, clock);
  }

  /** The streak step on a log that gained one row of the habit dated today,
      when no earlier row of it was dated later. */
  lemma StepWithNoLaterRow(log: seq<CompletionEvent>, row: CompletionEvent, inserted: Db, id: int, clock: Clock)
    requires forall e :: e in log && e.habitId == id ==> !Before(clock.todayLocal, e.date)
    requires inserted.completionLog == log + [row] && row.habitId == id && row.date == clock.todayLocal
    ensures var db' := StreakStep(inserted, id, clock);
      if clock.westOfUtc then
        && db'.streaks == CloseStreak(inserted.streaks, id, clock.todayLocal)
             + [Streak(inserted.streakSeq + 1, id, clock.todayLocal, None, Some(0))]
        && db'.streakSeq == inserted.streakSeq + 1
      else
        db'.streaks == inserted.streaks && db'.streakSeq == inserted.streakSeq
  {
    InsertedRowIsLatest(log, row, id, clock.todayLocal);
    if clock.westOfUtc {
      StreakStepRestarts(inserted, id, clock, clock.todayLocal);
    } else {
      StreakStepKeeps(inserted, id, clock, clock.todayLocal);
    }
  }

  /** The streaks after the handler read back a latest date d after today:
      unchanged when d is tomorrow west of UTC (its UTC midnight is this
      evening locally); otherwise the streak whose id is the habit id closed
      at d and one streak opened today with a NULL end date and length 0. */
  predicate StreaksAfterLaterDate(after: seq<Streak>, before: seq<Streak>, top: nat, id: int, clock: Clock, d: Date) {
    if clock.westOfUtc && PrevDay(d) == clock.todayLocal then after == before
    else after == CloseStreak(before, id, d) + [Streak(top + 1, id, clock.todayLocal, None, Some(0))]
  }

  /** When the habit already has a row dated after today, the handler reads
      that later date back. At or east of UTC it never falls on today, so the
      streak whose id equals the habit id (whichever habit it belongs to) is
      closed at that date and one streak is opened today with a NULL end
      date and length 0. West of UTC the same happens unless the later date
      is tomorrow, whose UTC midnight is this evening locally; then the
      streaks are left as they were. */
  lemma CheckWithLaterRow(db: Db, id: int, clock: Clock)
    requires exists e :: e in db.completionLog && e.habitId == id && Before(clock.todayLocal, e.date)
    ensures var d := LatestDate(db.completionLog, id);
      && d.Some? && Before(clock.todayLocal, d.value)
      && StreaksAfterLaterDate(UpdateHabitCompletion(db, id, true, clock).streaks, db.streaks, db.streakSeq,
                               id, clock, d.value)
  {
    CompletionBeforeStreakStep(db, id, clock);
    var marked := InsertMarker(db, Stamp(clock.todayLocal, clock.timeLocal));
    var inserted := InsertCompletion(marked.(habits := SetCompleted(marked.habits, id, true)), id, clock);
    var later :| later in db.completionLog && later.habitId == id && Before(clock.todayLocal, later.date);
    StepAfterLaterRow(db.completionLog, db.streaks, db.streakSeq, CompletionRow(db, id, clock), inserted, id, clock, later,
                      UpdateHabitCompletion(db, id, true, clock).streaks);
  }

  /** The streak step on a log that gained one row dated today, when the
      habit already had a later row. */
  lemma StepAfterLaterRow(log: seq<CompletionEvent>, streaks: seq<Streak>, streakSeq: nat, row: CompletionEvent,
                          inserted: Db, id: int, clock: Clock, later: CompletionEvent, after: seq<Streak>)
    requires later in log && later.habitId == id && Before(clock.todayLocal, later.date)
    requires inserted.completionLog == log + [row] && row.date == clock.todayLocal
    requires inserted.streaks == streaks && inserted.streakSeq == streakSeq
    requires after == StreakStep(inserted, id, clock).streaks
    ensures var d := LatestDate(log, id);
      && d.Some? && Before(clock.todayLocal, d.value)
      && StreaksAfterLaterDate(after, streaks, streakSeq, id, clock, d.value)
  {
    LaterRowStaysLatest(log, row, id, clock.todayLocal, later);
    StepOnLaterDate(inserted, id, clock, LatestDate(log, id).value);
  }

  /** The streak step when the latest date is after today: the streaks are
      kept only west of UTC when that date is tomorrow. */
  lemma StepOnLaterDate(db: Db, id: int, clock: Clock, d: Date)
    requires LatestDate(db.completionLog, id) == Some(d) && Before(clock.todayLocal, d)
    ensures StreaksAfterLaterDate(StreakStep(db, id, clock).streaks, db.streaks, db.streakSeq, id, clock, d)
  {
    if ParsedLocalDate(d, clock.westOfUtc) == clock.todayLocal {
      StreakStepKeeps(db, id, clock, d);
    } else {
      StreakStepRestarts(db, id, clock, d);
    }
  }

  /** Appending a row dated today does not change the latest date of a habit
      that already has a row dated after today. */
  lemma LaterRowStaysLatest(log: seq<CompletionEvent>, row: CompletionEvent, id: int, today: Date, later: CompletionEvent)
    requires later in log && later.habitId == id && Before(today, later.date)
    requires row.date == today
    ensures LatestDate(log, id).Some? && Before(today, LatestDate(log, id).value)
    ensures LatestDate(log + [row], id) == LatestDate(log, id)
  {
    var d := LatestDate(log, id).value;
    assert !Before(d, later.date);
    assert Before(today, d);
    assert log == (log + [row])[..|log|];
  }

  /** Closing a streak that is still open (end_date NULL) leaves its length
      NULL: SQLite computes the length from the end date before the update. */
  lemma ClosingOpenStreakKeepsNullLength(ss: seq<Streak>, streakId: int, endDate: Date, i: int)
    requires 0 <= i < |ss| && ss[i].id == streakId && ss[i].endDate.None?
    ensures CloseStreak(ss, streakId, endDate)[i].endDate == Some(endDate)
    ensures CloseStreak(ss, streakId, endDate)[i].length.None?
  {
  }

  // ---------------------------------------------------------------------
  // The UTC date on missed events

  /** West of UTC the evening's UTC date is already tomorrow. When start-up
      rolls over at such a time, the missed event of a habit that was not
      completed is dated tomorrow. Completing that habit the same evening
      reads it back as the latest row; its UTC midnight is this evening
      locally, so the streak continues and no streak row is written. */
  lemma UtcDatedMissedEventKeepsStreak(db: Db, clock: Clock, id: nat, db1: Db)
    requires DbValid(db)
    requires ClockCoherent(clock) && Before(clock.todayLocal, clock.todayUtc)
    requires RolloverDue(db.lastUpdates, clock.todayLocal)
    requires exists h :: h in db.habits && h.id == id && !h.completed
    requires forall e :: e in db.completionLog && e.habitId == id ==> !Before(clock.todayUtc, e.date)
    requires db1 == Startup(db, clock)
    ensures clock.westOfUtc && PrevDay(clock.todayUtc) == clock.todayLocal
    ensures LatestDate(db1.completionLog, id) == Some(clock.todayUtc)
    ensures UpdateHabitCompletion(db1, id, true, clock).streaks == db1.streaks
  {
    var h :| h in db.habits && h.id == id && !h.completed;
    StartupRollsOver(db, clock);
    MissedRowIsLatest(db, clock, h, db1.completionLog);
    CheckWithLaterRow(db1, id, clock);
  }

  /** A start-up that finds the rollover due leaves the log with the missed
      events appended. */
  lemma StartupRollsOver(db: Db, clock: Clock)
    requires RolloverDue(db.lastUpdates, clock.todayLocal)
    ensures Startup(db, clock).completionLog ==
      db.completionLog + MissedEvents(db.habits, clock.todayUtc, DayOfWeek(clock.todayLocal), db.logSeq + 1)
  {
    assert CheckLastUpdate(db, clock) == Rollover(db, clock);
  }

  /** After the INSERT ... SELECT the habit's missed event, dated with the
      UTC date, holds its latest date when no older row of it was dated
      later. */
  lemma MissedRowIsLatest(db: Db, clock: Clock, h: Habit, log: seq<CompletionEvent>)
    requires h in db.habits && !h.completed
    requires forall e :: e in db.completionLog && e.habitId == h.id ==> !Before(clock.todayUtc, e.date)
    requires log ==
      db.completionLog + MissedEvents(db.habits, clock.todayUtc, DayOfWeek(clock.todayLocal), db.logSeq + 1)
    ensures LatestDate(log, h.id) == Some(clock.todayUtc)
  {
    var date, dow := clock.todayUtc, DayOfWeek(clock.todayLocal);
    var missed := MissedEvents(db.habits, date, dow, db.logSeq + 1);
    MissedEventsShape(db.habits, date, dow, db.logSeq + 1);
    var u := Uncompleted(db.habits);
    var i :| 0 <= i < |u| && u[i] == h;
    assert missed[i] in log;
    forall e | e in log && e.habitId == h.id ensures !Before(date, e.date) {
      if e !in db.completionLog {
        var j :| 0 <= j < |missed| && missed[j] == e;
      }
    }
    LatestIsDate(log, h.id, date, missed[i]);
  }

  /** A habit with a row on the given date and no row dated later has that
      date as its latest date. */
  lemma LatestIsDate(log: seq<CompletionEvent>, id: int, date: Date, row: CompletionEvent)
    requires row in log && row.habitId == id && row.date == date
    requires forall e :: e in log && e.habitId == id ==> !Before(date, e.date)
    ensures LatestDate(log, id) == Some(date)
  {
    var d := LatestDate(log, id).value;
    var e :| e in log && e.habitId == id && e.date == d;
    assert !Before(d, date);
  }
}
