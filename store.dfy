// The database handle of main.js as an object: four tables and their
// AUTOINCREMENT counters, updated in place by the store operations and the
// update-habit-completion handler, one SQL statement at a time in source
// order. Each method is proved to leave the store in exactly the state the
// matching function of module Tables describes.

module MainProcess {
  import opened Calendar
  import opened Stamps
  import opened Tables
  import opened StoreLemmas

  class Store {
    var habits: seq<Habit>
    var completionLog: seq<CompletionEvent>
    var streaks: seq<Streak>
    var lastUpdates: seq<Marker>
    var habitSeq: nat
    var logSeq: nat
    var streakSeq: nat
    var markerSeq: nat

    /** The contents of the database. */
    ghost function State(): Db
      reads this
    {
      Db(habits, completionLog, streaks, lastUpdates, habitSeq, logSeq, streakSeq, markerSeq)
    }

    ghost predicate Valid()
      reads this
    {
      DbValid(State())
    }

    /** The freshly created tables of initializeDatabase. */
    constructor ()
      ensures Valid() && State() == EmptyDb
    {
      habits, completionLog, streaks, lastUpdates := [], [], [], [];
      habitSeq, logSeq, streakSeq, markerSeq := 0, 0, 0, 0;
    }

    /** createHabit: the new habit's id is the statement's lastID. */
    method CreateHabit(name: string, description: string, todayUtc: Date) returns (habitId: nat)
      requires Valid()
      modifies this
      ensures Valid()
      ensures State() == InsertHabit(old(State()), name, description, todayUtc)
      ensures habitId == old(habitSeq) + 1
      ensures forall h :: h in old(habits) ==> h.id != habitId
    {
      CreateHabitAppends(State(), name, description, todayUtc);
      habitId := habitSeq + 1;
      habits := habits + [Habit(habitId, name, description, todayUtc, false)];
      habitSeq := habitId;
    }

    /** getHabits: SELECT * FROM habits, every row in rowid order. */
    method GetHabits() returns (rows: seq<Habit>)
      requires Valid()
      ensures rows == habits
      ensures forall i, j :: 0 <= i < j < |rows| ==> rows[i].id < rows[j].id
    {
      rows := habits;
      assert forall i :: 0 <= i < |rows| ==> HabitIds(habits)[i] == rows[i].id;
    }

    /** logInteraction: one last_updates row with the local date and time. */
    method LogInteraction(clock: Clock)
      requires Valid()
      modifies this
      ensures Valid()
      ensures State() == InsertMarker(old(State()), Stamp(clock.todayLocal, clock.timeLocal))
    {
      LogInteractionReadBack(State(), Stamp(clock.todayLocal, clock.timeLocal));
      markerSeq := markerSeq + 1;
      lastUpdates := lastUpdates + [Marker(markerSeq, Stamp(clock.todayLocal, clock.timeLocal))];
    }

    /** logUnfinishedHabitsAppNotRunning: the INSERT ... SELECT of missed
        events, then UPDATE habits SET completed = 0. */
    method LogUnfinishedHabitsAppNotRunning(clock: Clock)
      requires Valid()
      modifies this
      ensures Valid()
      ensures State() == Rollover(old(State()), clock)
    {
      RolloverValid(State(), clock);
      var dayOfWeek := DayOfWeek(clock.todayLocal);
      var missed := MissedEvents(habits, clock.todayUtc, dayOfWeek, logSeq + 1);
      completionLog := completionLog + missed;
      logSeq := logSeq + |missed|;
      habits := ResetCompleted(habits);
    }

    /** checkLastUpdate: reads the newest marker and, when its day is before
        today and its time before 23:59:59, logs the missed habits. Returns
        what the callback receives: the marker read, if there was one. */
    method CheckLastUpdate(clock: Clock) returns (last: Option<Stamp>)
      requires Valid()
      modifies this
      ensures Valid()
      ensures State() == Tables.CheckLastUpdate(old(State()), clock)
      ensures last.None? <==> old(lastUpdates) == []
      ensures last.Some? ==> last.value == old(lastUpdates)[|old(lastUpdates)| - 1].lastInteraction
    {
      var row := LastInteraction(lastUpdates);
      if row.Some? {
        LatestMarkerIsLast(lastUpdates, markerSeq);
        var at := row.value.lastInteraction;
        if DayNumber(at.date) < DayNumber(clock.todayLocal) {
          var lastInteractionTime := TimeText(at.time);
          if LexLess(lastInteractionTime, "23:59:59") {
            LogUnfinishedHabitsAppNotRunning(clock);
          }
        }
        last := Some(at);
      } else {
        last := None;
      }
    }

    /** Start-up: checkLastUpdate, then logInteraction. */
    method Startup(clock: Clock)
      requires Valid()
      modifies this
      ensures Valid()
      ensures State() == Tables.Startup(old(State()), clock)
    {
      var _ := CheckLastUpdate(clock);
      LogInteraction(clock);
    }

    /** SELECT * FROM completion_log WHERE habit_id = ? ORDER BY date DESC
        LIMIT 1: any one of the habit's rows with the latest date. */
    method GetLastCompletion(habitId: int) returns (row: Option<CompletionEvent>)
      ensures row.None? <==> forall e :: e in completionLog ==> e.habitId != habitId
      ensures row.Some? ==> IsLatestRow(completionLog, habitId, row.value)
      ensures row.Some? ==> LatestDate(completionLog, habitId) == Some(row.value.date)
    {
      var latest := LatestDate(completionLog, habitId);
      if latest.Some? {
        var r :| r in completionLog && r.habitId == habitId && r.date == latest.value;
        row := Some(r);
      } else {
        row := None;
      }
    }

    /** The update-habit-completion handler: marker, then flag, then (when
        completing) the completion row and the streak update. */
    method UpdateHabitCompletion(id: int, completed: bool, clock: Clock)
      requires Valid()
      modifies this
      ensures Valid()
      ensures State() == Tables.UpdateHabitCompletion(old(State()), id, completed, clock)
    {
      LogInteraction(clock);
      habits := SetCompleted(habits, id, completed);
      assert HabitIds(habits) == HabitIds(old(habits));
      if completed {
        RecordCompletion(id, clock);
      }
    }

    /** INSERT INTO completion_log for a completion: today's local date and
        weekday, the local time and status 1. */
    method LogCompletion(id: int, clock: Clock)
      requires Valid()
      modifies this
      ensures Valid()
      ensures State() == InsertCompletion(old(State()), id, clock)
    {
      InsertCompletionValid(State(), id, clock);
      var dayOfWeek := DayOfWeek(clock.todayLocal);
      var completionStatus := 1;
      logSeq := logSeq + 1;
      completionLog := completionLog + [CompletionEvent(logSeq, id, clock.todayLocal, dayOfWeek, clock.timeLocal, completionStatus)];
    }

    /** UPDATE streaks SET end_date = ?, length = ... WHERE id = ? with the
        habit id, then INSERT INTO streaks a streak opened today. */
    method RestartStreak(id: int, endDate: Date, today: Date)
      requires Valid()
      modifies this
      ensures Valid()
      ensures State() == OpenStreak(old(State()).(streaks := CloseStreak(old(streaks), id, endDate)), id, today)
    {
      RestartValid(State(), id, endDate, today);
      streaks := CloseStreak(streaks, id, endDate);
      streakSeq := streakSeq + 1;
      streaks := streaks + [Streak(streakSeq, id, today, None, Some(0))];
    }

    /** The nested callbacks of the handler once the flag is written:
        INSERT INTO completion_log, SELECT the latest row, then either
        nothing (its parsed date falls on today) or UPDATE streaks ...
        WHERE id = habit id and INSERT INTO streaks. */
    method RecordCompletion(id: int, clock: Clock)
      requires Valid()
      modifies this
      ensures Valid()
      ensures State() == StreakStep(InsertCompletion(old(State()), id, clock), id, clock)
    {
      RecordCompletionValid(State(), id, clock);
      LatestAfterInsert(State(), id, clock);
      LogCompletion(id, clock);
      ghost var inserted := State();
      var row := GetLastCompletion(id);
      match row {
        case Some(r) =>
          var lastCompletionDate := ParsedLocalDate(r.date, clock.westOfUtc);
          if lastCompletionDate == clock.todayLocal {
            // the streak continues
          } else {
            RestartStreak(id, r.date, clock.todayLocal);
          }
        case None =>
          // The source opens a first streak here ("no previous completion
          // logs"), but the row inserted just above is always found.
          assert false;
      }
    }
  }
}
