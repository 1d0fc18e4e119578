# Habit tracker store: a Dafny model

This project models the storage core of a single-user desktop habit tracker
(an Electron app with a SQLite file). The core is the database code in
`main.js`. It covers four tables: `habits`, `completion_log`, `streaks` and
`last_updates`. These operations change them:

- `createHabit` and `getHabits`;
- `logInteraction`, which records that the app was alive;
- the start-up rollover check `checkLastUpdate`. When the last interaction
  was on an earlier day and its time text sorts before `'23:59:59'`, it calls
  `logUnfinishedHabitsAppNotRunning`. That writes
  a "missed" event for every habit not completed and resets every habit's
  `completed` flag;
- the `update-habit-completion` handler. It records the interaction and sets
  the flag. When the habit is completed, it also logs a completion and
  updates the streak ledger.

Also modelled: the `padStart` builders for date and time stamps, JavaScript's
`<` on strings, and the delay that `scheduleDailyUpdate` waits until the next
midnight.

Files:

- `calendar.dfy` (module `Calendar`): dates as `(year, month, day)` triples
  of a real calendar, and times of day as seconds. It also has day numbers,
  which is what `julianday` differences and local-midnight timestamps
  compare, the weekday, and the delay to midnight.
- `stamps.dfy` (module `Stamps`): `Number.toString` and `padStart`, the local
  date and time builders, `toISOString`'s date part, and string order. It
  proves that time stamps have the form `HH:MM:SS`, parse back to what they
  print, and sort in chronological order. It proves the same for date stamps
  (`YYYY-MM-DD`) of four-digit years; the year is joined unpadded, so other
  years print in other forms.
- `tables.dfy` (module `Tables`): one datatype per row and the whole database
  `Db`, including the AUTOINCREMENT counters. Every store operation is a
  function from the old database to the new one, written statement by
  statement as in the source.
- `lemmas.dfy` (module `StoreLemmas`): what those operations guarantee.
- `store.dfy` (module `MainProcess`): the database handle as a class `Store`.
  Its methods change the tables in place in source order. Each method is
  proved to produce exactly the state its `Tables` function describes.

The clock is an input. Each operation receives a `Clock` with today's UTC
date (`toISOString`), today's local date, the local time, and whether the
local zone is west of UTC (a negative offset). The UTC and local dates are
kept apart because the source mixes them: habits' `creation_date` and the
missed events use the UTC date, while completions and interaction markers use
the local one. The side of UTC matters when a stored `YYYY-MM-DD` text is read
back with `new Date(row.date)`: JavaScript parses it as UTC midnight, and
west of UTC that instant still falls on the previous local day
(`Tables.ParsedLocalDate`).

Where the code's own comments say one thing and the statements do another,
the model follows the statements:

- The comment at main.js:192 says "Get the date for the previous day", but
  `setDate(getDate())` does not step back, so missed events carry today's
  UTC date.
- The handler reads the latest completion after inserting today's row
  (main.js:278, 284), so the "no previous completion logs" branch
  (main.js:313-321) never runs; at or east of UTC a habit gets no streak at
  all unless it already has a row dated after today. What the
  "not today" branch (main.js:295-312) does depends on the side of UTC,
  because the row's date is parsed as UTC midnight. At or east of UTC it runs
  only when the habit already has a row dated after today. West of UTC it
  runs on every completion, closing a streak and opening a new one, unless
  the latest row is dated tomorrow (lemmas `CheckWithNoLaterRow` and
  `CheckWithLaterRow`). A row dated tomorrow arises west of UTC from a missed
  event written in the evening, when the UTC date is already the next day;
  completing that habit afterwards leaves the streaks as they are
  (`UtcDatedMissedEventKeepsStreak`).
- The comment at main.js:296 says "the streak ends", but
  `UPDATE streaks ... WHERE id = ?` is bound to the habit id (main.js:250,
  297), so it updates the streak whose id equals the habit id, whichever
  habit that streak belongs to. SQLite evaluates `length` from the old
  `end_date`, so closing an open streak leaves `length` NULL
  (`ClosingOpenStreakKeepsNullLength`).

## Model

| member | source | states |
|---|---|---|
| Calendar.BeforeIffDayNumber | main.js:169-172 | Comparing the timestamps of two local midnights (day numbers) is calendar order, in both directions; equal day numbers mean equal dates |
| Calendar.DayNumber | main.js:169-172 | Definition: days since 1970-01-01 in the proleptic Gregorian calendar, which local-midnight timestamps and `julianday` differences count |
| Calendar.DayOfWeek | main.js:246 | `getDay()`: a weekday below 7, counted from Thursday 1970-01-01; also the missed events' weekday (line 194) |
| Calendar.PrevDay | main.js:288-292 | The calendar day before a date, across month and year ends; it is strictly earlier |
| Calendar.PrevDayNumber | main.js:288-292 | The day before has a day number exactly one less |
| Calendar.MsUntilMidnight | main.js:335-336 | The wait until the next midnight is positive, at most one day, and ends exactly on a midnight |
| Stamps.NatToString | main.js:139-145 | `toString` of a number is a non-empty digit string, with no leading zero unless the number is 0, that reads back as the number |
| Stamps.PadStart | main.js:268-269 | `padStart` yields the longer of the two lengths, ends with the input and is filled with the fill character in front |
| Stamps.Pad2Digits | main.js:272-276 | A field below 100 is printed as exactly two digits that read back as the field |
| Stamps.IntToString | main.js:138 | Definition: the text `join` gives `getFullYear()` (also at line 267): the digits of the number, with a '-' in front when it is negative |
| Stamps.Pad2 | main.js:139-145 | Definition: `toString().padStart(2, '0')` of a date or time field (also at lines 268-275) |
| Stamps.LocalDateText | main.js:266-270 | Definition: year, two-digit month and two-digit day joined by '-' |
| Stamps.TimeText | main.js:272-276 | Definition: two-digit hours, minutes and seconds joined by ':' |
| Stamps.StampText | main.js:137-146 | Definition: the local date and time stamps joined by a space |
| Stamps.IsoDateText | main.js:201 | Definition: `toISOString`'s date part, with a four-digit year or a signed six-digit one |
| Stamps.LexLess | main.js:175 | Definition: JavaScript's `<` on strings, character code by character code, a proper prefix being smaller |
| Stamps.TimeTextRoundTrip | main.js:142-146 | A time stamp has the form HH:MM:SS and parses back to the time it prints |
| Stamps.DateTextRoundTrip | main.js:137-141 | For a four-digit year a date stamp has the form YYYY-MM-DD and parses back to the date it prints |
| Stamps.TimeTextOrder | main.js:174-175 | For time stamps, string `<` holds exactly when the first time is earlier |
| Stamps.EndOfDayText | main.js:198 | The end-of-day time 86399 prints as '23:59:59' |
| Stamps.DateTextOrder | main.js:249 | For four-digit years, the text order of date stamps, which `ORDER BY date` compares, is calendar order |
| Stamps.StampTextRoundTrip | main.js:137-146 | For a four-digit year an interaction stamp has the form `YYYY-MM-DD HH:MM:SS`, and its two halves parse back to the date and the time it prints |
| Stamps.IsoMatchesLocal | main.js:201 | For four-digit years the `toISOString` date part and the local builder print a date the same way |
| Tables.ClockCoherent | main.js:201 | The UTC and local dates are equal or one day apart, the UTC date ahead west of UTC and behind east of it |
| Tables.AscendingIds | main.js:60 | Definition: AUTOINCREMENT ids in rowid order are positive, strictly ascending, and at most the table's counter |
| Tables.DbValid | main.js:58-96 | Definition: all four tables keep the AUTOINCREMENT id discipline of their `id INTEGER PRIMARY KEY AUTOINCREMENT` columns |
| Tables.InsertHabit | main.js:120-122 | Definition: appends a habit with the next AUTOINCREMENT id, the given name and description, today's UTC date and the flag clear |
| Tables.InsertMarker | main.js:147-148 | Definition: appends a marker with the next id and the given stamp |
| Tables.MissedEvents | main.js:196-198 | Definition: one event per uncompleted habit in rowid order, with consecutive ids, the given date and weekday, 23:59:59 and status 0 |
| Tables.ResetCompleted | main.js:210 | Definition: every habit's flag cleared, nothing else changed |
| Tables.Rollover | main.js:190-217 | Definition: append the missed events dated with the UTC date and the local weekday, then reset every flag |
| Tables.RolloverDue | main.js:166-175 | Definition: a newest marker exists, its day number is before today's, and its time text is below '23:59:59' |
| Tables.CheckLastUpdate | main.js:159-188 | Definition: the rollover when it is due, otherwise no change |
| Tables.Startup | main.js:32-35 | Definition: the rollover check, then one marker stamped with the local date and time |
| Tables.SetCompleted | main.js:247 | Definition: sets the flag of every habit whose id equals the given id |
| Tables.LengthBeforeClose | main.js:250 | Definition: `julianday(end_date) - julianday(start_date)` read from the old end date, NULL when it is NULL |
| Tables.CloseStreak | main.js:250 | Definition: every streak whose id equals the given id gets the new end date and the length computed from its old end date |
| Tables.OpenStreak | main.js:251 | Definition: appends a streak with the next id, the habit id, the start date, a NULL end date and length 0 |
| Tables.CompletionRow | main.js:278 | Definition: the inserted row, with the next id, today's local date and weekday, the local time and status 1 |
| Tables.InsertCompletion | main.js:278 | Definition: appends a completion row with the next id, today's local date and weekday, the local time and status 1 |
| Tables.ParsedLocalDate | main.js:288-292 | Definition: the local date of `new Date('YYYY-MM-DD')`, the previous day west of UTC and the same day otherwise |
| Tables.StreakStep | main.js:284-322 | Definition: no latest row opens a streak; a latest date that reads as today changes nothing; otherwise the streak whose id equals the habit id is closed at the stored date and one is opened today |
| Tables.UpdateHabitCompletion | main.js:242-329 | Definition: marker, flag update, then, when completing, the completion row and the streak step |
| Tables.IsLatestRow | main.js:249 | Definition: the rows `ORDER BY date DESC LIMIT 1` may return: a row of the habit that no row of the habit is dated after |
| Tables.LastInteraction | main.js:160 | Reading the newest marker returns nothing exactly when there are no markers; otherwise it returns a stored row whose id no other row exceeds |
| Tables.LatestDate | main.js:249 | The latest-date lookup is empty exactly when the habit has no log row; otherwise it is the date of one of its rows and no row of the habit is dated later |
| StoreLemmas.Uncompleted | main.js:198 | `WHERE completed = 0` selects exactly the habits whose flag is clear |
| StoreLemmas.LatestMarkerIsLast | main.js:160 | With AUTOINCREMENT ids, `ORDER BY id DESC LIMIT 1` reads the marker appended last |
| StoreLemmas.CreateHabitAppends | main.js:119-125 | createHabit appends exactly one habit: the given name and description, created today, not completed, with an id no other row has; other tables and the other tables' counters unchanged; ids stay valid |
| StoreLemmas.LogInteractionReadBack | main.js:135-157 | logInteraction appends exactly one marker and changes no other table; the next read of the newest marker returns it |
| StoreLemmas.RolloverDueIff | main.js:166-182 | The rollover runs exactly when a marker exists, the newest one's day is before today, and its time is before 23:59:59 |
| StoreLemmas.NoRolloverCases | main.js:166-186 | With no marker, a marker dated today or later, or a marker at exactly 23:59:59, checkLastUpdate changes nothing |
| StoreLemmas.MissedEventsShape | main.js:196-201 | INSERT ... SELECT writes one event per uncompleted habit in rowid order: consecutive ids, that habit's id, the given date and weekday, 23:59:59, status 0 |
| StoreLemmas.MissedSkipsCompleted | main.js:196-198 | No missed event carries the id of a completed habit |
| StoreLemmas.RolloverEffects | main.js:190-217 | The rollover appends exactly those missed events, dated with today's UTC date. The same habits remain, all with the flag cleared; streaks, markers and their counters are untouched; the log counter advances by the number of events; ids stay valid |
| StoreLemmas.SecondStartupQuiet | main.js:32-35 | After start-up, a second check with any clock on the same local day changes nothing, so the backfill runs at most once per gap |
| StoreLemmas.SetCompletedEffects | main.js:247 | The flag update changes only rows with the given id; an id that matches no habit changes no row |
| StoreLemmas.UncheckEffects | main.js:242-265 | Toggling to false appends the marker and sets that habit's flag; it writes no completion event and no streak row, and no counter but the marker counter moves |
| StoreLemmas.LatestAfterInsert | main.js:278-290 | Once today's row is inserted, the latest date read back exists and is not before today |
| StoreLemmas.RestartValid | main.js:297-309 | Closing the streak whose id equals the habit id and opening one keeps every table's ids valid and changes no table besides the streaks |
| StoreLemmas.RecordCompletionValid | main.js:278-321 | Logging a completion and updating the streaks keep every table's AUTOINCREMENT ids valid |
| StoreLemmas.CheckEffects | main.js:242-282 | Toggling to true appends the marker, sets the flag, and appends one completion event for that id, dated today (local), at the local time, with status 1 |
| StoreLemmas.ParsedAsTodayIff | main.js:288-292 | The parsed latest date reads as today exactly when it is today (at or east of UTC) or exactly one day after today (west of UTC) |
| StoreLemmas.CheckWithNoLaterRow | main.js:284-312 | If the habit has no log row dated after today, completing it leaves the streaks table and its counter unchanged at or east of UTC; west of UTC the streak whose id equals the habit id is closed today and exactly one streak is appended (start today, end NULL, length 0) under the next id |
| StoreLemmas.CheckWithLaterRow | main.js:284-312 | If the habit has a row dated after today, the latest date read back is after today. The streaks are unchanged when it is tomorrow and the zone is west of UTC; otherwise the streak whose id equals the habit id is closed at that date and exactly one streak is appended (start today, end NULL, length 0) under the next id |
| StoreLemmas.LaterRowStaysLatest | main.js:284-288 | Appending a row dated today does not change the latest date of a habit that already has a later row |
| StoreLemmas.ClosingOpenStreakKeepsNullLength | main.js:250 | Closing a streak whose end_date is NULL sets the end date but leaves length NULL |
| StoreLemmas.UtcDatedMissedEventKeepsStreak | main.js:192-201 | When the UTC date is ahead of the local date at a start-up rollover, the zone is west of UTC. An uncompleted habit with no row dated after the UTC date then has its latest row dated with the UTC date (tomorrow), and completing it that evening leaves the streaks unchanged |
| StoreLemmas.UncompletedCounts | main.js:198 | `WHERE completed = 0` keeps every uncompleted row as often as it occurs and drops every completed one |
| MainProcess.Store.constructor | main.js:58-96 | The database starts with four empty tables and zero counters |
| MainProcess.Store.CreateHabit | main.js:119-125 | The habits table gains the new row; the returned id is the next AUTOINCREMENT id, which no earlier habit has |
| MainProcess.Store.GetHabits | main.js:129-133 | Returns every habit row in rowid order (ascending ids) and changes nothing |
| MainProcess.Store.LogInteraction | main.js:135-157 | last_updates gains one row with the local date and time; nothing else changes |
| MainProcess.Store.LogUnfinishedHabitsAppNotRunning | main.js:190-217 | The store becomes the rollover state: the missed events are appended, then the flags are reset |
| MainProcess.Store.CheckLastUpdate | main.js:159-188 | Performs the rollover exactly when it is due. The callback value is the newest marker when there is one, and nothing otherwise |
| MainProcess.Store.Startup | main.js:32-35 | Start-up is the rollover check followed by logging an interaction |
| MainProcess.Store.GetLastCompletion | main.js:284 | Returns nothing exactly when the habit has no log row; otherwise any one of its rows with the latest date |
| MainProcess.Store.UpdateHabitCompletion | main.js:242-329 | The handler's whole effect on the store, step by step in source order |
| MainProcess.Store.LogCompletion | main.js:278 | completion_log gains one row for the habit: today's local date and weekday, the local time, status 1; nothing else changes, and the ids stay valid |
| MainProcess.Store.RestartStreak | main.js:297-309 | The streak whose id equals the habit id is closed at the given date, with its length taken from the old end date, and one streak opened today is appended under the next id; the ids stay valid |
| MainProcess.Store.RecordCompletion | main.js:264-326 | Inserts the completion row, reads the latest row, then either leaves the streaks (when its parsed date reads as today in the local zone) or closes and opens one. The no-row branch is proved unreachable |

## Left out

- The Electron app and window lifecycle and the IPC reply plumbing (`event.reply`, `ipcMain.on`) are framework wiring; only the handlers' effects on the store are modelled.
- Table creation is I/O. It only shapes the row datatypes. SQLite does not enforce `FOREIGN KEY` by default, so the model stores completion rows for any habit id the caller sends.
- Database I/O errors and their console-only callbacks are left out. Every statement is modelled as succeeding.
- The `setTimeout` timers of `scheduleDailyUpdate` and `refreshAtMidnight` are wall-clock callbacks and are left out. They call `updateDailyHabits`, which exists only as commented-out code, so only the delay arithmetic is modelled.
- Calendar.MsUntilMidnight: assumes a fixed 24-hour day, because daylight-saving changes are not modelled.
- Timezones and locale are abstracted into the supplied clock. `toLocaleTimeString` is assumed to produce a 24-hour `HH:MM:SS`. `new Date(row.last_interaction)` is assumed to give back the stored local date and time.
- Tables.StreakStep: the zone is reduced to the side of UTC it lies on. Not modelled: a daylight-saving change that moves the offset across zero between the stored date and today, and offsets of a whole day or more.
- Each operation reads one clock value. The source calls `new Date()` several times within an operation, and these calls could straddle a second or a midnight.
- node-sqlite3's asynchrony is not modelled. Statements are executed one after the other in source order.
- Dates and times are stored as values rather than text. The text forms are functions with form, round-trip and order lemmas. `ORDER BY date` is modelled as calendar order, which equals the text order only for four-digit years.
- `renderer.js` is DOM building, event listeners and the clock display, with no store logic.
