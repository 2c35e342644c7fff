# July 2024 scheduler — a Dafny model of its scheduling core

This project models the core of a single-user console calendar for the month
of July 2024: clock times, events, the days that hold them, and the month
scheduler that places, cancels, shifts and lists events, together with the
pipe-delimited text the month is saved to and loaded from. The operations
are pure functions over immutable datatypes, plus one method,
`Ordering.SortEvents`, the bubble sort as a loop; each scheduler operation returns the
month as it stands when the operation ends together with the error that
stopped it, if any, because the C++ methods catch their own exceptions after
having mutated the month.

Modules, in dependency order:

- `Errors` — one constructor per error code the core throws (event errors
  1, 2, 3, 5, 6, 7; day errors 1, 3, 4, 5; time error 1), plus
  `MalformedText` for numeric text outside the modelled digit subset;
  `Option` and `Result`.
- `Text` — decimal digits, `to_string`, the well-formed subset of `stoi`,
  `std::getline` on a string stream, and splitting text into lines.
- `Times` — `Time`: construction, the strict smaller/larger comparisons,
  `HH:MM` formatting and parsing.
- `Events` — `Event`: construction, the half-open overlap test, the display
  line, and the `title|HH:MM|HH:MM|repeat` record with its decoder.
- `Ordering` — sorting a day's events by start time: `SortByStart`, a
  stable insertion sort used as the reference, and `SortEvents`, the
  bubble sort of `Day::sortEvents` as a loop, proved to compute it.
- `Days` — `Day`: add (day off, then overlap, then capacity), delete the
  first event with a title, shift to another day, clear, render, and the
  per-day save lines with their replay.
- `Scheduler` — the 31-day month: initialisation, the `currentDay` gate,
  daily and weekly repeat expansion, cancel, shift, day off, the week and day
  views and the "is repeating" query.
- `Storage` — the month's save text and the per-line load dispatch.

The invariant kept by every operation is `Scheduler.Valid`: 31 days, day *i*
has date *i* and weekday `names[(i-1) mod 7]` starting from Monday, and on
every day the events are at most 10, sorted by start, pairwise
non-overlapping, and absent when the day is off (`Days.Valid`).

Behaviours of the code worth knowing:

- An event whose end equals its start is accepted; only an end strictly
  before the start is rejected (`Events.MakeEvent`).
- A day holds at most ten events, and the capacity is checked after the
  overlap test, so a full day reports an overlap first (`Days.AddEvent`).
- `cancelEvent` with `deleteRepeats == false` removes every event with the
  title from `date` through the 31st, and with `deleteRepeats == true`
  removes only the first match on `date`: the reverse of its own comment
  (`Scheduler.CancelEvent`). Non-repeating events are cancelled with
  `false`, so they too are removed from every later day.
- Saving and loading a day is not a round trip for every day: an event
  titled `off` is read back as the day-off marker (`Days.ReplayOffTitledEvent`),
  and a title containing `|` or a line break, or a repeat type containing a
  line break, does not survive. The round-trip lemmas therefore require
  `Days.Replayable`.
- `Day::shiftEvent` checks only overlap before removing the event; when the
  target day is off or full the event is lost (`Days.ShiftLosesEventOnRefusedTarget`).
  The overlap test runs against the target's events before the removal, so
  shifting an event of positive length to its own day is always refused
  with event error 7 (`Days.SameDayShiftRefused`); an event of length zero
  succeeds and moves behind the other events with the same start
  (`Days.ShiftWithinDay`).
- Repeat expansion has no rollback: occurrences added before the first
  failing day stay (`Scheduler.ScheduleKeepsEarlierOccurrences`).
- The week view never lists day 31 (`Scheduler.WeekDatesAreTheBucket`).

## Model

| member | source | states |
|---|---|---|
| Times.MakeTime | Time.cpp:8-15 | Construction succeeds exactly when 0 ≤ hour < 24 and 0 ≤ minute < 60, keeping both fields; otherwise it fails with time error 1. |
| Times.LessIrreflexive | Time.cpp:17-19 | "Smaller" is strict: no time is smaller than itself. |
| Times.LessTransitive | Time.cpp:17-19 | "Smaller" is transitive. |
| Times.GreaterIsConverse | Time.cpp:17-23 | "Larger" is "smaller" with the arguments swapped; two times are equal or ordered one way, never both ways. |
| Times.LessIsMinuteOrder | Time.cpp:17-19 | On valid times, "smaller" is the numeric order of minutes since midnight. |
| Times.Less | Time.cpp:17-19 | Definition: hour first, then minute, strictly; characterised by `Times.LessIrreflexive`, `Times.LessTransitive` and `Times.LessIsMinuteOrder`. |
| Times.Greater | Time.cpp:21-23 | Definition: characterised by `Times.GreaterIsConverse` as `Less` with its arguments swapped. |
| Times.ToString | Time.cpp:25-27 | Definition: characterised by `Times.ToStringShape` and, as the inverse of parsing, by `Times.FromStringOfToString`. |
| Times.ToStringShape | Time.cpp:25-27 | A valid time prints as five characters: two digits denoting the hour, a colon, two digits denoting the minute. |
| Times.FromString | Time.cpp:29-36 | Parsing yields only valid times, and fails only with time error 1 or as malformed text. |
| Times.FromStringOfFields | Time.cpp:33-36 | `H:M` written in digits parses to the time exactly when hour < 24 and minute < 60, and otherwise fails with time error 1. |
| Times.FromStringOfToString | Time.cpp:25-36 | Parsing the printed form of a valid time gives the same time back. |
| Events.MakeEvent | Event.cpp:9-18 | Construction fails with event error 6 exactly when the end is strictly before the start; otherwise it keeps all four fields, so end == start is accepted. |
| Events.Overlaps | Event.cpp:20-22 | Definition: characterised by `Events.OverlapsSymmetric`, `Events.AdjacentEventsDoNotOverlap`, `Events.SelfOverlap` and `Events.OverlapsAsMinuteIntervals`. |
| Events.OverlapsSymmetric | Event.cpp:20-22 | The overlap test is symmetric. |
| Events.AdjacentEventsDoNotOverlap | Event.cpp:20-22 | An event that ends when another starts overlaps it in neither order. |
| Events.SelfOverlap | Event.cpp:20-22 | An event overlaps itself exactly when its start is before its end; two zero-length events at the same instant do not overlap. |
| Events.OverlapsAsMinuteIntervals | Event.cpp:20-22 | On valid times, two events overlap exactly when each starts, in minutes since midnight, before the other ends. |
| Events.Display | Event.cpp:24-26 | Definition: the event's line of the day view; `Days.RenderListsInOrder` places it, indented, once per event. |
| Events.Record | Event.cpp:28-30 | Definition: characterised by `Events.ExtractRecord`, which decodes it back to the event. |
| Events.ExtractEventData | Event.cpp:32-43 | A decoded event has valid times and the text before the first `|` as its title. |
| Events.ExtractOfFields | Event.cpp:32-39 | Four fields joined by `|`, the first three without `|` and the last without a line break, are split back into the same four fields. |
| Events.ExtractRecord | Event.cpp:28-43 | Decoding the record of an event with valid times, no `|` or line break in its title and no line break in its repeat type gives the event back. |
| Events.ExtractSkipsIntervalCheck | Event.cpp:32-43 | A record whose end is before its start still decodes, although construction rejects that event with event error 6. |
| Ordering.InsertAddsOne | Day.cpp:12-22 | Inserting yields the old multiset of events plus the new event: nothing is lost or duplicated. |
| Ordering.InsertKeepsSorted | Day.cpp:12-22 | Inserting into a start-sorted sequence keeps it sorted. |
| Ordering.SortByStart | Day.cpp:12-22 | The reference sort returns a start-sorted permutation of its input. |
| Ordering.SortOfSorted | Day.cpp:12-22 | Sorting an already sorted sequence changes nothing. |
| Ordering.SortIsStable | Day.cpp:12-22 | For every start time, the events starting then appear in the same relative order after sorting. |
| Ordering.SwapKeepsSort | Day.cpp:15-19 | Swapping an adjacent pair whose second event starts strictly earlier does not change the sort's result. |
| Ordering.SortAfterAppend | Day.cpp:44-45 | Appending an event to a sorted list and sorting equals inserting it after every event that does not start later. |
| Ordering.SortEvents | Day.cpp:12-22 | The bubble sort returns exactly the stable reference sort: a start-sorted permutation of its input. |
| Days.NewDay | Day.cpp:25-30 | Definition: a day with the given date and weekday, no events and not off; `Scheduler.InitializeDays` states it for every day of the month. |
| Days.AddEvent | Day.cpp:32-46 | Adding fails with day error 1 on a day off, else with event error 1 on an overlap, else with event error 2 at ten events, and succeeds exactly otherwise; on success the date, weekday and off flag are unchanged. |
| Days.AddEventContents | Day.cpp:42-45 | A successful add grows the events by one: the old multiset plus the new event, sorted by start. |
| Days.AddEventKeepsValid | Day.cpp:32-46 | A successful add into a valid day inserts the event in start order and the day stays valid. |
| Days.FirstWithTitle | Day.cpp:50-51 | Finds the first position holding the title, or the length when none does. |
| Days.DeleteEvent | Day.cpp:48-63 | Deleting fails with event error 3 exactly when no event has the title; otherwise it removes the first such event and keeps the others in order. |
| Days.DeleteEventKeepsValid | Day.cpp:48-63 | Deleting from a valid day leaves it valid. |
| Days.RemoveAtKeepsValid | Day.cpp:53-56 | Removing one event keeps a valid day valid and takes exactly that event out of the multiset. |
| Days.ShiftEvent | Day.cpp:65-86 | A shift fails with event error 3 exactly when the title is absent; when the title is present it fails with event error 7 exactly when the first event with the title overlaps an event of the target day; on event error 3 or 7 nothing changes; errors are 3, 7, day error 1 or event error 2; only the two days' events can change. |
| Days.ShiftOutcome | Day.cpp:65-86 | With the title present: event error 7 exactly when the event overlaps the target's events; day error 1 exactly when it does not and the target is off; event error 2 exactly when neither holds and the target, less the event itself when it is the same day, already holds ten events; success exactly when none of these holds. |
| Days.SameDayShiftRefused | Day.cpp:71-75 | Shifting an event whose start is before its end to its own day fails with event error 7 and changes nothing, because the event overlaps itself before it is removed. |
| Days.ShiftMovesEvent | Day.cpp:65-86 | A successful shift between two different days removes the first event with the title from the source and adds it to the target. |
| Days.ShiftWithinDay | Day.cpp:65-86 | A successful shift to the event's own day changes only that day's events, which keep their multiset and are sorted by start; on a valid day the event is removed and re-inserted after every event starting no later than it. |
| Days.ShiftLosesEventOnRefusedTarget | Day.cpp:71-79 | When the target is off or full and nothing overlaps, the shift fails after removing the event from the source, so the event is on neither day. |
| Days.ShiftKeepsValid | Day.cpp:65-86 | Every day stays valid across a shift, successful or not. |
| Days.ClearEvents | Day.cpp:88-90 | Definition: characterised by `Days.ReplayOffLine`, where it leaves the day off with no events, and by `Scheduler.SetDayOff`. |
| Days.Render | Day.cpp:92-109 | The day's text is empty exactly when it has no events and is not off. |
| Days.RenderListsInOrder | Day.cpp:103-105 | The day's text is its header followed by one line per event in stored order, each event's line at its place. |
| Days.EventRecordLinesAt | Day.cpp:120-122 | Event line k of a day's save lines is `date|record` of event k. |
| Days.RecordLinesContents | Day.cpp:116-125 | The save lines start with `date|off|` exactly when the day is off, followed by the event lines, one per event in stored order. |
| Days.FormatDayData | Day.cpp:116-125 | Definition: the save lines of `Days.RecordLinesContents`, each ended by a line break; `Days.ReplayFormatDayData` reads it back. |
| Days.EventRecordLineFields | Day.cpp:134-146 | On an event's save line, the date field reads back as the date, the second field is the title, and the text after the first `|` is the event's record. |
| Days.ReplayLine | Day.cpp:134-148 | A line whose date field is not a number fails as malformed text and changes nothing; otherwise the day takes the line's date, and the weekday is never changed. |
| Days.ReplayLinesKeepsValid | Day.cpp:127-150 | Replaying any lines into a valid day leaves it valid. |
| Days.ReplayOffLine | Day.cpp:136-142 | Replaying `date|off|` marks the day off and clears its events. |
| Days.ReplayEventLine | Day.cpp:143-148 | Replaying an event record line clears the day-off flag and adds the decoded event. |
| Days.ReplayOffTitledEvent | Day.cpp:136-142 | An event titled `off` is replayed as the day-off marker: the day is marked off and cleared instead of gaining the event. |
| Days.ExtractDayData | Day.cpp:127-150 | Definition: the line loop over the text's lines; characterised by `Days.ReplayLine`, `Days.ReplayLinesKeepsValid` and `Days.ReplayFormatDayData`. |
| Days.ReplayRecordLines | Day.cpp:116-150 | Replaying a replayable valid day's save lines into a fresh day with the same date and weekday rebuilds the day. |
| Days.ReplayFormatDayData | Day.cpp:116-150 | Reading back a replayable valid day's saved text into a fresh day rebuilds the day without error. |
| Scheduler.InitializeDays | Scheduler.cpp:25-31 | Day i gets date i and weekday `names[(i-1) mod 7]`, no events and is not off. |
| Scheduler.WeekdaysRepeatWeekly | Scheduler.cpp:26-30 | Day 1 is a Monday, and two days share a weekday name exactly when their dates are congruent modulo 7. |
| Scheduler.OccursDaily | Scheduler.cpp:124-130 | The daily loop visits exactly the dates from the chosen date through the 31st. |
| Scheduler.OccursWeekly | Scheduler.cpp:131-137 | The weekly loop visits exactly the dates from the chosen date through the 31st that are a multiple of 7 days after it. |
| Scheduler.Expand | Scheduler.cpp:124-137 | Expansion leaves unvisited days and days off untouched, changes only events, and fails only with event error 1 or 2. |
| Scheduler.ExpandAddsEverywhere | Scheduler.cpp:124-137 | A successful expansion has added the event on every visited day that is not off. |
| Scheduler.ExpandStopsAtFirstFailure | Scheduler.cpp:124-146 | A failed expansion stops at the first day whose add fails: earlier visited days keep the event, that day and all later days are untouched, and the error is that add's error. |
| Scheduler.AddOnceIsExpand | Scheduler.cpp:138-140 | Adding a non-repeating event is the expansion that visits only its date. |
| Scheduler.ScheduleEvent | Scheduler.cpp:96-147 | A date before the current day or after the 31st fails with day error 4 and changes nothing; declining the day-off prompt changes nothing; errors are day error 4 or event error 1 or 2. |
| Scheduler.ScheduleIsExpansion | Scheduler.cpp:102-140 | Past the gate and prompt, scheduling clears the date's off flag and expands with step 1 for `daily`, 7 for `weekly`, and only the date otherwise. |
| Scheduler.ScheduleTouchesOnlyVisitedDays | Scheduler.cpp:124-140 | Scheduling never changes a day the loop does not visit, a visited day that is off other than the date itself, or any day before the date. |
| Scheduler.ScheduleAddsEverywhere | Scheduler.cpp:121-140 | A successful schedule adds the event on every visited day that is not off. |
| Scheduler.ScheduleKeepsEarlierOccurrences | Scheduler.cpp:124-146 | A failed schedule keeps the occurrences added before the failing day: there is no rollback. |
| Scheduler.ScheduleOverride | Scheduler.cpp:102-119 | Accepting the prompt on a day off is the same as scheduling on the month with only that date's off flag cleared. |
| Scheduler.ClearOff | Scheduler.cpp:117-118 | Clearing the off flag changes only that flag of that date. |
| Scheduler.ScheduleKeepsValid | Scheduler.cpp:96-147 | Scheduling keeps the month valid. |
| Scheduler.Without | Scheduler.cpp:160-169 | Filtering by title leaves no event with the title and only events of the input. |
| Scheduler.WithoutRemoveFirst | Scheduler.cpp:160-169 | Removing the first match and then filtering equals filtering, so the inner delete loop computes the filter. |
| Scheduler.DeleteAll | Scheduler.cpp:159-169 | Deleting repeatedly until no match remains leaves the day with its events filtered by the title, other fields unchanged. |
| Scheduler.CancelEvent | Scheduler.cpp:150-181 | Outside the gate, day error 4 and no change; with `false`, never fails, clears the title from every day from the date through the 31st and leaves earlier days unchanged; with `true`, removes only the first match on the date, failing with event error 3 exactly when there is none. |
| Scheduler.CancelKeepsValid | Scheduler.cpp:150-181 | Cancelling keeps the month valid. |
| Scheduler.ShiftEvent | Scheduler.cpp:183-194 | Either date outside [currentDay, 31] fails with event error 5 and changes nothing; otherwise the days and error are those of `Days.ShiftEvent` on the month's days, so event error 3 exactly when the title is absent on the date and, when it is present, event error 7 exactly when its first event overlaps an event of the new date; no other day changes. |
| Scheduler.ShiftKeepsValid | Scheduler.cpp:183-194 | Shifting keeps the month valid. |
| Scheduler.SetDayOff | Scheduler.cpp:196-208 | Outside the gate, day error 4 and no change; otherwise the date is off with no events, keeps its date and weekday, and no other day changes. |
| Scheduler.SetDayOffKeepsValid | Scheduler.cpp:196-208 | Setting a day off keeps the month valid. |
| Scheduler.WeekDates | Scheduler.cpp:210-219 | A start day outside [1, 31] fails with day error 5; the listed dates lie in [1, 30]. |
| Scheduler.WeekDatesAreTheBucket | Scheduler.cpp:215-219 | The week view lists, in increasing order, exactly the dates from 1 to 30 with the start day's week number (date / 7); day 31 is never listed. |
| Scheduler.ListingSplit | Scheduler.cpp:219-224 | A listing is the text of each listed day in turn, each at its place. |
| Scheduler.ViewWeek | Scheduler.cpp:210-226 | The week view fails with day error 5 exactly when the start day is outside [1, 31]. |
| Scheduler.ViewWeekShowsDay | Scheduler.cpp:215-225 | The week view's text shows each listed day's text at its place in the list. |
| Scheduler.ViewWeekOfQuietWeek | Scheduler.cpp:219-225 | A week whose listed days have no events and are not off shows nothing. |
| Scheduler.ViewDay | Scheduler.cpp:228-233 | The day view fails with day error 3 exactly outside [1, 31], and prints only the indent and line break exactly when the day has no events and is not off. |
| Scheduler.MonthText | Scheduler.cpp:235-244 | Definition: the title line followed by the listing of every date; characterised by `Scheduler.ListingSplit` and `Scheduler.InitialMonthText`. |
| Scheduler.InitialMonthText | Scheduler.cpp:235-244 | A freshly initialised month shows only its title line. |
| Scheduler.IsEventRepeating | Scheduler.cpp:246-254 | True exactly when some event on the date has the title and a repeat type other than `none`. |
| Storage.SaveDays | Scheduler.cpp:39-41 | Definition: characterised by `Storage.SaveDaysIsJoin`. |
| Storage.SaveText | Scheduler.cpp:33-43 | Definition: the month's days saved in date order; `Storage.LoadSaved` reads it back. |
| Storage.SaveDaysIsJoin | Scheduler.cpp:39-41 | The saved text is the days' save lines, each followed by a line break. |
| Storage.LoadLine | Scheduler.cpp:52-59 | An empty line changes nothing; a non-numeric date field fails as malformed text; only the day named by the date field can change. |
| Storage.Load | Scheduler.cpp:45-60 | Definition: the per-line dispatch over the text's lines; characterised by `Storage.LoadLine`, `Storage.LoadKeepsValid`, `Storage.LoadLinesOfOneDay` and `Storage.LoadSaved`. |
| Storage.LoadKeepsValid | Scheduler.cpp:51-60 | Loading any text into a valid month keeps it valid. |
| Storage.LoadLinesOfOneDay | Scheduler.cpp:52-59 | Lines that all name the same date replay into that day alone, in order. |
| Storage.LoadSaved | Scheduler.cpp:33-60 | Loading the saved text of a valid month whose days are all replayable into a freshly initialised month gives the month back without error. |
| Text.StoiOfIntToString | Day.cpp:137 | Reading a non-negative int back from its decimal text gives the same number. |
| Text.SplitJoinLines | Scheduler.cpp:52 | Reading lines from text written as lines, each ending in a line break, gives back the same lines. |

## Left out

- Console output: colours, `setColor`, `option_list`, `displayScheduler_print`
  and `Day::toString_print`. The views return the text they would print.
- File handling: opening, writing and closing `EventFile.txt` and scheduler
  errors 4 and 5; save and load work on a string.
- The constructor and destructor of `Scheduler`, which load and save and
  swallow errors; `Storage.Load` applied to `Scheduler.InitialMonth` stands
  for the constructor.
- The yes/no prompt of `scheduleEvent`: replaced by the `overrideAccepted`
  parameter, true exactly when the reply is `yes` or `YES`.
- Success and error messages written by the scheduler methods; the error
  is returned instead.
- `Main.cpp`: input validation loops and menu dispatch.
- The exception classes and their message tables: replaced by `Errors.Error`.
- The default constructor of `Day`; only the constructor with a date and a
  weekday is used by the month.
- Times.FromString: only hour and minute written as runs of decimal digits
  separated by one character that is neither a digit nor a blank are
  modelled; other text is reported as `MalformedText`. The stream itself
  skips blanks before each number and before the separator, accepts a
  leading sign (a negative field then fails the range check with time
  error 1), and on text that is not a number stores 0 in that field, sets
  the fail bit and leaves the fields not yet read at their previous values,
  without raising an error. Modelling that would make the result depend on
  the time's earlier contents.
- Text.Stoi: only text that starts with a decimal digit is modelled. The
  library also skips leading blanks and accepts a sign; the model reports
  such text as `MalformedText`, as it does text without digits (where the
  library throws an invalid-argument error) and a value above 2147483647
  (where it throws an out-of-range error).
- Storage.LoadLine: a date field outside [1, 31] is reported as
  `MalformedText`; the source indexes outside the array there.
- Scheduler.ViewWeek: states only the range check; the text it shows is
  given by `Scheduler.ViewWeekShowsDay` and `Scheduler.WeekDatesAreTheBucket`.
