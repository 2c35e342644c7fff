/** The event file: saving writes every day's record lines one after the
    other; loading reads it line by line into a freshly initialised month,
    sending each line to the day its first field names. */
module Storage {
  import opened Errors
  import opened Text
  import opened Days
  import opened Scheduler

  /** One line of the load loop. Empty lines are skipped. The first field,
      read with `stoi`, picks the day; a date outside 1..31 is reported as
      `MalformedText`. That day then replays the line, and the first error
      ends the load with the changes made so far kept. */
  function LoadLine(m: Month, line: string): (r: Step)
    requires Shaped(m)
    ensures Shaped(r.month) && r.month.currentDay == m.currentDay
    ensures line == [] ==> r == Step(m, None)
    ensures line != [] && Stoi(FirstField(line)).Err? ==> r == Step(m, Some(MalformedText))
    ensures forall j :: 0 <= j < MonthLength && (line == [] || Stoi(FirstField(line)) != Ok(j + 1)) ==>
              r.month.days[j] == m.days[j]
  {
    if line == [] then Step(m, None)
    else
      match Stoi(FirstField(line))
      case Err(err) => Step(m, Some(err))
      case Ok(date) =>
        if date < 1 || date > MonthLength then Step(m, Some(MalformedText))
        else LoadInto(m, date, line)
  }

  /** The named day replays the line; no other day changes. */
  function LoadInto(m: Month, date: int, line: string): (r: Step)
    requires Shaped(m) && 1 <= date <= MonthLength
    ensures Shaped(r.month) && r.month.currentDay == m.currentDay
    ensures forall j :: 0 <= j < MonthLength && j != date - 1 ==> r.month.days[j] == m.days[j]
  {
    var x := ExtractDayData(m.days[date - 1], line);
    Step(m.(days := m.days[date - 1 := x.day]), x.error)
  }

  /** The lines of the file in order, stopping at the first error. */
  function LoadLines(m: Month, lines: seq<string>): (r: Step)
    requires Shaped(m)
    ensures Shaped(r.month) && r.month.currentDay == m.currentDay
    decreases |lines|
  {
    if lines == [] then Step(m, None)
    else
      var r1 := LoadLine(m, lines[0]);
      if r1.error.Some? then r1 else LoadLines(r1.month, lines[1..])
  }

  /** `loadEventsFrom_txt` on the file's text. */
  function Load(m: Month, text: string): Step
    requires Shaped(m)
  {
    LoadLines(m, SplitLines(text))
  }

  /** `saveEventsTo_txt`: the `formatDayDataToString` text of every day in
      date order. */
  function SaveDays(ds: seq<Day>): string {
    if ds == [] then "" else FormatDayData(ds[0]) + SaveDays(ds[1..])
  }

  function SaveText(m: Month): string {
    SaveDays(m.days)
  }

  /** The record lines of the days, in date order. */
  function SaveLines(ds: seq<Day>): seq<string> {
    if ds == [] then [] else RecordLines(ds[0]) + SaveLines(ds[1..])
  }

  /** The saved text is the record lines, each ended by a newline. */
  lemma {:induction false} SaveDaysIsJoin(ds: seq<Day>)
    ensures SaveDays(ds) == JoinLines(SaveLines(ds))
    decreases |ds|
  {
    if ds != [] {
      SaveDaysIsJoin(ds[1..]);
      JoinLinesAppend(RecordLines(ds[0]), SaveLines(ds[1..]));
    }
  }

  lemma {:induction false} SaveLinesArePlain(ds: seq<Day>)
    requires forall i :: 0 <= i < |ds| ==> Replayable(ds[i])
    ensures NoNewlines(SaveLines(ds))
    decreases |ds|
  {
    if ds != [] {
      RecordLinesArePlain(ds[0]);
      SaveLinesArePlain(ds[1..]);
      NoNewlinesAppend(RecordLines(ds[0]), SaveLines(ds[1..]));
    }
  }

  /** A single newline-free line replays as that one line. */
  lemma ExtractOneLine(d: Day, line: string)
    requires line != [] && '\n' !in line
    ensures ExtractDayData(d, line) == ReplayLine(d, line)
  {
    SplitSingleLine(line);
    var r1 := ReplayLine(d, line);
    assert ReplayLines(d, [line]) == (if r1.error.Some? then r1 else ReplayLines(r1.day, []));
  }

  /** Loading one line of the file keeps the month valid: the line goes to
      the day its first field names, which keeps its date, weekday and a
      valid list of events. */
  lemma LoadLineKeepsValid(m: Month, line: string)
    requires Scheduler.Valid(m) && '\n' !in line
    ensures Scheduler.Valid(LoadLine(m, line).month)
  {
    if line != [] && Stoi(FirstField(line)).Ok? {
      var date := Stoi(FirstField(line)).value;
      if 1 <= date <= MonthLength {
        assert LoadLine(m, line) == LoadInto(m, date, line);
        LoadIntoKeepsValid(m, date, line);
      }
    }
  }

  lemma LoadIntoKeepsValid(m: Month, date: int, line: string)
    requires Scheduler.Valid(m) && 1 <= date <= MonthLength
    requires line != [] && '\n' !in line && Stoi(FirstField(line)) == Ok(date)
    ensures Scheduler.Valid(LoadInto(m, date, line).month)
  {
    var d := m.days[date - 1];
    ExtractOneLine(d, line);
    ReplayLineKeepsValid(d, line);
    var t := ExtractDayData(d, line).day;
    assert t.date == date && t.dayOfWeek == d.dayOfWeek && Days.Valid(t);
    assert LoadInto(m, date, line).month == m.(days := m.days[date - 1 := t]);
    ReplaceDayKeepsValid(m, date - 1, t);
  }

  lemma {:induction false} LoadLinesKeepsValid(m: Month, lines: seq<string>)
    requires Scheduler.Valid(m) && NoNewlines(lines)
    ensures Scheduler.Valid(LoadLines(m, lines).month)
    decreases |lines|
  {
    if lines != [] {
      LoadLineKeepsValid(m, lines[0]);
      var r1 := LoadLine(m, lines[0]);
      if r1.error.None? {
        LoadLinesKeepsValid(r1.month, lines[1..]);
      }
    }
  }

  /** Loading any text keeps the month valid, also when it stops on an error. */
  lemma LoadKeepsValid(m: Month, text: string)
    requires Scheduler.Valid(m)
    ensures Scheduler.Valid(Load(m, text).month)
  {
    SplitLinesArePlain(text);
    LoadLinesKeepsValid(m, SplitLines(text));
  }

  lemma {:induction false} LoadLinesAppend(m: Month, a: seq<string>, b: seq<string>)
    requires Shaped(m)
    ensures LoadLines(m, a + b) == (var r := LoadLines(m, a); if r.error.Some? then r else LoadLines(r.month, b))
    decreases |a|
  {
    if a == [] {
      assert a + b == b;
    } else {
      assert (a + b)[0] == a[0] && (a + b)[1..] == a[1..] + b;
      var r1 := LoadLine(m, a[0]);
      if r1.error.None? {
        LoadLinesAppend(r1.month, a[1..], b);
      }
    }
  }

  /** Lines that all name the same date act on that day alone, as that
      day's replay of them. */
  lemma {:induction false} LoadLinesOfOneDay(m: Month, k: nat, lines: seq<string>)
    requires Shaped(m) && k < MonthLength && AllOfDate(lines, k + 1)
    ensures var x := ReplayLines(m.days[k], lines);
            LoadLines(m, lines) == Step(m.(days := m.days[k := x.day]), x.error)
    decreases |lines|
  {
    if lines == [] {
      assert m.days[k := m.days[k]] == m.days;
    } else {
      var line := lines[0];
      assert LineOfDate(line, k + 1);
      ExtractOneLine(m.days[k], line);
      var r1 := ReplayLine(m.days[k], line);
      assert LoadLine(m, line) == Step(m.(days := m.days[k := r1.day]), r1.error);
      if r1.error.None? {
        var m1 := m.(days := m.days[k := r1.day]);
        assert AllOfDate(lines[1..], k + 1) by {
          assert forall i :: 0 <= i < |lines[1..]| ==> lines[1..][i] == lines[i + 1];
        }
        LoadLinesOfOneDay(m1, k, lines[1..]);
        assert m1.days[k] == r1.day;
        assert m1.days[k := ReplayLines(r1.day, lines[1..]).day] == m.days[k := ReplayLines(r1.day, lines[1..]).day];
      }
    }
  }

  /** The saved lines of one day, loaded into a month where that day is as
      initialised, put the day in place. */
  lemma LoadSavedDay(m: Month, t: Day, k: nat)
    requires Shaped(m) && k < MonthLength
    requires Days.Valid(t) && Replayable(t) && t.date == k + 1
    requires m.days[k] == NewDay(t.date, t.dayOfWeek)
    ensures LoadLines(m, RecordLines(t)) == Step(m.(days := m.days[k := t]), None)
  {
    RecordLinesLeadWithDate(t);
    LoadLinesOfOneDay(m, k, RecordLines(t));
    ReplayRecordLines(t);
  }

  /** Loading the saved lines from day k on is loading the lines from day
      k + 1 on once day k is in place. */
  lemma LoadSavedStep(m: Month, ds: seq<Day>, k: nat)
    requires Shaped(m) && k < |ds| && k < MonthLength
    requires Days.Valid(ds[k]) && Replayable(ds[k]) && ds[k].date == k + 1
    requires m.days[k] == NewDay(ds[k].date, ds[k].dayOfWeek)
    ensures LoadLines(m, SaveLines(ds[k..])) == LoadLines(m.(days := m.days[k := ds[k]]), SaveLines(ds[k + 1..]))
  {
    var rest := SaveLines(ds[k + 1..]);
    assert ds[k..][1..] == ds[k + 1..];
    assert SaveLines(ds[k..]) == RecordLines(ds[k]) + rest;
    LoadLinesAppend(m, RecordLines(ds[k]), rest);
    LoadSavedDay(m, ds[k], k);
  }

  /** Loading the saved lines of days k to 31 into a month whose first k
      days already match the target and whose other days are as initialised
      rebuilds the target. */
  lemma {:induction false} LoadSavedFrom(m: Month, target: Month, k: nat)
    requires Scheduler.Valid(target) && (forall i :: 0 <= i < MonthLength ==> Replayable(target.days[i]))
    requires Shaped(m) && m.currentDay == target.currentDay && k <= MonthLength
    requires forall i :: 0 <= i < k ==> m.days[i] == target.days[i]
    requires forall i :: k <= i < MonthLength ==> m.days[i] == NewDay(i + 1, WeekdayNames[i % 7])
    ensures LoadLines(m, SaveLines(target.days[k..])) == Step(target, None)
    decreases MonthLength - k
  {
    if k == MonthLength {
      LoadSavedNothing(m, target);
    } else {
      var m1 := LoadSavedNext(m, target, k);
      LoadSavedFrom(m1, target, k + 1);
    }
  }

  /** With every day in place there is nothing left to load. */
  lemma LoadSavedNothing(m: Month, target: Month)
    requires Shaped(target) && Shaped(m) && m.currentDay == target.currentDay
    requires forall i :: 0 <= i < MonthLength ==> m.days[i] == target.days[i]
    ensures LoadLines(m, SaveLines(target.days[MonthLength..])) == Step(target, None)
  {
    assert target.days[MonthLength..] == [];
    assert m.days == target.days;
  }

  /** Loading day k's saved lines puts day k in place, which keeps the
      conditions of `LoadSavedFrom` for k + 1. */
  lemma LoadSavedNext(m: Month, target: Month, k: nat) returns (m1: Month)
    requires Scheduler.Valid(target) && (forall i :: 0 <= i < MonthLength ==> Replayable(target.days[i]))
    requires Shaped(m) && m.currentDay == target.currentDay && k < MonthLength
    requires forall i :: 0 <= i < k ==> m.days[i] == target.days[i]
    requires forall i :: k <= i < MonthLength ==> m.days[i] == NewDay(i + 1, WeekdayNames[i % 7])
    ensures Shaped(m1) && m1.currentDay == target.currentDay
    ensures forall i :: 0 <= i < k + 1 ==> m1.days[i] == target.days[i]
    ensures forall i :: k + 1 <= i < MonthLength ==> m1.days[i] == NewDay(i + 1, WeekdayNames[i % 7])
    ensures LoadLines(m, SaveLines(target.days[k..])) == LoadLines(m1, SaveLines(target.days[k + 1..]))
  {
    var t := target.days[k];
    assert t.date == k + 1 && t.dayOfWeek == WeekdayNames[k % 7];
    LoadSavedStep(m, target.days, k);
    m1 := m.(days := m.days[k := t]);
  }

  /** Loading what was saved into a freshly initialised month gives the
      month back, when every event is record-safe and none is titled "off". */
  lemma LoadSaved(target: Month)
    requires Scheduler.Valid(target) && (forall i :: 0 <= i < MonthLength ==> Replayable(target.days[i]))
    ensures Load(InitialMonth(target.currentDay), SaveText(target)) == Step(target, None)
  {
    SaveDaysIsJoin(target.days);
    SaveLinesArePlain(target.days);
    SplitJoinLines(SaveLines(target.days));
    assert target.days[0..] == target.days;
    LoadSavedFrom(InitialMonth(target.currentDay), target, 0);
  }
}
