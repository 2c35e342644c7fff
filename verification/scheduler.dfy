/** The month of July 2024: thirty-one days, the current day below which
    nothing may be changed, and the operations of the menu. Every operation
    catches its own errors, so each returns the month as it stands together
    with the error that stopped it, if any. */
module Scheduler {
  import opened Errors
  import opened Text
  import opened Events
  import opened Days

  const MonthLength: nat := 31

  /** Weekday names in the order of the month; July 1, 2024 is a Monday. */
  const WeekdayNames: seq<string> :=
    ["Monday", "Tuesday", "Wednesday", "Thursday", "Friday", "Saturday", "Sunday"]

  datatype Month = Month(days: seq<Day>, currentDay: int)

  /** What an operation leaves behind: the month with every change made
      before an error, and that error, if any. */
  datatype Step = Step(month: Month, error: Option<Error>)

  /** The fixed shape of the scheduler: 31 days, and a current day of at
      least 1 (the menu only accepts 1 to 31). */
  predicate Shaped(m: Month) {
    |m.days| == MonthLength && 1 <= m.currentDay
  }

  /** Day i (0-based) has date i + 1 and the weekday counted from Monday. */
  predicate Calendar(ds: seq<Day>) {
    |ds| == MonthLength
    && forall i :: 0 <= i < MonthLength ==> ds[i].date == i + 1 && ds[i].dayOfWeek == WeekdayNames[i % 7]
  }

  /** The invariant every operation keeps: the shape, the calendar, and a
      valid list of events on every day. */
  predicate Valid(m: Month) {
    Shaped(m) && Calendar(m.days) && AllValid(m.days)
  }

  /** Replacing one day by a valid day with the same date and weekday keeps
      the month valid. */
  lemma ReplaceDayKeepsValid(m: Month, k: int, t: Day)
    requires Valid(m) && 0 <= k < MonthLength
    requires t.date == m.days[k].date && t.dayOfWeek == m.days[k].dayOfWeek && Days.Valid(t)
    ensures Valid(m.(days := m.days[k := t]))
  {
    var ds := m.days[k := t];
    forall i | 0 <= i < MonthLength
      ensures ds[i].date == i + 1 && ds[i].dayOfWeek == WeekdayNames[i % 7] && Days.Valid(ds[i])
    {
      if i != k {
        assert ds[i] == m.days[i];
      }
    }
  }

  /** `initializeDays`: day i gets date i and its weekday, no events, not off. */
  function InitializeDays(): (ds: seq<Day>)
    ensures Calendar(ds)
    ensures forall i :: 0 <= i < |ds| ==> !ds[i].isDayOff && ds[i].events == []
  {
    seq(MonthLength, i requires 0 <= i < MonthLength => NewDay(i + 1, WeekdayNames[i % 7]))
  }

  /** The month right after construction, before anything is loaded. */
  function InitialMonth(currentDay: int): (m: Month)
    requires 1 <= currentDay
    ensures Valid(m) && m.currentDay == currentDay
  {
    Month(InitializeDays(), currentDay)
  }

  lemma WeekdayNamesDistinct(a: nat, b: nat)
    requires a < 7 && b < 7 && a != b
    ensures WeekdayNames[a] != WeekdayNames[b]
  {
    var x, y := WeekdayNames[a], WeekdayNames[b];
    assert x[0] != y[0] || x[1] != y[1];
  }

  /** Two days share a weekday name exactly when they are a whole number of
      weeks apart, and the month starts on a Monday. */
  lemma WeekdaysRepeatWeekly(i: nat, j: nat)
    requires i < MonthLength && j < MonthLength
    ensures InitializeDays()[0].dayOfWeek == "Monday"
    ensures InitializeDays()[i].dayOfWeek == InitializeDays()[j].dayOfWeek <==> i % 7 == j % 7
  {
    if i % 7 != j % 7 {
      WeekdayNamesDistinct(i % 7, j % 7);
    }
  }

  /** The range check shared by schedule, cancel, shift and day off. */
  predicate Open(m: Month, date: int) {
    m.currentDay <= date <= MonthLength
  }

  /** Whether the loop `for (i = first; i <= 31; i += stride)` visits `j`. */
  predicate Occurs(first: int, stride: nat, j: int)
    requires stride >= 1
    decreases MonthLength + 1 - first
  {
    first <= MonthLength && (j == first || Occurs(first + stride, stride, j))
  }

  lemma {:induction false} OccursBounds(first: int, stride: nat, j: int)
    requires stride >= 1 && Occurs(first, stride, j)
    ensures first <= j <= MonthLength
    decreases MonthLength + 1 - first
  {
    if j != first {
      OccursBounds(first + stride, stride, j);
    }
  }

  /** The daily loop visits every date from `first` to 31. */
  lemma {:induction false} OccursDaily(first: int, j: int)
    ensures Occurs(first, 1, j) <==> first <= j <= MonthLength
    decreases MonthLength + 1 - first
  {
    if first <= MonthLength && j != first {
      OccursDaily(first + 1, j);
    }
  }

  /** The weekly loop visits `first`, `first + 7`, … up to 31. */
  lemma {:induction false} OccursWeekly(first: int, j: int)
    ensures Occurs(first, 7, j) <==> first <= j <= MonthLength && (j - first) % 7 == 0
    decreases MonthLength + 1 - first
  {
    if first <= MonthLength && j != first {
      OccursWeekly(first + 7, j);
      assert (j - (first + 7)) % 7 == (j - first) % 7;
    }
  }

  /** The repeat loop of `scheduleEvent` from date `i` on: days that are off
      are skipped, every other visited day gets the event, and the first
      failing add ends the loop with the days added so far kept. */
  function Expand(days: seq<Day>, i: int, stride: nat, e: Event): (r: Outcome)
    requires |days| == MonthLength && 1 <= i && stride >= 1
    ensures |r.days| == MonthLength
    ensures forall j :: 0 <= j < MonthLength && (!Occurs(i, stride, j + 1) || days[j].isDayOff) ==> r.days[j] == days[j]
    ensures forall j :: 0 <= j < MonthLength ==> SameButEvents(r.days[j], days[j])
    ensures r.error.Some? ==> r.error.value == EventOverlap || r.error.value == EventDayFull
    decreases MonthLength + 1 - i
  {
    if i > MonthLength then Outcome(days, None)
    else if days[i - 1].isDayOff then Expand(days, i + stride, stride, e)
    else
      match AddEvent(days[i - 1], e)
      case Err(err) => Outcome(days, Some(err))
      case Ok(d) => Expand(days[i - 1 := d], i + stride, stride, e)
  }

  /** When the repeat loop completes, every visited day that is not off got
      the event, by the rules of `addEvent`. */
  lemma ExpandAddsEverywhere(days: seq<Day>, i: int, stride: nat, e: Event)
    requires |days| == MonthLength && 1 <= i && stride >= 1
    requires Expand(days, i, stride, e).error.None?
    ensures forall j :: 0 <= j < MonthLength && Occurs(i, stride, j + 1) && !days[j].isDayOff ==>
              AddEvent(days[j], e) == Ok(Expand(days, i, stride, e).days[j])
  {
    forall j | 0 <= j < MonthLength && Occurs(i, stride, j + 1) && !days[j].isDayOff
      ensures AddEvent(days[j], e) == Ok(Expand(days, i, stride, e).days[j])
    {
      ExpandAddsAt(days, i, stride, e, j);
    }
  }

  lemma {:induction false} ExpandAddsAt(days: seq<Day>, i: int, stride: nat, e: Event, j: int)
    requires |days| == MonthLength && 1 <= i && stride >= 1
    requires Expand(days, i, stride, e).error.None?
    requires 0 <= j < MonthLength && Occurs(i, stride, j + 1) && !days[j].isDayOff
    ensures AddEvent(days[j], e) == Ok(Expand(days, i, stride, e).days[j])
    decreases MonthLength + 1 - i
  {
    OccursNext(i, stride, j + 1);
    if j + 1 == i {
      ExpandAddsFirst(days, i, stride, e);
    } else {
      var days1 := ExpandPassesOver(days, i, stride, e, j);
      ExpandAddsAt(days1, i + stride, stride, e, j);
    }
  }

  /** Seen from a later day `j`, the first step of a loop that completes
      changes nothing: the day is the same and so is its final state. */
  lemma ExpandPassesOver(days: seq<Day>, i: int, stride: nat, e: Event, j: int) returns (days1: seq<Day>)
    requires |days| == MonthLength && 1 <= i <= MonthLength && stride >= 1
    requires Expand(days, i, stride, e).error.None?
    requires 0 <= j < MonthLength && j != i - 1
    ensures |days1| == MonthLength && days1[j] == days[j]
    ensures Expand(days1, i + stride, stride, e).error.None?
    ensures Expand(days1, i + stride, stride, e).days[j] == Expand(days, i, stride, e).days[j]
  {
    ExpandContinues(days, i, stride, e);
    days1 := ExpandStep(days, i, stride, e);
  }

  /** A date the loop visits after `first` is visited from the next step on. */
  lemma OccursNext(first: int, stride: nat, j: int)
    requires stride >= 1 && Occurs(first, stride, j)
    ensures first <= MonthLength
    ensures j != first ==> Occurs(first + stride, stride, j)
  {
  }

  /** One step of the repeat loop that does not stop it (the day is off, or
      the add succeeds): the loop from `i` is the loop from the next visited
      date on the days after this step. */
  lemma ExpandStep(days: seq<Day>, i: int, stride: nat, e: Event) returns (days1: seq<Day>)
    requires |days| == MonthLength && 1 <= i <= MonthLength && stride >= 1
    requires days[i - 1].isDayOff || AddEvent(days[i - 1], e).Ok?
    ensures days1 == if days[i - 1].isDayOff then days else days[i - 1 := AddEvent(days[i - 1], e).value]
    ensures Expand(days1, i + stride, stride, e) == Expand(days, i, stride, e)
    ensures StopIndex(days1, i + stride, stride, e) == StopIndex(days, i, stride, e)
  {
    if days[i - 1].isDayOff {
      days1 := days;
    } else {
      days1 := days[i - 1 := AddEvent(days[i - 1], e).value];
    }
  }

  /** A loop that completes never meets a failing add. */
  lemma ExpandContinues(days: seq<Day>, i: int, stride: nat, e: Event)
    requires |days| == MonthLength && 1 <= i <= MonthLength && stride >= 1
    requires Expand(days, i, stride, e).error.None?
    ensures days[i - 1].isDayOff || AddEvent(days[i - 1], e).Ok?
  {
  }

  /** The date the repeat loop starts from gets the event. */
  lemma ExpandAddsFirst(days: seq<Day>, i: int, stride: nat, e: Event)
    requires |days| == MonthLength && 1 <= i <= MonthLength && stride >= 1
    requires Expand(days, i, stride, e).error.None? && !days[i - 1].isDayOff
    ensures AddEvent(days[i - 1], e) == Ok(Expand(days, i, stride, e).days[i - 1])
  {
    var d := AddEvent(days[i - 1], e).value;
    var days1 := days[i - 1 := d];
    assert Expand(days, i, stride, e) == Expand(days1, i + stride, stride, e);
    if Occurs(i + stride, stride, i) {
      OccursBounds(i + stride, stride, i);
    }
  }

  /** Where the repeat loop stopped: at a visited day that is not off, whose
      add failed with the reported error; every visited day before it got
      the event, and it and every later day are as they were. */
  predicate StopsAt(days: seq<Day>, r: Outcome, i: int, stride: nat, e: Event, f: int)
    requires |days| == MonthLength && |r.days| == MonthLength && stride >= 1 && r.error.Some?
  {
    && 0 <= f < MonthLength && Occurs(i, stride, f + 1) && !days[f].isDayOff
    && AddEvent(days[f], e) == Err(r.error.value)
    && (forall j :: 0 <= j < f && Occurs(i, stride, j + 1) && !days[j].isDayOff ==> AddEvent(days[j], e) == Ok(r.days[j]))
    && (forall j :: f <= j < MonthLength ==> r.days[j] == days[j])
  }

  lemma OccursFrom(i: int, stride: nat)
    requires stride >= 1
    ensures forall x :: Occurs(i, stride, x) ==> i <= x
  {
    forall x | Occurs(i, stride, x)
      ensures i <= x
    {
      OccursBounds(i, stride, x);
    }
  }

  /** A stop found after a skipped day off is a stop of the whole loop. */
  lemma StopsAfterSkip(days: seq<Day>, r: Outcome, i: int, stride: nat, e: Event, f: int)
    requires |days| == MonthLength && |r.days| == MonthLength && stride >= 1 && r.error.Some?
    requires 1 <= i <= MonthLength && days[i - 1].isDayOff
    requires StopsAt(days, r, i + stride, stride, e, f)
    ensures StopsAt(days, r, i, stride, e, f)
  {
  }

  /** A stop found after a successful add is a stop of the whole loop. */
  lemma StopsAfterAdd(days: seq<Day>, d: Day, r: Outcome, i: int, stride: nat, e: Event, f: int)
    requires |days| == MonthLength && |r.days| == MonthLength && stride >= 1 && r.error.Some?
    requires 1 <= i <= MonthLength && AddEvent(days[i - 1], e) == Ok(d) && r.days[i - 1] == d
    requires StopsAt(days[i - 1 := d], r, i + stride, stride, e, f)
    ensures StopsAt(days, r, i, stride, e, f)
  {
    OccursFrom(i + stride, stride);
    assert i - 1 < f;
  }

  /** A failing add on the first visited day stops the loop there. */
  lemma StopsAtStart(days: seq<Day>, r: Outcome, i: int, stride: nat, e: Event)
    requires |days| == MonthLength && 1 <= i <= MonthLength && stride >= 1 && !days[i - 1].isDayOff
    requires AddEvent(days[i - 1], e).Err? && r == Outcome(days, Some(AddEvent(days[i - 1], e).error))
    ensures StopsAt(days, r, i, stride, e, i - 1)
  {
    OccursFrom(i, stride);
  }

  /** The 0-based day at which the repeat loop stops, or -1 when it runs to
      the end. */
  function StopIndex(days: seq<Day>, i: int, stride: nat, e: Event): int
    requires |days| == MonthLength && 1 <= i && stride >= 1
    decreases MonthLength + 1 - i
  {
    if i > MonthLength then -1
    else if days[i - 1].isDayOff then StopIndex(days, i + stride, stride, e)
    else
      match AddEvent(days[i - 1], e)
      case Err(_) => i - 1
      case Ok(d) => StopIndex(days[i - 1 := d], i + stride, stride, e)
  }

  /** No rollback: a failing add stops the loop, and the occurrences added
      before it stay. */
  lemma {:induction false} ExpandStopsAtFirstFailure(days: seq<Day>, i: int, stride: nat, e: Event)
    requires |days| == MonthLength && 1 <= i && stride >= 1
    requires Expand(days, i, stride, e).error.Some?
    ensures StopsAt(days, Expand(days, i, stride, e), i, stride, e, StopIndex(days, i, stride, e))
    decreases MonthLength + 1 - i
  {
    if Proceeds(days, i, e) {
      var days1 := StopsStep(days, i, stride, e);
      ExpandStopsAtFirstFailure(days1, i + stride, stride, e);
    } else {
      StopsHere(days, i, stride, e);
    }
  }

  /** A failed loop that does not go on past day `i` stops there. */
  lemma StopsHere(days: seq<Day>, i: int, stride: nat, e: Event)
    requires |days| == MonthLength && 1 <= i && stride >= 1 && !Proceeds(days, i, e)
    requires Expand(days, i, stride, e).error.Some?
    ensures StopsAt(days, Expand(days, i, stride, e), i, stride, e, StopIndex(days, i, stride, e))
  {
    StopsAtStart(days, Expand(days, i, stride, e), i, stride, e);
  }

  /** One step of the induction: the stop found from the next visited day is
      the stop found from this one. */
  lemma StopsStep(days: seq<Day>, i: int, stride: nat, e: Event) returns (days1: seq<Day>)
    requires |days| == MonthLength && 1 <= i && stride >= 1 && Proceeds(days, i, e)
    requires Expand(days, i, stride, e).error.Some?
    ensures |days1| == MonthLength && Expand(days1, i + stride, stride, e).error.Some?
    ensures StopsAt(days1, Expand(days1, i + stride, stride, e), i + stride, stride, e, StopIndex(days1, i + stride, stride, e))
            ==> StopsAt(days, Expand(days, i, stride, e), i, stride, e, StopIndex(days, i, stride, e))
  {
    days1 := ExpandStep(days, i, stride, e);
    if StopsAt(days1, Expand(days1, i + stride, stride, e), i + stride, stride, e, StopIndex(days1, i + stride, stride, e)) {
      if days[i - 1].isDayOff {
        StopsStepSkip(days, i, stride, e);
      } else {
        StopsStepAdd(days, i, stride, e);
      }
    }
  }

  /** The induction step over a skipped day off. */
  lemma StopsStepSkip(days: seq<Day>, i: int, stride: nat, e: Event)
    requires |days| == MonthLength && 1 <= i <= MonthLength && stride >= 1 && days[i - 1].isDayOff
    requires Expand(days, i + stride, stride, e).error.Some?
    requires StopsAt(days, Expand(days, i + stride, stride, e), i + stride, stride, e, StopIndex(days, i + stride, stride, e))
    ensures Expand(days, i, stride, e).error.Some?
    ensures StopsAt(days, Expand(days, i, stride, e), i, stride, e, StopIndex(days, i, stride, e))
  {
    var _ := ExpandStep(days, i, stride, e);
    StopsAfterSkip(days, Expand(days, i, stride, e), i, stride, e, StopIndex(days, i, stride, e));
  }

  /** The induction step over a day that took the event. */
  lemma StopsStepAdd(days: seq<Day>, i: int, stride: nat, e: Event)
    requires |days| == MonthLength && 1 <= i <= MonthLength && stride >= 1 && AddEvent(days[i - 1], e).Ok?
    requires var days1 := days[i - 1 := AddEvent(days[i - 1], e).value];
             && Expand(days1, i + stride, stride, e).error.Some?
             && StopsAt(days1, Expand(days1, i + stride, stride, e), i + stride, stride, e, StopIndex(days1, i + stride, stride, e))
    ensures Expand(days, i, stride, e).error.Some?
    ensures StopsAt(days, Expand(days, i, stride, e), i, stride, e, StopIndex(days, i, stride, e))
  {
    var days1 := ExpandStep(days, i, stride, e);
    if Occurs(i + stride, stride, i) {
      OccursBounds(i + stride, stride, i);
    }
    StopsAfterAdd(days, days1[i - 1], Expand(days, i, stride, e), i, stride, e, StopIndex(days, i, stride, e));
  }

  /** Repeat expansion keeps every day valid, also when it stops early. */
  lemma {:induction false} ExpandKeepsValid(days: seq<Day>, i: int, stride: nat, e: Event)
    requires |days| == MonthLength && 1 <= i && stride >= 1
    requires AllValid(days)
    ensures AllValid(Expand(days, i, stride, e).days)
    decreases MonthLength + 1 - i
  {
    if Proceeds(days, i, e) {
      var days1 := ExpandStepKeepsValid(days, i, stride, e);
      ExpandKeepsValid(days1, i + stride, stride, e);
    } else {
      ExpandStopsWithDays(days, i, stride, e);
    }
  }

  /** The repeat loop goes on past day `i`: the day is in the month and is
      either skipped or takes the event. */
  predicate Proceeds(days: seq<Day>, i: int, e: Event)
    requires |days| == MonthLength && 1 <= i
  {
    i <= MonthLength && (days[i - 1].isDayOff || AddEvent(days[i - 1], e).Ok?)
  }

  /** A step that does not stop the loop leaves every day valid. */
  lemma ExpandStepKeepsValid(days: seq<Day>, i: int, stride: nat, e: Event) returns (days1: seq<Day>)
    requires |days| == MonthLength && 1 <= i && stride >= 1
    requires Proceeds(days, i, e)
    requires AllValid(days)
    ensures |days1| == MonthLength && AllValid(days1)
    ensures AllValid(Expand(days1, i + stride, stride, e).days) ==> AllValid(Expand(days, i, stride, e).days)
  {
    days1 := ExpandStep(days, i, stride, e);
    if !days[i - 1].isDayOff {
      AddEventKeepsValid(days[i - 1], e);
    }
  }

  /** Past the end of the month, or at a failing add, the loop ends with the
      days it was given. */
  lemma ExpandStopsWithDays(days: seq<Day>, i: int, stride: nat, e: Event)
    requires |days| == MonthLength && 1 <= i && stride >= 1
    requires !Proceeds(days, i, e)
    ensures Expand(days, i, stride, e).days == days
  {
  }

  /** The single add of a non-repeating event. */
  function AddOnce(days: seq<Day>, date: int, e: Event): (r: Outcome)
    requires |days| == MonthLength && 1 <= date <= MonthLength
    ensures |r.days| == MonthLength
    ensures r.error.None? <==> AddEvent(days[date - 1], e).Ok?
    ensures r.error.Some? ==> r.error == Some(AddEvent(days[date - 1], e).error)
    ensures forall j :: 0 <= j < MonthLength && j != date - 1 ==> r.days[j] == days[j]
  {
    match AddEvent(days[date - 1], e)
    case Err(err) => Outcome(days, Some(err))
    case Ok(d) => Outcome(days[date - 1 := d], None)
  }

  /** The stride of the repeat loop: 1 for "daily", 7 for "weekly". Any
      other repeat type is added once, which a stride reaching past the end
      of the month expresses. */
  function Stride(repeatType: string): (n: nat)
    ensures n >= 1
  {
    if repeatType == "daily" then 1 else if repeatType == "weekly" then 7 else MonthLength
  }

  /** On a day that is not off, the single add is the loop with the stride
      for non-repeating events. */
  lemma AddOnceIsExpand(days: seq<Day>, date: int, e: Event)
    requires |days| == MonthLength && 1 <= date <= MonthLength && !days[date - 1].isDayOff
    ensures AddOnce(days, date, e) == Expand(days, date, MonthLength, e)
  {
    match AddEvent(days[date - 1], e)
    case Err(err) =>
    case Ok(d) =>
      assert Expand(days[date - 1 := d], date + MonthLength, MonthLength, e) == Outcome(days[date - 1 := d], None);
  }

  /** The day-off flag of `date` cleared (a no-op when it is not set). */
  function ClearOff(m: Month, date: int): (r: Month)
    requires Shaped(m) && 1 <= date <= MonthLength
    ensures Shaped(r) && r.currentDay == m.currentDay
    ensures !r.days[date - 1].isDayOff
    ensures r.days[date - 1] == m.days[date - 1].(isDayOff := false)
    ensures forall j :: 0 <= j < MonthLength && j != date - 1 ==> r.days[j] == m.days[j]
  {
    m.(days := m.days[date - 1 := m.days[date - 1].(isDayOff := false)])
  }

  /** `scheduleEvent`. A date outside [currentDay, 31] fails with day error
      4. On a day off the event is scheduled only when the override is
      accepted (the reply "yes" or "YES"), which clears the flag first;
      otherwise nothing happens and no error is reported. Then "daily" and
      "weekly" events are added on every visited day that is not off, and
      any other event once. */
  function ScheduleEvent(m: Month, date: int, e: Event, overrideAccepted: bool): (r: Step)
    requires Shaped(m)
    ensures Shaped(r.month) && r.month.currentDay == m.currentDay
    ensures !Open(m, date) ==> r == Step(m, Some(DayOutOfRange))
    ensures Open(m, date) && m.days[date - 1].isDayOff && !overrideAccepted ==> r == Step(m, None)
    ensures r.error.Some? ==> r.error.value in {DayOutOfRange, EventOverlap, EventDayFull}
  {
    if !Open(m, date) then Step(m, Some(DayOutOfRange))
    else if m.days[date - 1].isDayOff && !overrideAccepted then Step(m, None)
    else
      var days := ClearOff(m, date).days;
      var o := if e.repeatType == "daily" then Expand(days, date, 1, e)
               else if e.repeatType == "weekly" then Expand(days, date, 7, e)
               else AddOnce(days, date, e);
      Step(Month(o.days, m.currentDay), o.error)
  }

  /** Every branch of `scheduleEvent` past the checks is the repeat loop
      over the days with the flag of `date` cleared, with the stride of the
      event's repeat type. */
  lemma ScheduleIsExpansion(m: Month, date: int, e: Event, overrideAccepted: bool)
    requires Shaped(m) && Open(m, date) && !(m.days[date - 1].isDayOff && !overrideAccepted)
    ensures var o := Expand(ClearOff(m, date).days, date, Stride(e.repeatType), e);
            ScheduleEvent(m, date, e, overrideAccepted) == Step(Month(o.days, m.currentDay), o.error)
  {
    if e.repeatType != "daily" && e.repeatType != "weekly" {
      AddOnceIsExpand(ClearOff(m, date).days, date, e);
    }
  }

  /** Scheduling changes only the days its loop visits, never a day before
      `date`, and never a day off other than `date` itself. */
  lemma ScheduleTouchesOnlyVisitedDays(m: Month, date: int, e: Event, overrideAccepted: bool)
    requires Shaped(m)
    ensures var r := ScheduleEvent(m, date, e, overrideAccepted);
            forall j :: 0 <= j < MonthLength && (!Occurs(date, Stride(e.repeatType), j + 1)
                                                 || (j != date - 1 && m.days[j].isDayOff)) ==>
              r.month.days[j] == m.days[j]
    ensures forall j :: 0 <= j < MonthLength && j + 1 < date ==>
              ScheduleEvent(m, date, e, overrideAccepted).month.days[j] == m.days[j]
  {
    OccursFrom(date, Stride(e.repeatType));
    if Open(m, date) && !(m.days[date - 1].isDayOff && !overrideAccepted) {
      ScheduleIsExpansion(m, date, e, overrideAccepted);
    }
  }

  /** A schedule that reports no error added the event, by the rules of
      `addEvent`, on every visited day that is not off. */
  lemma ScheduleAddsEverywhere(m: Month, date: int, e: Event, overrideAccepted: bool)
    requires Shaped(m) && Open(m, date) && !(m.days[date - 1].isDayOff && !overrideAccepted)
    requires ScheduleEvent(m, date, e, overrideAccepted).error.None?
    ensures var base := ClearOff(m, date).days;
            forall j :: 0 <= j < MonthLength && Occurs(date, Stride(e.repeatType), j + 1) && !base[j].isDayOff ==>
              AddEvent(base[j], e) == Ok(ScheduleEvent(m, date, e, overrideAccepted).month.days[j])
  {
    ScheduleIsExpansion(m, date, e, overrideAccepted);
    ExpandAddsEverywhere(ClearOff(m, date).days, date, Stride(e.repeatType), e);
  }

  /** No rollback: a failing add stops the schedule, and the occurrences
      added before it stay. */
  lemma ScheduleKeepsEarlierOccurrences(m: Month, date: int, e: Event, overrideAccepted: bool)
    requires Shaped(m) && Open(m, date) && !(m.days[date - 1].isDayOff && !overrideAccepted)
    requires ScheduleEvent(m, date, e, overrideAccepted).error.Some?
    ensures var base := ClearOff(m, date).days;
            var r := ScheduleEvent(m, date, e, overrideAccepted);
            StopsAt(base, Outcome(r.month.days, r.error), date, Stride(e.repeatType), e,
                    StopIndex(base, date, Stride(e.repeatType), e))
  {
    ScheduleIsExpansion(m, date, e, overrideAccepted);
    ExpandStopsAtFirstFailure(ClearOff(m, date).days, date, Stride(e.repeatType), e);
  }

  /** Accepting the override on a day off is scheduling on the month with
      only that day's flag cleared. */
  lemma ScheduleOverride(m: Month, date: int, e: Event)
    requires Shaped(m) && Open(m, date) && m.days[date - 1].isDayOff
    ensures ScheduleEvent(m, date, e, true) == ScheduleEvent(ClearOff(m, date), date, e, false)
  {
    assert ClearOff(ClearOff(m, date), date) == ClearOff(m, date);
  }

  lemma ClearOffKeepsValid(m: Month, date: int)
    requires Valid(m) && 1 <= date <= MonthLength
    ensures Valid(ClearOff(m, date))
  {
  }

  /** Scheduling keeps the month valid, also when it stops early. */
  lemma ScheduleKeepsValid(m: Month, date: int, e: Event, overrideAccepted: bool)
    requires Valid(m)
    ensures Valid(ScheduleEvent(m, date, e, overrideAccepted).month)
  {
    if Open(m, date) && !(m.days[date - 1].isDayOff && !overrideAccepted) {
      ScheduleIsExpansion(m, date, e, overrideAccepted);
      ClearOffKeepsValid(m, date);
      ExpandKeepsValid(ClearOff(m, date).days, date, Stride(e.repeatType), e);
    }
  }

  /** The events of `es` not titled `title`, in their order: the reference
      meaning of deleting every event with a title. */
  function Without(es: seq<Event>, title: string): (r: seq<Event>)
    ensures |r| <= |es|
    ensures !HasTitle(r, title)
    ensures forall k :: 0 <= k < |r| ==> r[k] in es
  {
    if es == [] then []
    else if es[0].title == title then Without(es[1..], title)
    else [es[0]] + Without(es[1..], title)
  }

  lemma {:induction false} WithoutNoTitle(es: seq<Event>, title: string)
    requires !HasTitle(es, title)
    ensures Without(es, title) == es
  {
    if es != [] {
      assert es[0].title != title;
      assert !HasTitle(es[1..], title) by {
        forall k | 0 <= k < |es[1..]|
          ensures es[1..][k].title != title
        {
          assert es[1..][k] == es[k + 1];
        }
      }
      WithoutNoTitle(es[1..], title);
    }
  }

  /** Deleting the first event with the title does not change what is left
      once every event with it is gone. */
  lemma {:induction false} WithoutRemoveFirst(es: seq<Event>, title: string)
    requires HasTitle(es, title)
    ensures Without(RemoveAt(es, FirstWithTitle(es, title)), title) == Without(es, title)
  {
    var k := FirstWithTitle(es, title);
    if es[0].title == title {
      assert RemoveAt(es, k) == es[1..];
    } else {
      assert HasTitle(es[1..], title) by {
        assert es[1..][k - 1] == es[k];
      }
      assert FirstWithTitle(es[1..], title) == k - 1;
      assert RemoveAt(es, k) == [es[0]] + RemoveAt(es[1..], k - 1);
      assert RemoveAt(es, k)[1..] == RemoveAt(es[1..], k - 1);
      WithoutRemoveFirst(es[1..], title);
    }
  }

  /** The inner loop of `cancelEvent`: `deleteEvent` again and again until
      no event with the title is left. It removes exactly the events with
      the title and keeps the others in order. */
  function DeleteAll(d: Day, title: string): (r: Day)
    ensures r == d.(events := Without(d.events, title))
    decreases |d.events|
  {
    match DeleteEvent(d, title)
    case Err(_) => WithoutNoTitle(d.events, title); d
    case Ok(d1) =>
      assert d1.events == RemoveAt(d.events, FirstWithTitle(d.events, title));
      WithoutRemoveFirst(d.events, title);
      DeleteAll(d1, title)
  }

  lemma {:induction false} DeleteAllKeepsValid(d: Day, title: string)
    requires Days.Valid(d)
    ensures Days.Valid(DeleteAll(d, title))
    decreases |d.events|
  {
    var x := DeleteEvent(d, title);
    if x.Ok? {
      DeleteEventKeepsValid(d, title);
      assert x.value.events == RemoveAt(d.events, FirstWithTitle(d.events, title));
      DeleteAllKeepsValid(x.value, title);
    }
  }

  /** `cancelEvent`. A date outside [currentDay, 31] fails with day error 4.
      With `deleteRepeats` false every event with the title is deleted from
      `date` through the 31st, which never fails; with `deleteRepeats` true
      only the first such event on `date` is deleted (event error 3 when
      there is none). The two branches are the reverse of what the flag's
      name says, and the menu passes false for an event that does not
      repeat. */
  function CancelEvent(m: Month, date: int, title: string, deleteRepeats: bool): (r: Step)
    requires Shaped(m)
    ensures Shaped(r.month) && r.month.currentDay == m.currentDay
    ensures !Open(m, date) ==> r == Step(m, Some(DayOutOfRange))
    ensures Open(m, date) && !deleteRepeats ==>
              && r.error.None?
              && (forall j :: 0 <= j < MonthLength && j + 1 < date ==> r.month.days[j] == m.days[j])
              && (forall j :: 0 <= j < MonthLength && date <= j + 1 ==>
                    r.month.days[j] == m.days[j].(events := Without(m.days[j].events, title))
                    && !HasTitle(r.month.days[j].events, title))
    ensures Open(m, date) && deleteRepeats ==>
              && (r.error.Some? <==> !HasTitle(m.days[date - 1].events, title))
              && (r.error.Some? ==> r == Step(m, Some(EventNotFound)))
              && (r.error.None? ==> r.month == m.(days := m.days[date - 1 := DeleteEvent(m.days[date - 1], title).value]))
  {
    if !Open(m, date) then Step(m, Some(DayOutOfRange))
    else if !deleteRepeats then
      var days := seq(MonthLength, j requires 0 <= j < MonthLength =>
                        if date <= j + 1 then DeleteAll(m.days[j], title) else m.days[j]);
      Step(m.(days := days), None)
    else
      match DeleteEvent(m.days[date - 1], title)
      case Err(err) => Step(m, Some(err))
      case Ok(d) => Step(m.(days := m.days[date - 1 := d]), None)
  }

  lemma CancelKeepsValid(m: Month, date: int, title: string, deleteRepeats: bool)
    requires Valid(m)
    ensures Valid(CancelEvent(m, date, title, deleteRepeats).month)
  {
    var r := CancelEvent(m, date, title, deleteRepeats);
    if Open(m, date) {
      if !deleteRepeats {
        forall j | 0 <= j < MonthLength && date <= j + 1
          ensures Days.Valid(r.month.days[j])
        {
          DeleteAllKeepsValid(m.days[j], title);
        }
      } else if r.error.None? {
        DeleteEventKeepsValid(m.days[date - 1], title);
      }
    }
  }

  /** `shiftEvent` of the scheduler: event error 5 unless both dates lie in
      [currentDay, 31], then the shift between the two days. */
  function ShiftEvent(m: Month, date: int, title: string, newDate: int): (r: Step)
    requires Shaped(m)
    ensures Shaped(r.month) && r.month.currentDay == m.currentDay
    ensures !(Open(m, date) && Open(m, newDate)) ==> r == Step(m, Some(EventShiftOutOfRange))
    ensures Open(m, date) && Open(m, newDate) ==>
              (r.error == Some(EventNotFound) <==> !HasTitle(m.days[date - 1].events, title))
    ensures forall j :: 0 <= j < MonthLength && j + 1 != date && j + 1 != newDate ==> r.month.days[j] == m.days[j]
    ensures Open(m, date) && Open(m, newDate) ==>
              var o := Days.ShiftEvent(m.days, date, title, newDate);
              r.month.days == o.days && r.error == o.error
    ensures Open(m, date) && Open(m, newDate) && HasTitle(m.days[date - 1].events, title) ==>
              (r.error == Some(EventShiftOverlap) <==>
               OverlapsAny(m.days[newDate - 1].events, ShiftedEvent(m.days, date, title)))
  {
    if !(Open(m, date) && Open(m, newDate)) then Step(m, Some(EventShiftOutOfRange))
    else
      var o := Days.ShiftEvent(m.days, date, title, newDate);
      Step(m.(days := o.days), o.error)
  }

  lemma ShiftKeepsValid(m: Month, date: int, title: string, newDate: int)
    requires Valid(m)
    ensures Valid(ShiftEvent(m, date, title, newDate).month)
  {
    if Open(m, date) && Open(m, newDate) {
      Days.ShiftKeepsValid(m.days, date, title, newDate);
    }
  }

  /** `setDayOff`: day error 4 outside [currentDay, 31]; otherwise the day
      is marked off and emptied, and no other day changes. */
  function SetDayOff(m: Month, date: int): (r: Step)
    requires Shaped(m)
    ensures Shaped(r.month) && r.month.currentDay == m.currentDay
    ensures !Open(m, date) ==> r == Step(m, Some(DayOutOfRange))
    ensures Open(m, date) ==> r.error.None? && r.month.days[date - 1].isDayOff && r.month.days[date - 1].events == []
    ensures Open(m, date) ==> r.month.days[date - 1].date == m.days[date - 1].date
                              && r.month.days[date - 1].dayOfWeek == m.days[date - 1].dayOfWeek
    ensures forall j :: 0 <= j < MonthLength && j + 1 != date ==> r.month.days[j] == m.days[j]
  {
    if !Open(m, date) then Step(m, Some(DayOutOfRange))
    else Step(m.(days := m.days[date - 1 := ClearEvents(m.days[date - 1].(isDayOff := true))]), None)
  }

  lemma SetDayOffKeepsValid(m: Month, date: int)
    requires Valid(m)
    ensures Valid(SetDayOff(m, date).month)
  {
  }

  /** The dates lo, lo + 1, …, hi - 1. */
  function Dates(lo: int, hi: int): (r: seq<int>)
    ensures |r| == if lo <= hi then hi - lo else 0
    ensures forall k :: 0 <= k < |r| ==> r[k] == lo + k
    decreases hi - lo
  {
    if lo >= hi then [] else [lo] + Dates(lo + 1, hi)
  }

  /** The dates `viewWeekSchedule` visits for the start day `s`: the bucket
      of seven starting at 7 * (s / 7), beginning at 1 for the first bucket
      and ending before 31 for the last. Day error 5 outside [1, 31]. The
      division is on a positive number, where truncation and Dafny's
      division agree. */
  function WeekDates(s: int): (r: Result<seq<int>>)
    ensures r.Err? <==> s < 1 || s > MonthLength
    ensures r.Err? ==> r.error == WeekViewOutOfRange
    ensures r.Ok? ==> forall k :: 0 <= k < |r.value| ==> 1 <= r.value[k] <= 30
  {
    if s < 1 || s > MonthLength then Err(WeekViewOutOfRange)
    else
      var startIndex := (s / 7) * 7;
      var endIndex := if startIndex >= 28 then 31 else startIndex + 7;
      Ok(Dates(if startIndex == 0 then 1 else startIndex, endIndex))
  }

  /** The week view lists, in increasing order, exactly the dates from 1 to
      30 whose week number (date / 7) is that of the start day; so day 31 is
      never listed, and the start day itself is listed unless it is 31. */
  lemma WeekDatesAreTheBucket(s: int)
    requires 1 <= s <= MonthLength
    ensures var ds := WeekDates(s).value;
            && (forall d :: d in ds <==> 1 <= d <= 30 && d / 7 == s / 7)
            && (forall p, q :: 0 <= p < q < |ds| ==> ds[p] < ds[q])
            && MonthLength !in ds
            && (s in ds <==> s != MonthLength)
  {
    var ds := WeekDates(s).value;
    forall d
      ensures d in ds <==> 1 <= d <= 30 && d / 7 == s / 7
    {
      if 1 <= d <= 30 && d / 7 == s / 7 {
        var lo := if (s / 7) * 7 == 0 then 1 else (s / 7) * 7;
        assert ds[d - lo] == d;
      }
    }
  }

  /** A day with nothing to show: no events and not off. */
  predicate Quiet(d: Day) {
    d.events == [] && !d.isDayOff
  }

  /** What the views print for one day: nothing for an empty day, else an
      indent and the day's text. */
  function Shown(d: Day): (r: string)
    ensures r == "" <==> Quiet(d)
  {
    var out := Render(d);
    if out == [] then "" else "   " + out
  }

  /** The views' text for the listed dates, in the order listed. A date
      outside `days` contributes nothing; the views never list one. */
  function Listing(days: seq<Day>, dates: seq<int>): string {
    if dates == [] then "" else Piece(days, dates[0]) + Listing(days, dates[1..])
  }

  function Piece(days: seq<Day>, date: int): string {
    if 1 <= date <= |days| then Shown(days[date - 1]) else ""
  }

  /** A listing of days with no events that are not off is empty. */
  lemma {:induction false} ListingOfQuietDays(days: seq<Day>, dates: seq<int>)
    requires AllQuiet(days, dates)
    ensures Listing(days, dates) == ""
    decreases |dates|
  {
    if dates != [] {
      QuietTail(days, dates);
      ListingOfQuietDays(days, dates[1..]);
      QuietHead(days, dates);
    }
  }

  /** Every listed date inside the month names a quiet day. */
  predicate AllQuiet(days: seq<Day>, dates: seq<int>) {
    forall k :: 0 <= k < |dates| && 1 <= dates[k] <= |days| ==> Quiet(days[dates[k] - 1])
  }

  /** Quiet listed days stay quiet when the first date is dropped. */
  lemma QuietTail(days: seq<Day>, dates: seq<int>)
    requires dates != [] && AllQuiet(days, dates)
    ensures AllQuiet(days, dates[1..])
    ensures 1 <= dates[0] <= |days| ==> Quiet(days[dates[0] - 1])
  {
    var rest := dates[1..];
    forall k | 0 <= k < |rest| && 1 <= rest[k] <= |days|
      ensures Quiet(days[rest[k] - 1])
    {
      assert rest[k] == dates[k + 1];
    }
  }

  /** A quiet first day in front of an empty listing adds nothing. */
  lemma QuietHead(days: seq<Day>, dates: seq<int>)
    requires dates != [] && Listing(days, dates[1..]) == ""
    requires 1 <= dates[0] <= |days| ==> Quiet(days[dates[0] - 1])
    ensures Listing(days, dates) == ""
  {
    var p := Piece(days, dates[0]);
    assert p == "";
    assert Listing(days, dates) == p + Listing(days, dates[1..]);
  }

  lemma {:induction false} ListingAppend(days: seq<Day>, a: seq<int>, b: seq<int>)
    ensures Listing(days, a + b) == Listing(days, a) + Listing(days, b)
    decreases |a|
  {
    if a == [] {
      assert a + b == b;
    } else {
      var t := a[1..];
      assert a == [a[0]] + t;
      assert a + b == [a[0]] + (t + b);
      ListingCons(days, a[0], t);
      ListingCons(days, a[0], t + b);
      ListingAppend(days, t, b);
      ConcatAssoc(Piece(days, a[0]), Listing(days, t), Listing(days, b));
    }
  }

  /** Each listed date contributes its day's text at its place in the list:
      the views print the chosen days one after another, in order. */
  lemma {:induction false} ListingSplit(days: seq<Day>, dates: seq<int>, k: nat)
    requires k < |dates| && 1 <= dates[k] <= |days|
    ensures Listing(days, dates)
            == Listing(days, dates[..k]) + Shown(days[dates[k] - 1]) + Listing(days, dates[k + 1..])
  {
    var tail := [dates[k]] + dates[k + 1..];
    SplitAround(dates, k);
    var front, here, back := Listing(days, dates[..k]), Piece(days, dates[k]), Listing(days, dates[k + 1..]);
    ListingAppend(days, dates[..k], tail);
    ListingCons(days, dates[k], dates[k + 1..]);
    assert Listing(days, dates) == front + (here + back);
    ConcatAssoc(front, here, back);
    assert here == Shown(days[dates[k] - 1]);
  }

  lemma ListingCons(days: seq<Day>, date: int, rest: seq<int>)
    ensures Listing(days, [date] + rest) == Piece(days, date) + Listing(days, rest)
  {
    assert ([date] + rest)[1..] == rest;
  }

  /** `viewWeekSchedule`: the text of the listed week, or day error 5. */
  function ViewWeek(m: Month, s: int): (r: Result<string>)
    requires Shaped(m)
    ensures r.Err? <==> s < 1 || s > MonthLength
    ensures r.Err? ==> r.error == WeekViewOutOfRange
  {
    var ds :- WeekDates(s);
    WeekDatesAreTheBucket(s);
    Ok(Listing(m.days, ds))
  }

  /** `viewDaySchedule`: day error 3 outside [1, 31], else the day's text. */
  function ViewDay(m: Month, day: int): (r: Result<string>)
    requires Shaped(m)
    ensures r.Err? <==> day < 1 || day > MonthLength
    ensures r.Err? ==> r.error == DayViewOutOfRange
    ensures r.Ok? ==> (r.value == "   \n" <==> Quiet(m.days[day - 1]))
  {
    if day < 1 || day > MonthLength then Err(DayViewOutOfRange) else Ok("   " + Render(m.days[day - 1]) + "\n")
  }

  /** A week whose listed days are all quiet prints nothing, whatever the
      days outside the bucket hold. */
  lemma ViewWeekOfQuietWeek(m: Month, s: int)
    requires Shaped(m) && 1 <= s <= MonthLength
    requires forall d :: 1 <= d <= 30 && d / 7 == s / 7 ==> Quiet(m.days[d - 1])
    ensures ViewWeek(m, s) == Ok("")
  {
    var ds := WeekDates(s).value;
    WeekDatesAreTheBucket(s);
    forall k | 0 <= k < |ds| && 1 <= ds[k] <= |m.days|
      ensures Quiet(m.days[ds[k] - 1])
    {
      assert ds[k] in ds;
    }
    ListingOfQuietDays(m.days, ds);
  }

  /** A week view shows the text of each listed day, in its place. */
  lemma {:induction false} ViewWeekShowsDay(m: Month, s: int, ds: seq<int>, k: nat)
    requires Shaped(m) && WeekDates(s) == Ok(ds) && k < |ds|
    ensures 1 <= ds[k] <= 30
    ensures ViewWeek(m, s)
            == Ok(Listing(m.days, ds[..k]) + Shown(m.days[ds[k] - 1]) + Listing(m.days, ds[k + 1..]))
  {
    assert ViewWeek(m, s) == Ok(Listing(m.days, ds));
    ListingSplit(m.days, ds, k);
  }

  /** `displayScheduler`: a title line, then every day with something to show. */
  function MonthText(m: Month): string
    requires Shaped(m)
  {
    "\n\t\t\tSchedule - July 2024\n" + Listing(m.days, Dates(1, MonthLength + 1))
  }

  /** A freshly initialised month shows only its title line. */
  lemma InitialMonthText(currentDay: int)
    requires 1 <= currentDay
    ensures MonthText(InitialMonth(currentDay)) == "\n\t\t\tSchedule - July 2024\n"
  {
    var ds := InitializeDays();
    var dates := Dates(1, MonthLength + 1);
    assert InitialMonth(currentDay).days == ds;
    forall k | 0 <= k < |dates| && 1 <= dates[k] <= |ds|
      ensures Quiet(ds[dates[k] - 1])
    {
      var i := dates[k] - 1;
      assert !ds[i].isDayOff && ds[i].events == [];
    }
    ListingOfQuietDays(ds, dates);
  }

  /** Whether some event of `es` has the title and a repeat type other than
      "none". */
  function Repeating(es: seq<Event>, title: string): (b: bool)
    ensures b <==> exists k :: 0 <= k < |es| && es[k].title == title && es[k].repeatType != "none"
  {
    if es == [] then false
    else
      assert forall k :: 0 < k < |es| ==> es[k] == es[1..][k - 1];
      (es[0].title == title && es[0].repeatType != "none") || Repeating(es[1..], title)
  }

  /** The events on `date`. */
  function EventsOn(m: Month, date: int): seq<Event>
    requires Shaped(m) && 1 <= date <= MonthLength
  {
    m.days[date - 1].events
  }

  /** `isEventRepeating`: the date is used as an index without a check, so
      the caller must pass one of the month's dates (the menu does). */
  function IsEventRepeating(m: Month, date: int, title: string): (b: bool)
    requires Shaped(m) && 1 <= date <= MonthLength
    ensures b <==> exists e :: e in EventsOn(m, date) && e.title == title && e.repeatType != "none"
  {
    Repeating(EventsOn(m, date), title)
  }
}
