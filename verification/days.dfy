/** One calendar day: at most ten events kept in start order, and a day-off flag. */
module Days {
  import opened Errors
  import opened Text
  import opened Times
  import opened Events
  import opened Ordering

  /** The size of the fixed event array of a day. */
  const Capacity: nat := 10

  /** `events` holds the occupied prefix of the source's fixed array, so its
      length is the event count. */
  datatype Day = Day(date: int, dayOfWeek: string, isDayOff: bool, events: seq<Event>)

  /** The constructor: not off, no events. */
  function NewDay(date: int, dayOfWeek: string): Day {
    Day(date, dayOfWeek, false, [])
  }

  predicate NoOverlaps(es: seq<Event>) {
    forall p, q :: 0 <= p < q < |es| ==> !Overlaps(es[p], es[q])
  }

  /** What every day keeps: at most ten events, sorted by start, pairwise
      non-overlapping, and none while the day is off. */
  predicate Valid(d: Day) {
    && |d.events| <= Capacity
    && SortedByStart(d.events)
    && NoOverlaps(d.events)
    && (d.isDayOff ==> d.events == [])
  }

  /** Every day of a sequence is valid. */
  predicate AllValid(ds: seq<Day>) {
    forall i :: 0 <= i < |ds| ==> Valid(ds[i])
  }

  /** The two days differ at most in their events. */
  predicate SameButEvents(a: Day, b: Day) {
    a.date == b.date && a.dayOfWeek == b.dayOfWeek && a.isDayOff == b.isDayOff
  }

  /** Whether the candidate `e` overlaps one of `es`, tested as `e.overlaps(x)`. */
  predicate OverlapsAny(es: seq<Event>, e: Event) {
    exists i :: 0 <= i < |es| && Overlaps(e, es[i])
  }

  /** `addEvent`: refuses a day off (day error 1), then an overlap with any
      present event (event error 1), and only then a full day (event error
      2); otherwise appends the event and re-sorts. */
  function AddEvent(d: Day, e: Event): (r: Result<Day>)
    ensures d.isDayOff ==> r == Err(DayIsOff)
    ensures !d.isDayOff && OverlapsAny(d.events, e) ==> r == Err(EventOverlap)
    ensures !d.isDayOff && !OverlapsAny(d.events, e) && |d.events| >= Capacity ==> r == Err(EventDayFull)
    ensures r.Ok? <==> !d.isDayOff && !OverlapsAny(d.events, e) && |d.events| < Capacity
    ensures r.Ok? ==> SameButEvents(r.value, d)
  {
    if d.isDayOff then Err(DayIsOff)
    else if OverlapsAny(d.events, e) then Err(EventOverlap)
    else if |d.events| >= Capacity then Err(EventDayFull)
    else Ok(d.(events := SortByStart(d.events + [e])))
  }

  /** An accepted event joins the day's events, which stay sorted by start
      and gain exactly one entry. */
  lemma AddEventContents(d: Day, e: Event)
    requires AddEvent(d, e).Ok?
    ensures |AddEvent(d, e).value.events| == |d.events| + 1
    ensures multiset(AddEvent(d, e).value.events) == multiset(d.events) + multiset{e}
    ensures SortedByStart(AddEvent(d, e).value.events)
  {
    assert |multiset(d.events + [e])| == |d.events + [e]|;
  }

  /** On a valid day the re-sort amounts to a stable insertion: the new event
      goes after every event starting no later than it. The day stays valid. */
  lemma AddEventKeepsValid(d: Day, e: Event)
    requires Valid(d) && AddEvent(d, e).Ok?
    ensures AddEvent(d, e).value.events == Insert(d.events, e)
    ensures Valid(AddEvent(d, e).value)
  {
    SortAfterAppend(d.events, e);
    InsertKeepsSorted(d.events, e);
    InsertKeepsNoOverlaps(d.events, e);
  }

  /** Inserting an event that overlaps none of a non-overlapping list keeps
      the list free of overlaps. */
  lemma InsertKeepsNoOverlaps(es: seq<Event>, e: Event)
    requires NoOverlaps(es) && !OverlapsAny(es, e)
    ensures NoOverlaps(Insert(es, e))
  {
    InsertSplit(es, e);
    var k := InsertPosition(es, e);
    var r := Insert(es, e);
    forall p, q | 0 <= p < q < |r|
      ensures !Overlaps(r[p], r[q])
    {
      InsertedPairDisjoint(es, e, k, r, p, q);
    }
  }

  lemma InsertedPairDisjoint(es: seq<Event>, e: Event, k: nat, r: seq<Event>, p: nat, q: nat)
    requires NoOverlaps(es) && !OverlapsAny(es, e)
    requires k <= |es| && r == es[..k] + [e] + es[k..] && p < q < |r|
    ensures !Overlaps(r[p], r[q])
  {
    if q < k {
      assert r[p] == es[p] && r[q] == es[q];
    } else if q == k {
      assert r[p] == es[p] && r[q] == e;
      assert !Overlaps(e, es[p]);
      OverlapsSymmetric(e, es[p]);
    } else if p < k {
      assert r[p] == es[p] && r[q] == es[q - 1];
    } else if p == k {
      assert r[p] == e && r[q] == es[q - 1];
      assert !Overlaps(e, es[q - 1]);
    } else {
      assert r[p] == es[p - 1] && r[q] == es[q - 1];
    }
  }

  /** Position of the first event titled `title`, or the count when none is. */
  function FirstWithTitle(es: seq<Event>, title: string): (k: nat)
    ensures k <= |es|
    ensures k < |es| ==> es[k].title == title
    ensures forall j :: 0 <= j < k ==> es[j].title != title
  {
    if es == [] then 0 else if es[0].title == title then 0 else 1 + FirstWithTitle(es[1..], title)
  }

  predicate HasTitle(es: seq<Event>, title: string) {
    exists i :: 0 <= i < |es| && es[i].title == title
  }

  function RemoveAt(es: seq<Event>, k: nat): seq<Event>
    requires k < |es|
  {
    es[..k] + es[k + 1..]
  }

  /** `deleteEvent`: removes the first event with the title, keeping the
      others in order; event error 3 when no event has the title. */
  function DeleteEvent(d: Day, title: string): (r: Result<Day>)
    ensures r.Err? <==> !HasTitle(d.events, title)
    ensures r.Err? ==> r.error == EventNotFound
    ensures r.Ok? ==> exists k :: 0 <= k < |d.events| && d.events[k].title == title
                                && (forall j :: 0 <= j < k ==> d.events[j].title != title)
                                && r.value == d.(events := RemoveAt(d.events, k))
  {
    var k := FirstWithTitle(d.events, title);
    if k == |d.events| then Err(EventNotFound) else Ok(d.(events := RemoveAt(d.events, k)))
  }

  /** Removing one event keeps a day valid. */
  lemma RemoveAtKeepsValid(d: Day, k: nat)
    requires Valid(d) && k < |d.events|
    ensures Valid(d.(events := RemoveAt(d.events, k)))
    ensures multiset(RemoveAt(d.events, k)) + multiset{d.events[k]} == multiset(d.events)
  {
    var es := d.events;
    var r := RemoveAt(es, k);
    assert es == es[..k] + [es[k]] + es[k + 1..];
    forall p, q | 0 <= p < q < |r|
      ensures StartsNoLater(r[p], r[q]) && !Overlaps(r[p], r[q])
    {
      var p' := if p < k then p else p + 1;
      var q' := if q < k then q else q + 1;
      assert r[p] == es[p'] && r[q] == es[q'];
    }
  }

  lemma DeleteEventKeepsValid(d: Day, title: string)
    requires Valid(d) && DeleteEvent(d, title).Ok?
    ensures Valid(DeleteEvent(d, title).value)
  {
    RemoveAtKeepsValid(d, FirstWithTitle(d.events, title));
  }

  /** `clearEvents`: drops every event; the flag is left as it is. */
  function ClearEvents(d: Day): Day {
    d.(events := [])
  }

  /** The result of an operation that may stop half-way: the days as they
      are when it stops, and the error it stopped with, if any. */
  datatype Outcome = Outcome(days: seq<Day>, error: Option<Error>)

  /** `shiftEvent` on the day with date `date` (1-based into `days`): finds
      the first event with the title (event error 3 when none), refuses an
      overlap with the events on the target (event error 7), then deletes the
      event here and adds it to the target. That add can still fail (target
      off or full) after the deletion, which is not undone. */
  function ShiftEvent(days: seq<Day>, date: int, title: string, newDate: int): (r: Outcome)
    requires 1 <= date <= |days| && 1 <= newDate <= |days|
    ensures |r.days| == |days|
    ensures r.error == Some(EventNotFound) <==> !HasTitle(days[date - 1].events, title)
    ensures r.error == Some(EventNotFound) || r.error == Some(EventShiftOverlap) ==> r.days == days
    ensures r.error.Some? ==> r.error.value in {EventNotFound, EventShiftOverlap, DayIsOff, EventDayFull}
    ensures forall i :: 0 <= i < |days| && i != date - 1 && i != newDate - 1 ==> r.days[i] == days[i]
    ensures forall i :: 0 <= i < |days| ==> SameButEvents(r.days[i], days[i])
    ensures HasTitle(days[date - 1].events, title) ==>
              (r.error == Some(EventShiftOverlap) <==>
               OverlapsAny(days[newDate - 1].events, days[date - 1].events[FirstWithTitle(days[date - 1].events, title)]))
  {
    var d := days[date - 1];
    var k := FirstWithTitle(d.events, title);
    if k == |d.events| then Outcome(days, Some(EventNotFound))
    else
      var e := d.events[k];
      if OverlapsAny(days[newDate - 1].events, e) then Outcome(days, Some(EventShiftOverlap))
      else
        var days1 := days[date - 1 := d.(events := RemoveAt(d.events, k))];
        assert forall i :: 0 <= i < |days| ==> SameButEvents(days1[i], days[i]);
        AddTo(days1, newDate, e)
  }

  /** The final add of a shift, on the days after the deletion: on failure
      the days stay as they are; on success only the target's events change. */
  function AddTo(days: seq<Day>, newDate: int, e: Event): (r: Outcome)
    requires 1 <= newDate <= |days| && !OverlapsAny(days[newDate - 1].events, e)
    ensures |r.days| == |days|
    ensures r.error.Some? ==> r.days == days && r.error.value in {DayIsOff, EventDayFull}
    ensures r.error.None? <==> AddEvent(days[newDate - 1], e).Ok?
    ensures r.error.None? ==> r.days == days[newDate - 1 := AddEvent(days[newDate - 1], e).value]
    ensures forall i :: 0 <= i < |days| ==> SameButEvents(r.days[i], days[i])
  {
    match AddEvent(days[newDate - 1], e)
    case Err(err) => Outcome(days, Some(err))
    case Ok(t) => Outcome(days[newDate - 1 := t], None)
  }

  /** A successful shift between two different days moves the first event
      with the title: the source loses exactly it and the target gains it. */
  lemma ShiftMovesEvent(days: seq<Day>, date: int, title: string, newDate: int)
    requires 1 <= date <= |days| && 1 <= newDate <= |days| && date != newDate
    requires ShiftEvent(days, date, title, newDate).error == None
    ensures var k := FirstWithTitle(days[date - 1].events, title);
            var r := ShiftEvent(days, date, title, newDate).days;
            && k < |days[date - 1].events|
            && r[date - 1] == days[date - 1].(events := RemoveAt(days[date - 1].events, k))
            && multiset(r[newDate - 1].events)
               == multiset(days[newDate - 1].events) + multiset{days[date - 1].events[k]}
            && r[newDate - 1] == days[newDate - 1].(events := r[newDate - 1].events)
  {
  }

  /** A successful shift to the event's own day keeps the day's events as a
      multiset and re-sorts them; on a valid day the event is taken out and
      put back after every event starting no later than it, so an event of
      length zero moves behind the others with its start. No other day
      changes. */
  lemma ShiftWithinDay(days: seq<Day>, date: int, title: string)
    requires 1 <= date <= |days|
    requires ShiftEvent(days, date, title, date).error == None
    ensures var d := days[date - 1];
            var k := FirstWithTitle(d.events, title);
            var r := ShiftEvent(days, date, title, date).days;
            && k < |d.events|
            && r == days[date - 1 := r[date - 1]]
            && r[date - 1] == d.(events := r[date - 1].events)
            && multiset(r[date - 1].events) == multiset(d.events)
            && SortedByStart(r[date - 1].events)
            && (Valid(d) ==> r[date - 1].events == Insert(RemoveAt(d.events, k), d.events[k]))
  {
    var d := days[date - 1];
    var k := FirstWithTitle(d.events, title);
    var e := d.events[k];
    var d1 := d.(events := RemoveAt(d.events, k));
    var days1 := days[date - 1 := d1];
    assert ShiftEvent(days, date, title, date) == AddTo(days1, date, e);
    AddEventContents(d1, e);
    assert d.events == d.events[..k] + [e] + d.events[k + 1..];
    if Valid(d) {
      RemoveAtKeepsValid(d, k);
      AddEventKeepsValid(d1, e);
    }
  }

  /** When the target is off or full, the shift still removes the event
      from the source, and the event is on neither day afterwards. */
  lemma ShiftLosesEventOnRefusedTarget(days: seq<Day>, date: int, title: string, newDate: int)
    requires 1 <= date <= |days| && 1 <= newDate <= |days| && date != newDate
    requires HasTitle(days[date - 1].events, title)
    requires !OverlapsAny(days[newDate - 1].events,
                          days[date - 1].events[FirstWithTitle(days[date - 1].events, title)])
    requires days[newDate - 1].isDayOff || |days[newDate - 1].events| >= Capacity
    ensures var k := FirstWithTitle(days[date - 1].events, title);
            var r := ShiftEvent(days, date, title, newDate);
            && r.error.Some? && r.error.value in {DayIsOff, EventDayFull}
            && r.days == days[date - 1 := days[date - 1].(events := RemoveAt(days[date - 1].events, k))]
  {
  }

  /** The event a shift moves: the first one on `date` with the title. */
  function ShiftedEvent(days: seq<Day>, date: int, title: string): Event
    requires 1 <= date <= |days| && HasTitle(days[date - 1].events, title)
  {
    days[date - 1].events[FirstWithTitle(days[date - 1].events, title)]
  }

  /** Room for one more event on the target once the shifted event has left
      its own day: a shift within one day frees a place first. */
  predicate RoomAfterRemoval(days: seq<Day>, date: int, newDate: int)
    requires 1 <= newDate <= |days|
  {
    |days[newDate - 1].events| - (if newDate == date then 1 else 0) < Capacity
  }

  /** How a shift of a present title ends, read off the two days: event
      error 7 on an overlap with the target's events; otherwise day error 1
      when the target is off, event error 2 when it has no room, and success
      exactly when none of these holds. */
  lemma ShiftOutcome(days: seq<Day>, date: int, title: string, newDate: int)
    requires 1 <= date <= |days| && 1 <= newDate <= |days|
    ensures HasTitle(days[date - 1].events, title) ==>
              var r := ShiftEvent(days, date, title, newDate);
              var clash := OverlapsAny(days[newDate - 1].events, ShiftedEvent(days, date, title));
              var off := days[newDate - 1].isDayOff;
              var room := RoomAfterRemoval(days, date, newDate);
              && (r.error == Some(EventShiftOverlap) <==> clash)
              && (r.error == Some(DayIsOff) <==> !clash && off)
              && (r.error == Some(EventDayFull) <==> !clash && !off && !room)
              && (r.error.None? <==> !clash && !off && room)
  {
    var d := days[date - 1];
    var k := FirstWithTitle(d.events, title);
    if HasTitle(d.events, title) {
      var i :| 0 <= i < |d.events| && d.events[i].title == title;
      assert k < |d.events|;
      var e := d.events[k];
      if !OverlapsAny(days[newDate - 1].events, e) {
        var days1 := days[date - 1 := d.(events := RemoveAt(d.events, k))];
        var t := days1[newDate - 1];
        assert t.isDayOff == days[newDate - 1].isDayOff;
        if newDate == date {
          RemoveAtNoOverlap(d.events, k, e);
          assert |t.events| == |d.events| - 1;
        }
        assert !OverlapsAny(t.events, e);
        assert |t.events| < Capacity <==> RoomAfterRemoval(days, date, newDate);
      }
    }
  }

  /** Removing an event cannot create an overlap. */
  lemma RemoveAtNoOverlap(es: seq<Event>, k: nat, e: Event)
    requires k < |es| && !OverlapsAny(es, e)
    ensures !OverlapsAny(RemoveAt(es, k), e)
  {
    var r := RemoveAt(es, k);
    forall i | 0 <= i < |r|
      ensures !Overlaps(e, r[i])
    {
      if i < k {
        assert r[i] == es[i];
      } else {
        assert r[i] == es[i + 1];
      }
    }
  }

  /** Shifting an event of positive length to its own day is refused: it
      overlaps itself on the target, so the days stay as they are. */
  lemma SameDayShiftRefused(days: seq<Day>, date: int, title: string)
    requires 1 <= date <= |days| && HasTitle(days[date - 1].events, title)
    requires Less(ShiftedEvent(days, date, title).start, ShiftedEvent(days, date, title).end)
    ensures ShiftEvent(days, date, title, date) == Outcome(days, Some(EventShiftOverlap))
  {
    var d := days[date - 1];
    var k := FirstWithTitle(d.events, title);
    var i :| 0 <= i < |d.events| && d.events[i].title == title;
    assert k < |d.events|;
    SelfOverlap(d.events[k], d.events[k]);
    assert Overlaps(d.events[k], d.events[k]);
  }

  /** Every day stays valid across a shift, whether it succeeds or not. */
  lemma ShiftKeepsValid(days: seq<Day>, date: int, title: string, newDate: int)
    requires 1 <= date <= |days| && 1 <= newDate <= |days|
    requires forall i :: 0 <= i < |days| ==> Valid(days[i])
    ensures forall i :: 0 <= i < |days| ==> Valid(ShiftEvent(days, date, title, newDate).days[i])
  {
    var r := ShiftEvent(days, date, title, newDate);
    var d := days[date - 1];
    var k := FirstWithTitle(d.events, title);
    if k < |d.events| && !OverlapsAny(days[newDate - 1].events, d.events[k]) {
      var e := d.events[k];
      RemoveAtKeepsValid(d, k);
      var days1 := days[date - 1 := d.(events := RemoveAt(d.events, k))];
      var added := AddEvent(days1[newDate - 1], e);
      if added.Ok? {
        AddEventKeepsValid(days1[newDate - 1], e);
        assert r.days == days1[newDate - 1 := added.value];
      } else {
        assert r.days == days1;
      }
      forall i | 0 <= i < |days|
        ensures Valid(r.days[i])
      {
        if i != newDate - 1 || added.Err? {
          assert r.days[i] == days1[i];
        }
      }
    } else {
      assert r.days == days;
    }
  }

  /** The line of `toString` for one event. */
  function EventLine(e: Event): string {
    "  " + Display(e) + "\n"
  }

  /** The lines of `toString` for the events, in stored order. */
  function EventLines(es: seq<Event>): string {
    if es == [] then "" else EventLine(es[0]) + EventLines(es[1..])
  }

  function Header(d: Day): string {
    "\n" + IntToString(d.date) + " July 2024 (" + d.dayOfWeek + ")"
    + (if d.isDayOff then " (Day Off)" else "") + "\n"
  }

  /** `toString`: empty for a day with nothing to show, else the header and
      one line per event. */
  function Render(d: Day): (r: string)
    ensures r == "" <==> d.events == [] && !d.isDayOff
  {
    if |d.events| == 0 && !d.isDayOff then "" else Header(d) + EventLines(d.events)
  }

  lemma {:induction false} EventLinesAppend(a: seq<Event>, b: seq<Event>)
    ensures EventLines(a + b) == EventLines(a) + EventLines(b)
    decreases |a|
  {
    if a == [] {
      assert a + b == b;
    } else {
      assert a + b == [a[0]] + (a[1..] + b);
      EventLinesCons(a[0], a[1..] + b);
      EventLinesAppend(a[1..], b);
      ConcatAssoc(EventLine(a[0]), EventLines(a[1..]), EventLines(b));
    }
  }

  lemma {:induction false} EventLinesSplit(es: seq<Event>, i: nat)
    requires i < |es|
    ensures EventLines(es) == EventLines(es[..i]) + EventLine(es[i]) + EventLines(es[i + 1..])
  {
    var tail := [es[i]] + es[i + 1..];
    SplitAround(es, i);
    var a, b, c := EventLines(es[..i]), EventLine(es[i]), EventLines(es[i + 1..]);
    EventLinesAppend(es[..i], tail);
    EventLinesCons(es[i], es[i + 1..]);
    assert EventLines(es) == a + (b + c);
    ConcatAssoc(a, b, c);
  }

  lemma EventLinesCons(e: Event, rest: seq<Event>)
    ensures EventLines([e] + rest) == EventLine(e) + EventLines(rest)
  {
    assert ([e] + rest)[1..] == rest;
  }

  /** A rendered day lists its events in stored order: the line for event i
      follows the header and the lines of the events before it. */
  lemma {:induction false} RenderListsInOrder(d: Day, i: nat)
    requires i < |d.events|
    ensures Render(d) == Header(d) + EventLines(d.events[..i])
                         + EventLine(d.events[i]) + EventLines(d.events[i + 1..])
  {
    var h := Header(d);
    var a, b, c := EventLines(d.events[..i]), EventLine(d.events[i]), EventLines(d.events[i + 1..]);
    EventLinesSplit(d.events, i);
    assert Render(d) == h + (a + b + c);
    ConcatAssoc(h, a + b, c);
    ConcatAssoc(h, a, b);
  }

  /** The day-off line of `formatDayDataToString`, without its newline. */
  function OffLine(date: int): string {
    IntToString(date) + "|off|"
  }

  /** The line of `formatDayDataToString` for one event, without its newline. */
  function EventRecordLine(date: int, e: Event): string {
    IntToString(date) + "|" + Record(e)
  }

  function EventRecordLines(date: int, es: seq<Event>): (ls: seq<string>)
    ensures |ls| == |es|
  {
    MapSeq(e => EventRecordLine(date, e), es)
  }

  /** Line i of the event lines is the record line of event i: the
      per-line fact that `ReplayRecordLines` replays one event at a time. */
  lemma EventRecordLinesAt(date: int, es: seq<Event>, i: int)
    requires 0 <= i < |es|
    ensures EventRecordLines(date, es)[i] == EventRecordLine(date, es[i])
  {
  }

  /** The lines `formatDayDataToString` writes: the day-off line exactly when
      the day is off, then one line per event in stored order. */
  function RecordLines(d: Day): seq<string> {
    var events := EventRecordLines(d.date, d.events);
    if d.isDayOff then [OffLine(d.date)] + events else events
  }

  /** The day-off line comes first exactly when the day is off, and then
      come the event lines in stored order (line k of the events being the
      record line of event k, by `EventRecordLinesAt`). This is the layout
      `ReplayRecordLines` walks when it reads the lines back. */
  lemma {:induction false} RecordLinesContents(d: Day)
    ensures |RecordLines(d)| == |d.events| + (if d.isDayOff then 1 else 0)
    ensures d.isDayOff ==> RecordLines(d)[0] == OffLine(d.date)
    ensures d.isDayOff ==> forall k :: 0 <= k < |d.events| ==>
              RecordLines(d)[k + 1] == EventRecordLines(d.date, d.events)[k]
    ensures !d.isDayOff ==> RecordLines(d) == EventRecordLines(d.date, d.events)
  {
    if d.isDayOff {
      OffDayRecordLines(d);
    } else {
      WorkingDayRecordLines(d);
    }
  }

  /** On a day off the marker line is followed by the event lines. */
  lemma OffDayRecordLines(d: Day)
    requires d.isDayOff
    ensures |RecordLines(d)| == |d.events| + 1
    ensures RecordLines(d)[0] == OffLine(d.date)
    ensures forall k :: 0 <= k < |d.events| ==>
              RecordLines(d)[k + 1] == EventRecordLines(d.date, d.events)[k]
  {
    ConsIndex(OffLine(d.date), EventRecordLines(d.date, d.events));
  }

  /** A working day's save lines are its event lines alone. */
  lemma WorkingDayRecordLines(d: Day)
    requires !d.isDayOff
    ensures RecordLines(d) == EventRecordLines(d.date, d.events)
  {
  }

  /** `formatDayDataToString`: the record lines, each ended by a newline. */
  function FormatDayData(d: Day): string {
    JoinLines(RecordLines(d))
  }

  /** The outcome of replaying text into a day: the day as it stands when the
      replay ends, and the error that ended it early, if any. */
  datatype Replay = Replay(day: Day, error: Option<Error>)

  /** The first `|`-field of a line. */
  function FirstField(line: string): string {
    GetLine(Good(line), '|').field.GetOr("")
  }

  /** The second `|`-field of a line; when there is none the variable keeps
      the first field, as the reused string in the source does. */
  function SecondField(line: string): string {
    var g1 := GetLine(Good(line), '|');
    GetLine(g1.next, '|').field.GetOr(g1.field.GetOr(""))
  }

  /** `line.substr(line.find('|') + 1)`: the text after the first `|`, or the
      whole line when it has none. */
  function Payload(line: string): string {
    var bar := IndexOf(line, '|');
    if bar < |line| then line[bar + 1..] else line
  }

  /** One non-empty line of `extractDayData`. The first field, read with
      `stoi`, becomes the day's date; a second field `off` marks the day off
      and clears it; anything else is read as an event record and added. */
  function ReplayLine(d: Day, line: string): (r: Replay)
    ensures r.day.dayOfWeek == d.dayOfWeek
    ensures Stoi(FirstField(line)).Err? ==> r == Replay(d, Some(MalformedText))
    ensures Stoi(FirstField(line)).Ok? ==> r.day.date == Stoi(FirstField(line)).value
  {
    match Stoi(FirstField(line))
    case Err(err) => Replay(d, Some(err))
    case Ok(date) =>
      if SecondField(line) == "off" then Replay(ClearEvents(d.(date := date, isDayOff := true)), None)
      else ReplayRecord(d.(date := date), Payload(line))
  }

  /** The event branch: read the record into a default event, clear the
      day-off flag, add the event. */
  function ReplayRecord(d: Day, payload: string): (r: Replay)
    ensures r.day.dayOfWeek == d.dayOfWeek && r.day.date == d.date
  {
    match ExtractEventData(DefaultEvent, payload)
    case Err(err) => Replay(d, Some(err))
    case Ok(e) => ReplayAdd(d.(isDayOff := false), e)
  }

  function ReplayAdd(d: Day, e: Event): (r: Replay)
    ensures r.day.dayOfWeek == d.dayOfWeek && r.day.date == d.date
  {
    match AddEvent(d, e)
    case Err(err) => Replay(d, Some(err))
    case Ok(d3) => Replay(d3, None)
  }

  /** The line loop of `extractDayData`: empty lines are skipped and the
      first failing line ends the replay. */
  function ReplayLines(d: Day, lines: seq<string>): (r: Replay)
    ensures r.day.dayOfWeek == d.dayOfWeek
    decreases |lines|
  {
    if lines == [] then Replay(d, None)
    else if lines[0] == [] then ReplayLines(d, lines[1..])
    else
      var r1 := ReplayLine(d, lines[0]);
      if r1.error.Some? then r1 else ReplayLines(r1.day, lines[1..])
  }

  /** `extractDayData`. */
  function ExtractDayData(d: Day, s: string): Replay {
    ReplayLines(d, SplitLines(s))
  }

  /** Replaying one line keeps a day valid, also when it stops on an error. */
  lemma ReplayLineKeepsValid(d: Day, line: string)
    requires Valid(d)
    ensures Valid(ReplayLine(d, line).day)
  {
    var first := Stoi(FirstField(line));
    if first.Ok? && SecondField(line) != "off" {
      var d1 := d.(date := first.value);
      var x := ExtractEventData(DefaultEvent, Payload(line));
      if x.Ok? && AddEvent(d1.(isDayOff := false), x.value).Ok? {
        AddEventKeepsValid(d1.(isDayOff := false), x.value);
      }
    }
  }

  /** Replaying any text keeps a day valid, also when it stops on an error. */
  lemma {:induction false} ReplayLinesKeepsValid(d: Day, lines: seq<string>)
    requires Valid(d)
    ensures Valid(ReplayLines(d, lines).day)
    decreases |lines|
  {
    if lines != [] {
      if lines[0] == [] {
        ReplayLinesKeepsValid(d, lines[1..]);
      } else {
        ReplayLineKeepsValid(d, lines[0]);
        if ReplayLine(d, lines[0]).error.None? {
          ReplayLinesKeepsValid(ReplayLine(d, lines[0]).day, lines[1..]);
        }
      }
    }
  }

  lemma DigitsArePlain(n: int)
    requires 0 <= n
    ensures '|' !in IntToString(n) && '\n' !in IntToString(n)
  {
    assert AllDigits(IntToString(n));
  }

  /** The fields of a line `digits|x|rest`. */
  lemma FieldsOfLine(digits: string, x: string, rest: string)
    requires '|' !in digits && '|' !in x
    ensures FirstField(digits + "|" + x + "|" + rest) == digits
    ensures SecondField(digits + "|" + x + "|" + rest) == x
    ensures Payload(digits + "|" + x + "|" + rest) == x + "|" + rest
  {
    var tail := x + "|" + rest;
    var line := digits + ['|'] + tail;
    assert line == digits + "|" + x + "|" + rest;
    GetLineOfDelimited(digits, '|', tail);
    assert tail == x + ['|'] + rest;
    GetLineOfDelimited(x, '|', rest);
    assert line[|digits|] == '|';
    assert IndexOf(line, '|') == |digits|;
    assert line[|digits| + 1..] == tail;
  }

  /** Events that survive being written and replayed: record-safe fields and
      a title other than `off`. */
  predicate Replayable(d: Day) {
    && 0 <= d.date <= IntMax
    && forall i :: 0 <= i < |d.events| ==> RecordSafe(d.events[i]) && d.events[i].title != "off"
  }

  function RecordTail(e: Event): string {
    ToString(e.start) + "|" + ToString(e.end) + "|" + e.repeatType
  }

  /** A record is the title, a `|`, and the rest of the record. */
  lemma RecordSplit(e: Event)
    ensures Record(e) == e.title + "|" + RecordTail(e)
  {
    var x := e.title + "|";
    var s, b, t, p := ToString(e.start), "|", ToString(e.end), e.repeatType;
    ConcatAssoc(x, s + b + t + b, p);
    ConcatAssoc(x, s + b + t, b);
    ConcatAssoc(x, s + b, t);
    ConcatAssoc(x, s, b);
  }

  /** The fields of an event line: the date, the title, and the record. */
  lemma EventRecordLineFields(date: int, e: Event)
    requires 0 <= date <= IntMax && '|' !in e.title
    ensures Stoi(FirstField(EventRecordLine(date, e))) == Ok(date)
    ensures SecondField(EventRecordLine(date, e)) == e.title
    ensures Payload(EventRecordLine(date, e)) == Record(e)
  {
    var digits := IntToString(date);
    DigitsArePlain(date);
    StoiOfIntToString(date);
    RecordSplit(e);
    ConcatAssoc(digits + "|", e.title + "|", RecordTail(e));
    ConcatAssoc(digits + "|", e.title, "|");
    FieldsOfLine(digits, e.title, RecordTail(e));
  }

  /** An event line is read back as that event being added. */
  lemma ReplayEventLine(d: Day, date: int, e: Event)
    requires 0 <= date <= IntMax && RecordSafe(e) && e.title != "off"
    ensures ReplayLine(d, EventRecordLine(date, e)) == ReplayAdd(d.(date := date, isDayOff := false), e)
  {
    EventRecordLineFields(date, e);
    ExtractRecord(DefaultEvent, e);
  }

  /** A title `off` is taken for the day-off marker: replaying such an event
      line marks the day off and clears it instead of adding the event. */
  lemma ReplayOffTitledEvent(d: Day, date: int, e: Event)
    requires 0 <= date <= IntMax && e.title == "off"
    ensures ReplayLine(d, EventRecordLine(date, e))
            == Replay(ClearEvents(d.(date := date, isDayOff := true)), None)
  {
    EventRecordLineFields(date, e);
  }

  /** The `date|off|` line marks the day off and clears it. */
  lemma ReplayOffLine(d: Day, date: int)
    requires 0 <= date <= IntMax
    ensures ReplayLine(d, OffLine(date)) == Replay(ClearEvents(d.(date := date, isDayOff := true)), None)
  {
    DigitsArePlain(date);
    assert OffLine(date) == IntToString(date) + "|" + "off" + "|" + "";
    FieldsOfLine(IntToString(date), "off", "");
    StoiOfIntToString(date);
  }

  /** Adding the next event of a valid day to the events before it appends it. */
  lemma AddNextEvent(d: Day, i: nat)
    requires Valid(d) && !d.isDayOff && i < |d.events|
    ensures AddEvent(d.(events := d.events[..i]), d.events[i]) == Ok(d.(events := d.events[..i + 1]))
  {
    var pre := d.events[..i];
    var e := d.events[i];
    assert !OverlapsAny(pre, e) by {
      forall j | 0 <= j < i
        ensures !Overlaps(e, pre[j])
      {
        assert pre[j] == d.events[j];
        OverlapsSymmetric(e, d.events[j]);
      }
    }
    assert d.events[..i + 1] == pre + [e];
    assert SortedByStart(pre + [e]) by {
      forall p, q | 0 <= p < q < i + 1
        ensures StartsNoLater((pre + [e])[p], (pre + [e])[q])
      {
        assert (pre + [e])[p] == d.events[p] && (pre + [e])[q] == d.events[q];
      }
    }
    SortOfSorted(pre + [e]);
  }

  /** Replaying the event lines of a valid day's remaining events onto the
      day holding the events before them rebuilds the whole list. */
  lemma {:induction false} ReplayEventLines(d: Day, i: nat)
    requires Valid(d) && Replayable(d) && !d.isDayOff && i <= |d.events|
    ensures ReplayLines(d.(events := d.events[..i]), EventRecordLines(d.date, d.events[i..]))
            == Replay(d, None)
    decreases |d.events| - i
  {
    var pre := d.(events := d.events[..i]);
    var lines := EventRecordLines(d.date, d.events[i..]);
    if i == |d.events| {
      assert d.events[..i] == d.events;
      assert lines == [];
    } else {
      ReplayEventStep(d, i);
      ReplayEventLines(d, i + 1);
    }
  }

  /** Replaying the line of event i extends the events before it by event i. */
  lemma ReplayEventStep(d: Day, i: nat)
    requires Valid(d) && Replayable(d) && !d.isDayOff && i < |d.events|
    ensures ReplayLines(d.(events := d.events[..i]), EventRecordLines(d.date, d.events[i..]))
            == ReplayLines(d.(events := d.events[..i + 1]), EventRecordLines(d.date, d.events[i + 1..]))
  {
    var pre := d.(events := d.events[..i]);
    var lines := EventRecordLines(d.date, d.events[i..]);
    var e := d.events[i];
    EventRecordLinesTail(d.date, d.events[i..]);
    assert d.events[i..][1..] == d.events[i + 1..];
    ReplayEventLine(pre, d.date, e);
    assert pre.(date := d.date, isDayOff := false) == pre;
    AddNextEvent(d, i);
    var next := d.(events := d.events[..i + 1]);
    assert ReplayLine(pre, lines[0]) == Replay(next, None);
    assert lines[0] != [];
  }

  /** The event lines are the first event's line followed by the others'. */
  lemma EventRecordLinesTail(date: int, es: seq<Event>)
    requires es != []
    ensures EventRecordLines(date, es)[0] == EventRecordLine(date, es[0])
    ensures EventRecordLines(date, es)[1..] == EventRecordLines(date, es[1..])
  {
    EventRecordLinesAt(date, es, 0);
    MapSeqTail(e => EventRecordLine(date, e), es);
  }

  lemma EventRecordLineIsPlain(date: int, e: Event)
    requires 0 <= date && RecordSafe(e)
    ensures '\n' !in EventRecordLine(date, e)
  {
    DigitsArePlain(date);
    RecordIsPlain(e);
    NotInJoin('\n', IntToString(date), "|", Record(e));
  }

  lemma EventRecordLinesArePlain(date: int, es: seq<Event>)
    requires 0 <= date
    requires forall i :: 0 <= i < |es| ==> RecordSafe(es[i])
    ensures NoNewlines(EventRecordLines(date, es))
  {
    var ls := EventRecordLines(date, es);
    forall i | 0 <= i < |ls|
      ensures '\n' !in ls[i]
    {
      EventRecordLineIsPlain(date, es[i]);
    }
  }

  lemma OffLineIsPlain(date: int)
    requires 0 <= date
    ensures '\n' !in OffLine(date)
  {
    DigitsArePlain(date);
  }

  lemma NoNewlinesAppend(a: seq<string>, b: seq<string>)
    requires NoNewlines(a) && NoNewlines(b)
    ensures NoNewlines(a + b)
  {
    forall i | 0 <= i < |a + b|
      ensures '\n' !in (a + b)[i]
    {
      if i >= |a| {
        assert (a + b)[i] == b[i - |a|];
      }
    }
  }

  lemma RecordLinesArePlain(d: Day)
    requires Replayable(d)
    ensures NoNewlines(RecordLines(d))
  {
    var tail := EventRecordLines(d.date, d.events);
    EventRecordLinesArePlain(d.date, d.events);
    if d.isDayOff {
      OffLineIsPlain(d.date);
      NoNewlinesAppend([OffLine(d.date)], tail);
    } else {
      assert RecordLines(d) == tail;
    }
  }

  /** A non-empty line without newlines whose first field reads as `date`. */
  predicate LineOfDate(l: string, date: int) {
    l != [] && '\n' !in l && Stoi(FirstField(l)) == Ok(date)
  }

  lemma OffLineOfDate(date: int)
    requires 0 <= date <= IntMax
    ensures LineOfDate(OffLine(date), date)
  {
    OffLineIsPlain(date);
    DigitsArePlain(date);
    StoiOfIntToString(date);
    assert OffLine(date) == IntToString(date) + "|" + "off" + "|" + "";
    FieldsOfLine(IntToString(date), "off", "");
  }

  lemma EventRecordLineOfDate(date: int, e: Event)
    requires 0 <= date <= IntMax && RecordSafe(e)
    ensures LineOfDate(EventRecordLine(date, e), date)
  {
    EventRecordLineIsPlain(date, e);
    EventRecordLineFields(date, e);
    assert |EventRecordLine(date, e)| > 0;
  }

  predicate AllOfDate(ls: seq<string>, date: int) {
    forall i :: 0 <= i < |ls| ==> LineOfDate(ls[i], date)
  }

  lemma AllOfDateAppend(a: seq<string>, b: seq<string>, date: int)
    requires AllOfDate(a, date) && AllOfDate(b, date)
    ensures AllOfDate(a + b, date)
  {
    forall i | 0 <= i < |a + b|
      ensures LineOfDate((a + b)[i], date)
    {
      if i >= |a| {
        assert (a + b)[i] == b[i - |a|];
      }
    }
  }

  lemma EventRecordLinesOfDate(date: int, es: seq<Event>)
    requires 0 <= date <= IntMax
    requires forall i :: 0 <= i < |es| ==> RecordSafe(es[i])
    ensures AllOfDate(EventRecordLines(date, es), date)
  {
    var ls := EventRecordLines(date, es);
    forall i | 0 <= i < |ls|
      ensures LineOfDate(ls[i], date)
    {
      EventRecordLineOfDate(date, es[i]);
    }
  }

  /** Every record line of a day is a non-empty, newline-free line whose
      first field reads back as the day's date. */
  lemma RecordLinesLeadWithDate(d: Day)
    requires Replayable(d)
    ensures AllOfDate(RecordLines(d), d.date)
  {
    var tail := EventRecordLines(d.date, d.events);
    EventRecordLinesOfDate(d.date, d.events);
    if d.isDayOff {
      OffLineOfDate(d.date);
      AllOfDateAppend([OffLine(d.date)], tail, d.date);
    } else {
      assert RecordLines(d) == tail;
    }
  }

  /** Replaying a day's record lines into a new day with the same date and
      weekday restores the day-off flag and the events. */
  lemma ReplayRecordLines(d: Day)
    requires Valid(d) && Replayable(d)
    ensures ReplayLines(NewDay(d.date, d.dayOfWeek), RecordLines(d)) == Replay(d, None)
  {
    var ls := RecordLines(d);
    var start := NewDay(d.date, d.dayOfWeek);
    if d.isDayOff {
      assert ls == [OffLine(d.date)];
      ReplayOffLine(start, d.date);
      assert ReplayLines(start, ls) == ReplayLines(d, []);
    } else {
      assert ls == EventRecordLines(d.date, d.events[0..]);
      assert start == d.(events := d.events[..0]);
      ReplayEventLines(d, 0);
    }
  }

  /** Replaying what `formatDayDataToString` writes into a new day with the
      same date and weekday restores the day-off flag and the events. */
  lemma ReplayFormatDayData(d: Day)
    requires Valid(d) && Replayable(d)
    ensures ExtractDayData(NewDay(d.date, d.dayOfWeek), FormatDayData(d)) == Replay(d, None)
  {
    RecordLinesArePlain(d);
    SplitJoinLines(RecordLines(d));
    ReplayRecordLines(d);
  }
}
