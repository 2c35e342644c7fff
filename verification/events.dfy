/** Events: a titled interval of one day with a free-text repeat type. */
module Events {
  import opened Errors
  import opened Text
  import opened Times

  /** The repeat type is free text; only "daily" and "weekly" trigger
      repetition when the event is scheduled. */
  datatype Event = Event(title: string, start: Time, end: Time, repeatType: string)

  /** The default-constructed event: "EVENT" from 00:00 to 00:00, "none". */
  const DefaultEvent: Event := Event("EVENT", Midnight, Midnight, "none")

  /** The constructor: only an end strictly before the start is rejected
      (event error 6), so a zero-length event is accepted. */
  function MakeEvent(title: string, start: Time, end: Time, repeatType: string): (r: Result<Event>)
    ensures r.Err? <==> Less(end, start)
    ensures r.Err? ==> r.error == EventInvalidInterval
    ensures r.Ok? ==> r.value == Event(title, start, end, repeatType)
    ensures r.Ok? ==> !Less(r.value.end, r.value.start)
  {
    if Less(end, start) then Err(EventInvalidInterval) else Ok(Event(title, start, end, repeatType))
  }

  /** `overlaps`: the half-open intervals [start, end) intersect. */
  predicate Overlaps(a: Event, b: Event) {
    Less(a.start, b.end) && Greater(a.end, b.start)
  }

  lemma OverlapsSymmetric(a: Event, b: Event)
    ensures Overlaps(a, b) <==> Overlaps(b, a)
  {
  }

  /** An event that ends exactly when another starts does not overlap it. */
  lemma AdjacentEventsDoNotOverlap(a: Event, b: Event)
    requires a.end == b.start
    ensures !Overlaps(a, b) && !Overlaps(b, a)
  {
  }

  /** An event overlaps itself exactly when it has positive length; two
      zero-length events at the same instant never overlap. */
  lemma SelfOverlap(a: Event, b: Event)
    ensures Overlaps(a, a) <==> Less(a.start, a.end)
    ensures a.start == a.end && b.start == b.end && a.start == b.start ==> !Overlaps(a, b)
  {
  }

  /** Independent reading of `overlaps` on valid times: the intervals of
      minutes [start, end) of the two events share a minute boundary inside
      both, i.e. each starts before the other ends. */
  lemma {:induction false} OverlapsAsMinuteIntervals(a: Event, b: Event)
    requires Valid(a.start) && Valid(a.end) && Valid(b.start) && Valid(b.end)
    ensures Overlaps(a, b) <==>
              MinuteOfDay(a.start) < MinuteOfDay(b.end) && MinuteOfDay(b.start) < MinuteOfDay(a.end)
  {
    LessIsMinuteOrder(a.start, b.end);
    LessIsMinuteOrder(b.start, a.end);
    GreaterIsConverse(a.end, b.start);
  }

  /** `toString`: the line shown in day listings. */
  function Display(e: Event): string {
    e.title + " from " + ToString(e.start) + " to " + ToString(e.end) + " (" + e.repeatType + ")"
  }

  /** `formatEventDataToString`: `title|HH:MM|HH:MM|repeatType`. */
  function Record(e: Event): string {
    e.title + "|" + ToString(e.start) + "|" + ToString(e.end) + "|" + e.repeatType
  }

  /** `extractEventData`, applied to the event `e`: title, start text and end
      text are read up to a `|` each, the repeat type up to the end of the
      line. A field the exhausted stream cannot reach leaves the title or
      repeat type as it was and the time text empty. The interval check of
      the constructor is not applied. */
  function ExtractEventData(e: Event, s: string): (r: Result<Event>)
    ensures r.Ok? ==> Valid(r.value.start) && Valid(r.value.end)
    ensures r.Ok? ==> r.value.title == s[..IndexOf(s, '|')]
  {
    var f := SplitRecord(e, s);
    ParseFields(f.title, f.startText, f.endText, f.repeatType)
  }

  /** The four text fields of a record, before the times are parsed. */
  datatype Fields = Fields(title: string, startText: string, endText: string, repeatType: string)

  /** The four `getline` calls of `extractEventData`. */
  function SplitRecord(e: Event, s: string): (f: Fields)
    ensures f.title == s[..IndexOf(s, '|')]
  {
    var g1 := GetLine(Good(s), '|');
    var g2 := GetLine(g1.next, '|');
    var g3 := GetLine(g2.next, '|');
    var g4 := GetLine(g3.next, '\n');
    Fields(g1.field.GetOr(e.title), g2.field.GetOr(""), g3.field.GetOr(""), g4.field.GetOr(e.repeatType))
  }

  /** The two `fromString` calls of `extractEventData`, start first. */
  function ParseFields(title: string, startText: string, endText: string, repeatType: string): (r: Result<Event>)
    ensures r.Ok? ==> r.value.title == title && r.value.repeatType == repeatType
    ensures r.Ok? ==> Valid(r.value.start) && Valid(r.value.end)
  {
    var start :- FromString(startText);
    var end :- FromString(endText);
    Ok(Event(title, start, end, repeatType))
  }

  /** The fields survive a record line: no `|` or newline in the title, no
      newline in the repeat type, and valid times. */
  predicate RecordSafe(e: Event) {
    '|' !in e.title && '\n' !in e.title && '\n' !in e.repeatType && Valid(e.start) && Valid(e.end)
  }

  lemma TimeTextIsPlain(t: Time)
    requires Valid(t)
    ensures '|' !in ToString(t) && '\n' !in ToString(t)
  {
    var s := ToString(t);
    ToStringShape(t);
    forall i | 0 <= i < |s|
      ensures s[i] != '|' && s[i] != '\n'
    {
      if i < 2 {
        assert s[i] == s[..2][i];
      } else if i > 2 {
        assert s[i] == s[3..][i - 3];
      }
    }
  }

  /** A record line of a safe event holds no newline. */
  lemma RecordIsPlain(e: Event)
    requires RecordSafe(e)
    ensures '\n' !in Record(e)
  {
    TimeTextIsPlain(e.start);
    TimeTextIsPlain(e.end);
    var bar: string := "|";
    var a, b, c, d := e.title, ToString(e.start), ToString(e.end), e.repeatType;
    NotInJoin('\n', a, bar, b);
    NotInJoin('\n', a + bar + b, bar, c);
    NotInJoin('\n', a + bar + b + bar + c, bar, d);
  }

  /** Four fields joined by `|` are split back into the same four fields. */
  lemma {:induction false} ExtractOfFields(prior: Event, a: string, b: string, c: string, d: string)
    requires '|' !in a && '|' !in b && '|' !in c && '\n' !in d
    ensures SplitRecord(prior, a + "|" + b + "|" + c + "|" + d) == Fields(a, b, c, d)
  {
    ThreeFields(a, b, c, d);
    GetLineOfLine(d);
  }

  /** The three `|`-terminated fields are read in turn, leaving the last one. */
  lemma ThreeFields(a: string, b: string, c: string, d: string)
    requires '|' !in a && '|' !in b && '|' !in c
    ensures var g1 := GetLine(Good(a + "|" + b + "|" + c + "|" + d), '|');
            var g2 := GetLine(g1.next, '|');
            var g3 := GetLine(g2.next, '|');
            g1.field == Some(a) && g2.field == Some(b) && g3.field == Some(c) && g3.next == Good(d)
  {
    var bar: string := "|";
    var tail2 := c + bar + d;
    var tail1 := b + bar + tail2;
    RecordAssoc(a, b, c, d, bar);
    GetLineOfDelimited(a, '|', tail1);
    GetLineOfDelimited(b, '|', tail2);
    GetLineOfDelimited(c, '|', d);
  }

  /** The rest of a line without a newline is read whole. */
  lemma GetLineOfLine(d: string)
    requires '\n' !in d
    ensures GetLine(Good(d), '\n').field == Some(d)
  {
    assert d[..IndexOf(d, '\n')] == d;
  }

  /** Re-associates four fields joined by a separator, so that each
      `getline` sees one field followed by the rest. */
  lemma RecordAssoc(a: string, b: string, c: string, d: string, bar: string)
    ensures a + bar + b + bar + c + bar + d == a + bar + (b + bar + (c + bar + d))
  {
    ConcatAssoc(a + bar + b + bar, c + bar, d);
    ConcatAssoc(a + bar + b, bar, c);
    ConcatAssoc(a + bar, b + bar, c + bar + d);
    ConcatAssoc(a + bar, b, bar);
    ConcatAssoc(b + bar, c + bar, d);
  }

  /** Reading back a record restores title, start, end and repeat type,
      whatever event the record is read into. */
  lemma {:induction false} ExtractRecord(prior: Event, e: Event)
    requires RecordSafe(e)
    ensures ExtractEventData(prior, Record(e)) == Ok(e)
  {
    TimeTextIsPlain(e.start);
    TimeTextIsPlain(e.end);
    ExtractOfFields(prior, e.title, ToString(e.start), ToString(e.end), e.repeatType);
    FromStringOfToString(e.start);
    FromStringOfToString(e.end);
  }

  /** Decoding does not re-check the interval: a record whose end precedes
      its start is read back although the constructor rejects that event. */
  lemma ExtractSkipsIntervalCheck(prior: Event, e: Event)
    requires RecordSafe(e) && Less(e.end, e.start)
    ensures ExtractEventData(prior, Record(e)) == Ok(e)
    ensures MakeEvent(e.title, e.start, e.end, e.repeatType) == Err(EventInvalidInterval)
  {
    ExtractRecord(prior, e);
  }
}
