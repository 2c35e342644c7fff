/** Clock-of-day values: an hour and a minute within one day. */
module Times {
  import opened Errors
  import opened Text

  /** The fields are plain ints, as in the source; `Valid` is the range that
      construction and parsing enforce. */
  datatype Time = Time(hour: int, minute: int)

  /** The default-constructed time, 00:00. */
  const Midnight: Time := Time(0, 0)

  predicate Valid(t: Time) {
    0 <= t.hour < 24 && 0 <= t.minute < 60
  }

  /** The constructor: rejects an hour outside [0,24) or a minute outside
      [0,60) with time error 1. */
  function MakeTime(hour: int, minute: int): (r: Result<Time>)
    ensures r.Ok? <==> 0 <= hour < 24 && 0 <= minute < 60
    ensures r.Ok? ==> r.value.hour == hour && r.value.minute == minute && Valid(r.value)
    ensures r.Err? ==> r.error == TimeInvalid
  {
    if hour < 0 || hour >= 24 || minute < 0 || minute >= 60 then Err(TimeInvalid)
    else Ok(Time(hour, minute))
  }

  /** `isSmallerComparedTo`: strictly earlier, comparing hours then minutes. */
  predicate Less(a: Time, b: Time) {
    a.hour < b.hour || (a.hour == b.hour && a.minute < b.minute)
  }

  /** `isLargerComparedTo`: strictly later, comparing hours then minutes. */
  predicate Greater(a: Time, b: Time) {
    a.hour > b.hour || (a.hour == b.hour && a.minute > b.minute)
  }

  /** Minutes since midnight, the numeric meaning of a valid time. */
  function MinuteOfDay(t: Time): int {
    t.hour * 60 + t.minute
  }

  lemma LessIrreflexive(a: Time)
    ensures !Less(a, a)
  {
  }

  lemma LessTransitive(a: Time, b: Time, c: Time)
    requires Less(a, b) && Less(b, c)
    ensures Less(a, c)
  {
  }

  /** "Larger" is "smaller" with the arguments swapped, and any two times are
      either equal or ordered one way, never both. */
  lemma GreaterIsConverse(a: Time, b: Time)
    ensures Greater(a, b) <==> Less(b, a)
    ensures a == b || Less(a, b) || Less(b, a)
    ensures !(Less(a, b) && Less(b, a))
    ensures a == b ==> !Less(a, b) && !Greater(a, b)
  {
  }

  /** On valid times the lexicographic comparison is the numeric order of
      minutes since midnight. */
  lemma {:induction false} LessIsMinuteOrder(a: Time, b: Time)
    requires Valid(a) && Valid(b)
    ensures Less(a, b) <==> MinuteOfDay(a) < MinuteOfDay(b)
  {
    if a.hour < b.hour {
      assert a.hour * 60 + 60 <= b.hour * 60;
    } else if a.hour > b.hour {
      assert b.hour * 60 + 60 <= a.hour * 60;
    }
  }

  /** Two decimal digits, with a leading zero below ten. */
  function Pad2(n: int): string {
    (if n < 10 then "0" else "") + IntToString(n)
  }

  /** `toString`: zero-padded `HH:MM`. */
  function ToString(t: Time): string {
    Pad2(t.hour) + ":" + Pad2(t.minute)
  }

  lemma {:induction false} Pad2Shape(n: int)
    requires 0 <= n < 100
    ensures |Pad2(n)| == 2 && AllDigits(Pad2(n)) && DigitsValue(Pad2(n)) == n
  {
    var p := Pad2(n);
    if n < 10 {
      assert p == ['0', DigitChar(n)];
      assert p[..1] == "0";
      assert p[..1][..0] == [];
      DigitCharValue(n);
      assert DigitsValue(p[..1]) == 0;
      assert p[..|p| - 1] == p[..1];
      assert DigitsValue(p) == n;
    } else {
      assert NatToDigits(n) == NatToDigits(n / 10) + [DigitChar(n % 10)];
      assert p == [DigitChar(n / 10), DigitChar(n % 10)];
      assert p[..1] == [DigitChar(n / 10)];
      assert p[..1][..0] == [];
      DigitCharValue(n / 10);
      DigitCharValue(n % 10);
      assert DigitsValue(p[..1]) == n / 10;
      assert p[..|p| - 1] == p[..1];
      assert DigitsValue(p) == 10 * (n / 10) + n % 10;
    }
  }

  /** A valid time prints as exactly five characters: two digits for the
      hour, a colon, two digits for the minute. */
  lemma ToStringShape(t: Time)
    requires Valid(t)
    ensures |ToString(t)| == 5 && ToString(t)[2] == ':'
    ensures AllDigits(ToString(t)[..2]) && DigitsValue(ToString(t)[..2]) == t.hour
    ensures AllDigits(ToString(t)[3..]) && DigitsValue(ToString(t)[3..]) == t.minute
  {
    var s := ToString(t);
    Pad2Shape(t.hour);
    Pad2Shape(t.minute);
    assert s[..2] == Pad2(t.hour);
    assert s[3..] == Pad2(t.minute);
  }

  /** `fromString`: the stream reads an hour, one separator character and a
      minute, then checks the ranges (time error 1). Only the well-formed
      subset is modelled: each number must be a run of decimal digits and the
      separator a character other than a digit or a blank; any other text is
      reported as `MalformedText`. Text after the minute's digits is ignored,
      as the stream extraction ignores it. */
  function FromString(s: string): (r: Result<Time>)
    ensures r.Ok? ==> Valid(r.value)
    ensures r.Err? ==> r.error == TimeInvalid || r.error == MalformedText
  {
    var k := DigitPrefixLength(s);
    if k == 0 || k == |s| || IsSpace(s[k]) then Err(MalformedText)
    else
      var rest := s[k + 1..];
      var m := DigitPrefixLength(rest);
      if m == 0 then Err(MalformedText)
      else
        var hour := DigitsValue(s[..k]);
        var minute := DigitsValue(rest[..m]);
        if hour >= 24 || minute >= 60 then Err(TimeInvalid) else Ok(Time(hour, minute))
  }

  lemma DigitsRun(d: string, tail: string)
    requires d != [] && AllDigits(d)
    requires tail == [] || !IsDigit(tail[0])
    ensures DigitPrefixLength(d + tail) == |d|
    ensures (d + tail)[..|d|] == d
  {
    var s := d + tail;
    var k := DigitPrefixLength(s);
    assert s[..|d|] == d;
  }

  /** Parsing `H:M` written with undecorated digits accepts exactly the
      in-range pairs, and rejects the rest with time error 1. */
  lemma FromStringOfFields(h: nat, m: nat)
    ensures h < 24 && m < 60 ==> FromString(NatToDigits(h) + ":" + NatToDigits(m)) == Ok(Time(h, m))
    ensures h >= 24 || m >= 60 ==> FromString(NatToDigits(h) + ":" + NatToDigits(m)) == Err(TimeInvalid)
  {
    FromStringOfRuns(NatToDigits(h), NatToDigits(m));
    DigitsValueOfNatToDigits(h);
    DigitsValueOfNatToDigits(m);
  }

  /** Two digit runs around a colon are read as hour and minute. */
  lemma FromStringOfRuns(hd: string, md: string)
    requires hd != [] && AllDigits(hd) && md != [] && AllDigits(md)
    ensures var h, m := DigitsValue(hd), DigitsValue(md);
            FromString(hd + ":" + md) == if h >= 24 || m >= 60 then Err(TimeInvalid) else Ok(Time(h, m))
  {
    ColonSplit(hd, md);
    assert md == md + [];
    DigitsRun(md, []);
  }

  /** The hour's digit run ends at the colon, and the minute's text follows it. */
  lemma ColonSplit(hd: string, md: string)
    requires hd != [] && AllDigits(hd)
    ensures var s := hd + ":" + md;
            && DigitPrefixLength(s) == |hd| && s[..|hd|] == hd
            && s[|hd|] == ':' && s[|hd| + 1..] == md
  {
    var s := hd + ":" + md;
    assert s == hd + (":" + md);
    DigitsRun(hd, ":" + md);
  }

  /** Printing then parsing a valid time restores its hour and minute. */
  lemma FromStringOfToString(t: Time)
    requires Valid(t)
    ensures FromString(ToString(t)) == Ok(t)
  {
    var s := ToString(t);
    ToStringShape(t);
    assert s == s[..2] + s[2..];
    DigitsRun(s[..2], s[2..]);
    assert s[3..] == s[3..] + [];
    DigitsRun(s[3..], []);
  }
}
