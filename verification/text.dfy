/** Character-level helpers shared by the parsers and formatters: decimal
    digits, `to_string` on integers, the well-formed subset of `stoi`, and a
    model of `std::getline` on a string stream. */
module Text {
  import opened Errors

  const IntMax: int := 0x7fff_ffff

  predicate IsDigit(c: char) {
    '0' <= c <= '9'
  }

  predicate AllDigits(s: string) {
    forall i :: 0 <= i < |s| ==> IsDigit(s[i])
  }

  /** The characters a formatted stream extraction skips. */
  predicate IsSpace(c: char) {
    c == ' ' || c == '\t' || c == '\n' || c == '\r' || c == '\U{0b}' || c == '\U{0c}'
  }

  function DigitChar(d: nat): (c: char)
    requires d < 10
    ensures IsDigit(c)
  {
    ['0', '1', '2', '3', '4', '5', '6', '7', '8', '9'][d]
  }

  function DigitValue(c: char): nat
    requires IsDigit(c)
  {
    (c as int - '0' as int) as nat
  }

  /** Length of the longest prefix of `s` made of digits. */
  function DigitPrefixLength(s: string): (k: nat)
    ensures k <= |s|
    ensures AllDigits(s[..k])
    ensures k == |s| || !IsDigit(s[k])
  {
    if s == [] || !IsDigit(s[0]) then 0 else 1 + DigitPrefixLength(s[1..])
  }

  /** The number a run of decimal digits denotes. */
  function DigitsValue(s: string): nat
    requires AllDigits(s)
  {
    if s == [] then 0 else 10 * DigitsValue(s[..|s| - 1]) + DigitValue(s[|s| - 1])
  }

  /** Decimal representation of a natural number, without leading zeros. */
  function NatToDigits(n: nat): (s: string)
    ensures |s| >= 1
    ensures AllDigits(s)
    ensures n < 10 <==> |s| == 1
  {
    if n < 10 then [DigitChar(n)] else NatToDigits(n / 10) + [DigitChar(n % 10)]
  }

  /** `to_string` on an int. */
  function IntToString(i: int): string {
    if i < 0 then "-" + NatToDigits(-i) else NatToDigits(i)
  }

  lemma {:induction false} DigitCharValue(d: nat)
    requires d < 10
    ensures DigitValue(DigitChar(d)) == d
  {
  }

  /** Reading back a decimal representation gives the number again. */
  lemma {:induction false} DigitsValueOfNatToDigits(n: nat)
    ensures DigitsValue(NatToDigits(n)) == n
    decreases n
  {
    var s := NatToDigits(n);
    if n < 10 {
      DigitCharValue(n);
    } else {
      var p := NatToDigits(n / 10);
      assert s == p + [DigitChar(n % 10)];
      assert s[..|s| - 1] == p;
      DigitsValueOfNatToDigits(n / 10);
      DigitCharValue(n % 10);
    }
  }

  /** `stoi` restricted to text that begins with a decimal digit: the value of
      the leading digit run, or the out-of-range failure beyond `IntMax`.
      Text with leading blanks or a sign is outside the modelled subset. */
  function Stoi(s: string): (r: Result<int>)
    ensures r.Ok? ==> 0 <= r.value <= IntMax
    ensures r.Err? ==> r.error == MalformedText
    ensures DigitPrefixLength(s) == 0 ==> r.Err?
  {
    var k := DigitPrefixLength(s);
    if k == 0 then Err(MalformedText)
    else if DigitsValue(s[..k]) > IntMax then Err(MalformedText)
    else Ok(DigitsValue(s[..k]))
  }

  lemma StoiOfIntToString(n: int)
    requires 0 <= n <= IntMax
    ensures Stoi(IntToString(n)) == Ok(n)
  {
    var s := NatToDigits(n);
    assert s[..|s|] == s;
    DigitsValueOfNatToDigits(n);
  }

  /** Position of the first `c` in `s`, or `|s|` when there is none. */
  function IndexOf(s: string, c: char): (k: nat)
    ensures k <= |s|
    ensures k < |s| ==> s[k] == c
    ensures forall j :: 0 <= j < k ==> s[j] != c
  {
    if s == [] then 0 else if s[0] == c then 0 else 1 + IndexOf(s[1..], c)
  }

  /** A string stream as `std::getline` sees it: either still good with some
      text left (possibly none), or exhausted (end-of-file or fail bit set),
      in which case every further extraction fails. */
  datatype Stream = Good(rest: string) | Exhausted

  /** Outcome of one `getline`: the target string's new contents, or None
      when the target is left untouched, and the stream afterwards. */
  datatype Got = Got(field: Option<string>, next: Stream)

  /** `std::getline(stream, target, delim)`. On an exhausted stream nothing is
      extracted and the target keeps its contents; otherwise the target is
      overwritten with the text up to the delimiter, which is consumed. When
      no delimiter remains the stream hits end-of-file. */
  function GetLine(st: Stream, delim: char): (g: Got)
    ensures st.Exhausted? <==> g.field.None?
    ensures st.Good? ==> g.field.value == st.rest[..IndexOf(st.rest, delim)]
    ensures g.next.Good? <==> st.Good? && delim in st.rest
  {
    match st
    case Exhausted => Got(None, Exhausted)
    case Good(r) =>
      var i := IndexOf(r, delim);
      if i < |r| then Got(Some(r[..i]), Good(r[i + 1..])) else Got(Some(r), Exhausted)
  }

  /** A field written with a following delimiter is read back exactly and the
      stream continues right after the delimiter. */
  lemma GetLineOfDelimited(a: string, delim: char, b: string)
    requires delim !in a
    ensures GetLine(Good(a + [delim] + b), delim) == Got(Some(a), Good(b))
  {
    var s := a + [delim] + b;
    assert s[|a|] == delim;
    assert IndexOf(s, delim) == |a|;
    assert s[..|a|] == a;
    assert s[|a| + 1..] == b;
  }

  /** The lines a `while (getline(stream, line))` loop visits: each piece up
      to a newline, plus a final unterminated piece when it is not empty. */
  function SplitLines(s: string): seq<string>
    decreases |s|
  {
    if s == [] then []
    else
      var i := IndexOf(s, '\n');
      if i < |s| then [s[..i]] + SplitLines(s[i + 1..]) else [s]
  }

  /** Lines written one after another, each followed by a newline. */
  function JoinLines(ls: seq<string>): string {
    if ls == [] then "" else ls[0] + "\n" + JoinLines(ls[1..])
  }

  predicate NoNewlines(ls: seq<string>) {
    forall i :: 0 <= i < |ls| ==> '\n' !in ls[i]
  }

  lemma {:induction false} JoinLinesAppend(a: seq<string>, b: seq<string>)
    ensures JoinLines(a + b) == JoinLines(a) + JoinLines(b)
    decreases |a|
  {
    if a != [] {
      assert (a + b)[1..] == a[1..] + b;
      JoinLinesAppend(a[1..], b);
    } else {
      assert a + b == b;
    }
  }

  /** Splitting newline-terminated lines gives the lines back, empty ones included. */
  lemma {:induction false} SplitJoinLines(ls: seq<string>)
    requires NoNewlines(ls)
    ensures SplitLines(JoinLines(ls)) == ls
    decreases |ls|
  {
    if ls != [] {
      assert '\n' !in ls[0];
      SplitFirstLine(ls[0], JoinLines(ls[1..]));
      SplitJoinLines(ls[1..]);
    }
  }

  /** A line followed by a newline is split off the front of the text. */
  lemma SplitFirstLine(l: string, rest: string)
    requires '\n' !in l
    ensures SplitLines(l + "\n" + rest) == [l] + SplitLines(rest)
  {
    var s := l + "\n" + rest;
    assert s[|l|] == '\n';
    assert IndexOf(s, '\n') == |l|;
    assert s[..|l|] == l;
    assert s[|l| + 1..] == rest;
  }

  /** A value in none of three pieces is not in their concatenation. */
  lemma NotInJoin<T>(x: T, a: seq<T>, b: seq<T>, c: seq<T>)
    requires x !in a && x !in b && x !in c
    ensures x !in a + b + c
  {
  }

  lemma ConcatAssoc<T>(a: seq<T>, b: seq<T>, c: seq<T>)
    ensures a + (b + c) == a + b + c
  {
  }

  /** `f` applied to each element of `s`, in order. */
  function MapSeq<A, B>(f: A -> B, s: seq<A>): (r: seq<B>)
    ensures |r| == |s|
    ensures forall i :: 0 <= i < |s| ==> r[i] == f(s[i])
  {
    seq(|s|, i requires 0 <= i < |s| => f(s[i]))
  }

  /** Mapping commutes with dropping the first element. */
  lemma MapSeqTail<A, B>(f: A -> B, s: seq<A>)
    requires s != []
    ensures MapSeq(f, s)[1..] == MapSeq(f, s[1..])
  {
    var r, t := MapSeq(f, s), MapSeq(f, s[1..]);
    forall k | 0 <= k < |t|
      ensures r[1..][k] == t[k]
    {
      assert s[1..][k] == s[k + 1];
    }
  }

  /** Indexing into a sequence with one element put in front. */
  lemma ConsIndex<T>(x: T, t: seq<T>)
    ensures ([x] + t)[0] == x
    ensures forall k :: 1 <= k <= |t| ==> ([x] + t)[k] == t[k - 1]
  {
  }

  lemma SplitAround<T>(s: seq<T>, k: nat)
    requires k < |s|
    ensures s == s[..k] + ([s[k]] + s[k + 1..])
  {
  }

  /** A non-empty text without newlines is one line. */
  lemma SplitSingleLine(l: string)
    requires l != [] && '\n' !in l
    ensures SplitLines(l) == [l]
  {
    assert IndexOf(l, '\n') == |l|;
  }

  /** The lines a getline loop visits never contain the newline. */
  lemma {:induction false} SplitLinesArePlain(s: string)
    ensures NoNewlines(SplitLines(s))
    decreases |s|
  {
    if s != [] {
      var i := IndexOf(s, '\n');
      if i < |s| {
        SplitLinesArePlain(s[i + 1..]);
        var ls := SplitLines(s);
        assert ls == [s[..i]] + SplitLines(s[i + 1..]);
        forall j | 0 <= j < |ls|
          ensures '\n' !in ls[j]
        {
          if j == 0 {
            assert forall x :: 0 <= x < i ==> s[..i][x] == s[x];
          } else {
            assert ls[j] == SplitLines(s[i + 1..])[j - 1];
          }
        }
      }
    }
  }
}
