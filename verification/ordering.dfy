/** Ordering of a day's events by start time. The day re-sorts its array with
    a bubble sort after every insertion; the reference for what that sort
    computes is a stable insertion sort, `SortByStart`. */
module Ordering {
  import opened Times
  import opened Events
  import opened Text

  /** `x` may precede `y`: `y` does not start strictly before `x`. */
  predicate StartsNoLater(x: Event, y: Event) {
    !Less(y.start, x.start)
  }

  predicate SortedByStart(s: seq<Event>) {
    forall p, q :: 0 <= p < q < |s| ==> StartsNoLater(s[p], s[q])
  }

  /** Inserts `e` after every leading event that does not start after it, so
      `e` follows any event with the same start time. */
  function Insert(s: seq<Event>, e: Event): (r: seq<Event>)
    ensures |r| == |s| + 1
  {
    if s == [] then [e]
    else if Less(e.start, s[0].start) then [e] + s
    else [s[0]] + Insert(s[1..], e)
  }

  /** Inserting adds the new event and loses none of the others. */
  lemma {:induction false} InsertAddsOne(s: seq<Event>, e: Event)
    ensures multiset(Insert(s, e)) == multiset(s) + multiset{e}
    decreases |s|
  {
    if s != [] && !Less(e.start, s[0].start) {
      assert s == [s[0]] + s[1..];
      InsertAddsOne(s[1..], e);
    }
  }

  /** How many leading events `Insert` keeps in front of the new one. */
  function InsertPosition(s: seq<Event>, e: Event): (k: nat)
    ensures k <= |s|
  {
    if s == [] || Less(e.start, s[0].start) then 0 else 1 + InsertPosition(s[1..], e)
  }

  /** `Insert` splits the sequence at `InsertPosition`. */
  lemma {:induction false} InsertSplit(s: seq<Event>, e: Event)
    ensures Insert(s, e) == s[..InsertPosition(s, e)] + [e] + s[InsertPosition(s, e)..]
    decreases |s|
  {
    if s != [] && !Less(e.start, s[0].start) {
      var t := s[1..];
      var k := InsertPosition(t, e);
      InsertSplit(t, e);
      assert Insert(s, e) == [s[0]] + ((t[..k] + [e]) + t[k..]);
      assert s[..k + 1] == [s[0]] + t[..k];
      assert s[k + 1..] == t[k..];
      ConcatAssoc([s[0]], t[..k] + [e], t[k..]);
      ConcatAssoc([s[0]], t[..k], [e]);
    } else {
      assert s[..0] == [] && s[0..] == s;
    }
  }

  /** Everything kept in front of the new event starts no later than it, so
      events sharing its start time stay in front of it. */
  lemma {:induction false} InsertPositionBefore(s: seq<Event>, e: Event)
    ensures forall j :: 0 <= j < InsertPosition(s, e) ==> StartsNoLater(s[j], e)
    decreases |s|
  {
    if s != [] && !Less(e.start, s[0].start) {
      InsertPositionBefore(s[1..], e);
      forall j | 0 < j < InsertPosition(s, e)
        ensures StartsNoLater(s[j], e)
      {
        assert s[j] == s[1..][j - 1];
      }
    }
  }

  /** The event found at the insertion position starts strictly later. */
  lemma {:induction false} InsertPositionAt(s: seq<Event>, e: Event)
    ensures InsertPosition(s, e) < |s| ==> Less(e.start, s[InsertPosition(s, e)].start)
    decreases |s|
  {
    if s != [] && !Less(e.start, s[0].start) {
      InsertPositionAt(s[1..], e);
    }
  }

  /** In a sorted sequence everything behind the new event starts strictly later. */
  lemma InsertPositionAfter(s: seq<Event>, e: Event)
    requires SortedByStart(s)
    ensures forall j :: InsertPosition(s, e) <= j < |s| ==> Less(e.start, s[j].start)
  {
    var k := InsertPosition(s, e);
    InsertPositionAt(s, e);
    forall j | k < j < |s|
      ensures Less(e.start, s[j].start)
    {
      assert StartsNoLater(s[k], s[j]);
    }
  }

  /** Inserting into a sorted sequence keeps it sorted. */
  lemma InsertKeepsSorted(s: seq<Event>, e: Event)
    requires SortedByStart(s)
    ensures SortedByStart(Insert(s, e))
  {
    var r := Insert(s, e);
    forall p, q | 0 <= p < q < |r|
      ensures StartsNoLater(r[p], r[q])
    {
      InsertedPairInOrder(s, e, p, q);
    }
  }

  /** One pair of positions of the inserted sequence is in start order. */
  lemma InsertedPairInOrder(s: seq<Event>, e: Event, p: int, q: int)
    requires SortedByStart(s)
    requires 0 <= p < q < |s| + 1
    ensures StartsNoLater(Insert(s, e)[p], Insert(s, e)[q])
  {
    InsertSplit(s, e);
    InsertPositionBefore(s, e);
    InsertPositionAfter(s, e);
    var k := InsertPosition(s, e);
    var r := Insert(s, e);
    if q < k {
      assert r[p] == s[p] && r[q] == s[q];
    } else if q == k {
      assert r[p] == s[p];
    } else if p < k {
      assert r[p] == s[p] && r[q] == s[q - 1];
    } else if p == k {
      assert r[q] == s[q - 1];
    } else {
      assert r[p] == s[p - 1] && r[q] == s[q - 1];
    }
  }

  /** An event that starts no earlier than everything present goes last. */
  lemma {:induction false} InsertAtEnd(s: seq<Event>, e: Event)
    requires forall j :: 0 <= j < |s| ==> StartsNoLater(s[j], e)
    ensures Insert(s, e) == s + [e]
    decreases |s|
  {
    if s != [] {
      assert StartsNoLater(s[0], e);
      InsertAtEnd(s[1..], e);
      assert [s[0]] + (s[1..] + [e]) == s + [e];
    }
  }

  /** Inserting two events in either order gives the same result when the
      later-starting one is inserted first or second. */
  lemma {:induction false} InsertCommutes(s: seq<Event>, x: Event, y: Event)
    requires Less(y.start, x.start)
    ensures Insert(Insert(s, x), y) == Insert(Insert(s, y), x)
    decreases |s|
  {
    if s != [] && !Less(x.start, s[0].start) {
      if !Less(y.start, s[0].start) {
        InsertCommutes(s[1..], x, y);
      }
    } else if s != [] {
      LessTransitive(y.start, x.start, s[0].start);
    }
  }

  /** Inserts the events of `rest` one by one, left to right. */
  function InsertAll(acc: seq<Event>, rest: seq<Event>): (r: seq<Event>)
    ensures SortedByStart(acc) ==> SortedByStart(r)
    ensures multiset(r) == multiset(acc) + multiset(rest)
    decreases |rest|
  {
    if rest == [] then acc
    else
      assert rest == [rest[0]] + rest[1..];
      InsertAddsOne(acc, rest[0]);
      if SortedByStart(acc) then
        InsertKeepsSorted(acc, rest[0]);
        InsertAll(Insert(acc, rest[0]), rest[1..])
      else
        InsertAll(Insert(acc, rest[0]), rest[1..])
  }

  /** The stable insertion sort by start time. */
  function SortByStart(s: seq<Event>): (r: seq<Event>)
    ensures SortedByStart(r)
    ensures multiset(r) == multiset(s)
  {
    InsertAll([], s)
  }

  lemma {:induction false} InsertAllAppend(acc: seq<Event>, p: seq<Event>, q: seq<Event>)
    ensures InsertAll(acc, p + q) == InsertAll(InsertAll(acc, p), q)
    decreases |p|
  {
    if p == [] {
      assert p + q == q;
    } else {
      assert (p + q)[0] == p[0];
      assert (p + q)[1..] == p[1..] + q;
      InsertAllAppend(Insert(acc, p[0]), p[1..], q);
    }
  }

  /** Inserting the events of an already ordered tail, each no earlier than
      all before it, only appends them. */
  lemma {:induction false} InsertAllSorted(acc: seq<Event>, rest: seq<Event>)
    requires SortedByStart(acc + rest)
    ensures InsertAll(acc, rest) == acc + rest
    decreases |rest|
  {
    if rest != [] {
      var s := acc + rest;
      forall j | 0 <= j < |acc|
        ensures StartsNoLater(acc[j], rest[0])
      {
        assert acc[j] == s[j] && rest[0] == s[|acc|];
      }
      InsertAtEnd(acc, rest[0]);
      assert (acc + [rest[0]]) + rest[1..] == s;
      InsertAllSorted(acc + [rest[0]], rest[1..]);
    }
  }

  /** A sorted sequence is its own stable sort. */
  lemma SortOfSorted(s: seq<Event>)
    requires SortedByStart(s)
    ensures SortByStart(s) == s
  {
    assert [] + s == s;
    InsertAllSorted([], s);
  }

  /** Appending one event to a sorted sequence and sorting is inserting it. */
  lemma SortAfterAppend(s: seq<Event>, e: Event)
    requires SortedByStart(s)
    ensures SortByStart(s + [e]) == Insert(s, e)
  {
    InsertAllAppend([], s, [e]);
    SortOfSorted(s);
  }

  lemma InsertAllSwapFront(acc: seq<Event>, x: Event, y: Event, post: seq<Event>)
    requires Less(y.start, x.start)
    ensures InsertAll(acc, [x, y] + post) == InsertAll(acc, [y, x] + post)
  {
    assert ([x, y] + post)[1..] == [y] + post;
    assert ([y, x] + post)[1..] == [x] + post;
    assert ([y] + post)[1..] == post;
    assert ([x] + post)[1..] == post;
    assert InsertAll(acc, [x, y] + post) == InsertAll(Insert(Insert(acc, x), y), post);
    assert InsertAll(acc, [y, x] + post) == InsertAll(Insert(Insert(acc, y), x), post);
    InsertCommutes(acc, x, y);
  }

  /** Swapping two adjacent events that are out of order does not change the
      stable sort of the sequence. */
  lemma SwapKeepsSort(a: seq<Event>, j: nat)
    requires j + 1 < |a| && Less(a[j + 1].start, a[j].start)
    ensures SortByStart(a[j := a[j + 1]][j + 1 := a[j]]) == SortByStart(a)
  {
    var b := a[j := a[j + 1]][j + 1 := a[j]];
    var pre := a[..j];
    var post := a[j + 2..];
    assert a == pre + ([a[j], a[j + 1]] + post);
    assert b == pre + ([a[j + 1], a[j]] + post);
    InsertAllAppend([], pre, [a[j], a[j + 1]] + post);
    InsertAllAppend([], pre, [a[j + 1], a[j]] + post);
    InsertAllSwapFront(InsertAll([], pre), a[j], a[j + 1], post);
  }

  /** The events of `s` that start at `t`, in their order. */
  function StartingAt(s: seq<Event>, t: Time): seq<Event> {
    if s == [] then []
    else (if s[0].start == t then [s[0]] else []) + StartingAt(s[1..], t)
  }

  lemma {:induction false} StartingAtAppend(a: seq<Event>, b: seq<Event>, t: Time)
    ensures StartingAt(a + b, t) == StartingAt(a, t) + StartingAt(b, t)
    decreases |a|
  {
    if a == [] {
      assert a + b == b;
    } else {
      assert (a + b)[1..] == a[1..] + b;
      StartingAtAppend(a[1..], b, t);
    }
  }

  /** A sorted sequence whose first event starts after `t` has none at `t`. */
  lemma {:induction false} NoneStartingAt(s: seq<Event>, t: Time)
    requires SortedByStart(s) && s != [] && Less(t, s[0].start)
    ensures StartingAt(s, t) == []
    decreases |s|
  {
    if |s| > 1 {
      assert StartsNoLater(s[0], s[1]);
      NoneStartingAt(s[1..], t);
    }
  }

  /** Inserting into a sorted sequence puts the new event after every event
      with the same start time. */
  lemma {:induction false} InsertIsStable(s: seq<Event>, e: Event, t: Time)
    requires SortedByStart(s)
    ensures StartingAt(Insert(s, e), t) == StartingAt(s, t) + (if e.start == t then [e] else [])
    decreases |s|
  {
    var here := if e.start == t then [e] else [];
    if s == [] {
    } else if Less(e.start, s[0].start) {
      InsertInFrontIsStable(s, e, t);
    } else {
      var r := Insert(s[1..], e);
      var first := if s[0].start == t then [s[0]] else [];
      assert Insert(s, e) == [s[0]] + r;
      assert ([s[0]] + r)[1..] == r;
      StartingAtCons([s[0]] + r, t);
      StartingAtCons(s, t);
      InsertIsStable(s[1..], e, t);
      ConcatAssoc(first, StartingAt(s[1..], t), here);
    }
  }

  /** An event placed in front keeps its own start-time group in order. */
  lemma InsertInFrontIsStable(s: seq<Event>, e: Event, t: Time)
    requires SortedByStart(s) && s != [] && Less(e.start, s[0].start)
    ensures StartingAt(Insert(s, e), t) == StartingAt(s, t) + (if e.start == t then [e] else [])
  {
    assert Insert(s, e) == [e] + s;
    assert ([e] + s)[1..] == s;
    StartingAtCons([e] + s, t);
    if e.start == t {
      NoneStartingAt(s, t);
      assert [e] + [] == [] + [e];
    } else {
      assert [] + StartingAt(s, t) == StartingAt(s, t) + [];
    }
  }

  lemma {:induction false} InsertAllIsStable(acc: seq<Event>, rest: seq<Event>, t: Time)
    requires SortedByStart(acc)
    ensures StartingAt(InsertAll(acc, rest), t) == StartingAt(acc, t) + StartingAt(rest, t)
    decreases |rest|
  {
    if rest != [] {
      var e := rest[0];
      var acc' := Insert(acc, e);
      InsertAllCons(acc, rest);
      InsertIsStable(acc, e, t);
      InsertKeepsSorted(acc, e);
      InsertAllIsStable(acc', rest[1..], t);
      StartingAtCons(rest, t);
      var here := if e.start == t then [e] else [];
      ConcatAssoc(StartingAt(acc, t), here, StartingAt(rest[1..], t));
    }
  }

  lemma InsertAllCons(acc: seq<Event>, rest: seq<Event>)
    requires rest != []
    ensures InsertAll(acc, rest) == InsertAll(Insert(acc, rest[0]), rest[1..])
  {
  }

  lemma StartingAtCons(s: seq<Event>, t: Time)
    requires s != []
    ensures StartingAt(s, t) == (if s[0].start == t then [s[0]] else []) + StartingAt(s[1..], t)
  {
  }

  /** The sort is stable: for every start time, the events starting then
      keep their relative order. */
  lemma SortIsStable(s: seq<Event>, t: Time)
    ensures StartingAt(SortByStart(s), t) == StartingAt(s, t)
  {
    InsertAllIsStable([], s, t);
  }

  /** Bubble-sort bookkeeping: the events from `m` on are in order ... */
  predicate SuffixSorted(a: seq<Event>, m: int) {
    forall p, q :: 0 <= m <= p < q < |a| ==> StartsNoLater(a[p], a[q])
  }

  /** ... and none of them starts before an event in front of `m` ... */
  predicate Partitioned(a: seq<Event>, m: int) {
    forall p, q :: 0 <= p < m <= q < |a| ==> StartsNoLater(a[p], a[q])
  }

  /** ... and, during a pass, the event at `j` starts no earlier than any before it. */
  predicate MaxAt(a: seq<Event>, j: int) {
    0 <= j < |a| && forall p :: 0 <= p <= j ==> StartsNoLater(a[p], a[j])
  }

  /** The swap of `a[j]` and `a[j+1]` that the inner loop performs when the
      first starts strictly later. */
  function BubbleSwap(a: seq<Event>, j: nat): (b: seq<Event>)
    requires j + 1 < |a|
    ensures |b| == |a|
  {
    if Greater(a[j].start, a[j + 1].start) then a[j := a[j + 1]][j + 1 := a[j]] else a
  }

  lemma BubbleStepMax(a: seq<Event>, j: nat)
    requires j + 1 < |a| && MaxAt(a, j)
    ensures MaxAt(BubbleSwap(a, j), j + 1)
  {
    var b := BubbleSwap(a, j);
    forall p | 0 <= p <= j + 1
      ensures StartsNoLater(b[p], b[j + 1])
    {
      if p < j {
        assert b[p] == a[p];
        assert StartsNoLater(a[p], a[j]);
      }
    }
  }

  lemma BubbleStepFrame(a: seq<Event>, j: nat, m: int)
    requires j + 1 < m <= |a|
    requires SuffixSorted(a, m) && Partitioned(a, m)
    ensures SuffixSorted(BubbleSwap(a, j), m) && Partitioned(BubbleSwap(a, j), m)
  {
    var b := BubbleSwap(a, j);
    assert b[m..] == a[m..];
    forall p, q | 0 <= m <= p < q < |b|
      ensures StartsNoLater(b[p], b[q])
    {
      assert b[p] == a[p] && b[q] == a[q];
    }
    forall p, q | 0 <= p < m <= q < |b|
      ensures StartsNoLater(b[p], b[q])
    {
      assert b[q] == a[q];
      if p == j {
        assert b[p] == a[j] || b[p] == a[j + 1];
      } else if p == j + 1 {
        assert b[p] == a[j] || b[p] == a[j + 1];
      } else {
        assert b[p] == a[p];
      }
    }
  }

  lemma BubbleStepSort(a: seq<Event>, j: nat)
    requires j + 1 < |a|
    ensures SortByStart(BubbleSwap(a, j)) == SortByStart(a)
  {
    if Greater(a[j].start, a[j + 1].start) {
      SwapKeepsSort(a, j);
    }
  }

  lemma BubblePassDone(a: seq<Event>, m: int)
    requires 1 <= m <= |a|
    requires MaxAt(a, m - 1) && SuffixSorted(a, m) && Partitioned(a, m)
    ensures SuffixSorted(a, m - 1) && Partitioned(a, m - 1)
  {
  }

  /** `sortEvents`: the source's bubble sort, swapping neighbours only when
      the first starts strictly later. It computes exactly the stable sort. */
  method SortEvents(s: seq<Event>) returns (r: seq<Event>)
    ensures r == SortByStart(s)
    ensures SortedByStart(r) && multiset(r) == multiset(s)
  {
    var a := s;
    var n := |a|;
    var i := 0;
    while i < n - 1
      invariant |a| == n
      invariant 0 <= i <= n && (n == 0 || i <= n - 1)
      invariant SortByStart(a) == SortByStart(s)
      invariant SuffixSorted(a, n - i) && Partitioned(a, n - i)
    {
      var j := 0;
      while j < n - i - 1
        invariant |a| == n
        invariant 0 <= j <= n - i - 1
        invariant SortByStart(a) == SortByStart(s)
        invariant MaxAt(a, j)
        invariant SuffixSorted(a, n - i) && Partitioned(a, n - i)
      {
        BubbleStepMax(a, j);
        BubbleStepFrame(a, j, n - i);
        BubbleStepSort(a, j);
        a := BubbleSwap(a, j);
        j := j + 1;
      }
      BubblePassDone(a, n - i);
      i := i + 1;
    }
    if n > 0 {
      BubblePassDone(a, 1);
    }
    assert SortedByStart(a);
    SortOfSorted(a);
    r := a;
  }
}
