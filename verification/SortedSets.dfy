/** Sets of rowids as ascending lists, and the three merges of `src/catalog.rs`. */
module SortedSets {
  predicate Ascending(s: seq<int>) {
    forall i, j :: 0 <= i < j < |s| ==> s[i] < s[j]
  }

  ghost predicate AllBelow(a: seq<int>, b: seq<int>) {
    forall x, y :: x in a && y in b ==> x < y
  }

  lemma AscendingAppend(a: seq<int>, b: seq<int>)
    requires Ascending(a) && Ascending(b) && AllBelow(a, b)
    ensures Ascending(a + b)
  {
    var s := a + b;
    forall i, j | 0 <= i < j < |s|
      ensures s[i] < s[j]
    {
      if i < |a| <= j {
        assert s[i] in a && s[j] in b;
      }
    }
  }

  /** The list splits at i: its first element there is below the rest. */
  lemma Split(s: seq<int>, i: nat)
    requires Ascending(s) && i < |s|
    ensures s[i..] == [s[i]] + s[i + 1..] && Ascending(s[i + 1..]) && AllBelow([s[i]], s[i + 1..])
    ensures s[..i + 1] == s[..i] + [s[i]] && AllBelow(s[..i], s[i..])
  {
  }

  lemma FirstIn(s: seq<int>)
    ensures s != [] ==> s[0] in s
  {
  }

  /** Two ascending lists of the same elements are the same list. */
  lemma {:induction false} AscendingUnique(a: seq<int>, b: seq<int>)
    requires Ascending(a) && Ascending(b) && forall x :: x in a <==> x in b
    ensures a == b
  {
    FirstIn(a);
    FirstIn(b);
    if a != [] {
      var i :| 0 <= i < |b| && b[i] == a[0];
      var j :| 0 <= j < |a| && a[j] == b[0];
      assert a[0] == b[0];
      Split(a, 0);
      Split(b, 0);
      assert a == [a[0]] + a[1..] && b == [b[0]] + b[1..];
      assert a[0] !in a[1..] && b[0] !in b[1..];
      forall x
        ensures x in a[1..] <==> x in b[1..]
      {
        assert x in a[1..] <==> x in a && x != a[0];
        assert x in b[1..] <==> x in b && x != b[0];
      }
      AscendingUnique(a[1..], b[1..]);
    }
  }

  ghost predicate Meet(a: seq<int>, b: seq<int>, r: seq<int>) {
    Ascending(r) && forall x :: x in r <==> x in a && x in b
  }

  ghost predicate Join(a: seq<int>, b: seq<int>, r: seq<int>) {
    Ascending(r) && forall x :: x in r <==> x in a || x in b
  }

  ghost predicate Minus(a: seq<int>, b: seq<int>, r: seq<int>) {
    Ascending(r) && forall x :: x in r <==> x in a && x !in b
  }

  /** Taking the first element off. */
  lemma Head(s: seq<int>, out: seq<int>)
    requires Ascending(s) && s != [] && Ascending(out) && AllBelow(out, s)
    ensures Ascending(s[1..]) && AllBelow(out, s[1..]) && Ascending(out + [s[0]]) && AllBelow(out + [s[0]], s[1..])
    ensures forall e :: e in s <==> e == s[0] || e in s[1..]
    ensures forall e :: e in s[1..] ==> s[0] < e
  {
    Split(s, 0);
    assert s[0] in s;
    AscendingAppend(out, [s[0]]);
    assert s == [s[0]] + s[1..];
  }

  lemma NothingBelow(s: seq<int>)
    ensures Ascending([]) && AllBelow([], s)
  {
  }

  /** What is below a smaller head is below a larger list. */
  lemma BelowLarger(out: seq<int>, x: seq<int>, y: seq<int>)
    requires Ascending(y) && y != [] && x != [] && x[0] < y[0] && AllBelow(out, y)
    ensures AllBelow(out + [x[0]], y) && x[0] !in y
  {
    forall e | e in y
      ensures y[0] <= e
    {
      var i :| 0 <= i < |y| && y[i] == e;
    }
  }

  lemma BelowSame(out: seq<int>, x: seq<int>, y: seq<int>)
    requires Ascending(y) && y != [] && x != [] && x[0] == y[0] && AllBelow(out, y) && Ascending(out)
    ensures AllBelow(out + [x[0]], y[1..]) && x[0] !in y[1..]
  {
    Head(y, out);
  }

  // Each merge is followed step by step on what is left of the lists, x and y.

  ghost predicate MeetSoFar(a: seq<int>, b: seq<int>, x: seq<int>, y: seq<int>, out: seq<int>) {
    && Ascending(x) && Ascending(y) && Ascending(out) && AllBelow(out, x) && AllBelow(out, y)
    && (forall e :: e in out ==> e in a && e in b) && (forall e :: e in x ==> e in a) && (forall e :: e in y ==> e in b)
    && forall e :: e in a && e in b ==> e in out || (e in x && e in y)
  }

  lemma MeetStep(a: seq<int>, b: seq<int>, x: seq<int>, y: seq<int>, out: seq<int>)
    requires MeetSoFar(a, b, x, y, out) && x != [] && y != []
    ensures x[0] < y[0] ==> MeetSoFar(a, b, x[1..], y, out)
    ensures y[0] < x[0] ==> MeetSoFar(a, b, x, y[1..], out)
    ensures x[0] == y[0] ==> MeetSoFar(a, b, x[1..], y[1..], out + [x[0]])
  {
    hide Ascending, AllBelow;
    Head(x, out);
    Head(y, out);
    if x[0] < y[0] {
      BelowLarger(out, x, y);
    } else if y[0] < x[0] {
      BelowLarger(out, y, x);
    } else {
      BelowSame(out, x, y);
    }
  }

  method IntersectSorted(a: seq<int>, b: seq<int>) returns (out: seq<int>)
    requires Ascending(a) && Ascending(b)
    ensures Meet(a, b, out)
  {
    hide MeetSoFar;
    var i, j := 0, 0;
    out := [];
    Whole(a);
    Whole(b);
    MeetStarts(a, b);
    while i < |a| && j < |b|
      invariant i <= |a| && j <= |b| && MeetSoFar(a, b, a[i..], b[j..], out)
      decreases |a| - i + |b| - j
    {
      MeetStep(a, b, a[i..], b[j..], out);
      Tails(a, i);
      Tails(b, j);
      if a[i] < b[j] {
        i := i + 1;
      } else if a[i] > b[j] {
        j := j + 1;
      } else {
        out := out + [a[i]];
        i, j := i + 1, j + 1;
      }
    }
    MeetEnds(a, b, a[i..], b[j..], out);
  }

  lemma Whole(s: seq<int>)
    ensures s[0..] == s
  {
  }

  lemma Tails(s: seq<int>, i: nat)
    requires i < |s|
    ensures s[i..] != [] && s[i..][0] == s[i] && s[i..][1..] == s[i + 1..]
  {
  }

  lemma MeetStarts(a: seq<int>, b: seq<int>)
    requires Ascending(a) && Ascending(b)
    ensures MeetSoFar(a, b, a, b, [])
  {
  }

  lemma MeetEnds(a: seq<int>, b: seq<int>, x: seq<int>, y: seq<int>, out: seq<int>)
    requires MeetSoFar(a, b, x, y, out) && (x == [] || y == [])
    ensures Meet(a, b, out)
  {
  }

  ghost predicate JoinSoFar(a: seq<int>, b: seq<int>, x: seq<int>, y: seq<int>, out: seq<int>) {
    && Ascending(x) && Ascending(y) && Ascending(out) && AllBelow(out, x) && AllBelow(out, y)
    && (forall e :: e in out ==> e in a || e in b) && (forall e :: e in x ==> e in a) && (forall e :: e in y ==> e in b)
    && (forall e :: e in a ==> e in out || e in x) && forall e :: e in b ==> e in out || e in y
  }

  lemma JoinStep(a: seq<int>, b: seq<int>, x: seq<int>, y: seq<int>, out: seq<int>)
    requires JoinSoFar(a, b, x, y, out) && x != [] && y != []
    ensures x[0] < y[0] ==> JoinSoFar(a, b, x[1..], y, out + [x[0]])
    ensures y[0] < x[0] ==> JoinSoFar(a, b, x, y[1..], out + [y[0]])
    ensures x[0] == y[0] ==> JoinSoFar(a, b, x[1..], y[1..], out + [x[0]])
  {
    hide Ascending, AllBelow;
    Head(x, out);
    Head(y, out);
    if x[0] < y[0] {
      BelowLarger(out, x, y);
    } else if y[0] < x[0] {
      BelowLarger(out, y, x);
    } else {
      BelowSame(out, x, y);
    }
  }

  method UnionSorted(a: seq<int>, b: seq<int>) returns (out: seq<int>)
    requires Ascending(a) && Ascending(b)
    ensures Join(a, b, out)
  {
    hide JoinSoFar;
    var i, j := 0, 0;
    out := [];
    Whole(a);
    Whole(b);
    JoinStarts(a, b);
    while i < |a| && j < |b|
      invariant i <= |a| && j <= |b| && JoinSoFar(a, b, a[i..], b[j..], out)
      decreases |a| - i + |b| - j
    {
      JoinStep(a, b, a[i..], b[j..], out);
      Tails(a, i);
      Tails(b, j);
      if a[i] < b[j] {
        out := out + [a[i]];
        i := i + 1;
      } else if a[i] > b[j] {
        out := out + [b[j]];
        j := j + 1;
      } else {
        out := out + [a[i]];
        i, j := i + 1, j + 1;
      }
    }
    JoinEnds(a, b, a[i..], b[j..], out);
    out := out + a[i..] + b[j..];
  }

  lemma JoinStarts(a: seq<int>, b: seq<int>)
    requires Ascending(a) && Ascending(b)
    ensures JoinSoFar(a, b, a, b, [])
  {
  }

  lemma JoinEnds(a: seq<int>, b: seq<int>, x: seq<int>, y: seq<int>, out: seq<int>)
    requires JoinSoFar(a, b, x, y, out) && (x == [] || y == [])
    ensures Join(a, b, out + x + y)
  {
    AscendingAppend(out, x);
    AscendingAppend(out, y);
    assert out + [] == out && out + x + [] == out + x;
  }

  ghost predicate MinusSoFar(a: seq<int>, b: seq<int>, x: seq<int>, y: seq<int>, out: seq<int>) {
    && Ascending(x) && Ascending(y) && Ascending(out) && AllBelow(out, x)
    && (forall e :: e in out ==> e in a && e !in b) && (forall e :: e in x ==> e in a) && (forall e :: e in y ==> e in b)
    && (forall e :: e in a && e !in b ==> e in out || e in x) && forall e :: e in x && e in b ==> e in y
  }

  lemma MinusStep(a: seq<int>, b: seq<int>, x: seq<int>, y: seq<int>, out: seq<int>)
    requires MinusSoFar(a, b, x, y, out) && x != []
    ensures y == [] || x[0] < y[0] ==> MinusSoFar(a, b, x[1..], y, out + [x[0]])
    ensures y != [] && y[0] < x[0] ==> MinusSoFar(a, b, x, y[1..], out)
    ensures y != [] && x[0] == y[0] ==> MinusSoFar(a, b, x[1..], y[1..], out)
  {
    hide AllBelow;
    Head(x, out);
    if y != [] {
      NothingBelow(y);
      NothingBelow(x);
      Head(y, []);
      if x[0] < y[0] {
        BelowLarger([], x, y);
      } else if y[0] < x[0] {
        BelowLarger([], y, x);
      }
    }
  }

  method DifferenceSorted(a: seq<int>, b: seq<int>) returns (out: seq<int>)
    requires Ascending(a) && Ascending(b)
    ensures Minus(a, b, out)
  {
    hide MinusSoFar;
    var i, j := 0, 0;
    out := [];
    Whole(a);
    Whole(b);
    MinusStarts(a, b);
    while i < |a|
      invariant i <= |a| && j <= |b| && MinusSoFar(a, b, a[i..], b[j..], out)
      decreases |a| - i + |b| - j
    {
      MinusStep(a, b, a[i..], b[j..], out);
      Tails(a, i);
      if j < |b| {
        Tails(b, j);
      }
      if j >= |b| || a[i] < b[j] {
        out := out + [a[i]];
        i := i + 1;
      } else if a[i] > b[j] {
        j := j + 1;
      } else {
        i, j := i + 1, j + 1;
      }
    }
    MinusEnds(a, b, a[i..], b[j..], out);
  }

  lemma MinusStarts(a: seq<int>, b: seq<int>)
    requires Ascending(a) && Ascending(b)
    ensures MinusSoFar(a, b, a, b, [])
  {
  }

  lemma MinusEnds(a: seq<int>, b: seq<int>, x: seq<int>, y: seq<int>, out: seq<int>)
    requires MinusSoFar(a, b, x, y, out) && x == []
    ensures Minus(a, b, out)
  {
  }

  method InsertSorted(x: int, s: seq<int>) returns (r: seq<int>)
    requires Ascending(s)
    ensures Ascending(r) && forall y :: y in r <==> y == x || y in s
  {
    var i := 0;
    while i < |s| && s[i] < x
      invariant i <= |s| && forall k :: 0 <= k < i ==> s[k] < x
    {
      i := i + 1;
    }
    if i < |s| && s[i] == x {
      return s;
    }
    assert s == s[..i] + s[i..];
    AscendingAppend(s[..i], [x]);
    AscendingAppend(s[..i] + [x], s[i..]);
    r := s[..i] + [x] + s[i..];
  }

  /** `sort_unstable` and `dedup`. */
  method SortDistinct(s: seq<int>) returns (r: seq<int>)
    ensures Ascending(r) && forall x :: x in r <==> x in s
  {
    r := [];
    for i := 0 to |s|
      invariant Ascending(r) && forall x :: x in r <==> x in s[..i]
    {
      assert s[..i + 1] == s[..i] + [s[i]];
      r := InsertSorted(s[i], r);
    }
    assert s[..|s|] == s;
  }
}
