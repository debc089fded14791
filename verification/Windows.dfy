/** The narrowest window over several groups of positions (`min_window_span` of `src/catalog.rs`). */
module Windows {
  import opened Options

  datatype Item = Item(pos: nat, group: nat)

  // ------------------------------------------------------------- what is meant

  /** One position from each group. */
  ghost predicate IsChoice(groups: seq<seq<nat>>, c: seq<nat>) {
    |c| == |groups| && forall g :: 0 <= g < |groups| ==> c[g] in groups[g]
  }

  /** All of c within `span` of each other. */
  ghost predicate Within(c: seq<nat>, span: nat) {
    forall i, j :: 0 <= i < |c| && 0 <= j < |c| ==> c[i] - c[j] <= span
  }

  /** The choice c spreads over exactly `span`. */
  ghost predicate HasSpan(c: seq<nat>, span: nat) {
    Within(c, span) && exists i, j :: 0 <= i < |c| && 0 <= j < |c| && c[i] == c[j] + span
  }

  /** The least spread of any choice. */
  ghost predicate IsMinSpan(groups: seq<seq<nat>>, span: nat) {
    && (exists c :: IsChoice(groups, c) && HasSpan(c, span))
    && forall c, s :: IsChoice(groups, c) && HasSpan(c, s) ==> span <= s
  }

  // --------------------------------------------------------------------- items

  predicate Sorted(items: seq<Item>) {
    forall i, j :: 0 <= i < j < |items| ==> items[i].pos <= items[j].pos
  }

  function Insert(x: Item, s: seq<Item>): (r: seq<Item>)
    ensures r != [] && r[0] == (if s == [] || x.pos <= s[0].pos then x else s[0])
  {
    if s == [] || x.pos <= s[0].pos then [x] + s else [s[0]] + Insert(x, s[1..])
  }

  /** Stands for the library's sort. */
  function Sort(s: seq<Item>): (r: seq<Item>) {
    if s == [] then [] else Insert(s[0], Sort(s[1..]))
  }

  lemma {:induction false} InsertSorts(x: Item, s: seq<Item>)
    requires Sorted(s)
    ensures Sorted(Insert(x, s)) && multiset(Insert(x, s)) == multiset(s) + multiset{x}
  {
    if s == [] || x.pos <= s[0].pos {
    } else {
      var r := Insert(x, s[1..]);
      InsertSorts(x, s[1..]);
      assert s == [s[0]] + s[1..];
      SortedFront(s[0], r);
    }
  }

  lemma SortedFront(x: Item, r: seq<Item>)
    requires Sorted(r) && (r == [] || x.pos <= r[0].pos)
    ensures Sorted([x] + r)
  {
  }

  lemma {:induction false} SortSorts(s: seq<Item>)
    ensures Sorted(Sort(s)) && multiset(Sort(s)) == multiset(s)
  {
    hide Insert;
    if s != [] {
      SortSorts(s[1..]);
      InsertSorts(s[0], Sort(s[1..]));
      assert s == [s[0]] + s[1..];
    }
  }

  /** The items of the first n groups are exactly their positions. */
  ghost predicate ItemsOf(groups: seq<seq<nat>>, n: nat, items: seq<Item>) {
    && n <= |groups|
    && (forall g, p :: 0 <= g < n && p in groups[g] ==> Item(p, g) in items)
    && (forall x :: x in items ==> x.group < n && x.pos in groups[x.group])
  }

  method CollectItems(groups: seq<seq<nat>>) returns (items: seq<Item>)
    ensures ItemsOf(groups, |groups|, items)
  {
    items := [];
    for g := 0 to |groups|
      invariant ItemsOf(groups, g, items)
    {
      ghost var before := items;
      for k := 0 to |groups[g]|
        invariant forall x :: x in before ==> x in items
        invariant forall x :: x in items ==> x in before || (x.group == g && x.pos in groups[g])
        invariant forall i :: 0 <= i < k ==> Item(groups[g][i], g) in items
      {
        items := items + [Item(groups[g][k], g)];
      }
    }
  }

  // ------------------------------------------------------------------- windows

  /** items[i..j] has an item of every group. */
  ghost predicate Covers(items: seq<Item>, i: nat, j: nat, n: nat) {
    j <= |items| && forall g :: 0 <= g < n ==> HasGroup(items, i, j, g)
  }

  ghost predicate HasGroup(items: seq<Item>, i: nat, j: nat, g: nat)
    requires j <= |items|
  {
    exists k :: i <= k < j && items[k].group == g
  }

  lemma CoversMore(items: seq<Item>, i: nat, j: nat, i': nat, j': nat, n: nat)
    requires Covers(items, i, j, n) && i' <= i && j <= j' <= |items|
    ensures Covers(items, i', j', n)
  {
    forall g | 0 <= g < n
      ensures HasGroup(items, i', j', g)
    {
      assert HasGroup(items, i, j, g);
    }
  }

  function CountIn(items: seq<Item>, i: nat, j: nat, g: nat): (r: nat)
    requires i <= j <= |items|
  {
    if i == j then 0 else CountIn(items, i, j - 1, g) + if items[j - 1].group == g then 1 else 0
  }

  lemma {:induction false} CountFront(items: seq<Item>, i: nat, j: nat, g: nat)
    requires i < j <= |items|
    ensures CountIn(items, i, j, g) == CountIn(items, i + 1, j, g) + if items[i].group == g then 1 else 0
    decreases j
  {
    if i + 1 < j {
      CountFront(items, i, j - 1, g);
    }
  }

  lemma {:induction false} CountMeansHas(items: seq<Item>, i: nat, j: nat, g: nat)
    requires i <= j <= |items|
    ensures CountIn(items, i, j, g) > 0 <==> HasGroup(items, i, j, g)
    decreases j
  {
    if i < j {
      CountMeansHas(items, i, j - 1, g);
      if HasGroup(items, i, j, g) {
        var k :| i <= k < j && items[k].group == g;
        assert k < j - 1 ==> HasGroup(items, i, j - 1, g);
      }
      if HasGroup(items, i, j - 1, g) {
        var k :| i <= k < j - 1 && items[k].group == g;
        assert HasGroup(items, i, j, g);
      }
      assert items[j - 1].group == g ==> HasGroup(items, i, j, g);
    }
  }

  function Positive(have: seq<nat>): (c: nat)
    ensures c <= |have|
  {
    if have == [] then 0 else Positive(have[..|have| - 1]) + if have[|have| - 1] > 0 then 1 else 0
  }

  lemma {:induction false} PositiveUpdate(have: seq<nat>, g: nat, v: nat)
    requires g < |have|
    ensures Positive(have[g := v]) == Positive(have) - (if have[g] > 0 then 1 else 0) + (if v > 0 then 1 else 0)
  {
    var last := |have| - 1;
    if g == last {
      assert have[g := v][..last] == have[..last];
    } else {
      PositiveUpdate(have[..last], g, v);
      assert have[g := v][..last] == have[..last][g := v];
    }
  }

  lemma {:induction false} AllPositive(have: seq<nat>)
    ensures Positive(have) == |have| <==> forall g :: 0 <= g < |have| ==> have[g] > 0
  {
    if have != [] {
      var last := |have| - 1;
      AllPositive(have[..last]);
      assert (forall g :: 0 <= g < |have| ==> have[g] > 0) ==> forall g :: 0 <= g < last ==> have[..last][g] > 0;
      assert (forall g :: 0 <= g < last ==> have[..last][g] > 0) && have[last] > 0 ==>
        forall g :: 0 <= g < |have| ==> g == last || have[..last][g] > 0;
    }
  }

  /** The counters of the window l..r. */
  ghost predicate Counts(items: seq<Item>, l: nat, r: nat, have: seq<nat>, n: nat) {
    && l <= r <= |items| && |have| == n
    && forall g :: 0 <= g < n ==> have[g] == CountIn(items, l, r, g)
  }

  lemma CoveredMeansCovers(items: seq<Item>, l: nat, r: nat, have: seq<nat>, n: nat)
    requires Counts(items, l, r, have, n)
    ensures Positive(have) == n <==> Covers(items, l, r, n)
  {
    hide HasGroup, CountIn, Positive;
    AllPositive(have);
    forall g | 0 <= g < n
      ensures have[g] > 0 <==> HasGroup(items, l, r, g)
    {
      CountMeansHas(items, l, r, g);
    }
  }

  /** No covering window that starts at i is narrower than best. */
  ghost predicate Beaten(items: seq<Item>, i: nat, n: nat, best: Option<nat>) {
    forall j :: i < j <= |items| && Covers(items, i, j, n) ==>
      best.Some? && best.value <= items[j - 1].pos - items[i].pos
  }

  ghost predicate IsWindow(items: seq<Item>, n: nat, span: nat) {
    exists i, j :: 0 <= i < j <= |items| && Covers(items, i, j, n) && items[j - 1].pos - items[i].pos == span
  }

  method MinWindowSpan(groups: seq<seq<nat>>) returns (best: Option<nat>)
    ensures best.None? <==> groups == [] || [] in groups
    ensures best.Some? ==> IsMinSpan(groups, best.value)
  {
    hide Covers, Counts, Beaten, CountIn, Positive, IsWindow, IsMinSpan;
    var e := 0;
    while e < |groups|
      invariant e <= |groups| && forall g :: 0 <= g < e ==> groups[g] != []
    {
      if groups[e] == [] {
        return None;
      }
      e := e + 1;
    }
    var collected := CollectItems(groups);
    var items := Sort(collected);
    SortSorts(collected);
    SortedItems(groups, collected, items);
    best := SlideWindow(items, |groups|);
    BestIsMinimal(groups, items, best);
  }

  /** The two indices of the window, as the source moves them. */
  method SlideWindow(items: seq<Item>, n: nat) returns (best: Option<nat>)
    requires Sorted(items) && forall x :: x in items ==> x.group < n
    ensures best.Some? ==> IsWindow(items, n, best.value)
    ensures n > 0 ==> forall i :: 0 <= i < |items| ==> Beaten(items, i, n, best)
    ensures n == 0 ==> best.None?
  {
    hide Covers, Counts, Beaten, CountIn, Positive, IsWindow;
    var have := seq(n, _ => 0);
    var covered, l, r := 0, 0, 0;
    best := None;
    EmptyWindow(items, have, n);
    while r < |items|
      invariant l <= r <= |items| && Counts(items, l, r, have, n) && covered == Positive(have) && |have| == n
      invariant n > 0 ==> !Covers(items, l, r, n)
      invariant best.Some? ==> IsWindow(items, n, best.value)
      invariant forall i :: 0 <= i < l ==> Beaten(items, i, n, best)
      invariant n == 0 ==> best.None?
    {
      var g := items[r].group;
      GrowWindow(items, l, r, have, n);
      PositiveUpdate(have, g, have[g] + 1);
      if have[g] == 0 {
        covered := covered + 1;
      }
      have := have[g := have[g] + 1];
      while covered == n
        invariant l <= r + 1 && Counts(items, l, r + 1, have, n) && covered == Positive(have) && |have| == n
        invariant !Covers(items, l, r, n)
        invariant best.Some? ==> IsWindow(items, n, best.value)
        invariant forall i :: 0 <= i < l ==> Beaten(items, i, n, best)
        decreases r + 1 - l
      {
        CoveredMeansCovers(items, l, r + 1, have, n);
        CoveringIsNonempty(items, l, r + 1, n);
        var span := items[r].pos - items[l].pos;
        StartIsBeaten(items, l, r, n, best, span);
        best := Some(if best.Some? && best.value <= span then best.value else span);
        WindowSeen(items, l, r + 1, n);
        var h := items[l].group;
        ShrinkWindow(items, l, r + 1, have, n);
        PositiveUpdate(have, h, have[h] - 1);
        have := have[h := have[h] - 1];
        if have[h] == 0 {
          covered := covered - 1;
        }
        NotCoveringLater(items, l, r, n);
        l := l + 1;
      }
      CoveredMeansCovers(items, l, r + 1, have, n);
      r := r + 1;
    }
    NothingLeft(items, l, n, best);
  }

  lemma EmptyWindow(items: seq<Item>, have: seq<nat>, n: nat)
    requires have == seq(n, _ => 0)
    ensures Counts(items, 0, 0, have, n) && Positive(have) == 0 && (n > 0 ==> !Covers(items, 0, 0, n))
  {
    AllZero(have);
    assert !HasGroup(items, 0, 0, 0);
  }

  lemma {:induction false} AllZero(have: seq<nat>)
    requires forall g :: 0 <= g < |have| ==> have[g] == 0
    ensures Positive(have) == 0
  {
    if have != [] {
      AllZero(have[..|have| - 1]);
    }
  }

  lemma GrowWindow(items: seq<Item>, l: nat, r: nat, have: seq<nat>, n: nat)
    requires Counts(items, l, r, have, n) && r < |items| && items[r].group < n
    ensures Counts(items, l, r + 1, have[items[r].group := have[items[r].group] + 1], n)
  {
  }

  lemma ShrinkWindow(items: seq<Item>, l: nat, r: nat, have: seq<nat>, n: nat)
    requires Counts(items, l, r, have, n) && l < r && items[l].group < n
    ensures have[items[l].group] > 0
    ensures Counts(items, l + 1, r, have[items[l].group := have[items[l].group] - 1], n)
  {
    forall g | 0 <= g < n
      ensures CountIn(items, l, r, g) == CountIn(items, l + 1, r, g) + if items[l].group == g then 1 else 0
    {
      CountFront(items, l, r, g);
    }
  }

  lemma CoveringIsNonempty(items: seq<Item>, l: nat, r: nat, n: nat)
    requires Covers(items, l, r, n) && n > 0
    ensures l < r
  {
    assert HasGroup(items, l, r, 0);
  }

  lemma NotCoveringLater(items: seq<Item>, l: nat, r: nat, n: nat)
    requires !Covers(items, l, r, n) && r <= |items|
    ensures !Covers(items, l + 1, r, n)
  {
    if Covers(items, l + 1, r, n) {
      CoversMore(items, l + 1, r, l, r, n);
    }
  }

  lemma WindowSeen(items: seq<Item>, l: nat, r: nat, n: nat)
    requires l < r && Covers(items, l, r, n) && Sorted(items)
    ensures r <= |items| && items[l].pos <= items[r - 1].pos && IsWindow(items, n, items[r - 1].pos - items[l].pos)
  {
  }

  /** The first window from l that covers is the narrowest from l; older starts stay beaten. */
  lemma StartIsBeaten(items: seq<Item>, l: nat, r: nat, n: nat, best: Option<nat>, span: int)
    requires Sorted(items) && l <= r < |items| && !Covers(items, l, r, n) && span == items[r].pos - items[l].pos
    requires forall i :: 0 <= i < l ==> Beaten(items, i, n, best)
    ensures span >= 0
    ensures var best' := Some(if best.Some? && best.value <= span then best.value else span);
      forall i :: 0 <= i < l + 1 ==> Beaten(items, i, n, best')
  {
    hide Covers;
    var best' := Some(if best.Some? && best.value <= span then best.value else span);
    forall i | 0 <= i < l + 1
      ensures Beaten(items, i, n, best')
    {
      forall j | i < j <= |items| && Covers(items, i, j, n)
        ensures best'.value <= items[j - 1].pos - items[i].pos
      {
        if i == l {
          if j <= r {
            CoversMore(items, i, j, l, r, n);
          }
        } else {
          assert Beaten(items, i, n, best);
        }
      }
    }
  }

  /** Starts that never left the last window begin no covering window. */
  lemma NothingLeft(items: seq<Item>, l: nat, n: nat, best: Option<nat>)
    requires l <= |items| && (n > 0 ==> !Covers(items, l, |items|, n))
    requires forall i :: 0 <= i < l ==> Beaten(items, i, n, best)
    ensures n > 0 ==> forall i :: 0 <= i < |items| ==> Beaten(items, i, n, best)
  {
    hide Covers;
    if n > 0 {
      forall i | l <= i < |items|
        ensures Beaten(items, i, n, best)
      {
        forall j | i < j <= |items|
          ensures !Covers(items, i, j, n)
        {
          if Covers(items, i, j, n) {
            CoversMore(items, i, j, l, |items|, n);
          }
        }
      }
    }
  }

  lemma SortedItems(groups: seq<seq<nat>>, collected: seq<Item>, items: seq<Item>)
    requires ItemsOf(groups, |groups|, collected) && multiset(items) == multiset(collected)
    ensures ItemsOf(groups, |groups|, items)
  {
    assert forall x :: x in items <==> x in multiset(items);
    assert forall x :: x in collected <==> x in multiset(collected);
  }

  // --------------------------------------------------- windows are choices

  /** A choice of one item per group out of a covering window. */
  lemma {:induction false} ChoiceInWindow(items: seq<Item>, i: nat, j: nat, n: nat, m: nat) returns (ks: seq<nat>)
    requires Covers(items, i, j, n) && m <= n
    ensures |ks| == m && forall g :: 0 <= g < m ==> i <= ks[g] < j && items[ks[g]].group == g
    decreases m
  {
    if m == 0 {
      ks := [];
    } else {
      var rest := ChoiceInWindow(items, i, j, n, m - 1);
      assert HasGroup(items, i, j, m - 1);
      var k :| i <= k < j && items[k].group == m - 1;
      ks := rest + [k];
    }
  }

  /** Every choice spreads at least as far as some covering window. */
  lemma ChoiceIsWindow(groups: seq<seq<nat>>, items: seq<Item>, c: seq<nat>, span: nat, best: Option<nat>)
    requires groups != [] && ItemsOf(groups, |groups|, items) && Sorted(items)
    requires IsChoice(groups, c) && HasSpan(c, span)
    requires forall i :: 0 <= i < |items| ==> Beaten(items, i, |groups|, best)
    ensures best.Some? && best.value <= span
  {
    hide Covers;
    var hi: nat, lo: nat :| hi < |c| && lo < |c| && c[hi] == c[lo] + span;
    LowestAndHighest(c, span, hi, lo);
    var first := FirstAtLeast(items, c[lo]);
    var past := FirstAtLeast(items, c[hi] + 1);
    assert Item(c[lo], lo) in items && Item(c[hi], hi) in items;
    forall g | 0 <= g < |groups|
      ensures HasGroup(items, first, past, g)
    {
      assert Item(c[g], g) in items;
      var k :| 0 <= k < |items| && items[k] == Item(c[g], g);
      assert first <= k < past;
    }
    assert Covers(items, first, past, |groups|) by {
      CoversIs(items, first, past, |groups|);
    }
    CoveringIsNonempty(items, first, past, |groups|);
    assert Beaten(items, first, |groups|, best);
  }

  lemma CoversIs(items: seq<Item>, i: nat, j: nat, n: nat)
    requires j <= |items| && forall g :: 0 <= g < n ==> HasGroup(items, i, j, g)
    ensures Covers(items, i, j, n)
  {
  }

  lemma LowestAndHighest(c: seq<nat>, span: nat, hi: nat, lo: nat)
    requires Within(c, span) && hi < |c| && lo < |c| && c[hi] == c[lo] + span
    ensures forall g :: 0 <= g < |c| ==> c[lo] <= c[g] <= c[hi]
  {
    forall g | 0 <= g < |c|
      ensures c[lo] <= c[g] <= c[hi]
    {
      assert c[hi] - c[g] <= span && c[g] - c[lo] <= span;
    }
  }

  /** The first index whose position is at least p. */
  function FirstAtLeast(items: seq<Item>, p: nat): (k: nat)
    requires Sorted(items)
    ensures k <= |items|
    ensures forall i :: 0 <= i < k ==> items[i].pos < p
    ensures forall i :: k <= i < |items| ==> items[i].pos >= p
  {
    if items == [] then 0
    else if items[|items| - 1].pos >= p then FirstAtLeast(items[..|items| - 1], p)
    else |items|
  }

  lemma BestIsMinimal(groups: seq<seq<nat>>, items: seq<Item>, best: Option<nat>)
    requires ItemsOf(groups, |groups|, items) && Sorted(items) && [] !in groups
    requires best.Some? ==> IsWindow(items, |groups|, best.value)
    requires groups != [] ==> forall i :: 0 <= i < |items| ==> Beaten(items, i, |groups|, best)
    requires groups == [] ==> best.None?
    ensures best.None? <==> groups == []
    ensures best.Some? ==> IsMinSpan(groups, best.value)
  {
    hide Beaten;
    if groups != [] {
      var heads := seq(|groups|, g requires 0 <= g < |groups| => groups[g][0]);
      assert IsChoice(groups, heads) by {
        assert forall g :: 0 <= g < |groups| ==> groups[g] in groups;
      }
      var s := SpanOf(heads);
      ChoiceIsWindow(groups, items, heads, s, best);
      forall c, t | IsChoice(groups, c) && HasSpan(c, t)
        ensures best.value <= t
      {
        ChoiceIsWindow(groups, items, c, t, best);
      }
      var c := ChoiceOfWindow(groups, items, best.value);
      var t := SpanOf(c);
      ChoiceIsWindow(groups, items, c, t, best);
      SpanIsUnique(c, t, best.value);
    }
  }

  lemma SpanIsUnique(c: seq<nat>, t: nat, bound: nat)
    requires HasSpan(c, t) && Within(c, bound) && bound <= t
    ensures HasSpan(c, bound)
  {
    var i, j :| 0 <= i < |c| && 0 <= j < |c| && c[i] == c[j] + t;
    assert c[i] - c[j] <= bound;
  }

  /** A covering window gives a choice within its span. */
  lemma ChoiceOfWindow(groups: seq<seq<nat>>, items: seq<Item>, span: nat) returns (c: seq<nat>)
    requires ItemsOf(groups, |groups|, items) && Sorted(items) && IsWindow(items, |groups|, span)
    ensures IsChoice(groups, c) && Within(c, span)
  {
    hide Covers, ItemsOf, Sorted;
    var i, j :| 0 <= i < j <= |items| && Covers(items, i, j, |groups|) && items[j - 1].pos - items[i].pos == span;
    var ks := ChoiceInWindow(items, i, j, |groups|, |groups|);
    c := seq(|groups|, g requires 0 <= g < |groups| => items[ks[g]].pos);
    forall g | 0 <= g < |groups|
      ensures c[g] in groups[g] && items[i].pos <= c[g] <= items[j - 1].pos
    {
      ItemBetween(groups, items, i, ks[g], j);
    }
  }

  lemma ItemBetween(groups: seq<seq<nat>>, items: seq<Item>, i: nat, k: nat, j: nat)
    requires ItemsOf(groups, |groups|, items) && Sorted(items) && i <= k < j <= |items|
    ensures items[k].group < |groups| && items[k].pos in groups[items[k].group]
    ensures items[i].pos <= items[k].pos <= items[j - 1].pos
  {
    assert items[k] in items;
  }

  /** Every nonempty choice has a span. */
  lemma {:induction false} SpanOf(c: seq<nat>) returns (span: nat)
    requires c != []
    ensures HasSpan(c, span)
  {
    var hi, lo := Extremes(c);
    span := c[hi] - c[lo];
  }

  lemma {:induction false} Extremes(c: seq<nat>) returns (hi: nat, lo: nat)
    requires c != []
    ensures hi < |c| && lo < |c| && forall g :: 0 <= g < |c| ==> c[lo] <= c[g] <= c[hi]
  {
    var last := |c| - 1;
    if last == 0 {
      hi, lo := 0, 0;
    } else {
      hi, lo := Extremes(c[..last]);
      assert forall g :: 0 <= g < last ==> c[..last][g] == c[g];
      if c[last] > c[hi] {
        hi := last;
      }
      if c[last] < c[lo] {
        lo := last;
      }
    }
  }
}
