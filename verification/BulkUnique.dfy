/** The deferred index entries of a bulk load (`flush_index_entries` of `src/catalog.rs`). */
module BulkUnique {
  import opened Options
  import K = Keys
  import opened Bytes
  import opened KeyEnc
  import opened TableRows

  type Types = seq<K.ColType>

  /** Entries of one index: as many values as columns, of their types. */
  predicate Typed(e: Entry, ts: Types) {
    |e.vals| == |ts| && K.AllFit(e.vals, ts)
  }

  predicate AllTyped(es: seq<Entry>, ts: Types) {
    forall i :: 0 <= i < |es| ==> Typed(es[i], ts)
  }

  predicate DistinctRowids(es: seq<Entry>) {
    forall i, j :: 0 <= i < j < |es| ==> es[i].rowid != es[j].rowid
  }

  function KeyOf(e: Entry, ts: Types): (r: ByteString)
    requires Typed(e, ts)
  {
    K.IndexKey(1, e.vals, ts, e.rowid)
  }

  /** Inserting one at a time; None at the first violation. */
  function OneByOne(es: set<Entry>, unique: bool, batch: seq<Entry>): (r: Option<set<Entry>>) {
    if batch == [] then Some(es)
    else
      var before := OneByOne(es, unique, batch[..|batch| - 1]);
      var e := batch[|batch| - 1];
      if before.None? || !Admits(before.value, unique, e) then None else Some(before.value + {e})
  }

  function Members(batch: seq<Entry>): (r: set<Entry>) {
    set i | 0 <= i < |batch| :: batch[i]
  }

  /** Two of the batch share a key without NULLs, or one shares it with an entry of another row. */
  ghost predicate Clash(es: set<Entry>, batch: seq<Entry>) {
    || (exists i, j :: 0 <= i < j < |batch| && SameKey(batch[i], batch[j]))
    || exists i :: 0 <= i < |batch| && Taken(es, batch[i])
  }

  predicate SameKey(a: Entry, b: Entry) {
    !HasNull(a.vals) && a.vals == b.vals
  }

  predicate Taken(es: set<Entry>, e: Entry) {
    !HasNull(e.vals) && HeldByOther(es, e.vals, e.rowid)
  }

  lemma HeldInUnion(es: set<Entry>, more: set<Entry>, vals: seq<Value>, rowid: I64)
    ensures HeldByOther(es + more, vals, rowid) <==> HeldByOther(es, vals, rowid) || HeldByOther(more, vals, rowid)
  {
    if e :| e in es && e.vals == vals && e.rowid != rowid {
      assert e in es + more;
    }
    if e :| e in more && e.vals == vals && e.rowid != rowid {
      assert e in es + more;
    }
  }

  lemma HeldInBatch(batch: seq<Entry>, e: Entry)
    requires forall i :: 0 <= i < |batch| ==> batch[i].rowid != e.rowid
    ensures HeldByOther(Members(batch), e.vals, e.rowid) <==> exists i :: 0 <= i < |batch| && batch[i].vals == e.vals
  {
    if i :| 0 <= i < |batch| && batch[i].vals == e.vals {
      assert batch[i] in Members(batch);
    }
  }

  /** Row by row, the whole batch goes in exactly when nothing clashes. */
  lemma {:induction false} OneByOneIs(es: set<Entry>, unique: bool, batch: seq<Entry>)
    requires DistinctRowids(batch)
    ensures OneByOne(es, unique, batch) == if unique && Clash(es, batch) then None else Some(es + Members(batch))
  {
    hide HeldByOther, HasNull, Members;
    if batch == [] {
      NoMembers();
      assert es + {} == es;
    } else {
      var front, e := batch[..|batch| - 1], batch[|batch| - 1];
      assert batch == front + [e];
      assert DistinctRowids(front);
      OneByOneIs(es, unique, front);
      MembersMore(front, e);
      HeldInUnion(es, Members(front), e.vals, e.rowid);
      HeldInBatch(front, e);
      ClashMore(es, front, e);
      assert es + (Members(front) + {e}) == es + Members(front) + {e};
    }
  }

  lemma NoMembers()
    ensures Members([]) == {}
  {
  }

  lemma MembersMore(batch: seq<Entry>, e: Entry)
    ensures Members(batch + [e]) == Members(batch) + {e}
  {
    var more := batch + [e];
    assert more[|batch|] == e;
    forall x | x in Members(batch)
      ensures x in Members(more)
    {
      var i :| 0 <= i < |batch| && batch[i] == x;
      assert more[i] == x;
    }
  }

  lemma ClashMore(es: set<Entry>, batch: seq<Entry>, e: Entry)
    ensures Clash(es, batch + [e]) <==>
      Clash(es, batch) || Taken(es, e) || (!HasNull(e.vals) && exists i :: 0 <= i < |batch| && batch[i].vals == e.vals)
  {
    hide HeldByOther, HasNull;
    var more := batch + [e];
    assert more[|batch|] == e && forall i :: 0 <= i < |batch| ==> more[i] == batch[i];
    if i, j :| 0 <= i < j < |batch| && SameKey(batch[i], batch[j]) {
      assert SameKey(more[i], more[j]);
    }
    if i :| 0 <= i < |batch| && Taken(es, batch[i]) {
      assert Taken(es, more[i]);
    }
    if !HasNull(e.vals) && exists i :: 0 <= i < |batch| && batch[i].vals == e.vals {
      var i :| 0 <= i < |batch| && batch[i].vals == e.vals;
      assert SameKey(more[i], more[|batch|]);
    }
    assert Taken(es, e) ==> Taken(es, more[|batch|]);
  }

  // ------------------------------------------------------------------- sorting

  predicate KeysSorted(batch: seq<Entry>, ts: Types)
    requires AllTyped(batch, ts)
  {
    forall i, j :: 0 <= i < j < |batch| ==> !Less(KeyOf(batch[j], ts), KeyOf(batch[i], ts))
  }

  method InsertByKey(e: Entry, sorted: seq<Entry>, ghost ts: Types, keys: seq<ByteString>, key: ByteString) returns (at: nat)
    requires AllTyped(sorted, ts) && KeysSorted(sorted, ts) && Typed(e, ts) && key == KeyOf(e, ts)
    requires |keys| == |sorted| && forall i :: 0 <= i < |sorted| ==> keys[i] == KeyOf(sorted[i], ts)
    ensures at <= |sorted| && AllTyped(sorted[..at] + [e] + sorted[at..], ts)
    ensures KeysSorted(sorted[..at] + [e] + sorted[at..], ts)
  {
    hide K.IndexKey;
    at := 0;
    while at < |sorted| && Less(keys[at], key)
      invariant at <= |sorted| && forall i :: 0 <= i < at ==> Less(KeyOf(sorted[i], ts), key)
    {
      at := at + 1;
    }
    var r := sorted[..at] + [e] + sorted[at..];
    forall i | 0 <= i < at
      ensures !Less(key, KeyOf(sorted[i], ts))
    {
      LessAsymmetric(KeyOf(sorted[i], ts), key);
    }
    forall j | at <= j < |sorted|
      ensures !Less(KeyOf(sorted[j], ts), key)
    {
      if Less(KeyOf(sorted[j], ts), key) {
        LaterIsNotLess(sorted, ts, at, j, key);
      }
    }
    SortedPieces(sorted, ts, at, e);
  }

  lemma LaterIsNotLess(sorted: seq<Entry>, ts: Types, at: nat, j: nat, key: ByteString)
    requires AllTyped(sorted, ts) && KeysSorted(sorted, ts) && at <= j < |sorted| && Less(KeyOf(sorted[j], ts), key)
    ensures Less(KeyOf(sorted[at], ts), key)
  {
    hide K.IndexKey;
    var a, b := KeyOf(sorted[at], ts), KeyOf(sorted[j], ts);
    LessTotal(a, b);
    if Less(a, b) {
      LessTransitive(a, b, key);
    }
  }

  lemma SortedPieces(sorted: seq<Entry>, ts: Types, at: nat, e: Entry)
    requires AllTyped(sorted, ts) && KeysSorted(sorted, ts) && at <= |sorted| && Typed(e, ts)
    requires forall i :: 0 <= i < at ==> !Less(KeyOf(e, ts), KeyOf(sorted[i], ts))
    requires forall j :: at <= j < |sorted| ==> !Less(KeyOf(sorted[j], ts), KeyOf(e, ts))
    ensures AllTyped(sorted[..at] + [e] + sorted[at..], ts) && KeysSorted(sorted[..at] + [e] + sorted[at..], ts)
  {
    hide K.IndexKey;
    var r := sorted[..at] + [e] + sorted[at..];
    forall i, j | 0 <= i < j < |r|
      ensures !Less(KeyOf(r[j], ts), KeyOf(r[i], ts))
    {
      var x := if i < at then i else i - 1;
      var y := if j < at then j else j - 1;
      assert i != at ==> r[i] == sorted[x];
      assert j != at ==> r[j] == sorted[y];
    }
  }

  /** `sort_unstable` by key. */
  method SortByKey(batch: seq<Entry>, ts: Types) returns (sorted: seq<Entry>)
    requires AllTyped(batch, ts)
    ensures AllTyped(sorted, ts) && KeysSorted(sorted, ts) && multiset(sorted) == multiset(batch)
  {
    hide K.IndexKey, KeysSorted;
    sorted := [];
    var keys: seq<ByteString> := [];
    NothingSorted(ts);
    for k := 0 to |batch|
      invariant AllTyped(sorted, ts) && KeysSorted(sorted, ts) && multiset(sorted) == multiset(batch[..k])
      invariant |keys| == |sorted| && forall i :: 0 <= i < |sorted| ==> keys[i] == KeyOf(sorted[i], ts)
    {
      var e := batch[k];
      var key := KeyOf(e, ts);
      var at := InsertByKey(e, sorted, ts, keys, key);
      assert batch[..k + 1] == batch[..k] + [e];
      assert sorted == sorted[..at] + sorted[at..];
      sorted := sorted[..at] + [e] + sorted[at..];
      keys := keys[..at] + [key] + keys[at..];
    }
    assert batch[..|batch|] == batch;
  }

  lemma NothingSorted(ts: Types)
    ensures AllTyped([], ts) && KeysSorted([], ts)
  {
  }

  /** Sorted, equal keys are neighbours. */
  lemma {:induction false} EqualKeysAreAdjacent(sorted: seq<Entry>, ts: Types, i: nat, j: nat)
    requires AllTyped(sorted, ts) && KeysSorted(sorted, ts) && i < j < |sorted| && sorted[i].vals == sorted[j].vals
    ensures sorted[i].vals == sorted[i + 1].vals
  {
    hide K.IndexKey;
    var a, b, c := sorted[i], sorted[i + 1], sorted[j];
    assert Typed(a, ts) && Typed(b, ts) && Typed(c, ts);
    K.TupleTotal(a.vals, b.vals, ts);
    K.IndexKeysSort(1, b.vals, a.vals, ts, b.rowid, a.rowid);
    if i + 1 < j {
      K.IndexKeysSort(1, c.vals, b.vals, ts, c.rowid, b.rowid);
    }
  }

  // --------------------------------------------------------------------- flush

  /** The check of neighbours finds every clash inside the batch. */
  lemma AdjacentDecides(sorted: seq<Entry>, ts: Types)
    requires AllTyped(sorted, ts) && KeysSorted(sorted, ts)
    ensures (exists i, j :: 0 <= i < j < |sorted| && SameKey(sorted[i], sorted[j])) <==>
      exists i: nat :: Neighbours(sorted, i)
  {
    hide HasNull, KeysSorted;
    if i, j :| 0 <= i < j < |sorted| && SameKey(sorted[i], sorted[j]) {
      EqualKeysAreAdjacent(sorted, ts, i, j);
      assert Neighbours(sorted, i);
    }
    if i: nat :| Neighbours(sorted, i) {
      assert SameKey(sorted[i], sorted[i + 1]);
    }
  }

  predicate Neighbours(sorted: seq<Entry>, i: nat) {
    i + 1 < |sorted| && SameKey(sorted[i], sorted[i + 1])
  }

  lemma ClashOfPermutation(es: set<Entry>, a: seq<Entry>, b: seq<Entry>)
    requires multiset(a) == multiset(b) && DistinctRowids(a) && Clash(es, a)
    ensures Clash(es, b)
  {
    hide HeldByOther, HasNull;
    if i, j :| 0 <= i < j < |a| && SameKey(a[i], a[j]) {
      var x := IndexOf(a, b, i);
      var y := IndexOf(a, b, j);
      assert x != y;
      assert SameKey(b[x], b[y]) && SameKey(b[y], b[x]);
    } else {
      var i :| 0 <= i < |a| && Taken(es, a[i]);
      var x := IndexOf(a, b, i);
      assert Taken(es, b[x]);
    }
  }

  lemma IndexOf(a: seq<Entry>, b: seq<Entry>, i: nat) returns (x: nat)
    requires multiset(a) == multiset(b) && i < |a|
    ensures x < |b| && b[x] == a[i]
  {
    assert a[i] in multiset(a);
    assert a[i] in b;
    x :| 0 <= x < |b| && b[x] == a[i];
  }

  lemma DistinctInPermutation(a: seq<Entry>, b: seq<Entry>)
    requires multiset(a) == multiset(b) && DistinctRowids(a)
    ensures DistinctRowids(b)
  {
    forall i, j | 0 <= i < j < |b|
      ensures b[i].rowid != b[j].rowid
    {
      if b[i] == b[j] {
        TwiceIn(b, i, j);
        OnceIn(a, b[i]);
      }
      var x := IndexOf(b, a, i);
      var y := IndexOf(b, a, j);
    }
  }

  lemma TwiceIn(b: seq<Entry>, i: nat, j: nat)
    requires i < j < |b| && b[i] == b[j]
    ensures multiset(b)[b[i]] >= 2
  {
    assert b == b[..i] + [b[i]] + b[i + 1..j] + [b[j]] + b[j + 1..];
  }

  lemma {:induction false} OnceIn(a: seq<Entry>, e: Entry)
    requires DistinctRowids(a)
    ensures multiset(a)[e] <= 1
  {
    if a != [] {
      var front, last := a[..|a| - 1], a[|a| - 1];
      assert a == front + [last];
      OnceIn(front, e);
      if e == last {
        assert e !in front;
      }
    }
  }

  lemma MembersOfPermutation(a: seq<Entry>, b: seq<Entry>)
    requires multiset(a) == multiset(b)
    ensures Members(a) == Members(b)
  {
    forall x
      ensures x in Members(a) <==> x in a
      ensures x in Members(b) <==> x in b
      ensures x in a <==> x in b
    {
      assert x in a <==> x in multiset(a);
      assert x in b <==> x in multiset(b);
    }
  }

  method NeighboursClash(sorted: seq<Entry>) returns (clash: bool)
    ensures clash <==> exists i: nat :: Neighbours(sorted, i)
  {
    hide HasNull;
    var i := 0;
    while i + 1 < |sorted|
      invariant forall k: nat :: k < i ==> !Neighbours(sorted, k)
    {
      if !HasNull(sorted[i].vals) && sorted[i].vals == sorted[i + 1].vals {
        assert Neighbours(sorted, i);
        return true;
      }
      i := i + 1;
    }
    return false;
  }

  lemma NoTwins(sorted: seq<Entry>, ts: Types, i: nat)
    requires AllTyped(sorted, ts) && KeysSorted(sorted, ts) && i < |sorted| && !exists k: nat :: Neighbours(sorted, k)
    ensures forall k :: 0 <= k < i ==> !SameKey(sorted[k], sorted[i])
  {
    hide HasNull, KeysSorted;
    AdjacentDecides(sorted, ts);
  }

  /** One probe per distinct key. */
  method ProbeExisting(es: set<Entry>, sorted: seq<Entry>, ghost ts: Types) returns (clash: bool)
    requires AllTyped(sorted, ts) && KeysSorted(sorted, ts) && !exists i: nat :: Neighbours(sorted, i)
    ensures clash <==> exists i :: 0 <= i < |sorted| && Taken(es, sorted[i])
  {
    hide HasNull, HeldByOther, KeysSorted;
    var prev: Option<seq<Value>> := None;
    for i := 0 to |sorted|
      invariant forall k :: 0 <= k < i ==> !Taken(es, sorted[k])
      invariant prev.Some? ==> exists k :: 0 <= k < i && !HasNull(sorted[k].vals) && sorted[k].vals == prev.value
    {
      var e := sorted[i];
      NoTwins(sorted, ts, i);
      if !HasNull(e.vals) && prev != Some(e.vals) {
        var held := CheckHeld(es, e.vals, e.rowid);
        if held {
          assert Taken(es, sorted[i]);
          return true;
        }
        prev := Some(e.vals);
      }
    }
    return false;
  }

  /**
    The bulk flush: sort, look at neighbours, probe what is there, and only then write.
    It fails exactly when inserting the rows one at a time would, and otherwise leaves
    the same index.
  */
  method FlushIndexEntries(es: set<Entry>, unique: bool, batch: seq<Entry>, ts: Types) returns (r: Option<set<Entry>>)
    requires AllTyped(batch, ts) && DistinctRowids(batch)
    ensures r == OneByOne(es, unique, batch)
  {
    hide HasNull, HeldByOther, KeysSorted, Members, OneByOne;
    OneByOneIs(es, unique, batch);
    var sorted := SortByKey(batch, ts);
    SortedClash(es, batch, sorted, ts);
    MembersOfPermutation(batch, sorted);
    if unique {
      var clash := NeighboursClash(sorted);
      if clash {
        return None;
      }
      clash := ProbeExisting(es, sorted, ts);
      if clash {
        return None;
      }
    }
    var out := es;
    NoMembers();
    assert es + {} == es;
    for i := 0 to |sorted|
      invariant out == es + Members(sorted[..i])
    {
      assert sorted[..i + 1] == sorted[..i] + [sorted[i]];
      MembersMore(sorted[..i], sorted[i]);
      out := out + {sorted[i]};
    }
    assert sorted[..|sorted|] == sorted;
    return Some(out);
  }

  lemma SortedClash(es: set<Entry>, batch: seq<Entry>, sorted: seq<Entry>, ts: Types)
    requires AllTyped(sorted, ts) && KeysSorted(sorted, ts) && DistinctRowids(batch) && multiset(sorted) == multiset(batch)
    ensures Clash(es, batch) <==>
      (exists i: nat :: Neighbours(sorted, i)) || exists i :: 0 <= i < |sorted| && Taken(es, sorted[i])
  {
    hide HasNull, HeldByOther, KeysSorted, Members;
    AdjacentDecides(sorted, ts);
    DistinctInPermutation(batch, sorted);
    if Clash(es, batch) {
      ClashOfPermutation(es, batch, sorted);
    }
    if Clash(es, sorted) {
      ClashOfPermutation(es, sorted, batch);
    }
  }
}
