/** Building a full-text index in bulk gives the index that row by row would (`backfill_fts_index` of `src/catalog.rs`). */
module FtsBulk {
  import opened Options
  import opened Bytes
  import opened Fts

  /** What the build keeps in memory: id and document count per term, and the cells to write. */
  datatype Bulk = Bulk(
    dict: map<Term, (nat, nat)>, nextId: nat,
    entries: seq<((nat, int), Cell)>, lens: seq<(int, nat)>, total: nat, rows: nat)

  const Start: Bulk := Bulk(map[], 1, [], [], 0, 0)

  /** Cells written one after the other; a later one replaces an earlier one with its key. */
  function Written<K(==), V>(entries: seq<(K, V)>): (r: map<K, V>) {
    if entries == [] then map[]
    else
      var last := entries[|entries| - 1];
      Written(entries[..|entries| - 1])[last.0 := last.1]
  }

  lemma WrittenMore<K, V>(entries: seq<(K, V)>, k: K, v: V)
    ensures Written(entries + [(k, v)]) == Written(entries)[k := v]
  {
    assert (entries + [(k, v)])[..|entries|] == entries;
  }

  function Ids(dict: map<Term, (nat, nat)>): (r: map<Term, nat>) {
    map t | t in dict :: dict[t].0
  }

  function Dfs(dict: map<Term, (nat, nat)>): (r: map<Term, nat>) {
    map t | t in dict :: dict[t].1
  }

  /** The index that the build writes out. */
  function IndexOf(b: Bulk): (r: Index) {
    Index(Ids(b.dict), if b.nextId > 1 then Some(b.nextId) else None, Written(b.entries), Dfs(b.dict), Written(b.lens),
          if b.rows > 0 then Some((b.rows, b.total)) else None)
  }

  predicate BulkOk(b: Bulk) {
    b.nextId >= 1 && (b.rows == 0 ==> b.total == 0)
  }

  function WithTerm(b: Bulk, term: Term, rowid: int, cell: Cell): (r: Bulk) {
    var fresh' := term !in b.dict;
    var (id, df) := if fresh' then (b.nextId, 0) else b.dict[term];
    b.(dict := b.dict[term := (id, df + 1)], nextId := if fresh' then b.nextId + 1 else b.nextId,
       entries := b.entries + [((id, rowid), cell)])
  }

  function WithLen(b: Bulk, rowid: int, n: nat): (r: Bulk) {
    b.(lens := if n > 0 then b.lens + [(rowid, n)] else b.lens, total := b.total + n, rows := b.rows + 1)
  }

  /** Counting in memory is what the row-by-row dictionary and counters do. */
  lemma WithTermApplies(b: Bulk, term: Term, rowid: int, cell: Cell)
    requires BulkOk(b)
    ensures BulkOk(WithTerm(b, term, rowid, cell))
    ensures IndexOf(WithTerm(b, term, rowid, cell)) == ApplyTerm(IndexOf(b), term, rowid, cell, true)
  {
    hide Written;
    var b' := WithTerm(b, term, rowid, cell);
    WrittenMore(b.entries, (b'.dict[term].0, rowid), cell);
    var ix := IndexOf(b);
    IdsMore(b.dict, term, b'.dict[term]);
    assert Ids(b'.dict) == Allocated(ix, term).dict;
    assert Dfs(b'.dict) == Adjusted(ix.df, term, true);
  }

  lemma IdsMore(dict: map<Term, (nat, nat)>, term: Term, v: (nat, nat))
    ensures Ids(dict[term := v]) == Ids(dict)[term := v.0] && Dfs(dict[term := v]) == Dfs(dict)[term := v.1]
    ensures term in dict && v.0 == dict[term].0 ==> Ids(dict[term := v]) == Ids(dict)
  {
  }

  lemma WithLenApplies(b: Bulk, rowid: int, n: nat)
    requires BulkOk(b)
    ensures BulkOk(WithLen(b, rowid, n))
    ensures IndexOf(WithLen(b, rowid, n)) == ApplyStats(IndexOf(b), rowid, n, true)
  {
    hide Written;
    WrittenMore(b.lens, rowid, n);
  }

  /** Adding the rows one at a time to an empty index. */
  ghost function RowByRow(fts: FtsDef, rows: seq<(int, Record)>): (r: Index) {
    if rows == [] then Empty
    else
      var last := rows[|rows| - 1];
      ApplyDoc(RowByRow(fts, rows[..|rows| - 1]), last.0, DocOf(fts, last.1), true)
  }

  lemma StartIsEmpty()
    ensures BulkOk(Start) && IndexOf(Start) == Empty
  {
    assert Ids(map[]) == map[] && Dfs(map[]) == map[];
  }

  /** One row's terms, in key order, and its length. */
  method CollectRow(b: Bulk, fts: FtsDef, rowid: int, record: Record) returns (r: Bulk)
    requires BulkOk(b)
    ensures BulkOk(r) && IndexOf(r) == ApplyDoc(IndexOf(b), rowid, DocOf(fts, record), true)
  {
    hide IndexOf, Grouped, SortedTerms, ApplyTerm, ApplyTerms, ApplyStats, WithTerm, WithLen, BulkOk, TermsOf, DocOf;
    var perTerm, doclen := GroupTokens(fts, record);
    GroupedKeys(DocOf(fts, record));
    var ts := KeysInOrder(perTerm.Keys);
    r := b;
    ApplyTermsWhole(IndexOf(b), ts, perTerm, rowid, true);
    for k := 0 to |ts|
      invariant BulkOk(r) && forall t :: t in ts[..k] ==> t in perTerm
      invariant IndexOf(r) == ApplyTerms(IndexOf(b), ts[..k], perTerm, rowid, true)
    {
      ApplyTermsStep(IndexOf(b), ts, k, perTerm, rowid, true);
      WithTermApplies(r, ts[k], rowid, perTerm[ts[k]]);
      r := WithTerm(r, ts[k], rowid, perTerm[ts[k]]);
    }
    WithLenApplies(r, rowid, doclen);
    r := WithLen(r, rowid, doclen);
  }

  /** Bulk equals incremental: term ids, counter, postings, frequencies, lengths and totals. */
  method BackfillFtsIndex(fts: FtsDef, rows: seq<(int, Record)>) returns (ix: Index)
    ensures ix == RowByRow(fts, rows)
  {
    hide IndexOf, ApplyDoc, BulkOk;
    var b := Start;
    StartIsEmpty();
    for k := 0 to |rows|
      invariant BulkOk(b) && IndexOf(b) == RowByRow(fts, rows[..k])
    {
      assert rows[..k + 1][..k] == rows[..k];
      b := CollectRow(b, fts, rows[k].0, rows[k].1);
    }
    assert rows[..|rows|] == rows;
    ix := IndexOf(b);
  }

  // ------------------------------------------------------------ order of writing

  predicate DistinctKeys<K(==), V>(entries: seq<(K, V)>) {
    forall i, j :: 0 <= i < j < |entries| ==> entries[i].0 != entries[j].0
  }

  lemma {:induction false} WrittenHolds<K, V>(entries: seq<(K, V)>)
    requires DistinctKeys(entries)
    ensures forall k :: k in Written(entries) ==> (k, Written(entries)[k]) in entries
    ensures forall e :: e in entries ==> e.0 in Written(entries) && Written(entries)[e.0] == e.1
  {
    if entries != [] {
      var front, last := entries[..|entries| - 1], entries[|entries| - 1];
      assert entries == front + [last];
      WrittenHolds(front);
    }
  }

  /** The build sorts its cells before writing them; no two share a key, so that changes nothing. */
  lemma SortingChangesNothing<K, V>(entries: seq<(K, V)>, sorted: seq<(K, V)>)
    requires DistinctKeys(entries) && DistinctKeys(sorted) && multiset(entries) == multiset(sorted)
    ensures Written(entries) == Written(sorted)
  {
    hide Written;
    WrittenHolds(entries);
    WrittenHolds(sorted);
    assert forall e :: e in entries <==> e in multiset(entries);
    assert forall e :: e in sorted <==> e in multiset(sorted);
    var a, b := Written(entries), Written(sorted);
    forall k | k in a
      ensures k in b && a[k] == b[k]
    {
      assert (k, a[k]) in sorted;
    }
    forall k | k in b
      ensures k in a
    {
      assert (k, b[k]) in entries;
    }
  }
}
