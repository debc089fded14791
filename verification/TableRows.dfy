/**
  Rows with their secondary indexes (`src/catalog.rs`): what inserting, updating and
  deleting a row does to every index, UNIQUE, and the rowid counter.  An entry is its
  values and its rowid; that entries and keys are one and the same is in `Keys`.
*/
module TableRows {
  import opened Options
  import K = Keys
  import opened KeyEnc

  type Value = K.Value
  type Record = seq<Value>

  const MAX_ROWID: int := TWO_63 - 1

  datatype Entry = Entry(vals: seq<Value>, rowid: I64)

  datatype IndexDef = IndexDef(columns: seq<nat>, unique: bool)

  /** The values a record has in the indexed columns. */
  function Project(record: Record, idx: IndexDef): (vals: seq<Value>)
    requires Fits(record, idx)
    ensures |vals| == |idx.columns| && forall k :: 0 <= k < |vals| ==> vals[k] == record[idx.columns[k]]
  {
    seq(|idx.columns|, k requires 0 <= k < |idx.columns| => record[idx.columns[k]])
  }

  predicate HasNull(vals: seq<Value>) {
    exists k :: 0 <= k < |vals| && vals[k] == K.Null
  }

  /** The index of each column lies inside the record. */
  predicate Fits(record: Record, idx: IndexDef) {
    forall k :: 0 <= k < |idx.columns| ==> idx.columns[k] < |record|
  }

  predicate FitsAll(record: Record, indexes: seq<IndexDef>) {
    forall i :: 0 <= i < |indexes| ==> Fits(record, indexes[i])
  }

  type Rows = map<I64, Record>

  predicate EachFits(rows: Rows, idx: IndexDef) {
    forall r :: r in rows ==> Fits(rows[r], idx)
  }

  predicate RowsFit(rows: Rows, indexes: seq<IndexDef>) {
    forall i :: 0 <= i < |indexes| ==> EachFits(rows, indexes[i])
  }

  /** The entries an index of these rows must have. */
  function EntriesOf(rows: Rows, idx: IndexDef): (r: set<Entry>)
    requires EachFits(rows, idx)
  {
    set r | r in rows :: Entry(Project(rows[r], idx), r)
  }

  /** No two entries of a UNIQUE index share values, NULLs aside. */
  ghost predicate IsUnique(es: set<Entry>) {
    forall a, b :: a in es && b in es && a.vals == b.vals && !HasNull(a.vals) ==> a == b
  }

  datatype Table = Table(rows: Rows, next: I64, entries: seq<set<Entry>>)

  ghost predicate IndexOk(rows: Rows, idx: IndexDef, es: set<Entry>)
    requires EachFits(rows, idx)
  {
    es == EntriesOf(rows, idx) && (idx.unique ==> IsUnique(es))
  }

  /** The counter is above every rowid, or saturated. */
  predicate CounterOk(rowids: set<I64>, next: I64) {
    forall r :: r in rowids ==> r < next || next == MAX_ROWID
  }

  ghost predicate TableOk(t: Table, indexes: seq<IndexDef>) {
    && RowsFit(t.rows, indexes) && |t.entries| == |indexes| && CounterOk(t.rows.Keys, t.next)
    && IndexesOk(t.rows, indexes, t.entries)
  }

  ghost predicate IndexesOk(rows: Rows, indexes: seq<IndexDef>, entries: seq<set<Entry>>)
    requires RowsFit(rows, indexes)
  {
    |entries| == |indexes| && forall i :: 0 <= i < |indexes| ==> IndexOk(rows, indexes[i], entries[i])
  }

  // ------------------------------------------------------------------- UNIQUE

  /** Some other row holds these values (`value_held_by_other`). */
  predicate HeldByOther(es: set<Entry>, vals: seq<Value>, rowid: I64) {
    exists e :: e in es && e.vals == vals && e.rowid != rowid
  }

  /** Inserting the entry keeps the index unique. */
  predicate Admits(es: set<Entry>, unique: bool, e: Entry) {
    !unique || HasNull(e.vals) || !HeldByOther(es, e.vals, e.rowid)
  }

  method CheckHeld(es: set<Entry>, vals: seq<Value>, rowid: I64) returns (held: bool)
    ensures held <==> HeldByOther(es, vals, rowid)
  {
    held := false;
    var left := es;
    while left != {}
      invariant left <= es
      invariant held <==> HeldByOther(es - left, vals, rowid)
      decreases |left|
    {
      var e :| e in left;
      if e.vals == vals && e.rowid != rowid {
        held := true;
        assert e in es - (left - {e});
      }
      left := left - {e};
    }
    assert es - left == es;
  }

  /** Conflicts of one row with the others, index by index. */
  ghost predicate Conflicts(rows: Rows, idx: IndexDef, rowid: I64, record: Record)
    requires Fits(record, idx) && EachFits(rows, idx)
  {
    && idx.unique && !HasNull(Project(record, idx))
    && exists r :: r in rows && r != rowid && Project(rows[r], idx) == Project(record, idx)
  }

  /** In terms of the records: another row has the same value in every indexed column, and none of them is NULL. */
  lemma ConflictsMean(rows: Rows, idx: IndexDef, rowid: I64, record: Record)
    requires Fits(record, idx) && EachFits(rows, idx)
    ensures Conflicts(rows, idx, rowid, record) <==>
      && idx.unique
      && (forall k :: 0 <= k < |idx.columns| ==> record[idx.columns[k]] != K.Null)
      && exists r :: r in rows && r != rowid && forall k :: 0 <= k < |idx.columns| ==> rows[r][idx.columns[k]] == record[idx.columns[k]]
  {
    var vals := Project(record, idx);
    assert HasNull(vals) <==> exists k :: 0 <= k < |idx.columns| && record[idx.columns[k]] == K.Null by {
      assert forall k :: 0 <= k < |vals| ==> vals[k] == record[idx.columns[k]];
    }
    forall r | r in rows && forall k :: 0 <= k < |idx.columns| ==> rows[r][idx.columns[k]] == record[idx.columns[k]]
      ensures Project(rows[r], idx) == vals
    {
    }
    forall r | r in rows && Project(rows[r], idx) == vals
      ensures forall k :: 0 <= k < |idx.columns| ==> rows[r][idx.columns[k]] == record[idx.columns[k]]
    {
      assert forall k :: 0 <= k < |vals| ==> Project(rows[r], idx)[k] == vals[k];
    }
  }

  /** An entry of the index is a live row's rowid with that row's values in the indexed columns, in their order. */
  lemma EntryMeans(rows: Rows, idx: IndexDef, e: Entry)
    requires EachFits(rows, idx)
    ensures e in EntriesOf(rows, idx) <==>
      && e.rowid in rows && |e.vals| == |idx.columns|
      && forall k :: 0 <= k < |idx.columns| ==> e.vals[k] == rows[e.rowid][idx.columns[k]]
  {
    if e.rowid in rows && |e.vals| == |idx.columns| && (forall k :: 0 <= k < |idx.columns| ==> e.vals[k] == rows[e.rowid][idx.columns[k]]) {
      assert e.vals == Project(rows[e.rowid], idx);
    }
  }

  lemma AdmitsMeansNoConflict(rows: Rows, idx: IndexDef, es: set<Entry>, rowid: I64, record: Record)
    requires Fits(record, idx) && EachFits(rows, idx) && es == EntriesOf(rows, idx)
    ensures Admits(es, idx.unique, Entry(Project(record, idx), rowid)) <==> !Conflicts(rows, idx, rowid, record)
  {
    var vals := Project(record, idx);
    if r :| r in rows && r != rowid && Project(rows[r], idx) == vals {
      assert Entry(vals, r) in es;
    }
    if e :| e in es && e.vals == vals && e.rowid != rowid {
      assert e.rowid in rows;
    }
  }

  lemma InsertKeepsIndex(rows: Rows, idx: IndexDef, es: set<Entry>, rowid: I64, record: Record)
    requires Fits(record, idx) && EachFits(rows, idx)
    requires IndexOk(rows, idx, es) && rowid !in rows && !Conflicts(rows, idx, rowid, record)
    ensures IndexOk(rows[rowid := record], idx, es + {Entry(Project(record, idx), rowid)})
  {
    var more, e := rows[rowid := record], Entry(Project(record, idx), rowid);
    AdmitsMeansNoConflict(rows, idx, es, rowid, record);
    forall x | x in es + {e}
      ensures x in EntriesOf(more, idx)
    {
      assert x.rowid in more;
      if x != e {
        var r :| r in rows && x == Entry(Project(rows[r], idx), r);
        assert more[r] == rows[r];
      }
    }
    forall x | x in EntriesOf(more, idx)
      ensures x in es + {e}
    {
      var r :| r in more && x == Entry(Project(more[r], idx), r);
      assert r != rowid ==> x in es;
    }
    assert IsUnique(es + {e}) || !idx.unique by {
      UniqueGrows(es, e, idx.unique);
    }
  }

  lemma UniqueGrows(es: set<Entry>, e: Entry, unique: bool)
    requires (unique ==> IsUnique(es)) && Admits(es, unique, e) && forall x :: x in es ==> x.rowid != e.rowid
    ensures unique ==> IsUnique(es + {e})
  {
    if unique {
      forall a, b | a in es + {e} && b in es + {e} && a.vals == b.vals && !HasNull(a.vals)
        ensures a == b
      {
        assert a == e && b in es ==> HeldByOther(es, e.vals, e.rowid);
        assert b == e && a in es ==> HeldByOther(es, e.vals, e.rowid);
      }
    }
  }

  lemma DeleteKeepsIndex(rows: Rows, idx: IndexDef, es: set<Entry>, rowid: I64)
    requires EachFits(rows, idx) && IndexOk(rows, idx, es) && rowid in rows
    ensures IndexOk(rows - {rowid}, idx, es - {Entry(Project(rows[rowid], idx), rowid)})
  {
    var less, e := rows - {rowid}, Entry(Project(rows[rowid], idx), rowid);
    forall x | x in es - {e}
      ensures x in EntriesOf(less, idx)
    {
      var r :| r in rows && x == Entry(Project(rows[r], idx), r);
      assert r != rowid;
      assert r in less && less[r] == rows[r];
    }
    forall x | x in EntriesOf(less, idx)
      ensures x in es - {e}
    {
      var r :| r in less && x == Entry(Project(less[r], idx), r);
      assert rows[r] == less[r] && r != rowid;
    }
  }

  // ------------------------------------------------------------ all the indexes

  ghost predicate AnyConflict(rows: Rows, indexes: seq<IndexDef>, rowid: I64, record: Record)
    requires RowsFit(rows, indexes) && FitsAll(record, indexes)
  {
    exists i :: 0 <= i < |indexes| && Conflicts(rows, indexes[i], rowid, record)
  }

  lemma FitsMore(rows: Rows, indexes: seq<IndexDef>, rowid: I64, record: Record)
    requires RowsFit(rows, indexes) && FitsAll(record, indexes)
    ensures RowsFit(rows[rowid := record], indexes)
  {
    forall i | 0 <= i < |indexes|
      ensures EachFits(rows[rowid := record], indexes[i])
    {
      assert EachFits(rows, indexes[i]);
    }
  }

  lemma FitsLess(rows: Rows, indexes: seq<IndexDef>, rowid: I64)
    requires RowsFit(rows, indexes)
    ensures RowsFit(rows - {rowid}, indexes)
  {
    forall i | 0 <= i < |indexes|
      ensures EachFits(rows - {rowid}, indexes[i])
    {
      assert EachFits(rows, indexes[i]);
    }
  }

  /** One entry into every index; None on the first UNIQUE violation, and then nothing is kept. */
  method InsertIndexEntries(ghost rows: Rows, indexes: seq<IndexDef>, entries: seq<set<Entry>>, rowid: I64, record: Record)
    returns (r: Option<seq<set<Entry>>>)
    requires RowsFit(rows, indexes) && FitsAll(record, indexes) && IndexesOk(rows, indexes, entries) && rowid !in rows
    ensures r.None? <==> AnyConflict(rows, indexes, rowid, record)
    ensures RowsFit(rows[rowid := record], indexes)
    ensures r.Some? ==> IndexesOk(rows[rowid := record], indexes, r.value)
  {
    hide IndexOk, Conflicts;
    var out: seq<set<Entry>> := [];
    ghost var more := rows[rowid := record];
    FitsMore(rows, indexes, rowid, record);
    for i := 0 to |indexes|
      invariant |out| == i
      invariant forall k :: 0 <= k < i ==> !Conflicts(rows, indexes[k], rowid, record)
      invariant forall k :: 0 <= k < i ==> IndexOk(more, indexes[k], out[k])
    {
      var idx := indexes[i];
      assert EachFits(rows, idx) && Fits(record, idx);
      var e := Entry(Project(record, idx), rowid);
      EntriesAre(rows, idx, entries[i]);
      AdmitsMeansNoConflict(rows, idx, entries[i], rowid, record);
      if idx.unique && !HasNull(e.vals) {
        var held := CheckHeld(entries[i], e.vals, rowid);
        if held {
          return None;
        }
      }
      InsertKeepsIndex(rows, idx, entries[i], rowid, record);
      out := out + [entries[i] + {e}];
    }
    return Some(out);
  }

  lemma EntriesAre(rows: Rows, idx: IndexDef, es: set<Entry>)
    requires EachFits(rows, idx) && IndexOk(rows, idx, es)
    ensures es == EntriesOf(rows, idx)
  {
  }

  method DeleteIndexEntries(ghost rows: Rows, indexes: seq<IndexDef>, entries: seq<set<Entry>>, rowid: I64, record: Record)
    returns (out: seq<set<Entry>>)
    requires RowsFit(rows, indexes) && IndexesOk(rows, indexes, entries) && rowid in rows && rows[rowid] == record
    ensures RowsFit(rows - {rowid}, indexes) && IndexesOk(rows - {rowid}, indexes, out)
  {
    hide IndexOk;
    FitsLess(rows, indexes, rowid);
    ghost var less := rows - {rowid};
    out := [];
    for i := 0 to |indexes|
      invariant |out| == i && forall k :: 0 <= k < i ==> IndexOk(less, indexes[k], out[k])
    {
      assert EachFits(rows, indexes[i]) && Fits(record, indexes[i]);
      DeleteKeepsIndex(rows, indexes[i], entries[i], rowid);
      out := out + [entries[i] - {Entry(Project(record, indexes[i]), rowid)}];
    }
  }

  // -------------------------------------------------------------------- rowids

  /** A counter that may follow `next` once `rowid` is taken: never back, and above the rowid if a rowid can be. */
  ghost predicate MayFollow(next: I64, rowid: I64, m: I64) {
    next <= m && (rowid < m || m == MAX_ROWID)
  }

  /** The least such counter, so that no rowid is skipped. */
  ghost predicate Follows(next: I64, rowid: I64, after: I64) {
    MayFollow(next, rowid, after) && forall m :: MayFollow(next, rowid, m) ==> after <= m
  }

  datatype Outcome<+T> = Done(value: T) | Duplicate | Exhausted | Violation

  /**
    `resolve_rowid`.  The duplicate check is skipped for a rowid at or past the counter;
    the counter's invariant is why that is sound.
  */
  method ResolveRowid(rows: Rows, wanted: Option<I64>, next: I64) returns (r: Outcome<(I64, I64)>)
    requires CounterOk(rows.Keys, next)
    ensures r.Done? ==> r.value.0 !in rows && (wanted.Some? ==> r.value.0 == wanted.value)
    ensures r.Done? && wanted.None? ==> r.value.0 == next
    ensures r.Done? ==> CounterOk(rows.Keys + {r.value.0}, r.value.1) && Follows(next, r.value.0, r.value.1)
    ensures r.Duplicate? <==> wanted.Some? && wanted.value in rows
    ensures r.Exhausted? <==> wanted.None? && next == MAX_ROWID
    ensures !r.Violation?
  {
    if wanted.None? {
      if next == MAX_ROWID {
        return Exhausted;
      }
      return Done((next, next + 1));
    }
    var n := wanted.value;
    if (n < next || next == MAX_ROWID) && n in rows {
      return Duplicate;
    }
    var after: I64 := next;
    if n >= next {
      after := if n == MAX_ROWID then MAX_ROWID else n + 1;
    }
    return Done((n, after));
  }

  // ---------------------------------------------------------------- operations

  /** A new row.  It fails exactly on a taken rowid, an exhausted counter or a UNIQUE conflict. */
  method InsertRow(t: Table, indexes: seq<IndexDef>, wanted: Option<I64>, record: Record) returns (r: Outcome<(Table, I64)>)
    requires TableOk(t, indexes) && FitsAll(record, indexes)
    ensures r.Done? ==> TableOk(r.value.0, indexes) && r.value.1 !in t.rows && r.value.0.rows == t.rows[r.value.1 := record]
    ensures r.Done? ==> r.value.1 == (if wanted.Some? then wanted.value else t.next) && Follows(t.next, r.value.1, r.value.0.next)
    ensures r.Duplicate? <==> wanted.Some? && wanted.value in t.rows
    ensures r.Exhausted? <==> wanted.None? && t.next == MAX_ROWID
    ensures r.Violation? <==>
      !r.Duplicate? && !r.Exhausted? && AnyConflict(t.rows, indexes, if wanted.Some? then wanted.value else t.next, record)
  {
    hide IndexOk, Conflicts;
    var resolved := ResolveRowid(t.rows, wanted, t.next);
    match resolved {
      case Duplicate => return Duplicate;
      case Exhausted => return Exhausted;
      case Done(v) =>
        var entries := InsertIndexEntries(t.rows, indexes, t.entries, v.0, record);
        if entries.None? {
          return Violation;
        }
        var t' := Table(t.rows[v.0 := record], v.1, entries.value);
        assert t'.rows.Keys == t.rows.Keys + {v.0};
        return Done((t', v.0));
    }
  }

  /** Overwriting a row: out with its old entries, in with the new ones. */
  method UpdateRow(t: Table, indexes: seq<IndexDef>, rowid: I64, record: Record) returns (r: Outcome<(Table, bool)>)
    requires TableOk(t, indexes) && FitsAll(record, indexes)
    ensures rowid !in t.rows ==> r == Done((t, false))
    ensures rowid in t.rows && r.Done? ==> r.value.1 && TableOk(r.value.0, indexes) && r.value.0.rows == t.rows[rowid := record]
    ensures rowid in t.rows && r.Done? ==> r.value.0.next == t.next
    ensures rowid in t.rows ==> RowsFit(t.rows - {rowid}, indexes)
    ensures rowid in t.rows ==> (r.Violation? <==> AnyConflict(t.rows - {rowid}, indexes, rowid, record))
    ensures r.Done? || r.Violation?
  {
    hide IndexOk, Conflicts;
    if rowid !in t.rows {
      return Done((t, false));
    }
    var without := DeleteIndexEntries(t.rows, indexes, t.entries, rowid, t.rows[rowid]);
    var entries := InsertIndexEntries(t.rows - {rowid}, indexes, without, rowid, record);
    if entries.None? {
      return Violation;
    }
    assert (t.rows - {rowid})[rowid := record] == t.rows[rowid := record];
    var t' := Table(t.rows[rowid := record], t.next, entries.value);
    return Done((t', true));
  }

  method DeleteRow(t: Table, indexes: seq<IndexDef>, rowid: I64) returns (t': Table, found: bool)
    requires TableOk(t, indexes)
    ensures TableOk(t', indexes) && (found <==> rowid in t.rows)
    ensures t'.rows == t.rows - {rowid} && t'.next == t.next
  {
    hide IndexOk;
    if rowid !in t.rows {
      assert t.rows - {rowid} == t.rows;
      return t, false;
    }
    var entries := DeleteIndexEntries(t.rows, indexes, t.entries, rowid, t.rows[rowid]);
    t' := Table(t.rows - {rowid}, t.next, entries);
    found := true;
  }

  /** A table starts well: no rows, counter at 1, empty indexes. */
  lemma EmptyTableOk(indexes: seq<IndexDef>)
    ensures TableOk(Table(map[], 1, seq(|indexes|, _ => {})), indexes)
  {
    var t := Table(map[], 1, seq(|indexes|, _ => {}));
    forall i | 0 <= i < |indexes|
      ensures EachFits(t.rows, indexes[i]) && IndexOk(t.rows, indexes[i], t.entries[i])
    {
      assert EntriesOf(t.rows, indexes[i]) == {};
    }
  }

  /** Two rows never share a UNIQUE key without NULLs. */
  lemma UniqueHolds(t: Table, indexes: seq<IndexDef>, i: nat, r: I64, q: I64)
    requires TableOk(t, indexes) && i < |indexes| && indexes[i].unique && r in t.rows && q in t.rows && r != q
    ensures EachFits(t.rows, indexes[i])
    ensures Project(t.rows[r], indexes[i]) != Project(t.rows[q], indexes[i]) || HasNull(Project(t.rows[r], indexes[i]))
  {
    var idx, es := indexes[i], t.entries[i];
    assert EachFits(t.rows, idx) && IndexOk(t.rows, idx, es);
    assert Entry(Project(t.rows[r], idx), r) in es && Entry(Project(t.rows[q], idx), q) in es;
  }
}
