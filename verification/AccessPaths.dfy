/**
  The planner's access paths (`run_select`, `index_eq_plan`, `index_range_plan` of
  `src/exec.rs`; `index_scan_eq`, `index_scan_range` of `src/catalog.rs`): whichever is
  taken, the WHERE applied afterwards leaves the rows that it leaves of a full scan.
*/
module AccessPaths {
  import opened Options
  import opened Bytes
  import opened KeyEnc
  import K = Keys
  import opened Expressions
  import Pushdown
  import T = TableRows
  import B = BulkUnique

  /** A table: names, types, the column that is the rowid, and its indexes. */
  datatype Info = Info(names: Table, types: seq<K.ColType>, alias: Option<nat>, indexes: seq<T.IndexDef>)

  predicate ValidInfo(info: Info) {
    var n := |info.names.columns|;
    && |info.types| == n && (info.alias.Some? ==> info.alias.value < n && info.types[info.alias.value] == K.IntegerCol)
    && (forall i, j :: 0 <= i < j < n ==> info.names.columns[i] != info.names.columns[j])
    && forall i :: 0 <= i < |info.indexes| ==> ValidIndex(info, info.indexes[i])
  }

  /** Indexes never cover the rowid column. REAL columns are outside this model. */
  predicate ValidIndex(info: Info, idx: T.IndexDef)
    requires |info.types| == |info.names.columns|
  {
    idx.columns != [] && forall k :: 0 <= k < |idx.columns| ==>
      idx.columns[k] < |info.types| && info.alias != Some(idx.columns[k]) && info.types[idx.columns[k]] != K.RealCol
  }

  predicate FitsTypes(info: Info, record: T.Record) {
    |record| == |info.types| && forall k :: 0 <= k < |record| ==> K.Fits(record[k], info.types[k])
  }

  ghost predicate ValidTable(info: Info, t: T.Table) {
    ValidInfo(info) && T.TableOk(t, info.indexes) && forall r :: r in t.rows ==> FitsTypes(info, t.rows[r])
  }

  /** The row as it is read: the rowid stands in its column. */
  function Presented(info: Info, rowid: I64, record: T.Record): (row: Row)
    requires FitsTypes(info, record) && ValidInfo(info)
    ensures |row| == |record|
    ensures forall k :: 0 <= k < |row| ==> row[k] == if info.alias == Some(k) then K.Integer(rowid) else record[k]
  {
    if info.alias.Some? then record[info.alias.value := K.Integer(rowid)] else record
  }

  predicate Live(info: Info, t: T.Table, r: I64) {
    r in t.rows && FitsTypes(info, t.rows[r])
  }

  predicate AllLive(info: Info, t: T.Table, ids: seq<I64>) {
    forall k :: 0 <= k < |ids| ==> Live(info, t, ids[k])
  }

  function RowOf(info: Info, t: T.Table, rowid: I64): (row: Row)
    requires ValidInfo(info) && Live(info, t, rowid)
    ensures |row| == Width([info.names])
  {
    Pushdown.WidthOne(info.names);
    Presented(info, rowid, t.rows[rowid])
  }

  function RowsOf(info: Info, t: T.Table, ids: seq<I64>): (rows: seq<Row>)
    requires ValidInfo(info) && AllLive(info, t, ids)
    ensures |rows| == |ids| && Pushdown.RowsFit(rows, [info.names])
  {
    seq(|ids|, k requires 0 <= k < |ids| => RowOf(info, t, ids[k]))
  }

  predicate Distinct(ids: seq<I64>) {
    forall i, j :: 0 <= i < j < |ids| ==> ids[i] != ids[j]
  }

  /** The rowids of all rows, each once. */
  ghost predicate IsScan(t: T.Table, ids: seq<I64>) {
    Distinct(ids) && forall r :: r in ids <==> r in t.rows
  }

  predicate TrueOn(sem: Sem, info: Info, t: T.Table, cond: Expr, r: I64)
    requires ValidInfo(info)
  {
    Live(info, t, r) && IsTrue(sem, [info.names], RowOf(info, t, r), cond)
  }

  /** Rowids of live rows, each once, among them every row on which the condition is true. */
  ghost predicate Suffices(sem: Sem, info: Info, t: T.Table, ids: seq<I64>, cond: Expr)
    requires ValidInfo(info)
  {
    Distinct(ids) && AllLive(info, t, ids) && forall r :: TrueOn(sem, info, t, cond, r) ==> r in ids
  }

  // -------------------------------------------------- same rows, any order

  function KeptIds(sem: Sem, info: Info, t: T.Table, ids: seq<I64>, cond: Expr): (r: seq<I64>)
    requires ValidInfo(info)
    ensures AllLive(info, t, r)
  {
    if ids == [] then []
    else
      var rest := KeptIds(sem, info, t, ids[1..], cond);
      if TrueOn(sem, info, t, cond, ids[0]) then [ids[0]] + rest else rest
  }

  lemma {:induction false} KeptIdsAre(sem: Sem, info: Info, t: T.Table, ids: seq<I64>, cond: Expr)
    requires ValidInfo(info)
    ensures forall x :: x in KeptIds(sem, info, t, ids, cond) <==> x in ids && TrueOn(sem, info, t, cond, x)
    ensures Distinct(ids) ==> Distinct(KeptIds(sem, info, t, ids, cond))
  {
    hide TrueOn;
    if ids != [] {
      KeptIdsAre(sem, info, t, ids[1..], cond);
      assert ids == [ids[0]] + ids[1..];
      assert Distinct(ids) ==> Distinct(ids[1..]) && ids[0] !in ids[1..];
    }
  }

  lemma {:induction false} KeptRows(sem: Sem, info: Info, t: T.Table, ids: seq<I64>, cond: Expr)
    requires ValidInfo(info) && AllLive(info, t, ids)
    ensures Pushdown.Kept(sem, [info.names], RowsOf(info, t, ids), cond) == RowsOf(info, t, KeptIds(sem, info, t, ids, cond))
  {
    hide IsTrue, Width, Presented;
    if ids != [] {
      assert AllLive(info, t, ids[1..]);
      KeptRows(sem, info, t, ids[1..], cond);
      assert RowsOf(info, t, ids)[1..] == RowsOf(info, t, ids[1..]);
    }
  }

  lemma RowsConcat(info: Info, t: T.Table, a: seq<I64>, b: seq<I64>)
    requires ValidInfo(info) && AllLive(info, t, a) && AllLive(info, t, b)
    ensures AllLive(info, t, a + b) && RowsOf(info, t, a + b) == RowsOf(info, t, a) + RowsOf(info, t, b)
  {
    hide RowOf, Live, Width;
  }

  lemma RowsOne(info: Info, t: T.Table, x: I64)
    requires ValidInfo(info) && Live(info, t, x)
    ensures AllLive(info, t, [x]) && RowsOf(info, t, [x]) == [RowOf(info, t, x)]
  {
    hide RowOf, Live, Width;
  }

  /** Taking one rowid out of a list without repetitions. */
  lemma Without(b: seq<I64>, k: nat)
    requires Distinct(b) && k < |b|
    ensures b == b[..k] + [b[k]] + b[k + 1..] && Distinct(b[..k] + b[k + 1..])
    ensures forall x :: x in b[..k] + b[k + 1..] <==> x in b && x != b[k]
  {
    var rest := b[..k] + b[k + 1..];
    assert b == b[..k] + [b[k]] + b[k + 1..];
    assert forall i :: 0 <= i < |rest| ==> rest[i] == if i < k then b[i] else b[i + 1];
    forall x | x in b && x != b[k]
      ensures x in rest
    {
      var i :| 0 <= i < |b| && b[i] == x;
      assert i < k ==> rest[i] == x;
      assert i > k ==> rest[i - 1] == x;
    }
  }

  /** One rowid out of the list is one row out of the rows. */
  lemma RowOut(info: Info, t: T.Table, b: seq<I64>, k: nat)
    requires ValidInfo(info) && AllLive(info, t, b) && k < |b|
    ensures AllLive(info, t, b[..k] + b[k + 1..]) && Live(info, t, b[k])
    ensures multiset(RowsOf(info, t, b)) == multiset(RowsOf(info, t, b[..k] + b[k + 1..])) + multiset{RowOf(info, t, b[k])}
  {
    hide RowsOf, RowOf, Live, Width;
    var x, front, back := b[k], b[..k], b[k + 1..];
    assert b == front + [x] + back;
    RowsOne(info, t, x);
    RowsConcat(info, t, front, back);
    RowsConcat(info, t, front, [x]);
    RowsConcat(info, t, front + [x], back);
  }

  /** The same rowids in another order give the same rows in another order. */
  lemma {:induction false} PermutedRows(info: Info, t: T.Table, a: seq<I64>, b: seq<I64>)
    requires ValidInfo(info) && AllLive(info, t, a) && AllLive(info, t, b)
    requires Distinct(a) && Distinct(b) && forall x :: x in a <==> x in b
    ensures multiset(RowsOf(info, t, a)) == multiset(RowsOf(info, t, b))
    decreases |a|
  {
    hide RowsOf, RowOf, Live, Width, Distinct, AllLive;
    NoneIn(a);
    NoneIn(b);
    if a != [] {
      var k :| 0 <= k < |b| && b[k] == a[0];
      Without(a, 0);
      Without(b, k);
      RowOut(info, t, a, 0);
      RowOut(info, t, b, k);
      var restA, restB := a[..0] + a[1..], b[..k] + b[k + 1..];
      forall x
        ensures x in restA <==> x in restB
      {
        assert x in restA <==> x in a && x != a[0];
        assert x in restB <==> x in b && x != b[k];
      }
      PermutedRows(info, t, restA, restB);
    } else {
      assert b == [];
    }
  }

  lemma NoneIn(b: seq<I64>)
    ensures b == [] || b[0] in b
  {
  }

  /** Any rowids that suffice leave, after the filter, what a full scan leaves. */
  lemma FilterForgetsThePath(sem: Sem, info: Info, t: T.Table, ids: seq<I64>, all: seq<I64>, cond: Expr)
    requires ValidTable(info, t) && IsScan(t, all) && Suffices(sem, info, t, ids, cond)
    ensures AllLive(info, t, all)
    ensures multiset(Pushdown.Kept(sem, [info.names], RowsOf(info, t, ids), cond))
      == multiset(Pushdown.Kept(sem, [info.names], RowsOf(info, t, all), cond))
  {
    hide TrueOn, Pushdown.Kept, KeptIds, RowsOf, T.TableOk;
    assert AllLive(info, t, all) by {
      assert forall k :: 0 <= k < |all| ==> all[k] in all;
    }
    KeptRows(sem, info, t, ids, cond);
    KeptRows(sem, info, t, all, cond);
    KeptIdsAre(sem, info, t, ids, cond);
    KeptIdsAre(sem, info, t, all, cond);
    forall x | TrueOn(sem, info, t, cond, x)
      ensures x in all && x in ids
    {
      TrueIsLive(sem, info, t, cond, x);
    }
    PermutedRows(info, t, KeptIds(sem, info, t, ids, cond), KeptIds(sem, info, t, all, cond));
  }

  lemma TrueIsLive(sem: Sem, info: Info, t: T.Table, cond: Expr, r: I64)
    requires ValidInfo(info) && TrueOn(sem, info, t, cond, r)
    ensures r in t.rows
  {
  }

  // ------------------------------------------------------------- expressions

  predicate IsConst(e: Expr)
    decreases e
  {
    match e
    case Literal(_) => true
    case Param(_) => true
    case Column(_, _) => false
    case And(l, r) => IsConst(l) && IsConst(r)
    case Or(l, r) => IsConst(l) && IsConst(r)
    case Compare(_, l, r) => IsConst(l) && IsConst(r)
    case Node(_, args) => forall i :: 0 <= i < |args| ==> IsConst(args[i])
    case Other(_) => false
  }

  function ConstValue(sem: Sem, e: Expr): (r: Value) {
    Eval(sem, [], [], e)
  }

  lemma {:induction false} ConstIsConst(sem: Sem, schema: Schema, row: Row, e: Expr)
    requires |row| == Width(schema) && IsConst(e)
    ensures Eval(sem, schema, row, e) == ConstValue(sem, e)
    decreases e
  {
    match e
    case And(l, r) =>
      ConstIsConst(sem, schema, row, l);
      ConstIsConst(sem, schema, row, r);
    case Or(l, r) =>
      ConstIsConst(sem, schema, row, l);
      ConstIsConst(sem, schema, row, r);
    case Compare(_, l, r) =>
      ConstIsConst(sem, schema, row, l);
      ConstIsConst(sem, schema, row, r);
    case Node(kind, args) =>
      forall i | 0 <= i < |args|
        ensures Eval(sem, schema, row, args[i]) == Eval(sem, [], [], args[i])
      {
        ConstIsConst(sem, schema, row, args[i]);
      }
      assert seq(|args|, i requires 0 <= i < |args| => Eval(sem, schema, row, args[i]))
        == seq(|args|, i requires 0 <= i < |args| => Eval(sem, [], [], args[i]));
    case _ =>
  }

  /** The column of the table that e is. */
  function ColumnPos(info: Info, e: Expr): (c: Option<nat>)
    ensures c.Some? ==> c.value < |info.names.columns|
  {
    if e.Column? && (e.table.None? || e.table.value == info.names.qualifier) && IndexIn(info.names.columns, e.name) < |info.names.columns|
    then Some(IndexIn(info.names.columns, e.name)) else None
  }

  lemma ColumnValue(sem: Sem, info: Info, row: Row, e: Expr)
    requires |row| == Width([info.names]) && ColumnPos(info, e).Some?
    ensures |row| == |info.names.columns| && Eval(sem, [info.names], row, e) == row[ColumnPos(info, e).value]
  {
    Pushdown.WidthOne(info.names);
  }

  // ----------------------------------------------------------- comparisons

  /** Equal by comparison, from either side. */
  predicate ComparesEqual(sem: Sem, v: Value, w: Value) {
    CmpValues(sem, v, w) == Some(0) || CmpValues(sem, w, v) == Some(0)
  }

  /** The constant as a value of the column's type; None where no row could have it. */
  function Coerced(v: Value, t: K.ColType): (r: Option<Value>) {
    if K.Fits(v, t) && t != K.RealCol then Some(v) else None
  }

  lemma BytesEqual(a: ByteString, b: ByteString)
    ensures CompareBytes(a, b) == 0 <==> a == b
    ensures CompareBytes(a, b) < 0 <==> Less(a, b)
    ensures CompareBytes(a, b) > 0 <==> Less(b, a)
  {
    LessTotal(a, b);
    if Less(a, b) {
      LessAsymmetric(a, b);
    }
    if Less(b, a) {
      LessAsymmetric(b, a);
    }
    if a == b && Less(a, b) {
      LessAsymmetric(a, b);
    }
  }

  /** Among values of one type, but for REAL, comparing equal is being equal. */
  lemma EqualMeansSame(sem: Sem, v: Value, w: Value, t: K.ColType)
    requires K.Fits(v, t) && K.Fits(w, t) && t != K.RealCol && ComparesEqual(sem, v, w)
    ensures v == w
  {
    match (v, w) {
      case (Text(x), Text(y)) =>
        BytesEqual(x, y);
        BytesEqual(y, x);
      case (Blob(x), Blob(y)) =>
        BytesEqual(x, y);
        BytesEqual(y, x);
      case _ =>
    }
  }

  /** Among values of one type, but for REAL, comparison is the order of the keys. */
  lemma ComparisonIsKeyOrder(sem: Sem, v: Value, w: Value, t: K.ColType)
    requires K.Fits(v, t) && K.Fits(w, t) && t != K.RealCol && v != K.Null && w != K.Null
    ensures CmpValues(sem, v, w).Some?
    ensures var c := CmpValues(sem, v, w).value;
      (c < 0 <==> Less(K.Encoded(v), K.Encoded(w))) && (c > 0 <==> Less(K.Encoded(w), K.Encoded(v)))
        && (c == 0 <==> K.Encoded(v) == K.Encoded(w))
  {
    hide K.Encoded;
    match (v, w) {
      case (Text(x), Text(y)) => BytesEqual(x, y);
      case (Blob(x), Blob(y)) => BytesEqual(x, y);
      case _ =>
    }
    EncodedOrder(v, w, t);
  }

  lemma EncodedOrder(v: Value, w: Value, t: K.ColType)
    requires K.Fits(v, t) && K.Fits(w, t)
    ensures Less(K.Encoded(v), K.Encoded(w)) <==> K.ValueLess(v, w)
    ensures Less(K.Encoded(w), K.Encoded(v)) <==> K.ValueLess(w, v)
    ensures K.Encoded(v) == K.Encoded(w) <==> v == w
  {
    hide K.Encoded, K.ValueLess;
    K.ValueTotal(v, w, t);
    var x, y := K.Encoded(v), K.Encoded(w);
    assert x + [] == x && y + [] == y;
    if K.ValueLess(v, w) {
      K.ValueSorts(v, w, t);
      BeforeExtends(x, y, [], []);
      LessAsymmetric(x, y);
    }
    if K.ValueLess(w, v) {
      K.ValueSorts(w, v, t);
      BeforeExtends(y, x, [], []);
      LessAsymmetric(y, x);
    }
    K.LessIrreflexive(x);
    K.LessIrreflexive(y);
  }

  // --------------------------------------------------------------- full scan

  method ScanIds(t: T.Table) returns (ids: seq<I64>)
    ensures IsScan(t, ids)
  {
    ids := [];
    var left := t.rows.Keys;
    while left != {}
      invariant left <= t.rows.Keys && Distinct(ids)
      invariant forall r :: r in ids <==> r in t.rows && r !in left
      decreases |left|
    {
      var r :| r in left;
      ids := ids + [r];
      left := left - {r};
    }
  }

  lemma ScanSuffices(sem: Sem, info: Info, t: T.Table, ids: seq<I64>, cond: Expr)
    requires ValidTable(info, t) && IsScan(t, ids)
    ensures Suffices(sem, info, t, ids, cond)
  {
    hide IsTrue, T.TableOk;
    assert forall k :: 0 <= k < |ids| ==> ids[k] in ids;
  }

  // ------------------------------------------------------------ point lookup

  predicate IsAlias(info: Info, e: Expr)
    requires ValidInfo(info)
  {
    info.alias.Some? && ColumnPos(info, e) == info.alias
  }

  /** `rowid_column = const`, either way round, as the whole WHERE. */
  function PointLookupKey(info: Info, cond: Expr): (r: Option<Expr>)
    requires ValidInfo(info)
  {
    if !cond.Compare? || cond.op != Eq then None
    else if IsAlias(info, cond.left) && IsConst(cond.right) then Some(cond.right)
    else if IsAlias(info, cond.right) && IsConst(cond.left) then Some(cond.left)
    else None
  }

  /** What a true equality says of the row. */
  lemma EqualityHolds(sem: Sem, info: Info, row: Row, l: Expr, r: Expr)
    requires |row| == Width([info.names]) && IsTrue(sem, [info.names], row, Compare(Eq, l, r))
    ensures ColumnPos(info, l).Some? && IsConst(r) ==>
      ColumnPos(info, l).value < |row| && ComparesEqual(sem, row[ColumnPos(info, l).value], ConstValue(sem, r))
    ensures ColumnPos(info, r).Some? && IsConst(l) ==>
      ColumnPos(info, r).value < |row| && ComparesEqual(sem, row[ColumnPos(info, r).value], ConstValue(sem, l))
  {
    hide CmpValues, Width, IsConst, ColumnPos, Lookup;
    if ColumnPos(info, l).Some? && IsConst(r) {
      ColumnValue(sem, info, row, l);
      ConstIsConst(sem, [info.names], row, r);
    }
    if ColumnPos(info, r).Some? && IsConst(l) {
      ColumnValue(sem, info, row, r);
      ConstIsConst(sem, [info.names], row, l);
    }
  }

  method PointIds(sem: Sem, info: Info, t: T.Table, cond: Expr, key: Expr) returns (ids: seq<I64>)
    requires ValidTable(info, t) && PointLookupKey(info, cond) == Some(key)
    ensures Suffices(sem, info, t, ids, cond)
    ensures ConstValue(sem, key).Integer? ==> forall r :: r in ids <==> r in t.rows && r == ConstValue(sem, key).n
  {
    hide IsTrue, T.TableOk, IsConst, Eval, CmpValues;
    var v := ConstValue(sem, key);
    if !v.Integer? {
      ids := ScanIds(t);
      ScanSuffices(sem, info, t, ids, cond);
      return;
    }
    ids := if v.n in t.rows then [v.n] else [];
    forall r | TrueOn(sem, info, t, cond, r)
      ensures r in ids
    {
      PointIsTheRow(sem, info, t, cond, key, r);
    }
  }

  lemma PointIsTheRow(sem: Sem, info: Info, t: T.Table, cond: Expr, key: Expr, r: I64)
    requires ValidInfo(info) && PointLookupKey(info, cond) == Some(key) && TrueOn(sem, info, t, cond, r)
    requires ConstValue(sem, key).Integer?
    ensures r in t.rows && ConstValue(sem, key) == K.Integer(r)
  {
    hide IsTrue, IsConst, Eval, Width, ColumnPos;
    EqualityHolds(sem, info, RowOf(info, t, r), cond.left, cond.right);
  }

  // ------------------------------------------------------------ equality index

  /** The equalities with constants in a conjunction. */
  function CollectEqualities(info: Info, e: Expr): (eqs: seq<(nat, Expr)>)
    ensures forall k :: 0 <= k < |eqs| ==> eqs[k].0 < |info.names.columns| && IsConst(eqs[k].1)
  {
    match e
    case And(l, r) => CollectEqualities(info, l) + CollectEqualities(info, r)
    case Compare(op, l, r) =>
      if op != Eq then []
      else if ColumnPos(info, l).Some? && IsConst(r) then [(ColumnPos(info, l).value, r)]
      else if ColumnPos(info, r).Some? && IsConst(l) then [(ColumnPos(info, r).value, l)]
      else []
    case _ => []
  }

  predicate HoldsOn(sem: Sem, row: Row, eq: (nat, Expr)) {
    eq.0 < |row| && ComparesEqual(sem, row[eq.0], ConstValue(sem, eq.1))
  }

  lemma {:induction false} EqualitiesHold(sem: Sem, info: Info, row: Row, e: Expr)
    requires |row| == Width([info.names]) && IsTrue(sem, [info.names], row, e)
    ensures forall eq :: eq in CollectEqualities(info, e) ==> HoldsOn(sem, row, eq)
    decreases e
  {
    hide CmpValues, Width, IsConst, ColumnPos, Lookup, HoldsOn;
    match e
    case And(l, r) =>
      EqualitiesHold(sem, info, row, l);
      EqualitiesHold(sem, info, row, r);
    case Compare(op, l, r) =>
      if op == Eq {
        EqualityHolds(sem, info, row, l, r);
        if ColumnPos(info, l).Some? && IsConst(r) {
          assert HoldsOn(sem, row, (ColumnPos(info, l).value, r)) by {
            HoldsIs(sem, row, ColumnPos(info, l).value, r);
          }
        } else if ColumnPos(info, r).Some? && IsConst(l) {
          HoldsIs(sem, row, ColumnPos(info, r).value, l);
        }
      }
    case _ =>
  }

  lemma HoldsIs(sem: Sem, row: Row, c: nat, e: Expr)
    requires c < |row| && ComparesEqual(sem, row[c], ConstValue(sem, e))
    ensures HoldsOn(sem, row, (c, e))
  {
  }

  /** The first constant that a column equals. */
  function FindEquality(eqs: seq<(nat, Expr)>, c: nat): (r: Option<Expr>)
    ensures r.Some? ==> (c, r.value) in eqs
    ensures r.None? ==> forall k :: 0 <= k < |eqs| ==> eqs[k].0 != c
  {
    if eqs == [] then None
    else if eqs[0].0 == c then Some(eqs[0].1)
    else
      assert eqs == [eqs[0]] + eqs[1..];
      FindEquality(eqs[1..], c)
  }

  /** Every column of the index has an equality. */
  predicate IsCovered(eqs: seq<(nat, Expr)>, idx: T.IndexDef) {
    forall k :: 0 <= k < |idx.columns| ==> FindEquality(eqs, idx.columns[k]).Some?
  }

  predicate ConstantsOf(eqs: seq<(nat, Expr)>, idx: T.IndexDef, exprs: seq<Expr>) {
    |exprs| == |idx.columns| && forall k :: 0 <= k < |exprs| ==> (idx.columns[k], exprs[k]) in eqs
  }

  method CoverIndex(eqs: seq<(nat, Expr)>, idx: T.IndexDef) returns (exprs: Option<seq<Expr>>)
    ensures exprs.Some? <==> IsCovered(eqs, idx)
    ensures exprs.Some? ==> ConstantsOf(eqs, idx, exprs.value)
  {
    var out: seq<Expr> := [];
    for k := 0 to |idx.columns|
      invariant |out| == k && forall j :: 0 <= j < k ==> (idx.columns[j], out[j]) in eqs
      invariant forall j :: 0 <= j < k ==> FindEquality(eqs, idx.columns[j]).Some?
    {
      var e := FindEquality(eqs, idx.columns[k]);
      if e.None? {
        return None;
      }
      out := out + [e.value];
    }
    return Some(out);
  }

  predicate IsEqPlan(info: Info, cond: Expr, i: nat, exprs: seq<Expr>) {
    i < |info.indexes| && ConstantsOf(CollectEqualities(info, cond), info.indexes[i], exprs)
  }

  predicate Competes(info: Info, cond: Expr, idx: T.IndexDef) {
    idx.columns != [] && IsCovered(CollectEqualities(info, cond), idx)
  }

  /** The covered index of most columns; among equals, the first. */
  method IndexEqPlan(info: Info, cond: Expr) returns (r: Option<(nat, seq<Expr>)>)
    ensures r.Some? ==> IsEqPlan(info, cond, r.value.0, r.value.1)
    ensures forall j :: 0 <= j < |info.indexes| && Competes(info, cond, info.indexes[j]) ==>
      r.Some? && |info.indexes[j].columns| <= |info.indexes[r.value.0].columns|
  {
    var eqs := CollectEqualities(info, cond);
    r := None;
    if eqs == [] {
      assert forall j :: 0 <= j < |info.indexes| && info.indexes[j].columns != [] ==>
        FindEquality(eqs, info.indexes[j].columns[0]).None?;
      return;
    }
    for i := 0 to |info.indexes|
      invariant r.Some? ==> r.value.0 < |info.indexes| && ConstantsOf(eqs, info.indexes[r.value.0], r.value.1)
      invariant forall j :: 0 <= j < i && IsCovered(eqs, info.indexes[j]) ==>
        r.Some? && |info.indexes[j].columns| <= |info.indexes[r.value.0].columns|
    {
      var exprs := CoverIndex(eqs, info.indexes[i]);
      if exprs.Some? && (r.None? || |info.indexes[i].columns| > |info.indexes[r.value.0].columns|) {
        r := Some((i, exprs.value));
      }
    }
  }

  predicate AreConstants(sem: Sem, info: Info, idx: T.IndexDef, exprs: seq<Expr>, vals: seq<Value>)
    requires |exprs| == |idx.columns|
  {
    |vals| == |exprs| && forall k :: 0 <= k < |exprs| ==>
      idx.columns[k] < |info.types| && vals[k] == ConstValue(sem, exprs[k]) && K.Fits(vals[k], info.types[idx.columns[k]])
  }

  /** Every constant is a value that its column may have, and not NULL. */
  predicate AllUsable(sem: Sem, info: Info, idx: T.IndexDef, exprs: seq<Expr>)
    requires |info.types| == |info.names.columns| && ValidIndex(info, idx) && |exprs| == |idx.columns|
  {
    forall k :: 0 <= k < |exprs| ==>
      ConstValue(sem, exprs[k]) != K.Null && K.Fits(ConstValue(sem, exprs[k]), info.types[idx.columns[k]])
  }

  /** The constants as values of the columns; None sends the query to a full scan. */
  method CoerceConstants(sem: Sem, info: Info, idx: T.IndexDef, exprs: seq<Expr>) returns (r: Option<seq<Value>>)
    requires |info.types| == |info.names.columns| && ValidIndex(info, idx) && |exprs| == |idx.columns|
    ensures r.Some? ==> AreConstants(sem, info, idx, exprs, r.value)
    ensures r.Some? <==> AllUsable(sem, info, idx, exprs)
  {
    hide Eval;
    var vals: seq<Value> := [];
    for k := 0 to |exprs|
      invariant |vals| == k
      invariant forall j :: 0 <= j < k ==>
        vals[j] == ConstValue(sem, exprs[j]) && vals[j] != K.Null && K.Fits(vals[j], info.types[idx.columns[j]])
    {
      var v := ConstValue(sem, exprs[k]);
      if v == K.Null {
        return None;
      }
      var c := Coerced(v, info.types[idx.columns[k]]);
      if c.None? {
        return None;
      }
      vals := vals + [c.value];
    }
    return Some(vals);
  }

  /** `index_scan_eq`: the rowids under a key prefix. */
  method IndexScanEq(es: set<T.Entry>, vals: seq<Value>) returns (ids: seq<I64>)
    ensures Distinct(ids) && forall r :: r in ids <==> T.Entry(vals, r) in es
  {
    ids := [];
    var left := es;
    while left != {}
      invariant left <= es && Distinct(ids)
      invariant forall r :: r in ids <==> T.Entry(vals, r) in es - left
      decreases |left|
    {
      var e :| e in left;
      if e.vals == vals {
        ids := ids + [e.rowid];
      }
      left := left - {e};
    }
  }

  /** Where no index may cover the rowid column, an index sees what a reader sees. */
  lemma IndexSeesTheRow(info: Info, t: T.Table, i: nat, r: I64)
    requires ValidTable(info, t) && i < |info.indexes| && Live(info, t, r)
    ensures |t.entries| == |info.indexes| && T.Fits(t.rows[r], info.indexes[i])
    ensures T.Entry(T.Project(t.rows[r], info.indexes[i]), r) in t.entries[i]
    ensures forall k :: 0 <= k < |info.indexes[i].columns| ==>
      && info.indexes[i].columns[k] < |RowOf(info, t, r)|
      && T.Project(t.rows[r], info.indexes[i])[k] == RowOf(info, t, r)[info.indexes[i].columns[k]]
  {
    hide Width;
    assert T.EachFits(t.rows, info.indexes[i]) && T.IndexOk(t.rows, info.indexes[i], t.entries[i]);
    assert ValidIndex(info, info.indexes[i]);
  }

  lemma EntriesAreLive(info: Info, t: T.Table, i: nat, e: T.Entry)
    requires ValidTable(info, t) && i < |info.indexes| && |t.entries| == |info.indexes| && e in t.entries[i]
    ensures Live(info, t, e.rowid)
  {
    assert T.EachFits(t.rows, info.indexes[i]) && T.IndexOk(t.rows, info.indexes[i], t.entries[i]);
  }

  /** A row that satisfies the WHERE is under the constants in the index. */
  lemma EqualRowIsIndexed(sem: Sem, info: Info, t: T.Table, cond: Expr, i: nat, exprs: seq<Expr>, vals: seq<Value>, r: I64)
    requires ValidTable(info, t) && IsEqPlan(info, cond, i, exprs)
    requires AreConstants(sem, info, info.indexes[i], exprs, vals)
    requires TrueOn(sem, info, t, cond, r)
    ensures |t.entries| == |info.indexes| && T.Entry(vals, r) in t.entries[i]
  {
    hide Eval, IsConst, Width, CmpValues, CollectEqualities, T.TableOk;
    var idx, row := info.indexes[i], RowOf(info, t, r);
    IndexSeesTheRow(info, t, i, r);
    EqualitiesHold(sem, info, row, cond);
    var found := T.Project(t.rows[r], idx);
    forall k | 0 <= k < |vals|
      ensures found[k] == vals[k]
    {
      var c := idx.columns[k];
      assert HoldsOn(sem, row, (c, exprs[k]));
      assert K.Fits(found[k], info.types[c]);
      assert ValidIndex(info, idx);
      EqualMeansSame(sem, found[k], vals[k], info.types[c]);
    }
    assert found == vals;
  }

  /** A row that has the constants in the indexed columns. */
  predicate HasConstants(sem: Sem, info: Info, t: T.Table, i: nat, exprs: seq<Expr>, r: I64)
    requires i < |info.indexes| && |exprs| == |info.indexes[i].columns|
  {
    r in t.rows && forall k :: 0 <= k < |exprs| ==>
      info.indexes[i].columns[k] < |t.rows[r]| && t.rows[r][info.indexes[i].columns[k]] == ConstValue(sem, exprs[k])
  }

  lemma EntryHasConstants(sem: Sem, info: Info, t: T.Table, i: nat, exprs: seq<Expr>, vals: seq<Value>, r: I64)
    requires ValidTable(info, t) && i < |info.indexes| && |exprs| == |info.indexes[i].columns|
    requires AreConstants(sem, info, info.indexes[i], exprs, vals)
    ensures |t.entries| == |info.indexes| && (T.Entry(vals, r) in t.entries[i] <==> HasConstants(sem, info, t, i, exprs, r))
  {
    hide Eval, ConstValue, T.EntriesOf;
    var idx := info.indexes[i];
    assert T.EachFits(t.rows, idx) && T.IndexOk(t.rows, idx, t.entries[i]);
    T.EntryMeans(t.rows, idx, T.Entry(vals, r));
    if r in t.rows {
      assert FitsTypes(info, t.rows[r]);
    }
  }

  method IndexEqIds(sem: Sem, info: Info, t: T.Table, cond: Expr, i: nat, exprs: seq<Expr>) returns (ids: seq<I64>)
    requires ValidTable(info, t) && IsEqPlan(info, cond, i, exprs)
    ensures Suffices(sem, info, t, ids, cond)
    ensures ValidIndex(info, info.indexes[i]) && |exprs| == |info.indexes[i].columns|
    ensures AllUsable(sem, info, info.indexes[i], exprs) ==> forall r :: r in ids <==> HasConstants(sem, info, t, i, exprs, r)
  {
    hide IsTrue, T.TableOk, IsConst, Eval, CmpValues, CollectEqualities, ConstantsOf, HasConstants;
    TableShape(info, t);
    ConstantsShape(CollectEqualities(info, cond), info.indexes[i], exprs);
    var vals := CoerceConstants(sem, info, info.indexes[i], exprs);
    if vals.None? {
      ids := ScanIds(t);
      ScanSuffices(sem, info, t, ids, cond);
      return;
    }
    ids := IndexScanEq(t.entries[i], vals.value);
    forall r: I64
      ensures r in ids <==> HasConstants(sem, info, t, i, exprs, r)
    {
      EntryHasConstants(sem, info, t, i, exprs, vals.value, r);
    }
    forall k | 0 <= k < |ids|
      ensures Live(info, t, ids[k])
    {
      assert ids[k] in ids;
      EntriesAreLive(info, t, i, T.Entry(vals.value, ids[k]));
    }
    forall r | TrueOn(sem, info, t, cond, r)
      ensures r in ids
    {
      EqualRowIsIndexed(sem, info, t, cond, i, exprs, vals.value, r);
    }
  }

  lemma TableShape(info: Info, t: T.Table)
    requires ValidTable(info, t)
    ensures |t.entries| == |info.indexes|
  {
  }

  lemma ConstantsShape(eqs: seq<(nat, Expr)>, idx: T.IndexDef, exprs: seq<Expr>)
    requires ConstantsOf(eqs, idx, exprs)
    ensures |exprs| == |idx.columns|
  {
  }

  // ---------------------------------------------------------------- range index

  function FlipOp(op: CmpOp): (r: CmpOp) {
    match op
    case Lt => Gt
    case Le => Ge
    case Gt => Lt
    case Ge => Le
    case _ => op
  }

  predicate IsRangeOp(op: CmpOp) {
    op != Eq && op != Ne
  }

  /** The WHERE is `col op const`, or `const flipped-op col`. */
  predicate IsRangeOf(info: Info, cond: Expr, c: nat, op: CmpOp, e: Expr) {
    && cond.Compare? && IsRangeOp(op) && IsConst(e)
    && ((cond.op == op && ColumnPos(info, cond.left) == Some(c) && e == cond.right)
        || (FlipOp(cond.op) == op && ColumnPos(info, cond.right) == Some(c) && e == cond.left))
  }

  /** The first single-column index on that column. */
  function FindSingle(indexes: seq<T.IndexDef>, c: nat): (r: Option<nat>)
    ensures r.Some? ==> r.value < |indexes| && indexes[r.value].columns == [c]
  {
    if indexes == [] then None
    else if indexes[0].columns == [c] then Some(0)
    else
      var r := FindSingle(indexes[1..], c);
      if r.None? then None else Some(r.value + 1)
  }

  datatype RangePlan = RangePlan(index: nat, op: CmpOp, bound: Expr)

  function IndexRangePlan(info: Info, cond: Expr): (r: Option<RangePlan>)
    ensures r.Some? ==> r.value.index < |info.indexes| && |info.indexes[r.value.index].columns| == 1
    ensures r.Some? ==> IsRangeOf(info, cond, info.indexes[r.value.index].columns[0], r.value.op, r.value.bound)
  {
    if !cond.Compare? || !IsRangeOp(cond.op) then None
    else
      var straight := ColumnPos(info, cond.left).Some? && IsConst(cond.right);
      var flipped := ColumnPos(info, cond.right).Some? && IsConst(cond.left);
      if !straight && !flipped then None
      else
        var c := if straight then ColumnPos(info, cond.left).value else ColumnPos(info, cond.right).value;
        var i := FindSingle(info.indexes, c);
        if info.alias == Some(c) || i.None? then None
        else if straight then Some(RangePlan(i.value, cond.op, cond.right))
        else Some(RangePlan(i.value, FlipOp(cond.op), cond.left))
  }

  datatype Bound = Bound(value: Value, inclusive: bool)

  /** At or above the lower bound, by encoded bytes. */
  predicate AboveLow(v: ByteString, lo: Option<Bound>)
    requires lo.Some? && lo.value.value.Real? ==> lo.value.value.bits < TWO_64
  {
    lo.None? || Less(K.Encoded(lo.value.value), v) || (lo.value.inclusive && v == K.Encoded(lo.value.value))
  }

  predicate BelowHigh(v: ByteString, hi: Option<Bound>)
    requires hi.Some? && hi.value.value.Real? ==> hi.value.value.bits < TWO_64
  {
    hi.None? || Less(v, K.Encoded(hi.value.value)) || (hi.value.inclusive && v == K.Encoded(hi.value.value))
  }

  predicate BoundFits(b: Option<Bound>, ty: K.ColType) {
    b.Some? ==> K.Fits(b.value.value, ty)
  }

  predicate InRange(e: T.Entry, ty: K.ColType, lo: Option<Bound>, hi: Option<Bound>)
    requires B.Typed(e, [ty]) && BoundFits(lo, ty) && BoundFits(hi, ty)
  {
    assert K.Fits(e.vals[0], [ty][0]);
    e.vals[0] != K.Null && AboveLow(K.Encoded(e.vals[0]), lo) && BelowHigh(K.Encoded(e.vals[0]), hi)
  }

  /** The entries of a set, listed. */
  method ListEntries(es: set<T.Entry>) returns (out: seq<T.Entry>)
    ensures multiset(out) == multiset(es)
  {
    out := [];
    var left := es;
    while left != {}
      invariant left <= es && multiset(out) == multiset(es - left)
      decreases |left|
    {
      var e :| e in left;
      assert es - (left - {e}) == (es - left) + {e};
      out := out + [e];
      left := left - {e};
    }
    assert es - left == es;
  }

  lemma ListedTyped(es: set<T.Entry>, out: seq<T.Entry>, ts: B.Types)
    requires multiset(out) == multiset(es) && forall e :: e in es ==> B.Typed(e, ts)
    ensures B.AllTyped(out, ts) && forall e :: e in out <==> e in es
    ensures forall i, j :: 0 <= i < j < |out| ==> out[i] != out[j]
  {
    forall e
      ensures e in out <==> e in es
    {
      assert e in out <==> e in multiset(out);
    }
    assert forall i :: 0 <= i < |out| ==> out[i] in out;
    forall i, j | 0 <= i < j < |out|
      ensures out[i] != out[j]
    {
      if out[i] == out[j] {
        B.TwiceIn(out, i, j);
      }
    }
  }

  /** In key order, values come in the order of their encodings. */
  lemma ValuesSorted(sorted: seq<T.Entry>, ty: K.ColType, i: nat, j: nat)
    requires B.AllTyped(sorted, [ty]) && B.KeysSorted(sorted, [ty]) && i <= j < |sorted|
    ensures K.Fits(sorted[i].vals[0], ty) && K.Fits(sorted[j].vals[0], ty)
    ensures !Less(K.Encoded(sorted[j].vals[0]), K.Encoded(sorted[i].vals[0]))
  {
    hide K.IndexKey, K.Encoded;
    var a, b := sorted[i], sorted[j];
    assert B.Typed(a, [ty]) && B.Typed(b, [ty]);
    assert K.Fits(a.vals[0], [ty][0]) && K.Fits(b.vals[0], [ty][0]);
    if i == j {
      K.LessIrreflexive(K.Encoded(a.vals[0]));
    } else {
      K.IndexKeysSort(1, b.vals, a.vals, [ty], b.rowid, a.rowid);
      EncodedOrder(b.vals[0], a.vals[0], ty);
      assert !K.TupleLess(b.vals, a.vals);
    }
  }

  /** Past the upper bound once, past it for good. */
  lemma PastHigh(v: ByteString, w: ByteString, hi: Option<Bound>)
    requires (hi.Some? && hi.value.value.Real? ==> hi.value.value.bits < TWO_64) && !Less(w, v) && !BelowHigh(v, hi)
    ensures !BelowHigh(w, hi)
  {
    hide K.Encoded;
    var h := K.Encoded(hi.value.value);
    LessTotal(v, h);
    LessTotal(v, w);
    if Less(v, w) && Less(w, h) {
      LessTransitive(v, w, h);
    }
    if Less(h, v) && Less(v, w) {
      LessTransitive(h, v, w);
      LessAsymmetric(h, w);
    }
    if Less(h, v) && v == w {
      LessAsymmetric(h, w);
    }
    if v == h && Less(v, w) {
      LessAsymmetric(v, w);
    }
  }

  lemma NullStartsWithZero(v: Value)
    requires v.Real? ==> v.bits < TWO_64
    ensures K.Encoded(v) != [] && (K.Encoded(v)[0] == 0 <==> v == K.Null)
  {
  }

  /**
    `index_scan_range`: in key order from the lower bound, past NULLs, until the upper
    bound is passed.  The result is exactly the entries in range.
  */
  method IndexScanRange(es: set<T.Entry>, ty: K.ColType, lo: Option<Bound>, hi: Option<Bound>) returns (ids: seq<I64>)
    requires (forall e :: e in es ==> B.Typed(e, [ty])) && BoundFits(lo, ty) && BoundFits(hi, ty)
    requires forall a, b :: a in es && b in es && a.rowid == b.rowid ==> a == b
    ensures Distinct(ids)
    ensures forall r :: r in ids <==> exists e :: e in es && InRange(e, ty, lo, hi) && e.rowid == r
  {
    hide K.Encoded, K.IndexKey, B.KeysSorted, AboveLow, BelowHigh;
    var listed := ListEntries(es);
    ListedTyped(es, listed, [ty]);
    var sorted := B.SortByKey(listed, [ty]);
    ListedTyped(es, sorted, [ty]);
    ids := [];
    var i := 0;
    while i < |sorted|
      invariant i <= |sorted| && Distinct(ids)
      invariant forall r :: r in ids <==> exists k :: 0 <= k < i && InRange(sorted[k], ty, lo, hi) && sorted[k].rowid == r
    {
      var e := sorted[i];
      assert B.Typed(e, [ty]);
      ValuesSorted(sorted, ty, i, i);
      var v := K.Encoded(e.vals[0]);
      NullStartsWithZero(e.vals[0]);
      if v[0] != 0 && AboveLow(v, lo) {
        if !BelowHigh(v, hi) {
          break;
        }
        assert forall k :: 0 <= k < i ==> sorted[k].rowid != e.rowid by {
          assert forall k :: 0 <= k < i ==> sorted[k] in es && sorted[k] != e;
          assert e in es;
        }
        assert e.rowid !in ids;
        DistinctMore(ids, e.rowid);
        ids := ids + [e.rowid];
      }
      i := i + 1;
    }
    forall k | i <= k < |sorted|
      ensures !InRange(sorted[k], ty, lo, hi)
    {
      ValuesSorted(sorted, ty, i, k);
      PastHigh(K.Encoded(sorted[i].vals[0]), K.Encoded(sorted[k].vals[0]), hi);
    }
    forall r
      ensures r in ids <==> exists e :: e in es && InRange(e, ty, lo, hi) && e.rowid == r
    {
      if e :| e in es && InRange(e, ty, lo, hi) && e.rowid == r {
        var k :| 0 <= k < |sorted| && sorted[k] == e;
      }
      if r in ids {
        var k :| 0 <= k < i && InRange(sorted[k], ty, lo, hi) && sorted[k].rowid == r;
        assert sorted[k] in sorted;
      }
    }
  }

  lemma DistinctMore(ids: seq<I64>, r: I64)
    requires Distinct(ids) && r !in ids
    ensures Distinct(ids + [r])
  {
  }

  function LowOf(op: CmpOp, v: Value): (r: Option<Bound>) {
    if op == Gt then Some(Bound(v, false)) else if op == Ge then Some(Bound(v, true)) else None
  }

  function HighOf(op: CmpOp, v: Value): (r: Option<Bound>) {
    if op == Lt then Some(Bound(v, false)) else if op == Le then Some(Bound(v, true)) else None
  }

  /** What a true range comparison says of the row's value. */
  lemma RangeHolds(sem: Sem, info: Info, row: Row, cond: Expr, c: nat, op: CmpOp, e: Expr, ty: K.ColType)
    requires |row| == Width([info.names]) && IsTrue(sem, [info.names], row, cond) && IsRangeOf(info, cond, c, op, e)
    requires c < |row| && K.Fits(row[c], ty) && K.Fits(ConstValue(sem, e), ty) && ty != K.RealCol && ConstValue(sem, e) != K.Null
    ensures row[c] != K.Null
    ensures AboveLow(K.Encoded(row[c]), LowOf(op, ConstValue(sem, e)))
    ensures BelowHigh(K.Encoded(row[c]), HighOf(op, ConstValue(sem, e)))
  {
    hide K.Encoded, Width, IsConst, ColumnPos, Lookup, Compared, FlipOp, AboveLow, BelowHigh, LowOf, HighOf, K.Fits;
    var v, w := row[c], ConstValue(sem, e);
    ConstIsConst(sem, [info.names], row, e);
    if cond.op == op && ColumnPos(info, cond.left) == Some(c) && e == cond.right {
      ColumnValue(sem, info, row, cond.left);
      InBounds(sem, op, v, w, ty);
    } else {
      ColumnValue(sem, info, row, cond.right);
      ComparedFlipped(sem, cond.op, w, v, ty);
      InBounds(sem, op, v, w, ty);
    }
  }

  /** What a true comparison says of the keys. */
  lemma InBounds(sem: Sem, op: CmpOp, v: Value, w: Value, ty: K.ColType)
    requires K.Fits(v, ty) && K.Fits(w, ty) && ty != K.RealCol && IsRangeOp(op) && Truthy(Compared(sem, op, v, w))
    ensures v != K.Null && AboveLow(K.Encoded(v), LowOf(op, w)) && BelowHigh(K.Encoded(v), HighOf(op, w))
  {
    hide K.Encoded;
    assert v != K.Null && w != K.Null;
    ComparisonIsKeyOrder(sem, v, w, ty);
  }

  lemma ComparedFlipped(sem: Sem, op: CmpOp, w: Value, v: Value, ty: K.ColType)
    requires K.Fits(v, ty) && K.Fits(w, ty) && ty != K.RealCol && Truthy(Compared(sem, op, w, v))
    ensures Truthy(Compared(sem, FlipOp(op), v, w))
  {
    hide K.Encoded;
    assert v != K.Null && w != K.Null;
    ComparisonIsKeyOrder(sem, v, w, ty);
    ComparisonIsKeyOrder(sem, w, v, ty);
  }

  /** A row that satisfies the WHERE has an entry in range. */
  lemma RangeRowIsIndexed(sem: Sem, info: Info, t: T.Table, cond: Expr, plan: RangePlan, r: I64)
    requires ValidTable(info, t) && IndexRangePlan(info, cond) == Some(plan) && TrueOn(sem, info, t, cond, r)
    requires info.indexes[plan.index].columns[0] < |info.types|
    requires var ty, w := info.types[info.indexes[plan.index].columns[0]], ConstValue(sem, plan.bound);
      K.Fits(w, ty) && w != K.Null
    ensures |t.entries| == |info.indexes|
    ensures var ty, w := info.types[info.indexes[plan.index].columns[0]], ConstValue(sem, plan.bound);
      exists e :: e in t.entries[plan.index] && B.Typed(e, [ty]) && InRange(e, ty, LowOf(plan.op, w), HighOf(plan.op, w)) && e.rowid == r
  {
    hide K.Encoded, Width, IsConst, ColumnPos, Eval, T.TableOk, AboveLow, BelowHigh, IndexRangePlan, IsTrue;
    var idx := info.indexes[plan.index];
    var c := idx.columns[0];
    var ty, w := info.types[c], ConstValue(sem, plan.bound);
    PlanIsRange(info, cond, plan);
    IndexSeesTheRow(info, t, plan.index, r);
    assert ValidIndex(info, idx);
    var row := RowOf(info, t, r);
    var e := T.Entry(T.Project(t.rows[r], idx), r);
    assert K.Fits(row[c], ty);
    RangeHolds(sem, info, row, cond, c, plan.op, plan.bound, ty);
    assert e.vals == [row[c]];
    assert B.Typed(e, [ty]) && InRange(e, ty, LowOf(plan.op, w), HighOf(plan.op, w));
  }

  lemma PlanIsRange(info: Info, cond: Expr, plan: RangePlan)
    requires IndexRangePlan(info, cond) == Some(plan)
    ensures plan.index < |info.indexes| && |info.indexes[plan.index].columns| == 1
    ensures IsRangeOf(info, cond, info.indexes[plan.index].columns[0], plan.op, plan.bound)
  {
  }

  lemma SingleIndexTyped(info: Info, t: T.Table, i: nat)
    requires ValidTable(info, t) && i < |info.indexes| && |info.indexes[i].columns| == 1
    ensures |t.entries| == |info.indexes| && info.indexes[i].columns[0] < |info.types|
    ensures forall e :: e in t.entries[i] ==> B.Typed(e, [info.types[info.indexes[i].columns[0]]])
    ensures forall a, b :: a in t.entries[i] && b in t.entries[i] && a.rowid == b.rowid ==> a == b
  {
    var idx := info.indexes[i];
    assert T.EachFits(t.rows, idx) && T.IndexOk(t.rows, idx, t.entries[i]);
    assert ValidIndex(info, idx);
    forall e | e in t.entries[i]
      ensures B.Typed(e, [info.types[idx.columns[0]]])
    {
      assert FitsTypes(info, t.rows[e.rowid]);
    }
  }

  /** A row whose value in the column is on the right side of the bound. */
  predicate IsWithin(sem: Sem, t: T.Table, c: nat, op: CmpOp, w: Value, r: I64) {
    r in t.rows && c < |t.rows[r]| && Compared(sem, op, t.rows[r][c], w) == K.Bool(true)
  }

  lemma BoundsMean(sem: Sem, op: CmpOp, v: Value, w: Value, ty: K.ColType)
    requires K.Fits(v, ty) && K.Fits(w, ty) && ty != K.RealCol && IsRangeOp(op) && w != K.Null
    ensures v != K.Null && AboveLow(K.Encoded(v), LowOf(op, w)) && BelowHigh(K.Encoded(v), HighOf(op, w)) <==>
      Compared(sem, op, v, w) == K.Bool(true)
  {
    hide K.Encoded, CmpValues;
    if v == K.Null {
      NullCompares(sem, op, w);
    } else {
      ComparisonIsKeyOrder(sem, v, w, ty);
      LessIsOneWay(K.Encoded(v), K.Encoded(w));
    }
  }

  lemma NullCompares(sem: Sem, op: CmpOp, w: Value)
    ensures Compared(sem, op, K.Null, w) == K.Null
  {
  }

  lemma LessIsOneWay(a: ByteString, b: ByteString)
    ensures !(Less(a, b) && Less(b, a)) && (Less(a, b) || a == b || Less(b, a)) && !Less(a, a)
  {
    LessTotal(a, b);
    K.LessIrreflexive(a);
    if Less(a, b) {
      LessAsymmetric(a, b);
    }
  }

  lemma EntryIsWithin(sem: Sem, info: Info, t: T.Table, i: nat, op: CmpOp, w: Value, r: I64)
    requires ValidTable(info, t) && i < |info.indexes| && |info.indexes[i].columns| == 1 && IsRangeOp(op)
    requires var c := info.indexes[i].columns[0];
      c < |info.types| && info.types[c] != K.RealCol && w != K.Null && K.Fits(w, info.types[c])
    ensures var c := info.indexes[i].columns[0];
      var ty := info.types[c];
      && |t.entries| == |info.indexes| && (forall e :: e in t.entries[i] ==> B.Typed(e, [ty]))
      && ((exists e :: e in t.entries[i] && InRange(e, ty, LowOf(op, w), HighOf(op, w)) && e.rowid == r) <==> IsWithin(sem, t, c, op, w, r))
  {
    hide K.Encoded, CmpValues, AboveLow, BelowHigh, Compared, LowOf, HighOf, T.EntriesOf;
    var idx, c := info.indexes[i], info.indexes[i].columns[0];
    var ty := info.types[c];
    SingleIndexTyped(info, t, i);
    assert T.EachFits(t.rows, idx) && T.IndexOk(t.rows, idx, t.entries[i]);
    BoundsHaveFit(op, w, ty);
    if r in t.rows {
      assert FitsTypes(info, t.rows[r]) && T.Fits(t.rows[r], idx);
      var e := T.Entry([t.rows[r][c]], r);
      T.EntryMeans(t.rows, idx, e);
      BoundsMean(sem, op, t.rows[r][c], w, ty);
      assert e in t.entries[i] && B.Typed(e, [ty]);
      assert InRange(e, ty, LowOf(op, w), HighOf(op, w)) <==> IsWithin(sem, t, c, op, w, r);
    }
    if x :| x in t.entries[i] && InRange(x, ty, LowOf(op, w), HighOf(op, w)) && x.rowid == r {
      T.EntryMeans(t.rows, idx, x);
    }
  }

  lemma BoundsHaveFit(op: CmpOp, w: Value, ty: K.ColType)
    requires K.Fits(w, ty)
    ensures BoundFits(LowOf(op, w), ty) && BoundFits(HighOf(op, w), ty)
  {
  }

  method IndexRangeIds(sem: Sem, info: Info, t: T.Table, cond: Expr, plan: RangePlan) returns (ids: seq<I64>)
    requires ValidTable(info, t) && IndexRangePlan(info, cond) == Some(plan)
    ensures Suffices(sem, info, t, ids, cond)
    ensures info.indexes[plan.index].columns[0] < |info.types|
    ensures var c, w := info.indexes[plan.index].columns[0], ConstValue(sem, plan.bound);
      w != K.Null && K.Fits(w, info.types[c]) ==> forall r :: r in ids <==> IsWithin(sem, t, c, plan.op, w, r)
  {
    hide IsTrue, T.TableOk, IsConst, Eval, CmpValues, IndexRangePlan, InRange, IsWithin;
    PlanIsRange(info, cond, plan);
    SingleIndexTyped(info, t, plan.index);
    var c := info.indexes[plan.index].columns[0];
    var ty, w := info.types[c], ConstValue(sem, plan.bound);
    assert ValidIndex(info, info.indexes[plan.index]);
    if w == K.Null || Coerced(w, ty).None? {
      ids := ScanIds(t);
      ScanSuffices(sem, info, t, ids, cond);
      return;
    }
    ids := IndexScanRange(t.entries[plan.index], ty, LowOf(plan.op, w), HighOf(plan.op, w));
    forall r: I64
      ensures r in ids <==> IsWithin(sem, t, c, plan.op, w, r)
    {
      EntryIsWithin(sem, info, t, plan.index, plan.op, w, r);
    }
    forall k | 0 <= k < |ids|
      ensures Live(info, t, ids[k])
    {
      assert ids[k] in ids;
      var e :| e in t.entries[plan.index] && InRange(e, ty, LowOf(plan.op, w), HighOf(plan.op, w)) && e.rowid == ids[k];
      EntriesAreLive(info, t, plan.index, e);
    }
    forall r | TrueOn(sem, info, t, cond, r)
      ensures r in ids
    {
      RangeRowIsIndexed(sem, info, t, cond, plan, r);
    }
  }

  // -------------------------------------------------------------- the planner

  method ChooseIds(sem: Sem, info: Info, t: T.Table, cond: Expr) returns (ids: seq<I64>)
    requires ValidTable(info, t)
    ensures Suffices(sem, info, t, ids, cond)
  {
    hide IsTrue, T.TableOk, IsConst, Eval, CmpValues, IndexRangePlan, PointLookupKey, CollectEqualities, TrueOn;
    var key := PointLookupKey(info, cond);
    if key.Some? {
      ids := PointIds(sem, info, t, cond, key.value);
      return;
    }
    var eq := IndexEqPlan(info, cond);
    if eq.Some? {
      ids := IndexEqIds(sem, info, t, cond, eq.value.0, eq.value.1);
      return;
    }
    var plan := IndexRangePlan(info, cond);
    if plan.Some? {
      ids := IndexRangeIds(sem, info, t, cond, plan.value);
      return;
    }
    ids := ScanIds(t);
    ScanSuffices(sem, info, t, ids, cond);
  }

  /**
    A SELECT from one table: choose a path, fetch, and apply the WHERE.  The rows are, as
    a multiset, those that a full scan and the WHERE give.
  */
  method SelectRows(sem: Sem, info: Info, t: T.Table, cond: Expr, ghost all: seq<I64>) returns (rows: seq<Row>)
    requires ValidTable(info, t) && IsScan(t, all)
    ensures AllLive(info, t, all)
    ensures multiset(rows) == multiset(Pushdown.Kept(sem, [info.names], RowsOf(info, t, all), cond))
  {
    hide IsTrue, T.TableOk, TrueOn, RowsOf, Pushdown.Kept;
    var ids := ChooseIds(sem, info, t, cond);
    FilterForgetsThePath(sem, info, t, ids, all, cond);
    rows := Pushdown.FilterRows(sem, [info.names], RowsOf(info, t, ids), Some(cond));
  }
}
