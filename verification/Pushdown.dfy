/** Predicate pushdown through INNER and LEFT joins (`run_select`, `prefilter` of `src/exec.rs`). */
module Pushdown {
  import opened Options
  import opened Expressions
  import K = Keys

  datatype JoinKind = Inner | Left

  /** A joined table, its rows as scanned, and its ON. */
  datatype Join = Join(kind: JoinKind, table: Table, rows: seq<Row>, on: Expr)

  predicate RowsFit(rows: seq<Row>, schema: Schema) {
    forall i :: 0 <= i < |rows| ==> |rows[i]| == Width(schema)
  }

  predicate IsTable(rows: seq<Row>, t: Table) {
    RowsFit(rows, [t])
  }

  function Nulls(n: nat): (r: Row)
    ensures |r| == n
  {
    seq(n, _ => K.Null)
  }

  lemma {:induction false} WidthConcat(a: Schema, b: Schema)
    ensures Width(a + b) == Width(a) + Width(b)
  {
    if a == [] {
      assert a + b == b;
    } else {
      WidthConcat(a[1..], b);
      assert (a + b)[1..] == a[1..] + b;
    }
  }

  lemma WidthOne(t: Table)
    ensures Width([t]) == |t.columns|
  {
    assert [t][1..] == [];
  }

  // ---------------------------------------------------------- what is meant

  /** The rows on which a condition is true, in order. */
  function Kept(sem: Sem, schema: Schema, rows: seq<Row>, e: Expr): (r: seq<Row>)
    requires RowsFit(rows, schema)
    ensures RowsFit(r, schema)
  {
    if rows == [] then []
    else
      var rest := Kept(sem, schema, rows[1..], e);
      if IsTrue(sem, schema, rows[0], e) then [rows[0]] + rest else rest
  }

  /** The left row with every right row it joins, in order. */
  function Partners(sem: Sem, schema: Schema, left: Row, rights: seq<Row>, on: Expr): (r: seq<Row>)
    requires forall i :: 0 <= i < |rights| ==> |left + rights[i]| == Width(schema)
    ensures RowsFit(r, schema)
  {
    if rights == [] then []
    else
      assert forall i :: 0 <= i < |rights| - 1 ==> rights[1..][i] == rights[i + 1];
      var rest := Partners(sem, schema, left, rights[1..], on);
      assert |left + rights[0]| == Width(schema);
      if IsTrue(sem, schema, left + rights[0], on) then [left + rights[0]] + rest else rest
  }

  /** One left row joined; a LEFT join keeps it, with NULLs, when it has no partner. */
  function JoinedRow(sem: Sem, schema: Schema, left: Row, j: Join): (r: seq<Row>)
    requires |left| + |j.table.columns| == Width(schema) && IsTable(j.rows, j.table)
    ensures RowsFit(r, schema)
  {
    WidthOne(j.table);
    var partners := Partners(sem, schema, left, j.rows, j.on);
    if partners == [] && j.kind == Left then [left + Nulls(|j.table.columns|)] else partners
  }

  function JoinedRows(sem: Sem, schema: Schema, lefts: seq<Row>, j: Join): (r: seq<Row>)
    requires IsTable(j.rows, j.table) && forall i :: 0 <= i < |lefts| ==> |lefts[i]| + |j.table.columns| == Width(schema)
    ensures RowsFit(r, schema)
    decreases |lefts|
  {
    if lefts == [] then []
    else
      assert forall i :: 0 <= i < |lefts| - 1 ==> lefts[1..][i] == lefts[i + 1];
      assert |lefts[0]| + |j.table.columns| == Width(schema);
      JoinedRow(sem, schema, lefts[0], j) + JoinedRows(sem, schema, lefts[1..], j)
  }

  predicate AreTables(joins: seq<Join>) {
    forall i :: 0 <= i < |joins| ==> IsTable(joins[i].rows, joins[i].table)
  }

  /** The tables seen after the first n joins. */
  function SchemaOf(from: Table, joins: seq<Join>): (s: Schema)
    ensures |s| == |joins| + 1 && s[0] == from
  {
    if joins == [] then [from] else SchemaOf(from, joins[..|joins| - 1]) + [joins[|joins| - 1].table]
  }

  function JoinAll(sem: Sem, from: Table, rows: seq<Row>, joins: seq<Join>): (r: seq<Row>)
    requires IsTable(rows, from) && AreTables(joins)
    ensures RowsFit(r, SchemaOf(from, joins))
    decreases |joins|
  {
    if joins == [] then rows
    else
      var front, last := joins[..|joins| - 1], joins[|joins| - 1];
      assert IsTable(last.rows, last.table);
      var lefts := JoinAll(sem, from, rows, front);
      WidthConcat(SchemaOf(from, front), [last.table]);
      WidthOne(last.table);
      JoinedRows(sem, SchemaOf(from, joins), lefts, last)
  }

  function Filtered(sem: Sem, schema: Schema, rows: seq<Row>, cond: Option<Expr>): (r: seq<Row>)
    requires RowsFit(rows, schema)
  {
    if cond.None? then rows else Kept(sem, schema, rows, cond.value)
  }

  /** Join everything, then filter. */
  function Plain(sem: Sem, from: Table, rows: seq<Row>, joins: seq<Join>, cond: Option<Expr>): (r: seq<Row>)
    requires IsTable(rows, from) && AreTables(joins)
  {
    Filtered(sem, SchemaOf(from, joins), JoinAll(sem, from, rows, joins), cond)
  }

  // ------------------------------------------------------------- locality

  /** In the middle of a schema, and only there, is the table that q names. */
  ghost predicate Named(pre: Schema, t: Table, q: string) {
    t.qualifier == q && forall i :: 0 <= i < |pre| ==> pre[i].qualifier != q
  }

  lemma {:induction false} LookupIsLocal(pre: Schema, t: Table, post: Schema, a: Row, seg: Row, b: Row, q: string, name: string)
    requires Named(pre, t, q) && |a| == Width(pre) && |seg| == |t.columns| && |b| == Width(post)
    ensures Width(pre + [t] + post) == |a + seg + b| && Width([t]) == |seg|
    ensures Lookup(pre + [t] + post, a + seg + b, Some(q), name) == Lookup([t], seg, Some(q), name)
    decreases |pre|
  {
    WidthConcat(pre + [t], post);
    WidthConcat(pre, [t]);
    WidthOne(t);
    var schema, row := pre + [t] + post, a + seg + b;
    if pre == [] {
      assert schema == [t] + post && schema[0] == t;
      assert a == [] && row == seg + b;
      assert forall i :: 0 <= i < |seg| ==> row[i] == seg[i];
    } else {
      var w := |pre[0].columns|;
      assert schema[0] == pre[0] && schema[1..] == pre[1..] + [t] + post;
      assert row[w..] == a[w..] + seg + b;
      LookupIsLocal(pre[1..], t, post, a[w..], seg, b, q, name);
      assert pre[0].qualifier != q;
    }
  }

  /** An expression about one table has one value, in that table's row and in any row it is part of. */
  lemma {:induction false} EvalIsLocal(sem: Sem, pre: Schema, t: Table, post: Schema, a: Row, seg: Row, b: Row, e: Expr, q: string)
    requires Named(pre, t, q) && |a| == Width(pre) && |seg| == |t.columns| && |b| == Width(post) && Only(e, q)
    ensures Width(pre + [t] + post) == |a + seg + b| && Width([t]) == |seg|
    ensures Eval(sem, pre + [t] + post, a + seg + b, e) == Eval(sem, [t], seg, e)
    decreases e
  {
    hide Lookup;
    WidthConcat(pre + [t], post);
    WidthConcat(pre, [t]);
    WidthOne(t);
    match e
    case Column(_, name) => LookupIsLocal(pre, t, post, a, seg, b, q, name);
    case And(l, r) =>
      EvalIsLocal(sem, pre, t, post, a, seg, b, l, q);
      EvalIsLocal(sem, pre, t, post, a, seg, b, r, q);
    case Or(l, r) =>
      EvalIsLocal(sem, pre, t, post, a, seg, b, l, q);
      EvalIsLocal(sem, pre, t, post, a, seg, b, r, q);
    case Compare(_, l, r) =>
      EvalIsLocal(sem, pre, t, post, a, seg, b, l, q);
      EvalIsLocal(sem, pre, t, post, a, seg, b, r, q);
    case Node(kind, args) =>
      forall i | 0 <= i < |args|
        ensures Eval(sem, pre + [t] + post, a + seg + b, args[i]) == Eval(sem, [t], seg, args[i])
      {
        assert Only(args[i], q);
        EvalIsLocal(sem, pre, t, post, a, seg, b, args[i], q);
      }
      assert seq(|args|, i requires 0 <= i < |args| => Eval(sem, pre + [t] + post, a + seg + b, args[i]))
        == seq(|args|, i requires 0 <= i < |args| => Eval(sem, [t], seg, args[i]));
    case _ =>
  }

  // ------------------------------------------------------------ what is pushed

  /** The row passes every conjunct that is about its table alone. */
  predicate Passes(sem: Sem, t: Table, row: Row, conjs: seq<Expr>)
    requires |row| == Width([t])
  {
    forall k :: 0 <= k < |conjs| && ConjunctQualifier(conjs[k]) == Some(t.qualifier) ==> IsTrue(sem, [t], row, conjs[k])
  }

  function Prefiltered(sem: Sem, t: Table, rows: seq<Row>, conjs: seq<Expr>): (r: seq<Row>)
    requires IsTable(rows, t)
    ensures IsTable(r, t)
  {
    if rows == [] then []
    else
      var rest := Prefiltered(sem, t, rows[1..], conjs);
      if Passes(sem, t, rows[0], conjs) then [rows[0]] + rest else rest
  }

  method PassesAll(sem: Sem, t: Table, row: Row, conjs: seq<Expr>) returns (pass: bool)
    requires |row| == Width([t])
    ensures pass <==> Passes(sem, t, row, conjs)
  {
    for k := 0 to |conjs|
      invariant forall j :: 0 <= j < k && ConjunctQualifier(conjs[j]) == Some(t.qualifier) ==> IsTrue(sem, [t], row, conjs[j])
    {
      if ConjunctQualifier(conjs[k]) == Some(t.qualifier) && !IsTrue(sem, [t], row, conjs[k]) {
        return false;
      }
    }
    return true;
  }

  lemma {:induction false} PrefilteredAppend(sem: Sem, t: Table, rows: seq<Row>, row: Row, conjs: seq<Expr>)
    requires IsTable(rows, t) && |row| == Width([t])
    ensures IsTable(rows + [row], t)
    ensures Prefiltered(sem, t, rows + [row], conjs) ==
      Prefiltered(sem, t, rows, conjs) + if Passes(sem, t, row, conjs) then [row] else []
  {
    hide Passes;
    if rows == [] {
      assert [row][1..] == [];
    } else {
      PrefilteredAppend(sem, t, rows[1..], row, conjs);
      assert (rows + [row])[1..] == rows[1..] + [row];
    }
  }

  method Prefilter(sem: Sem, t: Table, rows: seq<Row>, conjs: seq<Expr>) returns (kept: seq<Row>)
    requires IsTable(rows, t)
    ensures kept == Prefiltered(sem, t, rows, conjs)
  {
    hide Passes;
    kept := [];
    for i := 0 to |rows|
      invariant kept == Prefiltered(sem, t, rows[..i], conjs)
    {
      assert rows[..i + 1] == rows[..i] + [rows[i]];
      PrefilteredAppend(sem, t, rows[..i], rows[i], conjs);
      var pass := PassesAll(sem, t, rows[i], conjs);
      if pass {
        kept := kept + [rows[i]];
      }
    }
    assert rows[..|rows|] == rows;
  }

  /** Every pushed conjunct is true on the combined row. */
  ghost predicate Good(sem: Sem, schema: Schema, row: Row, conjs: seq<Expr>, pushed: set<string>)
    requires |row| == Width(schema)
  {
    forall k :: 0 <= k < |conjs| ==> GoodFor(sem, schema, row, conjs[k], pushed)
  }

  ghost predicate GoodFor(sem: Sem, schema: Schema, row: Row, c: Expr, pushed: set<string>)
    requires |row| == Width(schema)
  {
    var q := ConjunctQualifier(c);
    q.Some? && q.value in pushed ==> IsTrue(sem, schema, row, c)
  }

  ghost function GoodRows(sem: Sem, schema: Schema, rows: seq<Row>, conjs: seq<Expr>, pushed: set<string>): (r: seq<Row>)
    requires RowsFit(rows, schema)
    ensures RowsFit(r, schema)
  {
    if rows == [] then []
    else
      var rest := GoodRows(sem, schema, rows[1..], conjs, pushed);
      if Good(sem, schema, rows[0], conjs, pushed) then [rows[0]] + rest else rest
  }

  lemma {:induction false} GoodConcat(sem: Sem, schema: Schema, a: seq<Row>, b: seq<Row>, conjs: seq<Expr>, pushed: set<string>)
    requires RowsFit(a, schema) && RowsFit(b, schema)
    ensures RowsFit(a + b, schema)
    ensures GoodRows(sem, schema, a + b, conjs, pushed) == GoodRows(sem, schema, a, conjs, pushed) + GoodRows(sem, schema, b, conjs, pushed)
  {
    hide Good;
    if a == [] {
      assert a + b == b;
    } else {
      GoodConcat(sem, schema, a[1..], b, conjs, pushed);
      assert (a + b)[1..] == a[1..] + b;
    }
  }

  ghost predicate DistinctQualifiers(schema: Schema) {
    forall i, j :: 0 <= i < j < |schema| ==> schema[i].qualifier != schema[j].qualifier
  }

  ghost predicate Covered(schema: Schema, pushed: set<string>) {
    forall q :: q in pushed ==> exists k :: 0 <= k < |schema| && schema[k].qualifier == q
  }

  /** Adding a table on the right does not change what is about the tables before it. */
  lemma EvalExtends(sem: Sem, schema: Schema, row: Row, t: Table, seg: Row, c: Expr, k: nat)
    requires DistinctQualifiers(schema) && |row| == Width(schema) && |seg| == |t.columns|
    requires k < |schema| && Only(c, schema[k].qualifier)
    ensures |row + seg| == Width(schema + [t])
    ensures Eval(sem, schema + [t], row + seg, c) == Eval(sem, schema, row, c)
  {
    hide Eval;
    var pre, s, post := schema[..k], schema[k], schema[k + 1..];
    assert schema == pre + [s] + post;
    WidthConcat(pre + [s], post);
    WidthConcat(pre, [s]);
    WidthOne(s);
    WidthConcat(schema, [t]);
    WidthConcat(post, [t]);
    WidthOne(t);
    var x, y := Width(pre), Width(pre) + |s.columns|;
    var a, m, b := row[..x], row[x..y], row[y..];
    assert row == a + m + b;
    EvalIsLocal(sem, pre, s, post, a, m, b, c, s.qualifier);
    EvalIsLocal(sem, pre, s, post + [t], a, m, b + seg, c, s.qualifier);
    assert pre + [s] + (post + [t]) == schema + [t];
    assert a + m + (b + seg) == row + seg;
  }

  /** What is about the new table depends on its part alone. */
  lemma EvalOfNew(sem: Sem, schema: Schema, row: Row, t: Table, seg: Row, c: Expr)
    requires DistinctQualifiers(schema + [t]) && |row| == Width(schema) && |seg| == |t.columns| && Only(c, t.qualifier)
    ensures |row + seg| == Width(schema + [t]) && Width([t]) == |seg|
    ensures Eval(sem, schema + [t], row + seg, c) == Eval(sem, [t], seg, c)
  {
    hide Eval;
    var all := schema + [t];
    assert all[|schema|] == t && forall i :: 0 <= i < |schema| ==> all[i] == schema[i];
    assert Named(schema, t, t.qualifier);
    EvalIsLocal(sem, schema, t, [], row, seg, [], c, t.qualifier);
    assert schema + [t] + [] == schema + [t] && row + seg + [] == row + seg;
  }

  lemma QualifierOf(c: Expr)
    ensures ConjunctQualifier(c).Some? ==> Only(c, ConjunctQualifier(c).value)
  {
  }

  /** An inner join's row is good exactly when its two parts are. */
  lemma GoodInner(sem: Sem, schema: Schema, row: Row, t: Table, seg: Row, conjs: seq<Expr>, pushed: set<string>)
    requires DistinctQualifiers(schema) && DistinctQualifiers(schema + [t]) && Covered(schema, pushed)
    requires |row| == Width(schema) && |seg| == |t.columns|
    ensures |row + seg| == Width(schema + [t]) && Width([t]) == |seg|
    ensures Good(sem, schema + [t], row + seg, conjs, pushed + {t.qualifier}) <==>
      Good(sem, schema, row, conjs, pushed) && Passes(sem, t, seg, conjs)
  {
    hide Eval, Only, Width, ConjunctQualifier, Covered, DistinctQualifiers;
    WidthConcat(schema, [t]);
    WidthOne(t);
    var all, whole := schema + [t], row + seg;
    forall k | 0 <= k < |conjs|
      ensures GoodFor(sem, all, whole, conjs[k], pushed + {t.qualifier}) <==>
        GoodFor(sem, schema, row, conjs[k], pushed)
          && (ConjunctQualifier(conjs[k]) == Some(t.qualifier) ==> IsTrue(sem, [t], seg, conjs[k]))
    {
      GoodParts(sem, schema, row, t, seg, conjs[k], pushed);
    }
  }

  lemma NotYet(schema: Schema, t: Table, pushed: set<string>)
    requires DistinctQualifiers(schema + [t]) && Covered(schema, pushed)
    ensures t.qualifier !in pushed
  {
    var all := schema + [t];
    assert all[|schema|] == t && forall i :: 0 <= i < |schema| ==> all[i] == schema[i];
  }

  lemma GoodParts(sem: Sem, schema: Schema, row: Row, t: Table, seg: Row, c: Expr, pushed: set<string>)
    requires DistinctQualifiers(schema) && DistinctQualifiers(schema + [t]) && Covered(schema, pushed)
    requires |row| == Width(schema) && |seg| == |t.columns|
    ensures |row + seg| == Width(schema + [t]) && Width([t]) == |seg|
    ensures GoodFor(sem, schema + [t], row + seg, c, pushed + {t.qualifier}) <==>
      GoodFor(sem, schema, row, c, pushed) && (ConjunctQualifier(c) == Some(t.qualifier) ==> IsTrue(sem, [t], seg, c))
    ensures GoodFor(sem, schema + [t], row + seg, c, pushed) <==> GoodFor(sem, schema, row, c, pushed)
  {
    hide Eval, Only, Width, ConjunctQualifier, DistinctQualifiers;
    WidthConcat(schema, [t]);
    WidthOne(t);
    NotYet(schema, t, pushed);
    QualifierOf(c);
    var q := ConjunctQualifier(c);
    if q.Some? && q.value in pushed {
      var k :| 0 <= k < |schema| && schema[k].qualifier == q.value;
      EvalExtends(sem, schema, row, t, seg, c, k);
    } else if q == Some(t.qualifier) {
      EvalOfNew(sem, schema, row, t, seg, c);
    }
  }

  /** A left join's row is good exactly when its left part is, NULLs or not. */
  lemma GoodLeft(sem: Sem, schema: Schema, row: Row, t: Table, seg: Row, conjs: seq<Expr>, pushed: set<string>)
    requires DistinctQualifiers(schema) && DistinctQualifiers(schema + [t]) && Covered(schema, pushed)
    requires |row| == Width(schema) && |seg| == |t.columns|
    ensures |row + seg| == Width(schema + [t])
    ensures Good(sem, schema + [t], row + seg, conjs, pushed) <==> Good(sem, schema, row, conjs, pushed)
  {
    hide Eval, Only, Width, ConjunctQualifier, Covered, DistinctQualifiers;
    WidthConcat(schema, [t]);
    WidthOne(t);
    var all, whole := schema + [t], row + seg;
    forall k | 0 <= k < |conjs|
      ensures GoodFor(sem, all, whole, conjs[k], pushed) <==> GoodFor(sem, schema, row, conjs[k], pushed)
    {
      GoodParts(sem, schema, row, t, seg, conjs[k], pushed);
    }
  }

  // ------------------------------------------------------------- one join

  /** The join as it is run: the right side of an INNER join is filtered first. */
  function Pushed(sem: Sem, j: Join, conjs: seq<Expr>): (r: Join)
    requires IsTable(j.rows, j.table)
    ensures IsTable(r.rows, r.table) && r.table == j.table
  {
    if j.kind == Inner then j.(rows := Prefiltered(sem, j.table, j.rows, conjs)) else j
  }

  ghost function PushedAfter(pushed: set<string>, j: Join): (r: set<string>) {
    if j.kind == Inner then pushed + {j.table.qualifier} else pushed
  }

  /** A place in a chain of joins: the tables so far, the next one, and what has been pushed. */
  ghost predicate Step(schema: Schema, j: Join, pushed: set<string>) {
    DistinctQualifiers(schema) && DistinctQualifiers(schema + [j.table]) && Covered(schema, pushed) && IsTable(j.rows, j.table)
  }

  lemma {:induction false} PartnersOfPrefiltered(sem: Sem, schema: Schema, left: Row, t: Table, rights: seq<Row>, on: Expr,
                                                conjs: seq<Expr>, pushed: set<string>)
    requires DistinctQualifiers(schema) && DistinctQualifiers(schema + [t]) && Covered(schema, pushed)
    requires IsTable(rights, t) && |left| == Width(schema) && Good(sem, schema, left, conjs, pushed)
    ensures forall i :: 0 <= i < |rights| ==> |left + rights[i]| == Width(schema + [t])
    ensures forall i :: 0 <= i < |Prefiltered(sem, t, rights, conjs)| ==>
      |left + Prefiltered(sem, t, rights, conjs)[i]| == Width(schema + [t])
    ensures Partners(sem, schema + [t], left, Prefiltered(sem, t, rights, conjs), on) ==
      GoodRows(sem, schema + [t], Partners(sem, schema + [t], left, rights, on), conjs, pushed + {t.qualifier})
    decreases |rights|
  {
    hide Good, Passes, Eval, DistinctQualifiers, Covered, Width;
    WidthConcat(schema, [t]);
    WidthOne(t);
    if rights != [] {
      PartnersOfPrefiltered(sem, schema, left, t, rights[1..], on, conjs, pushed);
      GoodInner(sem, schema, left, t, rights[0], conjs, pushed);
      var kept, rest := Prefiltered(sem, t, rights, conjs), Prefiltered(sem, t, rights[1..], conjs);
      assert Passes(sem, t, rights[0], conjs) ==> kept == [rights[0]] + rest && kept[1..] == rest;
      assert !Passes(sem, t, rights[0], conjs) ==> kept == rest;
      PartnersUnfold(sem, schema + [t], left, rights, on);
      PartnersUnfold(sem, schema + [t], left, kept, on);
      var row, more := left + rights[0], Partners(sem, schema + [t], left, rights[1..], on);
      GoodCons(sem, schema + [t], row, more, conjs, pushed + {t.qualifier});
    }
  }

  lemma PartnersUnfold(sem: Sem, schema: Schema, left: Row, rights: seq<Row>, on: Expr)
    requires forall i :: 0 <= i < |rights| ==> |left + rights[i]| == Width(schema)
    ensures rights != [] ==>
      && |left + rights[0]| == Width(schema)
      && (forall i :: 0 <= i < |rights[1..]| ==> |left + rights[1..][i]| == Width(schema))
      && Partners(sem, schema, left, rights, on) ==
           (if IsTrue(sem, schema, left + rights[0], on) then [left + rights[0]] else []) + Partners(sem, schema, left, rights[1..], on)
  {
    hide Eval, Width;
    if rights != [] {
      assert forall i :: 0 <= i < |rights| - 1 ==> rights[1..][i] == rights[i + 1];
    }
  }

  lemma GoodCons(sem: Sem, schema: Schema, row: Row, rows: seq<Row>, conjs: seq<Expr>, pushed: set<string>)
    requires |row| == Width(schema) && RowsFit(rows, schema)
    ensures RowsFit([row] + rows, schema)
    ensures GoodRows(sem, schema, [row] + rows, conjs, pushed) ==
      (if Good(sem, schema, row, conjs, pushed) then [row] else []) + GoodRows(sem, schema, rows, conjs, pushed)
  {
    hide Good;
    assert ([row] + rows)[1..] == rows;
  }

  /** If every row is good, or none is, filtering keeps all or nothing. */
  lemma {:induction false} GoodUniform(sem: Sem, schema: Schema, rows: seq<Row>, conjs: seq<Expr>, pushed: set<string>, good: bool)
    requires RowsFit(rows, schema)
    requires forall i :: 0 <= i < |rows| ==> (Good(sem, schema, rows[i], conjs, pushed) <==> good)
    ensures GoodRows(sem, schema, rows, conjs, pushed) == if good then rows else []
  {
    hide Good;
    if rows != [] {
      assert Good(sem, schema, rows[0], conjs, pushed) <==> good;
      assert forall i :: 0 <= i < |rows| - 1 ==> rows[1..][i] == rows[i + 1];
      GoodUniform(sem, schema, rows[1..], conjs, pushed, good);
    }
  }

  /** Every row that a left row gives begins with it. */
  lemma {:induction false} PartnersBegin(sem: Sem, schema: Schema, left: Row, n: nat, rights: seq<Row>, on: Expr)
    requires |left| + n == Width(schema) && forall i :: 0 <= i < |rights| ==> |rights[i]| == n
    ensures forall i :: 0 <= i < |rights| ==> |left + rights[i]| == Width(schema)
    ensures forall x :: x in Partners(sem, schema, left, rights, on) ==> |x| == |left| + n && x == left + x[|left|..]
    decreases |rights|
  {
    hide Eval, Width;
    if rights != [] {
      assert forall i :: 0 <= i < |rights| - 1 ==> rights[1..][i] == rights[i + 1];
      PartnersBegin(sem, schema, left, n, rights[1..], on);
      PartnersUnfold(sem, schema, left, rights, on);
    }
  }

  lemma JoinedRowBegins(sem: Sem, schema: Schema, left: Row, j: Join)
    requires |left| + |j.table.columns| == Width(schema) && IsTable(j.rows, j.table)
    ensures forall x :: x in JoinedRow(sem, schema, left, j) ==> |x| == |left| + |j.table.columns| && x == left + x[|left|..]
  {
    hide Partners, Eval, Width;
    WidthOne(j.table);
    PartnersBegin(sem, schema, left, |j.table.columns|, j.rows, j.on);
    NullsBegin(left, |j.table.columns|);
  }

  lemma NullsBegin(left: Row, n: nat)
    ensures left + Nulls(n) == left + (left + Nulls(n))[|left|..]
  {
  }

  /** One left row: filtering before or after the join is the same. */
  lemma JoinedRowPushed(sem: Sem, schema: Schema, left: Row, j: Join, conjs: seq<Expr>, pushed: set<string>)
    requires Step(schema, j, pushed) && |left| == Width(schema)
    ensures |left| + |j.table.columns| == Width(schema + [j.table])
    ensures GoodRows(sem, schema + [j.table], JoinedRow(sem, schema + [j.table], left, j), conjs, PushedAfter(pushed, j)) ==
      if Good(sem, schema, left, conjs, pushed) then JoinedRow(sem, schema + [j.table], left, Pushed(sem, j, conjs)) else []
  {
    hide Good, Passes, Eval, DistinctQualifiers, Covered, Width, Partners;
    var t := j.table;
    WidthConcat(schema, [t]);
    WidthOne(t);
    var all, good := schema + [t], Good(sem, schema, left, conjs, pushed);
    if j.kind == Inner && good {
      PartnersOfPrefiltered(sem, schema, left, t, j.rows, j.on, conjs, pushed);
    } else {
      JoinedRowBegins(sem, all, left, j);
      var rows := JoinedRow(sem, all, left, j);
      forall i | 0 <= i < |rows|
        ensures Good(sem, all, rows[i], conjs, PushedAfter(pushed, j)) <==> good
      {
        assert rows[i] in rows;
        var seg := rows[i][|left|..];
        if j.kind == Inner {
          GoodInner(sem, schema, left, t, seg, conjs, pushed);
        } else {
          GoodLeft(sem, schema, left, t, seg, conjs, pushed);
        }
      }
      GoodUniform(sem, all, rows, conjs, PushedAfter(pushed, j), good);
    }
  }

  lemma {:induction false} JoinedRowsPushed(sem: Sem, schema: Schema, lefts: seq<Row>, j: Join, conjs: seq<Expr>, pushed: set<string>)
    requires Step(schema, j, pushed) && RowsFit(lefts, schema)
    ensures Width(schema) + |j.table.columns| == Width(schema + [j.table])
    ensures JoinedRows(sem, schema + [j.table], GoodRows(sem, schema, lefts, conjs, pushed), Pushed(sem, j, conjs)) ==
      GoodRows(sem, schema + [j.table], JoinedRows(sem, schema + [j.table], lefts, j), conjs, PushedAfter(pushed, j))
    decreases |lefts|
  {
    hide Good, Eval, DistinctQualifiers, Covered, Width, JoinedRow, Prefiltered;
    WidthConcat(schema, [j.table]);
    WidthOne(j.table);
    var all := schema + [j.table];
    if lefts != [] {
      JoinedRowsPushed(sem, schema, lefts[1..], j, conjs, pushed);
      JoinedRowPushed(sem, schema, lefts[0], j, conjs, pushed);
      var kept, rest := GoodRows(sem, schema, lefts, conjs, pushed), GoodRows(sem, schema, lefts[1..], conjs, pushed);
      assert Good(sem, schema, lefts[0], conjs, pushed) ==> kept == [lefts[0]] + rest && kept[1..] == rest;
      JoinedUnfold(sem, all, lefts, j);
      JoinedUnfold(sem, all, kept, Pushed(sem, j, conjs));
      GoodConcat(sem, all, JoinedRow(sem, all, lefts[0], j), JoinedRows(sem, all, lefts[1..], j), conjs, PushedAfter(pushed, j));
    }
  }

  lemma JoinedUnfold(sem: Sem, schema: Schema, lefts: seq<Row>, j: Join)
    requires IsTable(j.rows, j.table) && forall i :: 0 <= i < |lefts| ==> |lefts[i]| + |j.table.columns| == Width(schema)
    ensures lefts != [] ==>
      && |lefts[0]| + |j.table.columns| == Width(schema)
      && (forall i :: 0 <= i < |lefts[1..]| ==> |lefts[1..][i]| + |j.table.columns| == Width(schema))
      && JoinedRows(sem, schema, lefts, j) == JoinedRow(sem, schema, lefts[0], j) + JoinedRows(sem, schema, lefts[1..], j)
  {
    hide JoinedRow, Width;
    if lefts != [] {
      assert forall i :: 0 <= i < |lefts| - 1 ==> lefts[1..][i] == lefts[i + 1];
    }
  }

  // --------------------------------------------------------- the whole chain

  function PushedAll(sem: Sem, joins: seq<Join>, conjs: seq<Expr>): (r: seq<Join>)
    requires AreTables(joins)
    ensures |r| == |joins| && AreTables(r)
    ensures forall i :: 0 <= i < |r| ==> r[i].table == joins[i].table
  {
    if joins == [] then []
    else
      var last := joins[|joins| - 1];
      assert IsTable(last.rows, last.table);
      PushedAll(sem, joins[..|joins| - 1], conjs) + [Pushed(sem, last, conjs)]
  }

  ghost function PushedTables(from: Table, joins: seq<Join>): (r: set<string>) {
    if joins == [] then {from.qualifier} else PushedAfter(PushedTables(from, joins[..|joins| - 1]), joins[|joins| - 1])
  }

  lemma {:induction false} SchemaOfPushed(sem: Sem, from: Table, joins: seq<Join>, conjs: seq<Expr>)
    requires AreTables(joins)
    ensures SchemaOf(from, PushedAll(sem, joins, conjs)) == SchemaOf(from, joins)
  {
    hide Prefiltered;
    if joins != [] {
      SchemaOfPushed(sem, from, joins[..|joins| - 1], conjs);
      var r := PushedAll(sem, joins, conjs);
      assert r[..|r| - 1] == PushedAll(sem, joins[..|joins| - 1], conjs);
    }
  }

  lemma {:induction false} PushedAreCovered(from: Table, joins: seq<Join>)
    ensures Covered(SchemaOf(from, joins), PushedTables(from, joins))
  {
    var s := SchemaOf(from, joins);
    if joins == [] {
      assert s[0].qualifier == from.qualifier;
    } else {
      var front := SchemaOf(from, joins[..|joins| - 1]);
      PushedAreCovered(from, joins[..|joins| - 1]);
      assert s == front + [joins[|joins| - 1].table];
      forall q | q in PushedTables(from, joins)
        ensures exists k :: 0 <= k < |s| && s[k].qualifier == q
      {
        if q in PushedTables(from, joins[..|joins| - 1]) {
          var k :| 0 <= k < |front| && front[k].qualifier == q;
          assert s[k] == front[k];
        } else {
          assert s[|s| - 1].qualifier == q;
        }
      }
    }
  }

  lemma DistinctFront(s: Schema, t: Table)
    requires DistinctQualifiers(s + [t])
    ensures DistinctQualifiers(s)
  {
    assert forall i :: 0 <= i < |s| ==> (s + [t])[i] == s[i];
  }

  /** FROM is always preserved, so filtering it first is filtering the single-table rows. */
  lemma {:induction false} FromPushed(sem: Sem, from: Table, rows: seq<Row>, conjs: seq<Expr>)
    requires IsTable(rows, from)
    ensures Prefiltered(sem, from, rows, conjs) == GoodRows(sem, [from], rows, conjs, {from.qualifier})
  {
    hide Eval;
    if rows != [] {
      FromPushed(sem, from, rows[1..], conjs);
      assert Passes(sem, from, rows[0], conjs) <==> Good(sem, [from], rows[0], conjs, {from.qualifier}) by {
        assert forall k :: 0 <= k < |conjs| ==> (GoodFor(sem, [from], rows[0], conjs[k], {from.qualifier}) <==>
          (ConjunctQualifier(conjs[k]) == Some(from.qualifier) ==> IsTrue(sem, [from], rows[0], conjs[k])));
      }
    }
  }

  /** Joining the filtered tables gives the good rows of the plain join, in order. */
  lemma {:induction false} JoinAllPushed(sem: Sem, from: Table, rows: seq<Row>, joins: seq<Join>, conjs: seq<Expr>)
    requires IsTable(rows, from) && AreTables(joins) && DistinctQualifiers(SchemaOf(from, joins))
    ensures SchemaOf(from, PushedAll(sem, joins, conjs)) == SchemaOf(from, joins)
    ensures JoinAll(sem, from, Prefiltered(sem, from, rows, conjs), PushedAll(sem, joins, conjs)) ==
      GoodRows(sem, SchemaOf(from, joins), JoinAll(sem, from, rows, joins), conjs, PushedTables(from, joins))
    decreases |joins|
  {
    hide Good, Eval, DistinctQualifiers, Covered, Width, JoinedRows, Prefiltered, GoodRows, Pushed;
    SchemaOfPushed(sem, from, joins, conjs);
    if joins == [] {
      FromPushed(sem, from, rows, conjs);
    } else {
      var front, last := joins[..|joins| - 1], joins[|joins| - 1];
      var schema := SchemaOf(from, front);
      assert IsTable(last.rows, last.table);
      DistinctFront(schema, last.table);
      JoinAllPushed(sem, from, rows, front, conjs);
      PushedAreCovered(from, front);
      JoinedRowsPushed(sem, schema, JoinAll(sem, from, rows, front), last, conjs, PushedTables(from, front));
      var r := PushedAll(sem, joins, conjs);
      assert r[..|r| - 1] == PushedAll(sem, front, conjs) && r[|r| - 1] == Pushed(sem, last, conjs);
    }
  }

  /** WHERE implies every conjunct, so re-applying it forgets that rows were filtered before. */
  lemma {:induction false} WhereForgets(sem: Sem, schema: Schema, rows: seq<Row>, cond: Expr, pushed: set<string>)
    requires RowsFit(rows, schema)
    ensures Kept(sem, schema, GoodRows(sem, schema, rows, SplitAnd(cond), pushed), cond) == Kept(sem, schema, rows, cond)
  {
    hide Eval, SplitAnd;
    if rows != [] {
      WhereForgets(sem, schema, rows[1..], cond, pushed);
      ConjunctionHolds(sem, schema, rows[0], cond);
      var conjs := SplitAnd(cond);
      if IsTrue(sem, schema, rows[0], cond) {
        assert forall k :: 0 <= k < |conjs| ==> conjs[k] in conjs;
        assert Good(sem, schema, rows[0], conjs, pushed);
      }
      var kept, rest := GoodRows(sem, schema, rows, conjs, pushed), GoodRows(sem, schema, rows[1..], conjs, pushed);
      assert Good(sem, schema, rows[0], conjs, pushed) ==> kept[1..] == rest;
    }
  }

  /** Pushdown changes nothing: same rows, same order, NULL-extended rows included. */
  lemma PushdownPreservesMeaning(sem: Sem, from: Table, rows: seq<Row>, joins: seq<Join>, cond: Expr)
    requires IsTable(rows, from) && AreTables(joins) && DistinctQualifiers(SchemaOf(from, joins))
    ensures Plain(sem, from, Prefiltered(sem, from, rows, SplitAnd(cond)), PushedAll(sem, joins, SplitAnd(cond)), Some(cond))
      == Plain(sem, from, rows, joins, Some(cond))
  {
    hide Eval, Width, JoinAll, GoodRows, Kept, SchemaOf, DistinctQualifiers, PushedAll, Prefiltered;
    var conjs := SplitAnd(cond);
    JoinAllPushed(sem, from, rows, joins, conjs);
    WhereForgets(sem, SchemaOf(from, joins), JoinAll(sem, from, rows, joins), cond, PushedTables(from, joins));
  }

  // ------------------------------------------------------------ the executor

  lemma {:induction false} PartnersAppend(sem: Sem, schema: Schema, left: Row, rights: seq<Row>, right: Row, on: Expr)
    requires (forall i :: 0 <= i < |rights| ==> |left + rights[i]| == Width(schema)) && |left + right| == Width(schema)
    ensures forall i :: 0 <= i < |rights + [right]| ==> |left + (rights + [right])[i]| == Width(schema)
    ensures Partners(sem, schema, left, rights + [right], on) ==
      Partners(sem, schema, left, rights, on) + if IsTrue(sem, schema, left + right, on) then [left + right] else []
  {
    hide Eval, Width;
    if rights == [] {
      assert [right][1..] == [];
    } else {
      PartnersUnfold(sem, schema, left, rights, on);
      PartnersAppend(sem, schema, left, rights[1..], right, on);
      assert (rights + [right])[1..] == rights[1..] + [right];
      PartnersUnfold(sem, schema, left, rights + [right], on);
    }
  }

  lemma {:induction false} JoinedAppend(sem: Sem, schema: Schema, lefts: seq<Row>, left: Row, j: Join)
    requires IsTable(j.rows, j.table) && (forall i :: 0 <= i < |lefts| ==> |lefts[i]| + |j.table.columns| == Width(schema))
    requires |left| + |j.table.columns| == Width(schema)
    ensures forall i :: 0 <= i < |lefts + [left]| ==> |(lefts + [left])[i]| + |j.table.columns| == Width(schema)
    ensures JoinedRows(sem, schema, lefts + [left], j) == JoinedRows(sem, schema, lefts, j) + JoinedRow(sem, schema, left, j)
  {
    hide JoinedRow, Width;
    if lefts == [] {
      assert [left][1..] == [];
    } else {
      JoinedUnfold(sem, schema, lefts, j);
      JoinedAppend(sem, schema, lefts[1..], left, j);
      assert (lefts + [left])[1..] == lefts[1..] + [left];
      JoinedUnfold(sem, schema, lefts + [left], j);
    }
  }

  /** The nested loop of one join. */
  method NestedLoop(sem: Sem, schema: Schema, lefts: seq<Row>, j: Join) returns (joined: seq<Row>)
    requires IsTable(j.rows, j.table) && forall i :: 0 <= i < |lefts| ==> |lefts[i]| + |j.table.columns| == Width(schema)
    ensures joined == JoinedRows(sem, schema, lefts, j)
  {
    hide Eval, Width, Partners;
    joined := [];
    for i := 0 to |lefts|
      invariant joined == JoinedRows(sem, schema, lefts[..i], j)
    {
      assert lefts[..i + 1] == lefts[..i] + [lefts[i]];
      JoinedAppend(sem, schema, lefts[..i], lefts[i], j);
      var more := JoinOne(sem, schema, lefts[i], j);
      joined := joined + more;
    }
    assert lefts[..|lefts|] == lefts;
  }

  method JoinOne(sem: Sem, schema: Schema, left: Row, j: Join) returns (out: seq<Row>)
    requires |left| + |j.table.columns| == Width(schema) && IsTable(j.rows, j.table)
    ensures out == JoinedRow(sem, schema, left, j)
  {
    hide Eval, Width, Partners;
    WidthOne(j.table);
    out := [];
    var matched := false;
    NoPartners(sem, schema, left, j.on);
    for k := 0 to |j.rows|
      invariant out == Partners(sem, schema, left, j.rows[..k], j.on) && (matched <==> out != [])
    {
      assert j.rows[..k + 1] == j.rows[..k] + [j.rows[k]];
      PartnersAppend(sem, schema, left, j.rows[..k], j.rows[k], j.on);
      var combined := left + j.rows[k];
      if IsTrue(sem, schema, combined, j.on) {
        out := out + [combined];
        matched := true;
      }
    }
    assert j.rows[..|j.rows|] == j.rows;
    if !matched && j.kind == Left {
      out := out + [left + Nulls(|j.table.columns|)];
    }
  }

  lemma NoPartners(sem: Sem, schema: Schema, left: Row, on: Expr)
    ensures Partners(sem, schema, left, [], on) == []
  {
  }

  lemma {:induction false} KeptAppend(sem: Sem, schema: Schema, rows: seq<Row>, row: Row, e: Expr)
    requires RowsFit(rows, schema) && |row| == Width(schema)
    ensures RowsFit(rows + [row], schema)
    ensures Kept(sem, schema, rows + [row], e) == Kept(sem, schema, rows, e) + if IsTrue(sem, schema, row, e) then [row] else []
  {
    hide Eval;
    if rows == [] {
      assert [row][1..] == [];
    } else {
      KeptAppend(sem, schema, rows[1..], row, e);
      assert (rows + [row])[1..] == rows[1..] + [row];
    }
  }

  method FilterRows(sem: Sem, schema: Schema, rows: seq<Row>, cond: Option<Expr>) returns (kept: seq<Row>)
    requires RowsFit(rows, schema)
    ensures kept == Filtered(sem, schema, rows, cond)
  {
    hide Eval;
    if cond.None? {
      return rows;
    }
    kept := [];
    for i := 0 to |rows|
      invariant kept == Kept(sem, schema, rows[..i], cond.value)
    {
      assert rows[..i + 1] == rows[..i] + [rows[i]];
      KeptAppend(sem, schema, rows[..i], rows[i], cond.value);
      if IsTrue(sem, schema, rows[i], cond.value) {
        kept := kept + [rows[i]];
      }
    }
    assert rows[..|rows|] == rows;
  }

  /** One more join of the chain, as it is run. */
  lemma ChainStep(sem: Sem, from: Table, rows: seq<Row>, joins: seq<Join>, i: nat, conjs: seq<Expr>)
    requires i < |joins| && AreTables(joins) && IsTable(rows, from)
    ensures AreTables(joins[..i]) && AreTables(joins[..i + 1]) && IsTable(joins[i].rows, joins[i].table)
    ensures var schema := SchemaOf(from, joins[..i]) + [joins[i].table];
      var lefts := JoinAll(sem, from, rows, PushedAll(sem, joins[..i], conjs));
      && SchemaOf(from, joins[..i + 1]) == schema
      && (forall k :: 0 <= k < |lefts| ==> |lefts[k]| + |joins[i].table.columns| == Width(schema))
      && JoinAll(sem, from, rows, PushedAll(sem, joins[..i + 1], conjs)) == JoinedRows(sem, schema, lefts, Pushed(sem, joins[i], conjs))
  {
    hide Eval, Width, JoinedRows, Prefiltered;
    var front, more, j := joins[..i], joins[..i + 1], joins[i];
    assert more[..i] == front && more[|more| - 1] == j;
    assert IsTable(j.rows, j.table);
    var before, after := PushedAll(sem, front, conjs), PushedAll(sem, more, conjs);
    assert after == before + [Pushed(sem, j, conjs)] && after[..i] == before;
    SchemaOfPushed(sem, from, front, conjs);
    SchemaOfPushed(sem, from, more, conjs);
    WidthConcat(SchemaOf(from, front), [j.table]);
    WidthOne(j.table);
  }

  /** The joins, left to right, each right side filtered if its join is INNER and there is something to push. */
  method JoinPushed(sem: Sem, from: Table, rows: seq<Row>, joins: seq<Join>, conjs: seq<Expr>) returns (out: seq<Row>, schema: Schema)
    requires IsTable(rows, from) && AreTables(joins)
    ensures schema == SchemaOf(from, joins) && RowsFit(out, schema)
    ensures out == JoinAll(sem, from, rows, PushedAll(sem, joins, conjs))
  {
    hide Eval, Width, JoinedRows, Prefiltered, JoinAll, SchemaOf, PushedAll;
    schema, out := [from], rows;
    ChainStart(sem, from, rows, joins, conjs);
    for i := 0 to |joins|
      invariant AreTables(joins[..i]) && schema == SchemaOf(from, joins[..i])
      invariant out == JoinAll(sem, from, rows, PushedAll(sem, joins[..i], conjs))
    {
      ChainStep(sem, from, rows, joins, i, conjs);
      var j := joins[i];
      if j.kind == Inner {
        var kept := Prefilter(sem, j.table, j.rows, conjs);
        j := j.(rows := kept);
      }
      schema := schema + [j.table];
      out := NestedLoop(sem, schema, out, j);
    }
    assert joins[..|joins|] == joins;
    SchemaOfPushed(sem, from, joins, conjs);
  }

  lemma ChainStart(sem: Sem, from: Table, rows: seq<Row>, joins: seq<Join>, conjs: seq<Expr>)
    requires IsTable(rows, from)
    ensures AreTables(joins[..0]) && SchemaOf(from, joins[..0]) == [from]
    ensures JoinAll(sem, from, rows, PushedAll(sem, joins[..0], conjs)) == rows
  {
  }

  /** Nothing to push: the join is the plain one. */
  lemma {:induction false} NothingPushed(sem: Sem, t: Table, rows: seq<Row>)
    requires IsTable(rows, t)
    ensures Prefiltered(sem, t, rows, []) == rows
  {
    if rows != [] {
      NothingPushed(sem, t, rows[1..]);
    }
  }

  lemma {:induction false} NothingPushedAll(sem: Sem, joins: seq<Join>)
    requires AreTables(joins)
    ensures PushedAll(sem, joins, []) == joins
  {
    hide Prefiltered;
    if joins != [] {
      var last := joins[|joins| - 1];
      assert IsTable(last.rows, last.table);
      NothingPushedAll(sem, joins[..|joins| - 1]);
      NothingPushed(sem, last.table, last.rows);
    }
  }

  /**
    The FROM, JOIN and WHERE part of `run_select`: pre-filter, join, and apply the whole
    WHERE again.  The rows are those of joining everything and filtering at the end.
  */
  method RunFromWhere(sem: Sem, from: Table, scanned: seq<Row>, joins: seq<Join>, cond: Option<Expr>) returns (rows: seq<Row>)
    requires IsTable(scanned, from) && AreTables(joins) && DistinctQualifiers(SchemaOf(from, joins))
    ensures rows == Plain(sem, from, scanned, joins, cond)
  {
    hide Eval, Width, JoinAll, Kept, SchemaOf, DistinctQualifiers, PushedAll, Prefiltered, SplitAnd;
    var conjs: seq<Expr> := [];
    if joins != [] && cond.Some? {
      conjs := SplitAnd(cond.value);
    }
    rows := scanned;
    if conjs != [] {
      rows := Prefilter(sem, from, rows, conjs);
    }
    var schema: Schema;
    rows, schema := JoinPushed(sem, from, rows, joins, conjs);
    rows := FilterRows(sem, schema, rows, cond);
    if conjs == [] {
      NothingPushedAll(sem, joins);
    } else {
      SchemaOfPushed(sem, from, joins, conjs);
      PushdownPreservesMeaning(sem, from, scanned, joins, cond.value);
    }
  }
}
