/**
  What a query's FROM, JOIN and WHERE mean, row by row: which rows a join gives, where each
  comes from, and in which order (`run_select` of `src/exec.rs`).
*/
module JoinMeaning {
  import opened Options
  import opened Expressions
  import opened Pushdown
  import opened Selections
  import K = Keys

  // ------------------------------------------------------------------ filters

  ghost function TruthOf(sem: Sem, schema: Schema, rows: seq<Row>, e: Expr): (yes: seq<bool>)
    requires RowsFit(rows, schema)
    ensures |yes| == |rows| && forall k :: 0 <= k < |rows| ==> (yes[k] <==> IsTrue(sem, schema, rows[k], e))
  {
    seq(|rows|, k requires 0 <= k < |rows| => IsTrue(sem, schema, rows[k], e))
  }

  lemma {:induction false} KeptIsSifted(sem: Sem, schema: Schema, rows: seq<Row>, e: Expr)
    requires RowsFit(rows, schema)
    ensures Kept(sem, schema, rows, e) == Sifted(rows, TruthOf(sem, schema, rows, e))
  {
    hide Eval;
    if rows != [] {
      KeptIsSifted(sem, schema, rows[1..], e);
      assert TruthOf(sem, schema, rows, e)[1..] == TruthOf(sem, schema, rows[1..], e);
    }
  }

  /** A filter gives the rows on which the condition is true, and no others, in the order they had. */
  lemma KeptPlaces(sem: Sem, schema: Schema, rows: seq<Row>, e: Expr) returns (ks: seq<nat>)
    requires RowsFit(rows, schema)
    ensures Places(ks, |rows|) && forall k: nat :: k in ks <==> k < |rows| && IsTrue(sem, schema, rows[k], e)
    ensures |Kept(sem, schema, rows, e)| == |ks|
    ensures forall i :: 0 <= i < |ks| ==> Kept(sem, schema, rows, e)[i] == rows[ks[i]]
  {
    hide Eval, Kept, Sifted;
    var yes := TruthOf(sem, schema, rows, e);
    KeptIsSifted(sem, schema, rows, e);
    ks := SiftedPicks(rows, yes);
    assert forall k: nat :: k in ks <==> k < |yes| && yes[k];
  }

  /** A row passes when every conjunct about its table alone is true of it. */
  ghost predicate PassesEach(sem: Sem, t: Table, row: Row, conjs: seq<Expr>)
    requires |row| == Width([t])
  {
    forall c :: c in conjs && ConjunctQualifier(c) == Some(t.qualifier) ==> IsTrue(sem, [t], row, c)
  }

  ghost function PassingOf(sem: Sem, t: Table, rows: seq<Row>, conjs: seq<Expr>): (yes: seq<bool>)
    requires IsTable(rows, t)
    ensures |yes| == |rows| && forall k :: 0 <= k < |rows| ==> (yes[k] <==> PassesEach(sem, t, rows[k], conjs))
  {
    seq(|rows|, k requires 0 <= k < |rows| => PassesEach(sem, t, rows[k], conjs))
  }

  lemma {:induction false} PrefilteredIsSifted(sem: Sem, t: Table, rows: seq<Row>, conjs: seq<Expr>)
    requires IsTable(rows, t)
    ensures Prefiltered(sem, t, rows, conjs) == Sifted(rows, PassingOf(sem, t, rows, conjs))
  {
    hide Eval, Passes, PassesEach;
    if rows != [] {
      PassesMeans(sem, t, rows[0], conjs);
      PrefilteredIsSifted(sem, t, rows[1..], conjs);
      assert PassingOf(sem, t, rows, conjs)[1..] == PassingOf(sem, t, rows[1..], conjs);
    }
  }

  lemma PassesMeans(sem: Sem, t: Table, row: Row, conjs: seq<Expr>)
    requires |row| == Width([t])
    ensures Passes(sem, t, row, conjs) <==> PassesEach(sem, t, row, conjs)
  {
    hide Eval, ConjunctQualifier;
    assert forall k :: 0 <= k < |conjs| ==> conjs[k] in conjs;
  }

  /** Pre-filtering keeps, in order, exactly the rows on which every conjunct about this table alone is true. */
  lemma PrefilteredPlaces(sem: Sem, t: Table, rows: seq<Row>, conjs: seq<Expr>) returns (ks: seq<nat>)
    requires IsTable(rows, t)
    ensures Places(ks, |rows|) && forall k: nat :: k in ks <==> k < |rows| && PassesEach(sem, t, rows[k], conjs)
    ensures |Prefiltered(sem, t, rows, conjs)| == |ks|
    ensures forall i :: 0 <= i < |ks| ==> Prefiltered(sem, t, rows, conjs)[i] == rows[ks[i]]
  {
    hide PassesEach, Prefiltered, Sifted;
    var yes := PassingOf(sem, t, rows, conjs);
    PrefilteredIsSifted(sem, t, rows, conjs);
    ks := SiftedPicks(rows, yes);
    assert forall k: nat :: k in ks <==> k < |yes| && yes[k];
  }

  // ------------------------------------------------------------------ one join

  /** The left row with each of the right rows. */
  ghost function Pairs(left: Row, rights: seq<Row>): (r: seq<Row>)
    ensures |r| == |rights| && forall k :: 0 <= k < |rights| ==> r[k] == left + rights[k]
  {
    seq(|rights|, k requires 0 <= k < |rights| => left + rights[k])
  }

  /** Joining a left row is filtering its pairs. */
  lemma {:induction false} PartnersAreKept(sem: Sem, schema: Schema, left: Row, rights: seq<Row>, on: Expr)
    requires forall i :: 0 <= i < |rights| ==> |left + rights[i]| == Width(schema)
    ensures Partners(sem, schema, left, rights, on) == Kept(sem, schema, Pairs(left, rights), on)
  {
    hide Eval, Width;
    if rights != [] {
      PartnersUnfold(sem, schema, left, rights, on);
      PartnersAreKept(sem, schema, left, rights[1..], on);
      assert Pairs(left, rights)[1..] == Pairs(left, rights[1..]);
    }
  }

  /** The left row followed by a NULL for every column of the table on the right. */
  ghost predicate NullExtended(x: Row, left: Row, t: Table) {
    && |x| == |left| + |t.columns|
    && (forall i :: 0 <= i < |left| ==> x[i] == left[i])
    && (forall i :: |left| <= i < |x| ==> x[i] == K.Null)
  }

  lemma NullExtendedIs(left: Row, t: Table, x: Row)
    ensures NullExtended(x, left, t) <==> x == left + Nulls(|t.columns|)
  {
    if NullExtended(x, left, t) {
      assert x[..|left|] == left && x[|left|..] == Nulls(|t.columns|);
    }
  }

  /**
    A left row gives one row for each right row on which the ON is true, in their order; if
    there is none, an INNER join gives nothing and a LEFT join the row with NULLs.
  */
  lemma JoinedRowPlaces(sem: Sem, schema: Schema, left: Row, j: Join) returns (ks: seq<nat>)
    requires |left| + |j.table.columns| == Width(schema) && IsTable(j.rows, j.table)
    ensures Width([j.table]) == |j.table.columns|
    ensures Places(ks, |j.rows|) && forall k: nat :: k in ks <==> k < |j.rows| && IsTrue(sem, schema, left + j.rows[k], j.on)
    ensures var r := JoinedRow(sem, schema, left, j);
      if ks == [] && j.kind == Left then |r| == 1 && NullExtended(r[0], left, j.table)
      else |r| == |ks| && forall i :: 0 <= i < |ks| ==> r[i] == left + j.rows[ks[i]]
  {
    hide Eval, Width, Partners, Kept;
    WidthOne(j.table);
    PartnersAreKept(sem, schema, left, j.rows, j.on);
    var pairs := Pairs(left, j.rows);
    ks := KeptPlaces(sem, schema, pairs, j.on);
    assert forall k: nat :: k < |pairs| ==> pairs[k] == left + j.rows[k];
    NullExtendedIs(left, j.table, left + Nulls(|j.table.columns|));
  }

  /** The right row joins the left one. */
  predicate Joins(sem: Sem, schema: Schema, left: Row, right: Row, on: Expr)
    requires |left| + |right| == Width(schema)
  {
    IsTrue(sem, schema, left + right, on)
  }

  /** A row is among those a left row gives: it is made with a partner, or of NULLs for want of one. */
  ghost predicate Joined(sem: Sem, schema: Schema, left: Row, j: Join, x: Row)
    requires |left| + |j.table.columns| == Width(schema) && IsTable(j.rows, j.table)
  {
    WidthOne(j.table);
    || (exists k :: 0 <= k < |j.rows| && Joins(sem, schema, left, j.rows[k], j.on) && x == left + j.rows[k])
    || (&& j.kind == Left && NullExtended(x, left, j.table)
        && forall k :: 0 <= k < |j.rows| ==> !Joins(sem, schema, left, j.rows[k], j.on))
  }

  lemma JoinedRowMeans(sem: Sem, schema: Schema, left: Row, j: Join, x: Row)
    requires |left| + |j.table.columns| == Width(schema) && IsTable(j.rows, j.table)
    ensures x in JoinedRow(sem, schema, left, j) <==> Joined(sem, schema, left, j, x)
  {
    hide Eval, Width, JoinedRow;
    WidthOne(j.table);
    var ks := JoinedRowPlaces(sem, schema, left, j);
    var r := JoinedRow(sem, schema, left, j);
    assert forall k: nat :: k in ks <==> k < |j.rows| && Joins(sem, schema, left, j.rows[k], j.on);
    NullExtendedIs(left, j.table, x);
    if ks == [] && j.kind == Left {
      NullExtendedIs(left, j.table, r[0]);
    } else {
      assert ks != [] ==> ks[0] in ks;
      if x in r {
        var i :| 0 <= i < |r| && r[i] == x;
        assert ks[i] in ks;
      }
      if k :| 0 <= k < |j.rows| && Joins(sem, schema, left, j.rows[k], j.on) && x == left + j.rows[k] {
        var i :| 0 <= i < |ks| && ks[i] == k;
        assert r[i] == x;
      }
    }
  }

  /** The rows of a join are those of its left rows, one left row after the other. */
  lemma {:induction false} JoinedRowsMeans(sem: Sem, schema: Schema, lefts: seq<Row>, j: Join) returns (parts: seq<seq<Row>>)
    requires IsTable(j.rows, j.table) && forall i :: 0 <= i < |lefts| ==> |lefts[i]| + |j.table.columns| == Width(schema)
    ensures |parts| == |lefts| && JoinedRows(sem, schema, lefts, j) == Concat(parts)
    ensures forall i, x :: 0 <= i < |lefts| ==> (x in parts[i] <==> Joined(sem, schema, lefts[i], j, x))
    ensures forall i :: 0 <= i < |lefts| ==> parts[i] == JoinedRow(sem, schema, lefts[i], j)
    decreases |lefts|
  {
    hide JoinedRow, Width, Joined;
    if lefts == [] {
      parts := [];
    } else {
      JoinedUnfold(sem, schema, lefts, j);
      var rest := JoinedRowsMeans(sem, schema, lefts[1..], j);
      var first := JoinedRow(sem, schema, lefts[0], j);
      parts := [first] + rest;
      assert parts[1..] == rest;
      forall i, x | 0 <= i < |lefts|
        ensures x in parts[i] <==> Joined(sem, schema, lefts[i], j, x)
      {
        if i == 0 {
          JoinedRowMeans(sem, schema, lefts[0], j, x);
        } else {
          assert lefts[1..][i - 1] == lefts[i];
        }
      }
    }
  }

  function Concat(parts: seq<seq<Row>>): (r: seq<Row>) {
    if parts == [] then [] else parts[0] + Concat(parts[1..])
  }

  lemma {:induction false} InConcat(parts: seq<seq<Row>>, x: Row)
    ensures x in Concat(parts) <==> exists i :: 0 <= i < |parts| && x in parts[i]
  {
    if parts != [] {
      InConcat(parts[1..], x);
      assert forall i :: 1 <= i < |parts| ==> parts[i] == parts[1..][i - 1];
      if x in Concat(parts[1..]) {
        var i :| 0 <= i < |parts[1..]| && x in parts[1..][i];
        assert x in parts[i + 1];
      }
    }
  }

  // ---------------------------------------------------------------- the chain

  /** The FROM's table and the joined ones, left to right. */
  lemma {:induction false} SchemaMeans(from: Table, joins: seq<Join>)
    ensures |SchemaOf(from, joins)| == |joins| + 1 && SchemaOf(from, joins)[0] == from
    ensures forall i :: 0 <= i < |joins| ==> SchemaOf(from, joins)[i + 1] == joins[i].table
  {
    if joins != [] {
      SchemaMeans(from, joins[..|joins| - 1]);
    }
  }

  /** With one join more, each row of the chain so far gives its rows, one after the other. */
  lemma ChainInOrder(sem: Sem, from: Table, rows: seq<Row>, joins: seq<Join>, j: Join) returns (parts: seq<seq<Row>>)
    requires IsTable(rows, from) && AreTables(joins + [j])
    ensures AreTables(joins) && IsTable(j.rows, j.table) && JoinAll(sem, from, rows, []) == rows
    ensures |parts| == |JoinAll(sem, from, rows, joins)| && JoinAll(sem, from, rows, joins + [j]) == Concat(parts)
    ensures forall i :: 0 <= i < |parts| ==>
      && |JoinAll(sem, from, rows, joins)[i]| + |j.table.columns| == Width(SchemaOf(from, joins + [j]))
      && parts[i] == JoinedRow(sem, SchemaOf(from, joins + [j]), JoinAll(sem, from, rows, joins)[i], j)
  {
    hide Width, JoinedRows, Joined, JoinedRow;
    var all := joins + [j];
    assert forall i :: 0 <= i < |joins| ==> all[i] == joins[i];
    assert all[..|joins|] == joins && all[|joins|] == j;
    WidthConcat(SchemaOf(from, joins), [j.table]);
    WidthOne(j.table);
    parts := JoinedRowsMeans(sem, SchemaOf(from, all), JoinAll(sem, from, rows, joins), j);
  }

  /** A row comes out of the chain: a row of FROM, joined step by step. */
  ghost predicate Arises(sem: Sem, from: Table, rows: seq<Row>, joins: seq<Join>, x: Row)
    requires IsTable(rows, from) && AreTables(joins)
    decreases |joins|
  {
    if joins == [] then x in rows
    else
      var front, last := joins[..|joins| - 1], joins[|joins| - 1];
      var schema := SchemaOf(from, joins);
      assert IsTable(last.rows, last.table);
      exists left ::
        && Arises(sem, from, rows, front, left) && |left| + |last.table.columns| == Width(schema)
        && Joined(sem, schema, left, last, x)
  }

  lemma {:induction false} JoinAllMeans(sem: Sem, from: Table, rows: seq<Row>, joins: seq<Join>, x: Row)
    requires IsTable(rows, from) && AreTables(joins)
    ensures x in JoinAll(sem, from, rows, joins) <==> Arises(sem, from, rows, joins, x)
    decreases |joins|
  {
    hide Width, JoinedRows, Joined, JoinedRow;
    if joins != [] {
      var front, last, schema := joins[..|joins| - 1], joins[|joins| - 1], SchemaOf(from, joins);
      assert IsTable(last.rows, last.table);
      WidthConcat(SchemaOf(from, front), [last.table]);
      WidthOne(last.table);
      var lefts := JoinAll(sem, from, rows, front);
      assert JoinAll(sem, from, rows, joins) == JoinedRows(sem, schema, lefts, last);
      var parts := JoinedRowsMeans(sem, schema, lefts, last);
      InConcat(parts, x);
      forall left
        ensures left in lefts <==> Arises(sem, from, rows, front, left)
      {
        JoinAllMeans(sem, from, rows, front, left);
      }
      if x in Concat(parts) {
        var i :| 0 <= i < |parts| && x in parts[i];
        assert Joined(sem, schema, lefts[i], last, x) && lefts[i] in lefts;
      }
      if Arises(sem, from, rows, joins, x) {
        var left :| Arises(sem, from, rows, front, left) && |left| + |last.table.columns| == Width(schema)
          && Joined(sem, schema, left, last, x);
        var i :| 0 <= i < |lefts| && lefts[i] == left;
        assert x in parts[i];
      }
    }
  }

  /** What a query gives: exactly the rows that arise in the chain and on which the WHERE, if any, is true. */
  lemma QueryMeans(sem: Sem, from: Table, rows: seq<Row>, joins: seq<Join>, cond: Option<Expr>, x: Row)
    requires IsTable(rows, from) && AreTables(joins)
    ensures x in Plain(sem, from, rows, joins, cond) <==>
      && Arises(sem, from, rows, joins, x)
      && (cond.Some? ==> |x| == Width(SchemaOf(from, joins)) && IsTrue(sem, SchemaOf(from, joins), x, cond.value))
  {
    hide Width, Eval, JoinAll, Arises, SchemaOf, Kept;
    JoinAllMeans(sem, from, rows, joins, x);
    var schema, all := SchemaOf(from, joins), JoinAll(sem, from, rows, joins);
    if cond.Some? {
      var ks := KeptPlaces(sem, schema, all, cond.value);
      var kept := Kept(sem, schema, all, cond.value);
      if x in kept {
        var i :| 0 <= i < |kept| && kept[i] == x;
        assert ks[i] in ks && all[ks[i]] == x;
      }
      if x in all {
        var k :| 0 <= k < |all| && all[k] == x;
        if |x| == Width(schema) && IsTrue(sem, schema, x, cond.value) {
          var i :| 0 <= i < |ks| && ks[i] == k;
          assert kept[i] == x;
        }
      }
    }
  }
}
