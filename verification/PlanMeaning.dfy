/** When a WHERE has an access path, and which (`src/exec.rs`): what the planner looks for, and that it finds it. */
module PlanMeaning {
  import opened Options
  import opened Expressions
  import opened AccessPaths
  import T = TableRows

  /** The expression is the table's column of that number, with its qualifier or without. */
  ghost predicate IsColumn(info: Info, e: Expr, c: nat) {
    c < |info.names.columns| && e in {Column(None, info.names.columns[c]), Column(Some(info.names.qualifier), info.names.columns[c])}
  }

  lemma ColumnPosMeans(info: Info, e: Expr, c: nat)
    requires ValidInfo(info)
    ensures ColumnPos(info, e) == Some(c) <==> IsColumn(info, e, c)
  {
    if IsColumn(info, e, c) {
      var names := info.names.columns;
      forall i | 0 <= i < c
        ensures names[i] != names[c]
      {
      }
      FirstIndex(names, c);
    }
  }

  /** Nothing in the expression depends on a row. */
  ghost predicate NoColumns(e: Expr) {
    forall x :: x in Leaves(e) ==> !x.Column? && !x.Other?
  }

  lemma {:induction false} ConstMeans(e: Expr)
    ensures IsConst(e) <==> NoColumns(e)
    decreases e
  {
    match e
    case And(l, r) => ConstMeans(l); ConstMeans(r);
    case Or(l, r) => ConstMeans(l); ConstMeans(r);
    case Compare(_, l, r) => ConstMeans(l); ConstMeans(r);
    case Node(_, args) =>
      forall i | 0 <= i < |args|
        ensures IsConst(args[i]) <==> NoColumns(args[i])
      {
        ConstMeans(args[i]);
      }
      NodeLeaves(e);
    case _ => LeafOnly(e, "");
  }

  lemma NodeLeaves(e: Expr)
    requires e.Node?
    ensures NoColumns(e) <==> forall i :: 0 <= i < |e.args| ==> NoColumns(e.args[i])
  {
    assert forall x :: x in Leaves(e) <==> exists i :: 0 <= i < |e.args| && x in Leaves(e.args[i]);
  }

  /** The condition compares a column with a constant, the column on either side; `op` is as if on the left. */
  ghost predicate Sets(info: Info, cond: Expr, op: CmpOp, c: nat, e: Expr) {
    exists x :: IsColumn(info, x, c) && NoColumns(e) && (cond == Compare(op, x, e) || cond == Compare(Turned(op), e, x))
  }

  /** The operator that says the same with its sides exchanged. */
  ghost function Turned(op: CmpOp): (r: CmpOp)
    ensures forall sign :: Holds(r, sign) <==> Holds(op, -sign)
  {
    match op
    case Eq => Eq
    case Ne => Ne
    case Lt => Gt
    case Le => Ge
    case Gt => Lt
    case Ge => Le
  }

  lemma ColumnIsNoConst(info: Info, x: Expr, c: nat)
    requires ValidInfo(info) && IsColumn(info, x, c)
    ensures !IsConst(x) && ColumnPos(info, x) == Some(c)
  {
    ColumnPosMeans(info, x, c);
  }

  lemma SetsIs(info: Info, cond: Expr, op: CmpOp, c: nat, e: Expr)
    requires ValidInfo(info)
    ensures Sets(info, cond, op, c, e) <==>
      cond.Compare? && IsConst(e)
        && ((cond.op == op && cond.right == e && ColumnPos(info, cond.left) == Some(c))
            || (cond.op == Turned(op) && cond.left == e && ColumnPos(info, cond.right) == Some(c)))
  {
    ConstMeans(e);
    if cond.Compare? {
      ColumnPosMeans(info, cond.left, c);
      ColumnPosMeans(info, cond.right, c);
    }
  }

  /** A key is looked up exactly when the whole WHERE sets the rowid column equal to a constant, that one. */
  lemma PointPlanMeans(info: Info, cond: Expr, e: Expr)
    requires ValidInfo(info)
    ensures PointLookupKey(info, cond) == Some(e) <==> info.alias.Some? && Sets(info, cond, Eq, info.alias.value, e)
  {
    hide IsConst, ColumnPos, Sets;
    if info.alias.Some? {
      SetsIs(info, cond, Eq, info.alias.value, e);
      if cond.Compare? {
        OneSide(info, cond, info.alias.value);
      }
    }
  }

  lemma OneSide(info: Info, cond: Expr, c: nat)
    requires ValidInfo(info) && cond.Compare?
    ensures ColumnPos(info, cond.left) == Some(c) ==> !IsConst(cond.left)
    ensures ColumnPos(info, cond.right) == Some(c) ==> !IsConst(cond.right)
  {
  }

  /** The equalities collected are all the conjuncts that set a column equal to a constant. */
  lemma {:induction false} CollectedMeans(info: Info, cond: Expr, c: nat, e: Expr)
    requires ValidInfo(info)
    ensures (c, e) in CollectEqualities(info, cond) <==> exists q :: q in SplitAnd(cond) && Sets(info, q, Eq, c, e)
    decreases cond
  {
    hide IsConst, ColumnPos, Sets;
    if cond.And? {
      CollectedMeans(info, cond.left, c, e);
      CollectedMeans(info, cond.right, c, e);
      assert forall q :: q in SplitAnd(cond) <==> q in SplitAnd(cond.left) || q in SplitAnd(cond.right);
    } else {
      assert SplitAnd(cond) == [cond];
      SetsIs(info, cond, Eq, c, e);
      assert cond in SplitAnd(cond);
      if cond.Compare? {
        BothSides(info, cond);
      }
    }
  }

  lemma BothSides(info: Info, cond: Expr)
    requires ValidInfo(info) && cond.Compare?
    ensures ColumnPos(info, cond.left).Some? ==> !IsConst(cond.left)
    ensures ColumnPos(info, cond.right).Some? ==> !IsConst(cond.right)
  {
  }

  /** The index is the first with that column alone. */
  ghost predicate IsFirstOn(indexes: seq<T.IndexDef>, c: nat, i: nat) {
    i < |indexes| && indexes[i].columns == [c] && forall k :: 0 <= k < i ==> indexes[k].columns != [c]
  }

  lemma {:induction false} FindSingleMeans(indexes: seq<T.IndexDef>, c: nat, i: nat)
    ensures FindSingle(indexes, c) == Some(i) <==> IsFirstOn(indexes, c, i)
  {
    if indexes != [] && indexes[0].columns != [c] {
      if i > 0 {
        FindSingleMeans(indexes[1..], c, i - 1);
        assert forall k :: 0 <= k < |indexes| - 1 ==> indexes[1..][k] == indexes[k + 1];
        if IsFirstOn(indexes[1..], c, i - 1) {
          forall k | 0 <= k < i
            ensures indexes[k].columns != [c]
          {
            if k > 0 {
              assert indexes[1..][k - 1] == indexes[k];
            }
          }
        }
      }
    }
  }

  /**
    A range is scanned exactly when the whole WHERE compares a column other than the rowid
    column with a constant, in order, and there is an index on that column alone: the first.
  */
  lemma RangePlanMeans(info: Info, cond: Expr, i: nat, op: CmpOp, e: Expr)
    requires ValidInfo(info)
    ensures IndexRangePlan(info, cond) == Some(RangePlan(i, op, e)) <==>
      op in {Lt, Le, Gt, Ge} && exists c: nat :: Sets(info, cond, op, c, e) && info.alias != Some(c) && IsFirstOn(info.indexes, c, i)
  {
    hide IsConst, ColumnPos, Sets, IsFirstOn, FindSingle;
    if cond.Compare? {
      BothSides(info, cond);
      var straight, flipped := ColumnPos(info, cond.left), ColumnPos(info, cond.right);
      forall c: nat
        ensures Sets(info, cond, op, c, e) <==>
          IsConst(e) && ((cond.op == op && cond.right == e && straight == Some(c)) || (cond.op == Turned(op) && cond.left == e && flipped == Some(c)))
        ensures FindSingle(info.indexes, c) == Some(i) <==> IsFirstOn(info.indexes, c, i)
      {
        SetsIs(info, cond, op, c, e);
        FindSingleMeans(info.indexes, c, i);
      }
      if straight.Some? && IsConst(cond.right) {
        assert Sets(info, cond, op, straight.value, e) <==> cond.op == op && cond.right == e;
      } else if flipped.Some? && IsConst(cond.left) {
        assert Sets(info, cond, op, flipped.value, e) <==> cond.op == Turned(op) && cond.left == e;
      }
    } else {
      forall c: nat
        ensures !Sets(info, cond, op, c, e)
      {
        SetsIs(info, cond, op, c, e);
      }
    }
  }
}
