/**
  WHERE expressions of `src/exec.rs`, on inputs whose evaluation raises no error: AND, OR
  and comparisons in full, every other operator and function by its arguments' values.
*/
module Expressions {
  import opened Options
  import opened Bytes
  import K = Keys
  import KeyEnc

  type Value = K.Value
  type Row = seq<Value>

  datatype CmpOp = Eq | Ne | Lt | Le | Gt | Ge

  datatype Expr =
    | Literal(v: Value)
    | Param(n: nat)
    | Column(table: Option<string>, name: string)
    | And(left: Expr, right: Expr)
    | Or(left: Expr, right: Expr)
    | Compare(op: CmpOp, left: Expr, right: Expr)
    | Node(kind: nat, args: seq<Expr>)
    | Other(id: nat)

  datatype Table = Table(qualifier: string, columns: seq<string>)
  type Schema = seq<Table>

  /**
    The parts of evaluation that are parameters: `node` is any operator or function other
    than the ones above, `reals` compares where a REAL is involved, and `other` stands for
    subqueries, aggregates and MATCH, which may look at the whole row.
  */
  datatype Sem = Sem(
    params: seq<Value>, node: (nat, seq<Value>) -> Value, reals: (Value, Value) -> Option<int>,
    other: (nat, Schema, Row) -> Value)

  function Width(schema: Schema): (r: nat) {
    if schema == [] then 0 else |schema[0].columns| + Width(schema[1..])
  }

  /** The index of a name; |names| where there is none. */
  function IndexIn(names: seq<string>, name: string): (i: nat)
    ensures i <= |names| && (i < |names| ==> names[i] == name)
    ensures i == |names| ==> name !in names
  {
    if names == [] then 0 else if names[0] == name then 0 else 1 + IndexIn(names[1..], name)
  }

  /** The column's value: in the first table of that qualifier, or in the first that has it. */
  function Lookup(schema: Schema, row: Row, table: Option<string>, name: string): (r: Value)
    requires |row| == Width(schema)
    decreases |schema|
  {
    if schema == [] then K.Null
    else
      var t, w := schema[0], |schema[0].columns|;
      var i := IndexIn(t.columns, name);
      if table.Some? && table.value == t.qualifier then (if i < w then row[i] else K.Null)
      else if table.None? && i < w then row[i]
      else Lookup(schema[1..], row[w..], table, name)
  }

  // ------------------------------------------------------- three-valued logic

  /** Unknown is None. */
  function Truthy3(v: Value): (r: Option<bool>) {
    if v.Bool? then Some(v.b) else None
  }

  /** A condition: unknown counts as false. */
  predicate Truthy(v: Value) {
    Truthy3(v) == Some(true)
  }

  function And3(l: Value, r: Value): (v: Value) {
    if Truthy3(l) == Some(false) || Truthy3(r) == Some(false) then K.Bool(false)
    else if Truthy3(l) == Some(true) && Truthy3(r) == Some(true) then K.Bool(true)
    else K.Null
  }

  function Or3(l: Value, r: Value): (v: Value) {
    if Truthy3(l) == Some(true) || Truthy3(r) == Some(true) then K.Bool(true)
    else if Truthy3(l) == Some(false) && Truthy3(r) == Some(false) then K.Bool(false)
    else K.Null
  }

  function CompareBytes(a: ByteString, b: ByteString): (r: int) {
    if KeyEnc.Less(a, b) then -1 else if a == b then 0 else 1
  }

  /** `cmp_values`: the sign of the comparison, None if NULL is involved. */
  function CmpValues(sem: Sem, a: Value, b: Value): (r: Option<int>) {
    match (a, b)
    case (Null, _) => None
    case (_, Null) => None
    case (Integer(x), Integer(y)) => Some(if x < y then -1 else if x == y then 0 else 1)
    case (Text(x), Text(y)) => Some(CompareBytes(x, y))
    case (Blob(x), Blob(y)) => Some(CompareBytes(x, y))
    case (Bool(x), Bool(y)) => Some(if x == y then 0 else if y then -1 else 1)
    case _ => sem.reals(a, b)
  }

  predicate Holds(op: CmpOp, sign: int) {
    match op
    case Eq => sign == 0
    case Ne => sign != 0
    case Lt => sign < 0
    case Le => sign <= 0
    case Gt => sign > 0
    case Ge => sign >= 0
  }

  function Compared(sem: Sem, op: CmpOp, l: Value, r: Value): (v: Value) {
    var c := CmpValues(sem, l, r);
    if c.None? then K.Null else K.Bool(Holds(op, c.value))
  }

  function Eval(sem: Sem, schema: Schema, row: Row, e: Expr): (r: Value)
    requires |row| == Width(schema)
    decreases e
  {
    match e
    case Literal(v) => v
    case Param(n) => if 1 <= n <= |sem.params| then sem.params[n - 1] else K.Null
    case Column(table, name) => Lookup(schema, row, table, name)
    case And(l, r) => And3(Eval(sem, schema, row, l), Eval(sem, schema, row, r))
    case Or(l, r) => Or3(Eval(sem, schema, row, l), Eval(sem, schema, row, r))
    case Compare(op, l, r) => Compared(sem, op, Eval(sem, schema, row, l), Eval(sem, schema, row, r))
    case Node(kind, args) =>
      sem.node(kind, seq(|args|, i requires 0 <= i < |args| => Eval(sem, schema, row, args[i])))
    case Other(id) => sem.other(id, schema, row)
  }

  predicate IsTrue(sem: Sem, schema: Schema, row: Row, e: Expr)
    requires |row| == Width(schema)
  {
    Truthy(Eval(sem, schema, row, e))
  }

  // --------------------------------------------------------------- conjuncts

  /** `a AND b AND c` as its conjuncts, left to right. */
  function SplitAnd(e: Expr): (cs: seq<Expr>)
    ensures cs != []
  {
    match e
    case And(l, r) => SplitAnd(l) + SplitAnd(r)
    case _ => [e]
  }

  /** A conjunction holds exactly when every conjunct does, unknown included. */
  lemma {:induction false} ConjunctionHolds(sem: Sem, schema: Schema, row: Row, e: Expr)
    requires |row| == Width(schema)
    ensures IsTrue(sem, schema, row, e) <==> forall c :: c in SplitAnd(e) ==> IsTrue(sem, schema, row, c)
    decreases e
  {
    if e.And? {
      ConjunctionHolds(sem, schema, row, e.left);
      ConjunctionHolds(sem, schema, row, e.right);
      assert forall c :: c in SplitAnd(e) <==> c in SplitAnd(e.left) || c in SplitAnd(e.right);
    } else {
      assert SplitAnd(e) == [e];
    }
  }

  /** No part of e looks at anything but columns qualified by q. */
  predicate Only(e: Expr, q: string)
    decreases e
  {
    match e
    case Literal(_) => true
    case Param(_) => true
    case Column(table, _) => table == Some(q)
    case And(l, r) => Only(l, q) && Only(r, q)
    case Or(l, r) => Only(l, q) && Only(r, q)
    case Compare(_, l, r) => Only(l, q) && Only(r, q)
    case Node(_, args) => forall i :: 0 <= i < |args| ==> Only(args[i], q)
    case Other(_) => false
  }

  /** The qualifier of the first column, in reading order. */
  function FirstQualifier(e: Expr): (r: Option<string>)
    decreases e
  {
    match e
    case Column(table, _) => table
    case And(l, r) => if FirstQualifier(l).Some? then FirstQualifier(l) else FirstQualifier(r)
    case Or(l, r) => if FirstQualifier(l).Some? then FirstQualifier(l) else FirstQualifier(r)
    case Compare(_, l, r) => if FirstQualifier(l).Some? then FirstQualifier(l) else FirstQualifier(r)
    case Node(_, args) => FirstOfArgs(e, args, 0)
    case _ => None
  }

  function FirstOfArgs(ghost e: Expr, args: seq<Expr>, i: nat): (r: Option<string>)
    requires e.Node? && e.args == args && i <= |args|
    decreases e, |args| - i
  {
    if i == |args| then None
    else if FirstQualifier(args[i]).Some? then FirstQualifier(args[i])
    else FirstOfArgs(e, args, i + 1)
  }

  /** The one table a conjunct is about, if all its columns are qualified by it. */
  function ConjunctQualifier(e: Expr): (q: Option<string>)
    ensures q.Some? ==> Only(e, q.value)
  {
    var q := FirstQualifier(e);
    if q.Some? && Only(e, q.value) then q else None
  }

  // ------------------------------------------------- what expressions mean

  /** A condition holds when its value is TRUE, and then only. */
  lemma TrueMeans(sem: Sem, schema: Schema, row: Row, e: Expr)
    requires |row| == Width(schema)
    ensures IsTrue(sem, schema, row, e) <==> Eval(sem, schema, row, e) == K.Bool(true)
  {
  }

  /** OR is TRUE if a side is, FALSE if both are, and NULL otherwise; AND is its dual. */
  lemma LogicMeans(sem: Sem, schema: Schema, row: Row, l: Expr, r: Expr)
    requires |row| == Width(schema)
    ensures var a, b, v := Eval(sem, schema, row, l), Eval(sem, schema, row, r), Eval(sem, schema, row, Or(l, r));
      && (v == K.Bool(true) <==> a == K.Bool(true) || b == K.Bool(true))
      && (v == K.Bool(false) <==> a == K.Bool(false) && b == K.Bool(false))
      && (v == K.Null || v.Bool?)
    ensures var a, b, v := Eval(sem, schema, row, l), Eval(sem, schema, row, r), Eval(sem, schema, row, And(l, r));
      && (v == K.Bool(true) <==> a == K.Bool(true) && b == K.Bool(true))
      && (v == K.Bool(false) <==> a == K.Bool(false) || b == K.Bool(false))
      && (v == K.Null || v.Bool?)
  {
  }

  /** What an operator asks of two values: whether the left one is smaller, and whether they are the same. */
  ghost predicate Asks(op: CmpOp, smaller: bool, same: bool) {
    && (op.Eq? ==> same)
    && (op.Ne? ==> !same)
    && (op.Lt? ==> smaller)
    && (op.Le? ==> smaller || same)
    && (op.Gt? ==> !smaller && !same)
    && (op.Ge? ==> !smaller)
  }

  /** A comparison's value asks about an order of its two sides. */
  ghost predicate Answers(v: Value, op: CmpOp, smaller: bool, same: bool) {
    v.Bool? && (v.b <==> Asks(op, smaller, same))
  }

  lemma ComparedBytes(op: CmpOp, a: ByteString, b: ByteString)
    ensures Holds(op, CompareBytes(a, b)) <==> Asks(op, KeyEnc.DictionaryBefore(a, b), a == b)
  {
    hide KeyEnc.Less, KeyEnc.DictionaryBefore;
    KeyEnc.LessMeans(a, b);
    if a == b && KeyEnc.Less(a, b) {
      KeyEnc.LessAsymmetric(a, a);
    }
  }

  lemma AsksSign(op: CmpOp, sign: int)
    ensures Holds(op, sign) <==> Asks(op, sign < 0, sign == 0)
  {
  }

  /**
    A comparison is NULL where a side is NULL, and otherwise asks about the order of its
    values: integers by value, texts and blobs in dictionary order, FALSE before TRUE, and
    where a REAL is involved by the comparison of reals, NULL if that knows no answer.
  */
  lemma ComparisonMeans(sem: Sem, schema: Schema, row: Row, op: CmpOp, l: Expr, r: Expr)
    requires |row| == Width(schema)
    ensures var a, b, v := Eval(sem, schema, row, l), Eval(sem, schema, row, r), Eval(sem, schema, row, Compare(op, l, r));
      && (a == K.Null || b == K.Null ==> v == K.Null)
      && (a.Integer? && b.Integer? ==> Answers(v, op, a.n < b.n, a.n == b.n))
      && (a.Text? && b.Text? ==> Answers(v, op, KeyEnc.DictionaryBefore(a.text, b.text), a.text == b.text))
      && (a.Blob? && b.Blob? ==> Answers(v, op, KeyEnc.DictionaryBefore(a.blob, b.blob), a.blob == b.blob))
      && (a.Bool? && b.Bool? ==> Answers(v, op, !a.b && b.b, a.b == b.b))
      && ((a.Real? && b != K.Null) || (a != K.Null && b.Real?) ==>
            match sem.reals(a, b)
            case None => v == K.Null
            case Some(sign) => Answers(v, op, sign < 0, sign == 0))
  {
    var a, b := Eval(sem, schema, row, l), Eval(sem, schema, row, r);
    assert Eval(sem, schema, row, Compare(op, l, r)) == Compared(sem, op, a, b);
    ValuesCompare(sem, op, a, b);
  }

  lemma ValuesCompare(sem: Sem, op: CmpOp, a: Value, b: Value)
    ensures var v := Compared(sem, op, a, b);
      && (a == K.Null || b == K.Null ==> v == K.Null)
      && (a.Integer? && b.Integer? ==> Answers(v, op, a.n < b.n, a.n == b.n))
      && (a.Text? && b.Text? ==> Answers(v, op, KeyEnc.DictionaryBefore(a.text, b.text), a.text == b.text))
      && (a.Blob? && b.Blob? ==> Answers(v, op, KeyEnc.DictionaryBefore(a.blob, b.blob), a.blob == b.blob))
      && (a.Bool? && b.Bool? ==> Answers(v, op, !a.b && b.b, a.b == b.b))
      && ((a.Real? && b != K.Null) || (a != K.Null && b.Real?) ==>
            match sem.reals(a, b)
            case None => v == K.Null
            case Some(sign) => Answers(v, op, sign < 0, sign == 0))
  {
    hide KeyEnc.Less, KeyEnc.DictionaryBefore, Asks, Holds, CompareBytes;
    var c := CmpValues(sem, a, b);
    if c.Some? {
      AsksSign(op, c.value);
    }
    match (a, b)
    case (Text(x), Text(y)) => ComparedBytes(op, x, y);
    case (Blob(x), Blob(y)) => ComparedBytes(op, x, y);
    case _ =>
  }

  ghost predicate AreValues(sem: Sem, schema: Schema, row: Row, args: seq<Expr>, vs: seq<Value>)
    requires |row| == Width(schema)
  {
    |vs| == |args| && forall i :: 0 <= i < |vs| ==> vs[i] == Eval(sem, schema, row, args[i])
  }

  /** Literals are themselves, parameters count from 1, and other operators see their arguments' values in order. */
  lemma LeavesMean(sem: Sem, schema: Schema, row: Row, e: Expr)
    requires |row| == Width(schema)
    ensures e.Literal? ==> Eval(sem, schema, row, e) == e.v
    ensures forall ps: seq<Value>, p, qs: seq<Value> :: e.Param? && sem.params == ps + [p] + qs && e.n == |ps| + 1 ==>
      Eval(sem, schema, row, e) == p
    ensures forall vs :: e.Node? && AreValues(sem, schema, row, e.args, vs) ==> Eval(sem, schema, row, e) == sem.node(e.kind, vs)
  {
    hide Lookup;
    forall vs | e.Node? && AreValues(sem, schema, row, e.args, vs)
      ensures Eval(sem, schema, row, e) == sem.node(e.kind, vs)
    {
      assert vs == seq(|e.args|, i requires 0 <= i < |e.args| => Eval(sem, schema, row, e.args[i]));
    }
  }

  /** The tables before the i-th take no part in finding the column. */
  ghost predicate PassedOver(schema: Schema, i: nat, table: Option<string>, name: string)
    requires i <= |schema|
  {
    forall k :: 0 <= k < i ==>
      if table.Some? then schema[k].qualifier != table.value else name !in schema[k].columns
  }

  /**
    A qualified column is the one of that name in the first table of that qualifier, an
    unqualified one that of the first table that has the name; its place in the row is
    behind all columns of the tables before.
  */
  lemma ColumnMeans(sem: Sem, schema: Schema, row: Row, i: nat, c: nat, table: Option<string>)
    requires |row| == Width(schema) && i < |schema| && c < |schema[i].columns|
    requires PassedOver(schema, i, table, schema[i].columns[c]) && (table.Some? ==> table.value == schema[i].qualifier)
    requires schema[i].columns[c] !in schema[i].columns[..c]
    ensures Width(schema[..i]) + c < |row|
    ensures Eval(sem, schema, row, Column(table, schema[i].columns[c])) == row[Width(schema[..i]) + c]
  {
    hide Lookup, Width, PassedOver;
    LookupMeans(schema, row, i, c, table);
  }

  lemma {:induction false} LookupMeans(schema: Schema, row: Row, i: nat, c: nat, table: Option<string>)
    requires |row| == Width(schema) && i < |schema| && c < |schema[i].columns|
    requires PassedOver(schema, i, table, schema[i].columns[c]) && (table.Some? ==> table.value == schema[i].qualifier)
    requires schema[i].columns[c] !in schema[i].columns[..c]
    ensures Width(schema[..i]) + c < |row|
    ensures Lookup(schema, row, table, schema[i].columns[c]) == row[Width(schema[..i]) + c]
    decreases i
  {
    hide Lookup, Width, IndexIn;
    var name, w := schema[i].columns[c], |schema[0].columns|;
    WidthStep(schema, i);
    LookupStep(schema, row, table, name);
    if i == 0 {
      FirstIndex(schema[0].columns, c);
    } else {
      var rest := schema[1..];
      assert forall k :: 0 <= k < i - 1 ==> rest[k] == schema[k + 1];
      LookupMeans(rest, row[w..], i - 1, c, table);
    }
  }

  lemma WidthStep(schema: Schema, i: nat)
    requires i < |schema|
    ensures Width(schema) == |schema[0].columns| + Width(schema[1..])
    ensures i == 0 ==> Width(schema[..i]) == 0
    ensures i > 0 ==> Width(schema[..i]) == |schema[0].columns| + Width(schema[1..][..i - 1])
  {
    if i > 0 {
      assert schema[..i][1..] == schema[1..][..i - 1];
    }
  }

  lemma LookupStep(schema: Schema, row: Row, table: Option<string>, name: string)
    requires |row| == Width(schema) && schema != []
    ensures var t, w := schema[0], |schema[0].columns|;
      var i := IndexIn(t.columns, name);
      && |row| == w + Width(schema[1..])
      && (i < w && (table.None? || table.value == t.qualifier) ==> Lookup(schema, row, table, name) == row[i])
      && ((if table.Some? then table.value != t.qualifier else name !in t.columns) ==>
            Lookup(schema, row, table, name) == Lookup(schema[1..], row[w..], table, name))
  {
  }

  lemma {:induction false} FirstIndex(names: seq<string>, c: nat)
    requires c < |names| && names[c] !in names[..c]
    ensures IndexIn(names, names[c]) == c
  {
    if c > 0 {
      assert names[0] == names[..c][0] && names[1..][..c - 1] == names[..c][1..];
      FirstIndex(names[1..], c - 1);
    }
  }

  // ------------------------------------------------- what a conjunct is about

  /** The conjuncts are those of the whole AND tree: none of them is an AND itself. */
  lemma {:induction false} SplitIsWhole(e: Expr)
    ensures forall c :: c in SplitAnd(e) ==> !c.And?
    decreases e
  {
    if e.And? {
      SplitIsWhole(e.left);
      SplitIsWhole(e.right);
    }
  }

  /** The parts of an expression that have no parts. */
  ghost function Leaves(e: Expr): (r: set<Expr>)
    decreases e
  {
    match e
    case And(l, r) => Leaves(l) + Leaves(r)
    case Or(l, r) => Leaves(l) + Leaves(r)
    case Compare(_, l, r) => Leaves(l) + Leaves(r)
    case Node(_, args) => set i, x | 0 <= i < |args| && x in Leaves(args[i]) :: x
    case _ => {e}
  }

  ghost predicate LeafOf(e: Expr, q: string) {
    (e.Column? ==> e.table == Some(q)) && !e.Other?
  }

  predicate IsLeaf(e: Expr) {
    e.Literal? || e.Param? || e.Column? || e.Other?
  }

  lemma LeafOnly(e: Expr, q: string)
    requires IsLeaf(e)
    ensures forall x :: x in Leaves(e) <==> x == e
    ensures Only(e, q) <==> LeafOf(e, q)
  {
    assert Leaves(e) == {e};
  }

  lemma {:induction false} OnlyMeans(e: Expr, q: string)
    ensures Only(e, q) <==> forall x :: x in Leaves(e) ==> LeafOf(x, q)
    decreases e
  {
    match e
    case And(l, r) => OnlyMeans(l, q); OnlyMeans(r, q);
    case Or(l, r) => OnlyMeans(l, q); OnlyMeans(r, q);
    case Compare(_, l, r) => OnlyMeans(l, q); OnlyMeans(r, q);
    case Node(_, args) =>
      forall i | 0 <= i < |args|
        ensures Only(args[i], q) <==> forall x :: x in Leaves(args[i]) ==> LeafOf(x, q)
      {
        OnlyMeans(args[i], q);
      }
    case _ => LeafOnly(e, q);
  }

  lemma {:induction false} FirstQualifierMeans(e: Expr, q: string)
    requires Only(e, q)
    ensures FirstQualifier(e) == if exists x :: x in Leaves(e) && x.Column? then Some(q) else None
    decreases e, 1, 0
  {
    match e
    case And(l, r) => FirstQualifierMeans(l, q); FirstQualifierMeans(r, q);
    case Or(l, r) => FirstQualifierMeans(l, q); FirstQualifierMeans(r, q);
    case Compare(_, l, r) => FirstQualifierMeans(l, q); FirstQualifierMeans(r, q);
    case Node(_, args) => FirstOfArgsMeans(e, args, 0, q);
    case Column(_, _) => assert e in Leaves(e);
    case _ =>
  }

  lemma {:induction false} FirstOfArgsMeans(e: Expr, args: seq<Expr>, i: nat, q: string)
    requires e.Node? && e.args == args && i <= |args| && Only(e, q)
    ensures FirstOfArgs(e, args, i) == if exists k, x :: i <= k < |args| && x in Leaves(args[k]) && x.Column? then Some(q) else None
    decreases e, 0, |args| - i
  {
    if i < |args| {
      FirstQualifierMeans(args[i], q);
      FirstOfArgsMeans(e, args, i + 1, q);
    }
  }

  /** A conjunct is about a table exactly when it has a column, and nothing but columns of that table, and constants. */
  lemma QualifierMeans(e: Expr, q: string)
    ensures ConjunctQualifier(e) == Some(q) <==>
      (forall x :: x in Leaves(e) ==> LeafOf(x, q)) && exists x :: x in Leaves(e) && x.Column?
  {
    OnlyMeans(e, q);
    if Only(e, q) {
      FirstQualifierMeans(e, q);
    }
  }
}
