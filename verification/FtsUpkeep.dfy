/** The full-text index stays what a rebuild would give, row by row and in bulk (`src/catalog.rs`). */
module FtsUpkeep {
  import opened Options
  import opened Bytes
  import opened Fts

  // ---------------------------------------------------- one (term, row) at a time

  type Cells = map<(Term, int), Cell>

  function RowsOf(cells: Cells, t: Term): (r: set<int>) {
    set p | p in cells && p.0 == t :: p.1
  }

  /** Ids are distinct, and below the counter. */
  predicate DictOk(ix: Index) {
    && 1 <= NextId(ix) && (forall t :: t in ix.dict ==> 1 <= ix.dict[t] < NextId(ix))
    && forall t, u :: t in ix.dict && u in ix.dict && ix.dict[t] == ix.dict[u] ==> t == u
  }

  ghost predicate PostingsOk(ix: Index, cells: Cells) {
    && (forall t, r :: (t, r) in cells ==>
          t in ix.dict && (ix.dict[t], r) in ix.postings && ix.postings[(ix.dict[t], r)] == cells[(t, r)])
    && forall id, r :: (id, r) in ix.postings ==> exists t :: t in ix.dict && ix.dict[t] == id && (t, r) in cells
  }

  /** In how many rows each term is. */
  ghost predicate DfOk(df: map<Term, nat>, cells: Cells) {
    forall t :: DfAt(df, cells, t)
  }

  ghost predicate DfAt(df: map<Term, nat>, cells: Cells, t: Term) {
    if t in df then df[t] == |RowsOf(cells, t)| && df[t] > 0 else RowsOf(cells, t) == {}
  }

  ghost predicate CellsOk(ix: Index, cells: Cells) {
    DictOk(ix) && PostingsOk(ix, cells) && DfOk(ix.df, cells)
  }

  function Lookup(cells: Cells, t: Term, r: int): (v: Option<Cell>) {
    if (t, r) in cells then Some(cells[(t, r)]) else None
  }

  lemma CellsEqual(a: Cells, b: Cells)
    requires forall t, r :: Lookup(a, t, r) == Lookup(b, t, r)
    ensures a == b
  {
    forall p: (Term, int)
      ensures p in a <==> p in b
      ensures p in a ==> a[p] == b[p]
    {
      assert p == (p.0, p.1);
      assert Lookup(a, p.0, p.1) == Lookup(b, p.0, p.1);
    }
  }

  lemma RowsGrow(cells: Cells, t: Term, r: int, cell: Cell, u: Term)
    ensures RowsOf(cells[(t, r) := cell], u) == RowsOf(cells, u) + if u == t then {r} else {}
  {
    var more := cells[(t, r) := cell];
    forall x | x in RowsOf(cells, u)
      ensures x in RowsOf(more, u)
    {
      assert (u, x) in more;
    }
    assert (t, r) in more;
  }

  lemma RowsShrink(cells: Cells, t: Term, r: int, u: Term)
    ensures RowsOf(cells - {(t, r)}, u) == RowsOf(cells, u) - if u == t then {r} else {}
  {
    var less := cells - {(t, r)};
    forall x | x in RowsOf(cells, u) && (u != t || x != r)
      ensures x in RowsOf(less, u)
    {
      assert (u, x) in less;
    }
  }

  lemma DfAdded(df: map<Term, nat>, cells: Cells, t: Term, r: int, cell: Cell)
    requires DfOk(df, cells) && (t, r) !in cells
    ensures DfOk(Adjusted(df, t, true), cells[(t, r) := cell])
  {
    hide RowsOf;
    var more, df' := cells[(t, r) := cell], Adjusted(df, t, true);
    forall u
      ensures DfAt(df', more, u)
    {
      assert DfAt(df, cells, u);
      RowsGrow(cells, t, r, cell, u);
      NotThere(cells, t, r);
      OneMore(RowsOf(cells, t), r);
    }
  }

  lemma OneMore(s: set<int>, r: int)
    ensures r !in s ==> |s + {r}| == |s| + 1
    ensures r in s ==> |s - {r}| == |s| - 1 && (|s| == 1 <==> s - {r} == {})
    ensures |s| == 0 <==> s == {}
  {
    if r in s {
      assert s == (s - {r}) + {r};
      assert |s - {r}| == 0 <==> s - {r} == {};
    }
  }

  lemma DfRemoved(df: map<Term, nat>, cells: Cells, t: Term, r: int)
    requires DfOk(df, cells) && (t, r) in cells
    ensures DfOk(Adjusted(df, t, false), cells - {(t, r)})
  {
    hide RowsOf;
    var less, df' := cells - {(t, r)}, Adjusted(df, t, false);
    forall u
      ensures DfAt(df', less, u)
    {
      assert DfAt(df, cells, u);
      RowsShrink(cells, t, r, u);
      NotThere(cells, t, r);
      OneMore(RowsOf(cells, t), r);
    }
  }

  lemma AddTermKeeps(ix: Index, cells: Cells, t: Term, r: int, cell: Cell)
    requires CellsOk(ix, cells) && (t, r) !in cells
    ensures CellsOk(ApplyTerm(ix, t, r, cell, true), cells[(t, r) := cell])
  {
    hide DfOk, DictOk, PostingsOk;
    AllocatedKeeps(ix, cells, t);
    PostingAdded(Allocated(ix, t), cells, t, r, cell, ApplyTerm(ix, t, r, cell, true), cells[(t, r) := cell]);
    DfAdded(ix.df, cells, t, r, cell);
  }

  lemma NotThere(cells: Cells, t: Term, r: int)
    ensures (t, r) in cells <==> r in RowsOf(cells, t)
  {
  }

  lemma AllocatedKeepsDict(ix: Index, t: Term)
    requires DictOk(ix)
    ensures DictOk(Allocated(ix, t)) && t in Allocated(ix, t).dict
    ensures forall u :: u in ix.dict ==> u in Allocated(ix, t).dict && Allocated(ix, t).dict[u] == ix.dict[u]
  {
    if t !in ix.dict {
      var mid := Allocated(ix, t);
      forall u, v | u in mid.dict && v in mid.dict && mid.dict[u] == mid.dict[v]
        ensures u == v
      {
        assert u != t ==> mid.dict[u] == ix.dict[u] < NextId(ix);
        assert v != t ==> mid.dict[v] == ix.dict[v] < NextId(ix);
      }
    }
  }

  lemma AllocatedKeeps(ix: Index, cells: Cells, t: Term)
    requires DictOk(ix) && PostingsOk(ix, cells)
    ensures var mid := Allocated(ix, t);
      DictOk(mid) && PostingsOk(mid, cells) && t in mid.dict && mid.df == ix.df && mid.postings == ix.postings
  {
    hide DictOk;
    var mid := Allocated(ix, t);
    AllocatedKeepsDict(ix, t);
    forall id, r | (id, r) in mid.postings
      ensures exists u :: u in mid.dict && mid.dict[u] == id && (u, r) in cells
    {
      var u :| u in ix.dict && ix.dict[u] == id && (u, r) in cells;
      assert u in mid.dict && mid.dict[u] == id;
    }
  }

  lemma PostingAdded(mid: Index, cells: Cells, t: Term, r: int, cell: Cell, ix: Index, more: Cells)
    requires DictOk(mid) && PostingsOk(mid, cells) && t in mid.dict
    requires ix.dict == mid.dict && ix.counter == mid.counter && ix.postings == mid.postings[(mid.dict[t], r) := cell]
    requires more == cells[(t, r) := cell]
    ensures DictOk(ix) && PostingsOk(ix, more)
  {
    forall id, q | (id, q) in ix.postings
      ensures exists u :: u in ix.dict && ix.dict[u] == id && (u, q) in more
    {
      if (id, q) in mid.postings {
        var u :| u in mid.dict && mid.dict[u] == id && (u, q) in cells;
        assert (u, q) in more;
      } else {
        assert (t, q) in more && ix.dict[t] == id;
      }
    }
  }

  lemma RemoveTermKeeps(ix: Index, cells: Cells, t: Term, r: int, cell: Cell)
    requires CellsOk(ix, cells) && (t, r) in cells
    ensures CellsOk(ApplyTerm(ix, t, r, cell, false), cells - {(t, r)})
  {
    hide DfOk, DictOk;
    assert t in ix.dict;
    PostingRemoved(ix, cells, t, r, ApplyTerm(ix, t, r, cell, false), cells - {(t, r)});
    DfRemoved(ix.df, cells, t, r);
  }

  lemma PostingRemoved(ix: Index, cells: Cells, t: Term, r: int, ix': Index, less: Cells)
    requires DictOk(ix) && PostingsOk(ix, cells) && (t, r) in cells
    requires ix'.dict == ix.dict && ix'.counter == ix.counter && ix'.postings == ix.postings - {(ix.dict[t], r)}
    requires less == cells - {(t, r)}
    ensures DictOk(ix') && PostingsOk(ix', less)
  {
    forall id, q | (id, q) in ix'.postings
      ensures exists u :: u in ix'.dict && ix'.dict[u] == id && (u, q) in less
    {
      var u :| u in ix.dict && ix.dict[u] == id && (u, q) in cells;
      assert (u, q) in less;
    }
  }

  // ------------------------------------------------------------- whole rows

  /** The cells of the terms ts of one row. */
  function RowCells(ts: seq<Term>, g: map<Term, Cell>, r: int): (v: Cells)
    requires forall t :: t in ts ==> t in g
  {
    map t | t in ts :: (t, r) := g[t]
  }

  predicate Distinct(ts: seq<Term>) {
    forall i, j :: 0 <= i < j < |ts| ==> ts[i] != ts[j]
  }

  lemma SplitTerms(ts: seq<Term>, g: map<Term, Cell>, r: int)
    requires ts != [] && Distinct(ts) && forall t :: t in ts ==> t in g
    ensures var front, last := ts[..|ts| - 1], ts[|ts| - 1];
      && Distinct(front) && (forall t :: t in front ==> t in g) && last in g && last !in front
      && RowCells(ts, g, r) == RowCells(front, g, r)[(last, r) := g[last]]
  {
    var front, last := ts[..|ts| - 1], ts[|ts| - 1];
    assert ts == front + [last];
    assert forall t :: t in ts <==> t in front || t == last;
    assert RowCells(ts, g, r).Keys == RowCells(front, g, r)[(last, r) := g[last]].Keys;
  }

  lemma NoRowCells(ts: seq<Term>, g: map<Term, Cell>, r: int)
    requires forall t :: t in ts ==> t in g
    ensures ts == [] ==> RowCells(ts, g, r) == map[]
  {
  }

  lemma NotInRowCells(ts: seq<Term>, g: map<Term, Cell>, r: int, t: Term)
    requires (forall t :: t in ts ==> t in g) && t !in ts
    ensures (t, r) !in RowCells(ts, g, r)
  {
  }

  lemma {:induction false} AddTermsKeep(ix: Index, cells: Cells, ts: seq<Term>, g: map<Term, Cell>, r: int)
    requires CellsOk(ix, cells) && Distinct(ts) && (forall t :: t in ts ==> t in g)
    requires forall t :: (t, r) !in cells
    ensures CellsOk(ApplyTerms(ix, ts, g, r, true), cells + RowCells(ts, g, r))
  {
    hide CellsOk, ApplyTerm, RowCells;
    NoRowCells(ts, g, r);
    if ts == [] {
      assert cells + RowCells(ts, g, r) == cells;
    } else {
      SplitTerms(ts, g, r);
      var front, last := ts[..|ts| - 1], ts[|ts| - 1];
      AddTermsKeep(ix, cells, front, g, r);
      NotInRowCells(front, g, r, last);
      AddTermKeeps(ApplyTerms(ix, front, g, r, true), cells + RowCells(front, g, r), last, r, g[last]);
      assert cells + RowCells(ts, g, r) == (cells + RowCells(front, g, r))[(last, r) := g[last]];
    }
  }

  lemma {:induction false} RemoveTermsKeep(ix: Index, cells: Cells, ts: seq<Term>, g: map<Term, Cell>, r: int)
    requires CellsOk(ix, cells) && Distinct(ts) && (forall t :: t in ts ==> t in g && (t, r) in cells)
    ensures CellsOk(ApplyTerms(ix, ts, g, r, false), cells - RowCells(ts, g, r).Keys)
  {
    hide CellsOk, ApplyTerm, RowCells;
    NoRowCells(ts, g, r);
    if ts == [] {
      assert cells - RowCells(ts, g, r).Keys == cells;
    } else {
      SplitTerms(ts, g, r);
      var front, last := ts[..|ts| - 1], ts[|ts| - 1];
      RemoveTermsKeep(ix, cells, front, g, r);
      NotInRowCells(front, g, r, last);
      RemoveTermKeeps(ApplyTerms(ix, front, g, r, false), cells - RowCells(front, g, r).Keys, last, r, g[last]);
      assert cells - RowCells(ts, g, r).Keys == cells - RowCells(front, g, r).Keys - {(last, r)};
    }
  }

  // --------------------------------------------------------------- whole index

  type Docs = map<int, Doc>

  /** Every (term, row) of the documents. */
  function AllCells(docs: Docs): (r: Cells) {
    map r, t | r in docs && t in TermsOf(docs[r]) :: (t, r) := CellOf(docs[r], t)
  }

  lemma SomeRow(rows: set<int>)
    ensures rows == {} || exists r :: r in rows
  {
    if forall r :: r !in rows {
      assert rows == {};
    }
  }

  ghost function LenOver(docs: Docs, rows: set<int>): (r: nat)
    requires rows <= docs.Keys
  {
    if rows == {} then 0
    else
      SomeRow(rows);
      var r :| r in rows;
      |docs[r]| + LenOver(docs, rows - {r})
  }

  /** The tokens of all documents. */
  ghost function TotalLen(docs: Docs): (r: nat) {
    LenOver(docs, docs.Keys)
  }

  lemma {:induction false} LenWithout(docs: Docs, rows: set<int>, r: int)
    requires rows <= docs.Keys && r in rows
    ensures LenOver(docs, rows) == |docs[r]| + LenOver(docs, rows - {r})
    decreases |rows|
  {
    var q :| q in rows && LenOver(docs, rows) == |docs[q]| + LenOver(docs, rows - {q});
    if q != r {
      LenWithout(docs, rows - {q}, r);
      LenWithout(docs, rows - {r}, q);
      assert rows - {q} - {r} == rows - {r} - {q};
    }
  }

  lemma {:induction false} LenAgrees(a: Docs, b: Docs, rows: set<int>)
    requires rows <= a.Keys && rows <= b.Keys && forall r :: r in rows ==> a[r] == b[r]
    ensures LenOver(a, rows) == LenOver(b, rows)
    decreases |rows|
  {
    if rows != {} {
      SomeRow(rows);
      var r :| r in rows;
      LenWithout(a, rows, r);
      LenWithout(b, rows, r);
      LenAgrees(a, b, rows - {r});
    }
  }

  lemma TotalWithout(docs: Docs, r: int)
    requires r in docs
    ensures TotalLen(docs) == |docs[r]| + TotalLen(docs - {r})
  {
    hide LenOver;
    LenWithout(docs, docs.Keys, r);
    assert (docs - {r}).Keys == docs.Keys - {r};
    LenAgrees(docs, docs - {r}, docs.Keys - {r});
  }

  ghost predicate DoclenOk(ix: Index, docs: Docs) {
    forall r :: DoclenAt(ix, docs, r)
  }

  /** No cell for an empty document. */
  predicate DoclenAt(ix: Index, docs: Docs, r: int) {
    if r in docs && docs[r] != [] then r in ix.doclen && ix.doclen[r] == |docs[r]| else r !in ix.doclen
  }

  ghost predicate GlobalOk(ix: Index, docs: Docs) {
    ix.global == if docs == map[] then None else Some((|docs|, TotalLen(docs)))
  }

  /** The index is exactly that of these documents, but for words it may remember. */
  ghost predicate Matches(ix: Index, docs: Docs) {
    CellsOk(ix, AllCells(docs)) && DoclenOk(ix, docs) && GlobalOk(ix, docs)
  }

  lemma TermsStats(ix: Index, ts: seq<Term>, g: map<Term, Cell>, r: int, add: bool)
    requires forall t :: t in ts ==> t in g
    ensures var ix' := ApplyTerms(ix, ts, g, r, add); ix'.doclen == ix.doclen && ix'.global == ix.global
  {
    if ts != [] {
      TermsStats(ix, ts[..|ts| - 1], g, r, add);
    }
  }

  lemma InAllCells(docs: Docs, t: Term, r: int)
    ensures Lookup(AllCells(docs), t, r) == if r in docs && t in TermsOf(docs[r]) then Some(CellOf(docs[r], t)) else None
  {
    hide TermsOf, CellOf;
  }

  lemma InRowCells(ts: seq<Term>, g: map<Term, Cell>, q: int, t: Term, r: int)
    requires forall t :: t in ts ==> t in g
    ensures Lookup(RowCells(ts, g, q), t, r) == if t in ts && r == q then Some(g[t]) else None
  {
  }

  /** The cells of one document. */
  /** The rows that have the term. */
  ghost function RowsWith(docs: Docs, t: Term): (r: set<int>) {
    set x | x in docs && HasWord(docs[x], t)
  }

  predicate HasWord(doc: Doc, t: Term) {
    exists k :: 0 <= k < |doc| && doc[k].term == t
  }

  /**
    What an index of some rows says: how many of them have a term, how long each document
    is, and how many rows there are with how many tokens in all.
  */
  lemma StatisticsMean(ix: Index, docs: Docs, t: Term, r: int)
    requires Matches(ix, docs)
    ensures t in ix.df <==> RowsWith(docs, t) != {}
    ensures t in ix.df ==> ix.df[t] == |RowsWith(docs, t)|
    ensures r in ix.doclen <==> r in docs && docs[r] != []
    ensures r in ix.doclen ==> ix.doclen[r] == |docs[r]|
    ensures docs == map[] ==> ix.global == None
    ensures docs != map[] ==> ix.global == Some((|docs|, TotalLen(docs)))
  {
    hide CellOf;
    var cells := AllCells(docs);
    assert DfAt(ix.df, cells, t) && DoclenAt(ix, docs, r);
    forall x
      ensures x in RowsOf(cells, t) <==> x in RowsWith(docs, t)
    {
      if x in docs && HasWord(docs[x], t) {
        var k :| 0 <= k < |docs[x]| && docs[x][k].term == t;
        assert docs[x][k].term in TermsOf(docs[x]);
        assert (t, x) in cells;
      }
      if x in RowsOf(cells, t) {
        assert (t, x) in cells && t in TermsOf(docs[x]);
      }
    }
    assert RowsOf(cells, t) == RowsWith(docs, t);
  }

  function DocCells(r: int, doc: Doc): (v: Cells) {
    map t | t in TermsOf(doc) :: (t, r) := CellOf(doc, t)
  }

  lemma RowCellsAreDocCells(r: int, doc: Doc)
    ensures forall t :: t in SortedTerms(TermsOf(doc)) ==> t in Grouped(doc)
    ensures RowCells(SortedTerms(TermsOf(doc)), Grouped(doc), r) == DocCells(r, doc)
  {
    hide TermsOf, CellOf, SortedTerms;
    GroupedKeys(doc);
    var ts, g := SortedTerms(TermsOf(doc)), Grouped(doc);
    forall t, q
      ensures Lookup(RowCells(ts, g, r), t, q) == Lookup(DocCells(r, doc), t, q)
    {
      InRowCells(ts, g, r, t, q);
    }
    CellsEqual(RowCells(ts, g, r), DocCells(r, doc));
  }

  lemma InDocCells(r: int, doc: Doc, t: Term, q: int)
    ensures Lookup(DocCells(r, doc), t, q) == if t in TermsOf(doc) && q == r then Some(CellOf(doc, t)) else None
  {
    hide TermsOf, CellOf;
  }

  lemma LookupSum(a: Cells, b: Cells, t: Term, r: int)
    ensures Lookup(a + b, t, r) == if Lookup(b, t, r).Some? then Lookup(b, t, r) else Lookup(a, t, r)
    ensures Lookup(a - b.Keys, t, r) == if Lookup(b, t, r).Some? then None else Lookup(a, t, r)
  {
  }

  lemma CellsOfMore(docs: Docs, r: int, doc: Doc)
    requires r !in docs
    ensures AllCells(docs[r := doc]) == AllCells(docs) + DocCells(r, doc)
    ensures forall t :: (t, r) !in AllCells(docs)
  {
    hide TermsOf, CellOf, AllCells, DocCells, Lookup;
    var more, sum := docs[r := doc], AllCells(docs) + DocCells(r, doc);
    forall t, q
      ensures Lookup(AllCells(more), t, q) == Lookup(sum, t, q)
    {
      InAllCells(more, t, q);
      InAllCells(docs, t, q);
      InDocCells(r, doc, t, q);
      LookupSum(AllCells(docs), DocCells(r, doc), t, q);
    }
    CellsEqual(AllCells(more), sum);
    forall t
      ensures (t, r) !in AllCells(docs)
    {
      InAllCells(docs, t, r);
      LookupIs(AllCells(docs), t, r);
    }
  }

  lemma LookupIs(cells: Cells, t: Term, r: int)
    ensures (t, r) in cells <==> Lookup(cells, t, r).Some?
  {
  }

  lemma CellsOfLess(docs: Docs, r: int)
    requires r in docs
    ensures AllCells(docs - {r}) == AllCells(docs) - DocCells(r, docs[r]).Keys
    ensures forall t :: t in TermsOf(docs[r]) ==> (t, r) in AllCells(docs)
  {
    hide TermsOf, CellOf, AllCells, DocCells, Lookup;
    var less, diff := docs - {r}, AllCells(docs) - DocCells(r, docs[r]).Keys;
    forall t, q
      ensures Lookup(AllCells(less), t, q) == Lookup(diff, t, q)
    {
      InAllCells(less, t, q);
      InAllCells(docs, t, q);
      InDocCells(r, docs[r], t, q);
      LookupSum(AllCells(docs), DocCells(r, docs[r]), t, q);
    }
    CellsEqual(AllCells(less), diff);
    forall t | t in TermsOf(docs[r])
      ensures (t, r) in AllCells(docs)
    {
      InAllCells(docs, t, r);
      LookupIs(AllCells(docs), t, r);
    }
  }

  lemma TermsAreDistinct(s: set<Term>)
    ensures Distinct(SortedTerms(s)) && forall t :: t in SortedTerms(s) <==> t in s
  {
  }

  lemma StatsOnly(ix: Index, r: int, n: nat, add: bool, cells: Cells)
    requires CellsOk(ix, cells)
    ensures CellsOk(ApplyStats(ix, r, n, add), cells)
  {
  }

  lemma DoclenAdded(ix: Index, mid: Index, docs: Docs, r: int, doc: Doc)
    requires DoclenOk(ix, docs) && r !in docs && mid.doclen == ix.doclen
    ensures DoclenOk(ApplyStats(mid, r, |doc|, true), docs[r := doc])
  {
    hide TotalLen;
    var ix', more := ApplyStats(mid, r, |doc|, true), docs[r := doc];
    forall q
      ensures DoclenAt(ix', more, q)
    {
      assert DoclenAt(ix, docs, q);
    }
  }

  lemma StatsAdded(ix: Index, mid: Index, docs: Docs, r: int, doc: Doc)
    requires DoclenOk(ix, docs) && GlobalOk(ix, docs) && r !in docs && mid.doclen == ix.doclen && mid.global == ix.global
    ensures var ix' := ApplyStats(mid, r, |doc|, true); DoclenOk(ix', docs[r := doc]) && GlobalOk(ix', docs[r := doc])
  {
    hide DoclenOk, TotalLen;
    DoclenAdded(ix, mid, docs, r, doc);
    var more := docs[r := doc];
    TotalWithout(more, r);
    TotalOfNothing();
    assert more - {r} == docs;
    CountWithout(more, r);
  }

  lemma TotalOfNothing()
    ensures TotalLen(map[]) == 0
  {
  }

  lemma DoclenRemoved(ix: Index, mid: Index, docs: Docs, r: int, n: nat)
    requires DoclenOk(ix, docs) && mid.doclen == ix.doclen
    ensures DoclenOk(ApplyStats(mid, r, n, false), docs - {r})
  {
    hide TotalLen;
    var ix', less := ApplyStats(mid, r, n, false), docs - {r};
    forall q
      ensures DoclenAt(ix', less, q)
    {
      assert DoclenAt(ix, docs, q);
    }
  }

  lemma CountWithout(docs: Docs, r: int)
    requires r in docs
    ensures |docs - {r}| == |docs| - 1 && docs != map[]
    ensures docs - {r} == map[] <==> |docs| == 1
  {
    var less := docs - {r};
    assert docs == less[r := docs[r]];
    assert |less| == 0 <==> less == map[];
  }

  lemma StatsRemoved(ix: Index, mid: Index, docs: Docs, r: int)
    requires DoclenOk(ix, docs) && GlobalOk(ix, docs) && r in docs && mid.doclen == ix.doclen && mid.global == ix.global
    ensures var ix' := ApplyStats(mid, r, |docs[r]|, false); DoclenOk(ix', docs - {r}) && GlobalOk(ix', docs - {r})
  {
    hide DoclenOk, TotalLen;
    DoclenRemoved(ix, mid, docs, r, |docs[r]|);
    TotalWithout(docs, r);
    CountWithout(docs, r);
  }

  /** Indexing a new row. */
  lemma AddKeepsMatching(ix: Index, docs: Docs, r: int, doc: Doc)
    requires Matches(ix, docs) && r !in docs
    ensures Matches(ApplyDoc(ix, r, doc, true), docs[r := doc])
  {
    hide CellsOk, AllCells, TermsOf, Grouped, ApplyTerms, SortedTerms, RowCells, DocCells, DoclenOk, GlobalOk, ApplyStats;
    var ts, g := SortedTerms(TermsOf(doc)), Grouped(doc);
    RowCellsAreDocCells(r, doc);
    CellsOfMore(docs, r, doc);
    TermsAreDistinct(TermsOf(doc));
    AddTermsKeep(ix, AllCells(docs), ts, g, r);
    TermsStats(ix, ts, g, r, true);
    var mid := ApplyTerms(ix, ts, g, r, true);
    StatsOnly(mid, r, |doc|, true, AllCells(docs[r := doc]));
    StatsAdded(ix, mid, docs, r, doc);
  }

  /** Taking a row out: reversing reconstructs exactly what was inserted. */
  lemma RemoveKeepsMatching(ix: Index, docs: Docs, r: int)
    requires Matches(ix, docs) && r in docs
    ensures Matches(ApplyDoc(ix, r, docs[r], false), docs - {r})
  {
    hide CellsOk, AllCells, TermsOf, Grouped, ApplyTerms, SortedTerms, RowCells, DocCells, DoclenOk, GlobalOk, ApplyStats;
    var ts, g := SortedTerms(TermsOf(docs[r])), Grouped(docs[r]);
    RowCellsAreDocCells(r, docs[r]);
    CellsOfLess(docs, r);
    TermsAreDistinct(TermsOf(docs[r]));
    RemoveTermsKeep(ix, AllCells(docs), ts, g, r);
    TermsStats(ix, ts, g, r, false);
    var mid := ApplyTerms(ix, ts, g, r, false);
    StatsOnly(mid, r, |docs[r]|, false, AllCells(docs - {r}));
    StatsRemoved(ix, mid, docs, r);
  }

  // ------------------------------------------------------------------- runs

  datatype Op = Insert(rowid: int, doc: Doc) | Update(rowid: int, doc: Doc) | Delete(rowid: int)

  /** Inserts are of new rows; updates and deletes of present ones. */
  predicate Allowed(docs: Docs, op: Op) {
    match op
    case Insert(r, _) => r !in docs
    case Update(r, _) => r in docs
    case Delete(r) => r in docs
  }

  function DocsAfter(docs: Docs, op: Op): (r: Docs) {
    match op
    case Insert(r, doc) => docs[r := doc]
    case Update(r, doc) => docs[r := doc]
    case Delete(r) => docs - {r}
  }

  /** An update takes the old row out and puts the new one in. */
  ghost function IndexAfter(ix: Index, docs: Docs, op: Op): (r: Index)
    requires Allowed(docs, op)
  {
    match op
    case Insert(r, doc) => ApplyDoc(ix, r, doc, true)
    case Update(r, doc) => ApplyDoc(ApplyDoc(ix, r, docs[r], false), r, doc, true)
    case Delete(r) => ApplyDoc(ix, r, docs[r], false)
  }

  ghost predicate IsHistory(ixs: seq<Index>, states: seq<Docs>, ops: seq<Op>) {
    && |ixs| == |states| == |ops| + 1 && ixs[0] == Empty && states[0] == map[]
    && forall i :: 0 <= i < |ops| ==> HistoryStep(ixs, states, ops, i)
  }

  ghost predicate HistoryStep(ixs: seq<Index>, states: seq<Docs>, ops: seq<Op>, i: nat)
    requires i < |ops| && |ixs| == |states| == |ops| + 1
  {
    Allowed(states[i], ops[i]) && states[i + 1] == DocsAfter(states[i], ops[i])
      && ixs[i + 1] == IndexAfter(ixs[i], states[i], ops[i])
  }

  lemma NoRows(t: Term)
    ensures RowsOf(map[], t) == {}
  {
  }

  lemma EmptyMatches()
    ensures Matches(Empty, map[])
  {
    assert AllCells(map[]) == map[];
    forall t
      ensures DfAt(map[], map[], t)
    {
      NoRows(t);
    }
  }

  /** After any inserts, updates and deletes, the index is exactly that of the live rows. */
  lemma {:induction false} IndexAlwaysMatches(ixs: seq<Index>, states: seq<Docs>, ops: seq<Op>, i: nat)
    requires IsHistory(ixs, states, ops) && i <= |ops|
    ensures Matches(ixs[i], states[i])
  {
    hide Matches, ApplyDoc;
    if i == 0 {
      EmptyMatches();
    } else {
      IndexAlwaysMatches(ixs, states, ops, i - 1);
      assert HistoryStep(ixs, states, ops, i - 1);
      var ix, docs := ixs[i - 1], states[i - 1];
      match ops[i - 1]
      case Insert(r, doc) => AddKeepsMatching(ix, docs, r, doc);
      case Delete(r) => RemoveKeepsMatching(ix, docs, r);
      case Update(r, doc) =>
        RemoveKeepsMatching(ix, docs, r);
        AddKeepsMatching(ApplyDoc(ix, r, docs[r], false), docs - {r}, r, doc);
        assert (docs - {r})[r := doc] == docs[r := doc];
    }
  }

  /** Two indexes of the same rows have the same statistics, and the same cells term by term. */
  lemma MatchingIsUnique(a: Index, b: Index, docs: Docs)
    requires Matches(a, docs) && Matches(b, docs)
    ensures a.df == b.df && a.doclen == b.doclen && a.global == b.global
    ensures forall t, r :: t in a.dict && t in b.dict ==>
      ((a.dict[t], r) in a.postings <==> (b.dict[t], r) in b.postings)
        && ((a.dict[t], r) in a.postings ==> a.postings[(a.dict[t], r)] == b.postings[(b.dict[t], r)])
  {
    hide AllCells, RowsOf;
    var cells := AllCells(docs);
    forall t, r | t in a.dict && t in b.dict
      ensures (a.dict[t], r) in a.postings <==> (t, r) in cells
      ensures (b.dict[t], r) in b.postings <==> (t, r) in cells
    {
      PostingMeansCell(a, cells, t, r);
      PostingMeansCell(b, cells, t, r);
    }
    forall t
      ensures t in a.df <==> t in b.df
      ensures t in a.df ==> a.df[t] == b.df[t]
    {
      assert DfAt(a.df, cells, t) && DfAt(b.df, cells, t);
    }
    DoclensAgree(a, b, docs);
  }

  lemma DoclensAgree(a: Index, b: Index, docs: Docs)
    requires DoclenOk(a, docs) && DoclenOk(b, docs)
    ensures a.doclen == b.doclen
  {
    forall r
      ensures r in a.doclen <==> r in b.doclen
      ensures r in a.doclen ==> a.doclen[r] == b.doclen[r]
    {
      assert DoclenAt(a, docs, r) && DoclenAt(b, docs, r);
    }
  }

  lemma PostingMeansCell(ix: Index, cells: Cells, t: Term, r: int)
    requires CellsOk(ix, cells) && t in ix.dict
    ensures (ix.dict[t], r) in ix.postings <==> (t, r) in cells
    ensures (t, r) in cells ==> ix.postings[(ix.dict[t], r)] == cells[(t, r)]
  {
    hide RowsOf;
    if (ix.dict[t], r) in ix.postings {
      var u :| u in ix.dict && ix.dict[u] == ix.dict[t] && (u, r) in cells;
      assert u == t;
    }
  }
}
