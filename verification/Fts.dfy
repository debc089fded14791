/**
  The inverted index of `src/catalog.rs`: postings, dictionary and document statistics,
  maintained row by row and built in bulk.  The b-tree's cells are typed here; that no
  two of them share a key, and that its scans hit exactly what is asked, is in `Keys`.
*/
module Fts {
  import opened Options
  import opened Bytes
  import opened LittleEndian
  import KeyEnc
  import K = Keys
  import opened Selections

  type Term = ByteString
  type U32 = n: int | 0 <= n < TWO_32
  type Record = seq<K.Value>

  datatype Token = Token(term: Term, position: U32)

  /** An index: its columns, and the tokenizer chosen for it. */
  datatype FtsDef = FtsDef(columns: seq<nat>, tokenize: ByteString -> seq<Token>)

  datatype DocToken = DocToken(term: Term, field: nat, pos: U32)
  type Doc = seq<DocToken>

  // -------------------------------------------------------------- documents

  function ColumnTokens(fts: FtsDef, record: Record, col: nat): (d: Doc) {
    if col < |record| && record[col].Text? then
      var tokens := fts.tokenize(record[col].text);
      seq(|tokens|, i requires 0 <= i < |tokens| => DocToken(tokens[i].term, col, tokens[i].position))
    else []
  }

  /** The tokens of the first n indexed columns. */
  function DocUpTo(fts: FtsDef, record: Record, n: nat): (r: Doc)
    requires n <= |fts.columns|
  {
    if n == 0 then [] else DocUpTo(fts, record, n - 1) + ColumnTokens(fts, record, fts.columns[n - 1])
  }

  function DocOf(fts: FtsDef, record: Record): (r: Doc) {
    DocUpTo(fts, record, |fts.columns|)
  }

  /** What the tokenizer makes of one indexed column; nothing, unless the record has text there. */
  ghost function TextTokens(fts: FtsDef, record: Record, n: nat): (ts: seq<Token>)
    requires n < |fts.columns|
  {
    var col := fts.columns[n];
    if col < |record| && record[col].Text? then fts.tokenize(record[col].text) else []
  }

  /** The number of tokens in the first n indexed columns. */
  ghost function CountUpTo(fts: FtsDef, record: Record, n: nat): (count: nat)
    requires n <= |fts.columns|
  {
    if n == 0 then 0 else CountUpTo(fts, record, n - 1) + |TextTokens(fts, record, n - 1)|
  }

  lemma ColumnInOrder(fts: FtsDef, record: Record, n: nat)
    requires n < |fts.columns|
    ensures var doc, tokens := ColumnTokens(fts, record, fts.columns[n]), TextTokens(fts, record, n);
      && |doc| == |tokens|
      && forall i :: 0 <= i < |tokens| ==> doc[i] == DocToken(tokens[i].term, fts.columns[n], tokens[i].position)
  {
  }

  lemma {:induction false} DocUpToInOrder(fts: FtsDef, record: Record, n: nat, k: nat, i: nat)
    requires n <= |fts.columns|
    ensures |DocUpTo(fts, record, n)| == CountUpTo(fts, record, n)
    ensures k < n && i < |TextTokens(fts, record, k)| ==>
      && CountUpTo(fts, record, k) + i < CountUpTo(fts, record, n)
      && var token := TextTokens(fts, record, k)[i];
      DocUpTo(fts, record, n)[CountUpTo(fts, record, k) + i] == DocToken(token.term, fts.columns[k], token.position)
  {
    hide TextTokens, ColumnTokens;
    if n > 0 {
      DocUpToInOrder(fts, record, n - 1, k, i);
      ColumnInOrder(fts, record, n - 1);
      var before, last := DocUpTo(fts, record, n - 1), ColumnTokens(fts, record, fts.columns[n - 1]);
      assert DocUpTo(fts, record, n) == before + last;
      if k == n - 1 && i < |last| {
        assert (before + last)[|before| + i] == last[i];
      }
    }
  }

  /**
    A document has the tokens of the indexed columns' texts, column by column and each
    column's in the tokenizer's order, with the term and the position they have there.
  */
  lemma DocInOrder(fts: FtsDef, record: Record, k: nat, i: nat)
    requires k < |fts.columns| && i < |TextTokens(fts, record, k)|
    ensures |DocOf(fts, record)| == CountUpTo(fts, record, |fts.columns|) > CountUpTo(fts, record, k) + i
    ensures var token := TextTokens(fts, record, k)[i];
      DocOf(fts, record)[CountUpTo(fts, record, k) + i] == DocToken(token.term, fts.columns[k], token.position)
  {
    DocUpToInOrder(fts, record, |fts.columns|, k, i);
  }

  /** Its length is the number of tokens of all its columns. */
  lemma DocLength(fts: FtsDef, record: Record)
    ensures |DocOf(fts, record)| == CountUpTo(fts, record, |fts.columns|)
  {
    DocUpToInOrder(fts, record, |fts.columns|, 0, 0);
  }

  lemma {:induction false} InDocUpTo(fts: FtsDef, record: Record, n: nat, t: DocToken)
    requires n <= |fts.columns|
    ensures t in DocUpTo(fts, record, n) <==>
      && t.field in fts.columns[..n] && t.field < |record| && record[t.field].Text?
      && Token(t.term, t.pos) in fts.tokenize(record[t.field].text)
  {
    if n > 0 {
      InDocUpTo(fts, record, n - 1, t);
      var col := fts.columns[n - 1];
      assert fts.columns[..n] == fts.columns[..n - 1] + [col];
      InColumn(fts, record, col, t);
    }
  }

  lemma InColumn(fts: FtsDef, record: Record, col: nat, t: DocToken)
    ensures t in ColumnTokens(fts, record, col) <==>
      && t.field == col && col < |record| && record[col].Text? && Token(t.term, t.pos) in fts.tokenize(record[col].text)
  {
    if col < |record| && record[col].Text? {
      var tokens, doc := fts.tokenize(record[col].text), ColumnTokens(fts, record, col);
      if Token(t.term, t.pos) in tokens && t.field == col {
        var i :| 0 <= i < |tokens| && tokens[i] == Token(t.term, t.pos);
        assert doc[i] == t;
      }
      if t in doc {
        var i :| 0 <= i < |doc| && doc[i] == t;
        assert tokens[i] == Token(t.term, t.pos);
      }
    }
  }

  /** A token is in the document exactly when its field is an indexed column with text, in which the tokenizer finds it, there. */
  lemma DocMeans(fts: FtsDef, record: Record, term: Term, field: nat, pos: U32)
    ensures DocToken(term, field, pos) in DocOf(fts, record) <==>
      && field in fts.columns && field < |record| && record[field].Text?
      && Token(term, pos) in fts.tokenize(record[field].text)
  {
    InDocUpTo(fts, record, |fts.columns|, DocToken(term, field, pos));
    assert fts.columns[..|fts.columns|] == fts.columns;
  }

  function TermsOf(doc: Doc): (r: set<Term>) {
    set k | 0 <= k < |doc| :: doc[k].term
  }

  function FieldsOf(doc: Doc, term: Term): (r: set<nat>) {
    set k | 0 <= k < |doc| && doc[k].term == term :: doc[k].field
  }

  /** The positions of a term in a field, in order. */
  function PositionsOf(doc: Doc, term: Term, field: nat): (r: seq<U32>) {
    if doc == [] then []
    else
      var last := doc[|doc| - 1];
      PositionsOf(doc[..|doc| - 1], term, field) + if last.term == term && last.field == field then [last.pos] else []
  }

  type Cell = map<nat, seq<U32>>

  /** What one posting cell says of a document: per field, the positions of the term. */
  function CellOf(doc: Doc, term: Term): (r: Cell) {
    map f | f in FieldsOf(doc, term) :: PositionsOf(doc, term, f)
  }

  function Grouped(doc: Doc): (r: map<Term, Cell>) {
    map t | t in TermsOf(doc) :: CellOf(doc, t)
  }

  lemma {:induction false} PositionsAreTokens(doc: Doc, term: Term, field: nat, pos: U32)
    ensures pos in PositionsOf(doc, term, field) <==> DocToken(term, field, pos) in doc
  {
    if doc != [] {
      PositionsAreTokens(doc[..|doc| - 1], term, field, pos);
      assert doc == doc[..|doc| - 1] + [doc[|doc| - 1]];
    }
  }

  lemma {:induction false} PositionsPlaces(doc: Doc, term: Term, field: nat) returns (ks: seq<nat>)
    ensures Places(ks, |doc|) && forall k: nat :: k in ks <==> k < |doc| && doc[k].term == term && doc[k].field == field
    ensures |PositionsOf(doc, term, field)| == |ks|
    ensures forall i :: 0 <= i < |ks| ==> PositionsOf(doc, term, field)[i] == doc[ks[i]].pos
  {
    ks := [];
    if doc != [] {
      var front, last := doc[..|doc| - 1], doc[|doc| - 1];
      ks := PositionsPlaces(front, term, field);
      if last.term == term && last.field == field {
        ks := ks + [|doc| - 1];
      }
    }
  }

  /**
    Grouping a document: there is a cell for a term and a field exactly if the document has
    the term in that field, and it lists the positions of those tokens in their order.
  */
  lemma GroupedMeans(doc: Doc, term: Term, field: nat) returns (ks: seq<nat>)
    ensures Places(ks, |doc|) && forall k: nat :: k in ks <==> k < |doc| && doc[k].term == term && doc[k].field == field
    ensures term in Grouped(doc) <==> exists t :: t in doc && t.term == term
    ensures term in Grouped(doc) && field in Grouped(doc)[term] <==> ks != []
    ensures ks != [] ==>
      && |Grouped(doc)[term][field]| == |ks|
      && forall i :: 0 <= i < |ks| ==> Grouped(doc)[term][field][i] == doc[ks[i]].pos
  {
    hide PositionsOf;
    ks := PositionsPlaces(doc, term, field);
    if ks != [] {
      assert ks[0] in ks && doc[ks[0]].term in TermsOf(doc);
    }
    if t :| t in doc && t.term == term {
      var k :| 0 <= k < |doc| && doc[k] == t;
      assert doc[k].term in TermsOf(doc);
    }
    if term in TermsOf(doc) && field in FieldsOf(doc, term) {
      var k :| 0 <= k < |doc| && doc[k].term == term && doc[k].field == field;
      assert k in ks;
    }
  }

  /** The nested entries of the grouping loop. */
  function Push(g: map<Term, Cell>, t: DocToken): (r: map<Term, Cell>) {
    var cell: Cell := if t.term in g then g[t.term] else map[];
    var positions: seq<U32> := if t.field in cell then cell[t.field] else [];
    var longer: Cell := cell[t.field := positions + [t.pos]];
    g[t.term := longer]
  }

  lemma PushGroups(doc: Doc, t: DocToken)
    ensures Grouped(doc + [t]) == Push(Grouped(doc), t)
  {
    hide CellOf;
    var more := doc + [t];
    TermsGrow(doc, t);
    CellGrows(doc, t);
    NoCell(doc, t.term);
    forall u | u in TermsOf(more) && u != t.term
      ensures Grouped(more)[u] == Push(Grouped(doc), t)[u]
    {
      CellStays(doc, t, u);
    }
  }

  lemma NoCell(doc: Doc, term: Term)
    ensures term !in TermsOf(doc) ==> CellOf(doc, term) == map[]
  {
    assert term !in TermsOf(doc) ==> FieldsOf(doc, term) == {};
  }

  lemma CellStays(doc: Doc, t: DocToken, u: Term)
    requires u != t.term
    ensures CellOf(doc + [t], u) == CellOf(doc, u)
  {
    hide FieldsOf, PositionsOf;
    FieldsGrow(doc, t, u);
    PositionsStep(doc, t, u);
    var before, after := CellOf(doc, u), CellOf(doc + [t], u);
    assert after.Keys == before.Keys;
    assert forall f :: f in before ==> after[f] == before[f];
  }

  lemma CellGrows(doc: Doc, t: DocToken)
    ensures var cell := CellOf(doc, t.term);
      CellOf(doc + [t], t.term) == cell[t.field := (if t.field in cell then cell[t.field] else []) + [t.pos]]
  {
    hide FieldsOf, PositionsOf;
    FieldsGrow(doc, t, t.term);
    PositionsStep(doc, t, t.term);
    NoPositions(doc, t.term, t.field);
    var before, after := CellOf(doc, t.term), CellOf(doc + [t], t.term);
    var expected: Cell := before[t.field := (if t.field in before then before[t.field] else []) + [t.pos]];
    assert after.Keys == expected.Keys;
    assert forall f :: f in expected ==> after[f] == expected[f];
  }

  lemma PositionsStep(doc: Doc, t: DocToken, term: Term)
    ensures forall f: nat ::
      PositionsOf(doc + [t], term, f) == PositionsOf(doc, term, f) + if t.term == term && t.field == f then [t.pos] else []
  {
    assert (doc + [t])[..|doc|] == doc;
  }

  lemma TermsGrow(doc: Doc, t: DocToken)
    ensures TermsOf(doc + [t]) == TermsOf(doc) + {t.term}
  {
    var more := doc + [t];
    assert more[|doc|] == t;
    forall u | u in TermsOf(doc)
      ensures u in TermsOf(more)
    {
      var k :| 0 <= k < |doc| && doc[k].term == u;
      assert more[k] == doc[k];
    }
  }

  lemma FieldsGrow(doc: Doc, t: DocToken, u: Term)
    ensures FieldsOf(doc + [t], u) == FieldsOf(doc, u) + if u == t.term then {t.field} else {}
  {
    var more := doc + [t];
    assert more[|doc|] == t;
    forall f | f in FieldsOf(doc, u)
      ensures f in FieldsOf(more, u)
    {
      var k :| 0 <= k < |doc| && doc[k].term == u && doc[k].field == f;
      assert more[k] == doc[k];
    }
  }

  lemma {:induction false} NoPositions(doc: Doc, term: Term, field: nat)
    ensures field !in FieldsOf(doc, term) ==> PositionsOf(doc, term, field) == []
  {
    if doc != [] {
      var front, last := doc[..|doc| - 1], doc[|doc| - 1];
      assert doc == front + [last];
      FieldsGrow(front, last, term);
      NoPositions(front, term, field);
    }
  }

  /** The tokens of a row, grouped by term and field as the source groups them. */
  method GroupTokens(fts: FtsDef, record: Record) returns (perTerm: map<Term, Cell>, doclen: nat)
    ensures perTerm == Grouped(DocOf(fts, record)) && doclen == |DocOf(fts, record)|
  {
    hide Grouped, Push;
    perTerm, doclen := map[], 0;
    GroupedNothing();
    for n := 0 to |fts.columns|
      invariant perTerm == Grouped(DocUpTo(fts, record, n)) && doclen == |DocUpTo(fts, record, n)|
    {
      ghost var before := DocUpTo(fts, record, n);
      var tokens := ColumnTokens(fts, record, fts.columns[n]);
      assert before + tokens[..0] == before;
      for i := 0 to |tokens|
        invariant perTerm == Grouped(before + tokens[..i]) && doclen == |before| + i
      {
        assert before + tokens[..i + 1] == before + tokens[..i] + [tokens[i]];
        PushGroups(before + tokens[..i], tokens[i]);
        perTerm := Push(perTerm, tokens[i]);
        doclen := doclen + 1;
      }
      assert tokens[..|tokens|] == tokens;
    }
  }

  lemma GroupedNothing()
    ensures Grouped([]) == map[]
  {
  }

  // ------------------------------------------------------- terms in key order

  ghost predicate IsLeast(t: Term, s: set<Term>) {
    t in s && forall u :: u in s ==> t == u || KeyEnc.Less(t, u)
  }

  lemma {:induction false} LeastExists(s: set<Term>) returns (t: Term)
    requires s != {}
    ensures IsLeast(t, s)
    decreases |s|
  {
    t :| t in s;
    if s != {t} {
      var rest := s - {t};
      var u := LeastExists(rest);
      KeyEnc.LessTotal(t, u);
      if KeyEnc.Less(t, u) {
        forall v | v in s
          ensures t == v || KeyEnc.Less(t, v)
        {
          if v != t && v != u {
            KeyEnc.LessTransitive(t, u, v);
          }
        }
      } else {
        t := u;
      }
    }
  }

  /** A set of terms in the order of a sorted map. */
  ghost function SortedTerms(s: set<Term>): (ts: seq<Term>)
    ensures |ts| == |s| && (forall t :: t in ts <==> t in s)
    ensures forall i, j :: 0 <= i < j < |ts| ==> ts[i] != ts[j]
  {
    if s == {} then []
    else
      LeastOf(s);
      var t :| IsLeast(t, s);
      var rest := SortedTerms(s - {t});
      [t] + rest
  }

  lemma LeastOf(s: set<Term>)
    requires s != {}
    ensures exists t :: IsLeast(t, s)
  {
    var t := LeastExists(s);
  }

  lemma LeastIsUnique(s: set<Term>, t: Term, u: Term)
    requires IsLeast(t, s) && IsLeast(u, s)
    ensures t == u
  {
    if t != u {
      KeyEnc.LessAsymmetric(t, u);
    }
  }

  lemma SortedUnfold(s: set<Term>, t: Term)
    requires IsLeast(t, s)
    ensures SortedTerms(s) == [t] + SortedTerms(s - {t})
  {
    var u :| IsLeast(u, s) && SortedTerms(s) == [u] + SortedTerms(s - {u});
    LeastIsUnique(s, t, u);
  }

  method KeysInOrder(keys: set<Term>) returns (ts: seq<Term>)
    ensures ts == SortedTerms(keys)
  {
    hide SortedTerms, IsLeast;
    ts := [];
    var left := keys;
    assert [] + SortedTerms(keys) == SortedTerms(keys);
    while left != {}
      invariant ts + SortedTerms(left) == SortedTerms(keys)
      decreases |left|
    {
      var t := PickLeast(left);
      TakeLeast(ts, left, t);
      ts := ts + [t];
      left := left - {t};
    }
    SortedNothing();
    assert ts + [] == ts;
  }

  lemma SortedNothing()
    ensures SortedTerms({}) == []
  {
  }

  lemma TakeLeast(ts: seq<Term>, left: set<Term>, t: Term)
    requires IsLeast(t, left)
    ensures t in left
    ensures ts + [t] + SortedTerms(left - {t}) == ts + SortedTerms(left)
  {
    hide SortedTerms, KeyEnc.Less;
    SortedUnfold(left, t);
    Regroup(ts, t, SortedTerms(left - {t}));
  }

  lemma Regroup(ts: seq<Term>, t: Term, rest: seq<Term>)
    ensures ts + ([t] + rest) == ts + [t] + rest
  {
  }

  method PickLeast(s: set<Term>) returns (t: Term)
    requires s != {}
    ensures IsLeast(t, s)
  {
    t :| t in s;
    var left := s - {t};
    while left != {}
      invariant t in s && left <= s
      invariant forall u :: u in s - left ==> t == u || KeyEnc.Less(t, u)
      decreases |left|
    {
      var u :| u in left;
      KeyEnc.LessTotal(t, u);
      if KeyEnc.Less(u, t) {
        forall v | v in s - left
          ensures u == v || KeyEnc.Less(u, v)
        {
          if t != v {
            KeyEnc.LessTransitive(u, t, v);
          }
        }
        t := u;
      }
      left := left - {u};
    }
  }

  // ------------------------------------------------------------------- index

  datatype Index = Index(
    dict: map<Term, nat>, counter: Option<nat>, postings: map<(nat, int), Cell>,
    df: map<Term, nat>, doclen: map<int, nat>, global: Option<(nat, nat)>)

  const Empty: Index := Index(map[], None, map[], map[], map[], None)

  function NextId(ix: Index): (r: nat) {
    if ix.counter.Some? then ix.counter.value else 1
  }

  /** The dictionary with `term` in it. */
  function Allocated(ix: Index, term: Term): (r: Index)
    ensures term in r.dict
  {
    if term in ix.dict then ix
    else ix.(dict := ix.dict[term := NextId(ix)], counter := Some(NextId(ix) + 1))
  }

  /** A counter moved up or down; at zero its cell goes. */
  function Adjusted(m: map<Term, nat>, term: Term, add: bool): (r: map<Term, nat>) {
    var cur := if term in m then m[term] else 0;
    var next := if add then cur + 1 else SaturatingSub(cur, 1);
    if next == 0 then m - {term} else m[term := next]
  }

  function ApplyTerm(ix: Index, term: Term, rowid: int, cell: Cell, add: bool): (r: Index) {
    if add then
      var ix' := Allocated(ix, term);
      ix'.(postings := ix'.postings[(ix'.dict[term], rowid) := cell], df := Adjusted(ix'.df, term, true))
    else if term in ix.dict then
      ix.(postings := ix.postings - {(ix.dict[term], rowid)}, df := Adjusted(ix.df, term, false))
    else ix.(df := Adjusted(ix.df, term, false))
  }

  function ApplyTerms(ix: Index, ts: seq<Term>, g: map<Term, Cell>, rowid: int, add: bool): (r: Index)
    requires forall t :: t in ts ==> t in g
  {
    if ts == [] then ix
    else ApplyTerm(ApplyTerms(ix, ts[..|ts| - 1], g, rowid, add), ts[|ts| - 1], rowid, g[ts[|ts| - 1]], add)
  }

  lemma ApplyTermsStep(ix: Index, ts: seq<Term>, k: nat, g: map<Term, Cell>, rowid: int, add: bool)
    requires k < |ts| && forall t :: t in ts ==> t in g
    ensures ts[k] in g && (forall t :: t in ts[..k] ==> t in g) && (forall t :: t in ts[..k + 1] ==> t in g)
    ensures ApplyTerms(ix, ts[..k + 1], g, rowid, add) ==
      ApplyTerm(ApplyTerms(ix, ts[..k], g, rowid, add), ts[k], rowid, g[ts[k]], add)
  {
    hide ApplyTerm;
    assert ts[..k + 1][..k] == ts[..k];
    assert ts[k] in ts;
  }

  lemma ApplyTermsWhole(ix: Index, ts: seq<Term>, g: map<Term, Cell>, rowid: int, add: bool)
    requires forall t :: t in ts ==> t in g
    ensures ts[..|ts|] == ts && (forall t :: t in ts[..0] ==> t in g)
    ensures ApplyTerms(ix, ts[..0], g, rowid, add) == ix
  {
  }

  /** The document's length, and the totals. */
  function ApplyStats(ix: Index, rowid: int, n: nat, add: bool): (r: Index) {
    var doclen := if !add then ix.doclen - {rowid} else if n > 0 then ix.doclen[rowid := n] else ix.doclen;
    var (docs, total) := if ix.global.Some? then ix.global.value else (0, 0);
    var docs' := if add then docs + 1 else SaturatingSub(docs, 1);
    var total' := if add then total + n else SaturatingSub(total, n);
    ix.(doclen := doclen, global := if docs' == 0 then None else Some((docs', total')))
  }

  ghost function ApplyDoc(ix: Index, rowid: int, doc: Doc, add: bool): (r: Index) {
    ApplyStats(ApplyTerms(ix, SortedTerms(TermsOf(doc)), Grouped(doc), rowid, add), rowid, |doc|, add)
  }

  /** `apply_fts_row`: one row's contribution, added or taken back. */
  method ApplyFtsRow(ix: Index, fts: FtsDef, rowid: int, record: Record, add: bool) returns (r: Index)
    ensures r == ApplyDoc(ix, rowid, DocOf(fts, record), add)
  {
    hide Grouped, SortedTerms, ApplyTerm, ApplyTerms, ApplyStats, TermsOf, DocOf;
    var perTerm, doclen := GroupTokens(fts, record);
    GroupedKeys(DocOf(fts, record));
    var ts := KeysInOrder(perTerm.Keys);
    r := ix;
    ApplyTermsWhole(ix, ts, perTerm, rowid, add);
    for k := 0 to |ts|
      invariant forall t :: t in ts[..k] ==> t in perTerm
      invariant r == ApplyTerms(ix, ts[..k], perTerm, rowid, add)
    {
      ApplyTermsStep(ix, ts, k, perTerm, rowid, add);
      r := ApplyTerm(r, ts[k], rowid, perTerm[ts[k]], add);
    }
    r := ApplyStats(r, rowid, doclen, add);
  }

  lemma GroupedKeys(doc: Doc)
    ensures Grouped(doc).Keys == TermsOf(doc)
    ensures forall t :: t in SortedTerms(TermsOf(doc)) ==> t in Grouped(doc)
  {
  }
}
