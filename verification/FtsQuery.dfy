/**
  Full-text queries (`src/catalog.rs`): against the index, against one row, and the
  meaning that both have.
*/
module FtsQuery {
  import opened Options
  import opened Bytes
  import opened LittleEndian
  import opened Fts
  import opened FtsUpkeep
  import opened SortedSets
  import opened Windows

  datatype Query =
    | TermQuery(text: ByteString, isPrefix: bool)
    | PhraseQuery(words: seq<ByteString>)
    | NearQuery(terms: seq<ByteString>, distance: nat)
    | ColumnQuery(column: ByteString, query: Query)
    | AndQuery(left: Query, right: Query)
    | OrQuery(left: Query, right: Query)
    | NotQuery(left: Query, right: Query)

  /** The column names of the table, and its full-text index. */
  datatype Schema = Schema(names: seq<ByteString>, fts: FtsDef)

  predicate ValidSchema(s: Schema) {
    && (forall i, j :: 0 <= i < j < |s.names| ==> s.names[i] != s.names[j])
    && forall k :: 0 <= k < |s.fts.columns| ==> s.fts.columns[k] < |s.names|
  }

  /** The column of that name. */
  function Position(names: seq<ByteString>, name: ByteString): (r: Option<nat>)
    ensures r.Some? ==> r.value < |names| && names[r.value] == name
    ensures r.None? ==> name !in names
  {
    if names == [] then None
    else if names[|names| - 1] == name && name !in names[..|names| - 1] then Some(|names| - 1)
    else
      assert names == names[..|names| - 1] + [names[|names| - 1]];
      Position(names[..|names| - 1], name)
  }

  /** The indexed column of that name; None where the query is refused. */
  function IndexedField(s: Schema, name: ByteString): (r: Option<nat>) {
    var p := Position(s.names, name);
    if p.Some? && p.value in s.fts.columns then p else None
  }

  /** Every column filter names an indexed column. */
  predicate Accepted(q: Query, s: Schema) {
    match q
    case ColumnQuery(name, query) => IndexedField(s, name).Some? && Accepted(query, s)
    case AndQuery(a, b) => Accepted(a, s) && Accepted(b, s)
    case OrQuery(a, b) => Accepted(a, s) && Accepted(b, s)
    case NotQuery(a, b) => Accepted(a, s) && Accepted(b, s)
    case _ => true
  }

  function Tokenized(fts: FtsDef, text: ByteString): (ts: seq<Term>)
    ensures |ts| == |fts.tokenize(text)| && forall i :: 0 <= i < |ts| ==> ts[i] == fts.tokenize(text)[i].term
  {
    var tokens := fts.tokenize(text);
    seq(|tokens|, i requires 0 <= i < |tokens| => tokens[i].term)
  }

  function TokenizedAll(fts: FtsDef, texts: seq<ByteString>): (r: seq<Term>) {
    if texts == [] then [] else TokenizedAll(fts, texts[..|texts| - 1]) + Tokenized(fts, texts[|texts| - 1])
  }

  // ----------------------------------------------------------------- meaning

  /** The words of several texts are those of the one, then those of the next. */
  lemma {:induction false} TokenizedInOrder(fts: FtsDef, first: seq<ByteString>, then': seq<ByteString>)
    ensures TokenizedAll(fts, []) == []
    ensures TokenizedAll(fts, first + then') == TokenizedAll(fts, first) + TokenizedAll(fts, then')
    ensures |then'| == 1 ==> TokenizedAll(fts, then') == Tokenized(fts, then'[0])
  {
    hide Tokenized;
    var all := first + then';
    if then' == [] {
      assert all == first;
    } else {
      var front := then'[..|then'| - 1];
      TokenizedInOrder(fts, first, front);
      assert all[..|all| - 1] == first + front;
    }
  }

  predicate FieldOk(field: Option<nat>, f: nat) {
    field.None? || field.value == f
  }

  predicate TermMatches(t: Term, word: Term, isPrefix: bool) {
    if isPrefix then word <= t else t == word
  }

  /** The term occurs. */
  ghost predicate HasTerm(doc: Doc, word: Term, isPrefix: bool, field: Option<nat>) {
    exists k :: 0 <= k < |doc| && FieldOk(field, doc[k].field) && TermMatches(doc[k].term, word, isPrefix)
  }

  /** The word is at position p of field f. */
  predicate At(doc: Doc, word: Term, f: nat, p: nat) {
    p < TWO_32 && DocToken(word, f, p) in doc
  }

  /** The words stand in order, one next to the other, from position p of field f. */
  predicate PhraseAt(doc: Doc, words: seq<Term>, f: nat, p: nat) {
    forall i :: 0 <= i < |words| ==> At(doc, words[i], f, p + i)
  }

  ghost predicate HasPhrase(doc: Doc, words: seq<Term>, field: Option<nat>) {
    words != [] && exists f: nat, p: nat :: FieldOk(field, f) && PhraseAt(doc, words, f, p)
  }

  /** One occurrence of every word, in field f, no two further apart than the distance. */
  ghost predicate NearIn(doc: Doc, words: seq<Term>, distance: nat, f: nat) {
    exists c: seq<nat> :: |c| == |words| && (forall i :: 0 <= i < |words| ==> At(doc, words[i], f, c[i])) && Within(c, distance)
  }

  ghost predicate HasNear(doc: Doc, words: seq<Term>, distance: nat, field: Option<nat>) {
    |words| >= 2 && exists f: nat :: FieldOk(field, f) && NearIn(doc, words, distance, f)
  }

  /** What a query says of one document. */
  ghost predicate Says(q: Query, doc: Doc, s: Schema, field: Option<nat>)
    requires Accepted(q, s)
  {
    match q
    case TermQuery(text, isPrefix) =>
      var words := Tokenized(s.fts, text);
      if |words| == 1 then HasTerm(doc, words[0], isPrefix, field) else HasPhrase(doc, words, field)
    case PhraseQuery(texts) => HasPhrase(doc, TokenizedAll(s.fts, texts), field)
    case NearQuery(texts, distance) => HasNear(doc, TokenizedAll(s.fts, texts), distance, field)
    case ColumnQuery(name, query) => Says(query, doc, s, IndexedField(s, name))
    case AndQuery(a, b) => Says(a, doc, s, field) && Says(b, doc, s, field)
    case OrQuery(a, b) => Says(a, doc, s, field) || Says(b, doc, s, field)
    case NotQuery(a, b) => Says(a, doc, s, field) && !Says(b, doc, s, field)
  }

  // ------------------------------------------------------- postings of a term

  datatype Posting = Posting(rowid: int, field: nat, pos: nat)

  /** The word is at that place of a live row. */
  predicate TokenAt(docs: Docs, word: Term, p: Posting) {
    p.rowid in docs && At(docs[p.rowid], word, p.field, p.pos)
  }

  predicate InCell(ix: Index, id: nat, p: Posting) {
    (id, p.rowid) in ix.postings && p.field in ix.postings[(id, p.rowid)]
      && p.pos < TWO_32 && p.pos in ix.postings[(id, p.rowid)][p.field]
  }

  /** A posting cell holds exactly the places of its term. */
  lemma CellsAreTokens(ix: Index, docs: Docs, word: Term, p: Posting)
    requires Matches(ix, docs) && word in ix.dict
    ensures InCell(ix, ix.dict[word], p) <==> TokenAt(docs, word, p)
  {
    hide DfOk, DoclenOk, GlobalOk, DictOk, TermsOf;
    var cells := AllCells(docs);
    PostingMeansCell(ix, cells, word, p.rowid);
    InAllCells(docs, word, p.rowid);
    if p.rowid in docs && p.pos < TWO_32 {
      PositionsAreTokens(docs[p.rowid], word, p.field, p.pos);
      FieldsOfToken(docs[p.rowid], word, p.field, p.pos);
    }
  }

  lemma FieldsOfToken(doc: Doc, word: Term, f: nat, p: U32)
    ensures DocToken(word, f, p) in doc ==> f in FieldsOf(doc, word) && word in TermsOf(doc)
  {
  }

  /** A term not in the dictionary is in no row. */
  lemma UnknownTerm(ix: Index, docs: Docs, word: Term, p: Posting)
    requires Matches(ix, docs) && word !in ix.dict
    ensures !TokenAt(docs, word, p)
  {
    hide DfOk, DoclenOk, GlobalOk, DictOk, TermsOf;
    InAllCells(docs, word, p.rowid);
    if p.rowid in docs && p.pos < TWO_32 {
      FieldsOfToken(docs[p.rowid], word, p.field, p.pos);
    }
  }

  /** `scan_term_postings`: the cells of one term, spelled out. */
  method ScanTerm(ix: Index, id: nat) returns (out: seq<Posting>)
    ensures forall p: Posting :: p in out <==> InCell(ix, id, p)
  {
    var keys := set k | k in ix.postings && k.0 == id;
    var left := keys;
    out := [];
    while left != {}
      invariant left <= keys
      invariant forall p: Posting :: p in out <==> InCell(ix, id, p) && (id, p.rowid) !in left
      decreases |left|
    {
      var k :| k in left;
      assert k == (id, k.1);
      var more := Expand(k.1, ix.postings[k]);
      out := out + more;
      left := left - {k};
    }
  }

  /** `decode_posting_value`: one posting for each position of each field. */
  method Expand(rowid: int, cell: Cell) returns (out: seq<Posting>)
    ensures forall p: Posting :: p in out <==>
      p.rowid == rowid && p.field in cell && p.pos < TWO_32 && p.pos in cell[p.field]
  {
    var left := cell.Keys;
    out := [];
    while left != {}
      invariant left <= cell.Keys
      invariant forall p: Posting :: p in out <==>
        p.rowid == rowid && p.field in cell && p.field !in left && p.pos < TWO_32 && p.pos in cell[p.field]
      decreases |left|
    {
      var f :| f in left;
      var positions := cell[f];
      var more := seq(|positions|, i requires 0 <= i < |positions| => Posting(rowid, f, positions[i]));
      PostingsOf(rowid, f, positions, more);
      out := out + more;
      left := left - {f};
    }
  }

  lemma PostingsOf(rowid: int, f: nat, positions: seq<U32>, more: seq<Posting>)
    requires |more| == |positions| && forall i :: 0 <= i < |more| ==> more[i] == Posting(rowid, f, positions[i])
    ensures forall p: Posting :: p in more <==> p.rowid == rowid && p.field == f && p.pos < TWO_32 && p.pos in positions
  {
    forall p: Posting | p.rowid == rowid && p.field == f && p.pos < TWO_32 && p.pos in positions
      ensures p in more
    {
      var i :| 0 <= i < |positions| && positions[i] == p.pos;
      assert more[i] == p;
    }
  }

  method TermPostings(ix: Index, word: Term, ghost docs: Docs) returns (out: seq<Posting>)
    requires Matches(ix, docs)
    ensures forall p: Posting :: p in out <==> TokenAt(docs, word, p)
  {
    hide Matches, TokenAt, InCell;
    if word !in ix.dict {
      forall p: Posting
        ensures !TokenAt(docs, word, p)
      {
        UnknownTerm(ix, docs, word, p);
      }
      return [];
    }
    out := ScanTerm(ix, ix.dict[word]);
    forall p: Posting
      ensures InCell(ix, ix.dict[word], p) <==> TokenAt(docs, word, p)
    {
      CellsAreTokens(ix, docs, word, p);
    }
  }

  ghost predicate PrefixAt(docs: Docs, word: Term, p: Posting) {
    exists t :: word <= t && TokenAt(docs, t, p)
  }

  /** The postings of every dictionary word that begins with `word`. */
  method PrefixPostings(ix: Index, word: Term, ghost docs: Docs) returns (out: seq<Posting>)
    requires Matches(ix, docs)
    ensures forall p: Posting :: p in out <==> PrefixAt(docs, word, p)
  {
    hide Matches, TokenAt;
    var words := set t | t in ix.dict && word <= t;
    var left := words;
    out := [];
    while left != {}
      invariant left <= words
      invariant forall p: Posting :: p in out <==> exists t :: t in words && t !in left && TokenAt(docs, t, p)
      decreases |left|
    {
      var t :| t in left;
      var more := TermPostings(ix, t, docs);
      out := out + more;
      left := left - {t};
    }
    forall p: Posting
      ensures (exists t :: t in words && TokenAt(docs, t, p)) <==> PrefixAt(docs, word, p)
    {
      if t :| word <= t && TokenAt(docs, t, p) {
        if t !in ix.dict {
          UnknownTerm(ix, docs, t, p);
        }
        assert t in words;
      }
    }
  }

  method DistinctRowids(postings: seq<Posting>, field: Option<nat>) returns (out: seq<int>)
    ensures Ascending(out)
    ensures forall r :: r in out <==> exists p :: p in postings && p.rowid == r && FieldOk(field, p.field)
  {
    var ids: seq<int> := [];
    for k := 0 to |postings|
      invariant forall r :: r in ids <==> exists p :: p in postings[..k] && p.rowid == r && FieldOk(field, p.field)
    {
      assert postings[..k + 1] == postings[..k] + [postings[k]];
      if FieldOk(field, postings[k].field) {
        ids := ids + [postings[k].rowid];
      }
    }
    assert postings[..|postings|] == postings;
    out := SortDistinct(ids);
  }

  // ------------------------------------------------------ terms and phrases

  lemma TokenMeansTerm(docs: Docs, word: Term, field: Option<nat>, r: int)
    ensures (exists p :: TokenAt(docs, word, p) && p.rowid == r && FieldOk(field, p.field)) <==>
      r in docs && HasTerm(docs[r], word, false, field)
  {
    if r in docs && HasTerm(docs[r], word, false, field) {
      var k :| 0 <= k < |docs[r]| && FieldOk(field, docs[r][k].field) && TermMatches(docs[r][k].term, word, false);
      var t := docs[r][k];
      assert TokenAt(docs, word, Posting(r, t.field, t.pos));
    }
    if p :| TokenAt(docs, word, p) && p.rowid == r && FieldOk(field, p.field) {
      var k :| 0 <= k < |docs[r]| && docs[r][k] == DocToken(word, p.field, p.pos);
      assert TermMatches(docs[r][k].term, word, false);
    }
  }

  lemma PrefixMeansTerm(docs: Docs, word: Term, field: Option<nat>, r: int)
    ensures (exists p :: PrefixAt(docs, word, p) && p.rowid == r && FieldOk(field, p.field)) <==>
      r in docs && HasTerm(docs[r], word, true, field)
  {
    if r in docs && HasTerm(docs[r], word, true, field) {
      var k :| 0 <= k < |docs[r]| && FieldOk(field, docs[r][k].field) && TermMatches(docs[r][k].term, word, true);
      var t := docs[r][k];
      assert TokenAt(docs, t.term, Posting(r, t.field, t.pos));
      assert PrefixAt(docs, word, Posting(r, t.field, t.pos));
    }
    if p :| PrefixAt(docs, word, p) && p.rowid == r && FieldOk(field, p.field) {
      var t :| word <= t && TokenAt(docs, t, p);
      var k :| 0 <= k < |docs[r]| && docs[r][k] == DocToken(t, p.field, p.pos);
      assert TermMatches(docs[r][k].term, word, true);
    }
  }

  method TermRowids(ix: Index, word: Term, isPrefix: bool, field: Option<nat>, ghost docs: Docs) returns (out: seq<int>)
    requires Matches(ix, docs)
    ensures Ascending(out) && forall r :: r in out <==> r in docs && HasTerm(docs[r], word, isPrefix, field)
  {
    hide Matches, TokenAt, PrefixAt, HasTerm;
    var postings;
    if isPrefix {
      postings := PrefixPostings(ix, word, docs);
    } else {
      postings := TermPostings(ix, word, docs);
    }
    out := DistinctRowids(postings, field);
    forall r
      ensures r in out <==> r in docs && HasTerm(docs[r], word, isPrefix, field)
    {
      if isPrefix {
        PrefixMeansTerm(docs, word, field, r);
      } else {
        TokenMeansTerm(docs, word, field, r);
      }
    }
  }

  lemma OneWordPhrase(doc: Doc, word: Term, field: Option<nat>)
    ensures HasPhrase(doc, [word], field) <==> HasTerm(doc, word, false, field)
  {
    if HasTerm(doc, word, false, field) {
      var k :| 0 <= k < |doc| && FieldOk(field, doc[k].field) && TermMatches(doc[k].term, word, false);
      assert PhraseAt(doc, [word], doc[k].field, doc[k].pos);
    }
    if HasPhrase(doc, [word], field) {
      var f: nat, p: nat :| FieldOk(field, f) && PhraseAt(doc, [word], f, p);
      assert At(doc, [word][0], f, p + 0);
      var k :| 0 <= k < |doc| && doc[k] == DocToken(word, f, p);
      assert TermMatches(doc[k].term, word, false);
    }
  }

  /** The phrase stands at this posting of its first word. */
  predicate PhraseFrom(docs: Docs, words: seq<Term>, p: Posting) {
    p.rowid in docs && PhraseAt(docs[p.rowid], words, p.field, p.pos)
  }

  /** The later words of a phrase, looked up one by one. */
  method RestFollows(rest: seq<set<Posting>>, p: Posting, ghost words: seq<Term>, ghost docs: Docs) returns (ok: bool)
    requires words != [] && |rest| == |words| - 1 && TokenAt(docs, words[0], p)
    requires forall k, q :: 0 <= k < |rest| ==> (q in rest[k] <==> TokenAt(docs, words[k + 1], q))
    ensures ok <==> PhraseFrom(docs, words, p)
  {
    for k := 0 to |rest|
      invariant forall i :: 0 <= i < k + 1 ==> At(docs[p.rowid], words[i], p.field, p.pos + i)
    {
      var want := p.pos + k + 1;
      if want >= TWO_32 || Posting(p.rowid, p.field, want) !in rest[k] {
        assert !At(docs[p.rowid], words[k + 1], p.field, p.pos + (k + 1));
        return false;
      }
    }
    return true;
  }

  method PhraseRowids(ix: Index, words: seq<Term>, field: Option<nat>, ghost docs: Docs) returns (out: seq<int>)
    requires Matches(ix, docs)
    ensures Ascending(out) && forall r :: r in out <==> r in docs && HasPhrase(docs[r], words, field)
  {
    hide Matches, PhraseAt, At, HasTerm;
    if |words| == 0 {
      return [];
    }
    if |words| == 1 {
      out := TermRowids(ix, words[0], false, field, docs);
      assert words == [words[0]];
      forall r | r in docs
        ensures HasPhrase(docs[r], words, field) <==> HasTerm(docs[r], words[0], false, field)
      {
        OneWordPhrase(docs[r], words[0], field);
      }
      return;
    }
    var first := TermPostings(ix, words[0], docs);
    var rest := RestSets(ix, words, docs);
    var ids: seq<int> := [];
    for k := 0 to |first|
      invariant forall r :: r in ids <==> PhraseAmong(docs, words, field, first[..k], r)
    {
      assert first[..k + 1] == first[..k] + [first[k]];
      var p := first[k];
      assert TokenAt(docs, words[0], p);
      var ok := RestFollows(rest, p, words, docs);
      PhraseAmongMore(docs, words, field, first[..k], p);
      if FieldOk(field, p.field) && ok {
        ids := ids + [p.rowid];
      }
    }
    assert first[..|first|] == first;
    out := SortDistinct(ids);
    forall r
      ensures PhraseAmong(docs, words, field, first, r) <==> r in docs && HasPhrase(docs[r], words, field)
    {
      PhraseMeansFirst(docs, words, field, first, r);
    }
  }

  /** The phrase stands in row r at one of these postings. */
  ghost predicate PhraseAmong(docs: Docs, words: seq<Term>, field: Option<nat>, ps: seq<Posting>, r: int) {
    exists p :: p in ps && p.rowid == r && FieldOk(field, p.field) && PhraseFrom(docs, words, p)
  }

  lemma PhraseAmongMore(docs: Docs, words: seq<Term>, field: Option<nat>, ps: seq<Posting>, p: Posting)
    ensures forall r :: PhraseAmong(docs, words, field, ps + [p], r) <==>
      PhraseAmong(docs, words, field, ps, r) || (p.rowid == r && FieldOk(field, p.field) && PhraseFrom(docs, words, p))
  {
    hide PhraseFrom;
    var more := ps + [p];
    forall r
      ensures PhraseAmong(docs, words, field, more, r) <==>
        PhraseAmong(docs, words, field, ps, r) || (p.rowid == r && FieldOk(field, p.field) && PhraseFrom(docs, words, p))
    {
      if q :| q in ps && q.rowid == r && FieldOk(field, q.field) && PhraseFrom(docs, words, q) {
        assert q in more;
      }
      assert p in more;
    }
  }

  lemma PhraseMeansFirst(docs: Docs, words: seq<Term>, field: Option<nat>, first: seq<Posting>, r: int)
    requires words != [] && forall p: Posting :: p in first <==> TokenAt(docs, words[0], p)
    ensures PhraseAmong(docs, words, field, first, r) <==> r in docs && HasPhrase(docs[r], words, field)
  {
    if r in docs && HasPhrase(docs[r], words, field) {
      var f: nat, p: nat :| FieldOk(field, f) && PhraseAt(docs[r], words, f, p);
      assert At(docs[r], words[0], f, p + 0);
      assert TokenAt(docs, words[0], Posting(r, f, p));
      assert Posting(r, f, p) in first && PhraseFrom(docs, words, Posting(r, f, p));
    }
  }

  method RestSets(ix: Index, words: seq<Term>, ghost docs: Docs) returns (rest: seq<set<Posting>>)
    requires Matches(ix, docs) && words != []
    ensures |rest| == |words| - 1
    ensures forall k, q :: 0 <= k < |rest| ==> (q in rest[k] <==> TokenAt(docs, words[k + 1], q))
  {
    hide Matches, TokenAt;
    rest := [];
    while |rest| < |words| - 1
      invariant |rest| <= |words| - 1
      invariant forall k, q :: 0 <= k < |rest| ==> (q in rest[k] <==> TokenAt(docs, words[k + 1], q))
    {
      var postings := TermPostings(ix, words[|rest| + 1], docs);
      rest := rest + [set p | p in postings];
    }
  }

  // -------------------------------------------------------------------- near

  type Places = map<(int, nat), seq<nat>>

  /** Where a word is, by row and field. */
  ghost predicate PlacesOf(m: Places, docs: Docs, word: Term, field: Option<nat>) {
    && (forall k :: k in m ==> m[k] != [])
    && forall r: int, f: nat, p: nat ::
      PlaceIn(m, r, f, p) <==> FieldOk(field, f) && TokenAt(docs, word, Posting(r, f, p))
  }

  predicate PlaceIn(m: Places, r: int, f: nat, p: nat) {
    (r, f) in m && p in m[(r, f)]
  }

  function PushPlace(m: Places, p: Posting): (r: Places) {
    var k := (p.rowid, p.field);
    var before := if k in m then m[k] else [];
    m[k := before + [p.pos]]
  }

  method CollectPlaces(ix: Index, word: Term, field: Option<nat>, ghost docs: Docs) returns (m: Places)
    requires Matches(ix, docs)
    ensures PlacesOf(m, docs, word, field)
  {
    hide Matches, TokenAt;
    var postings := TermPostings(ix, word, docs);
    m := map[];
    for i := 0 to |postings|
      invariant forall k :: k in m ==> m[k] != []
      invariant forall r: int, f: nat, p: nat :: PlaceIn(m, r, f, p) <==> FieldOk(field, f) && Posting(r, f, p) in postings[..i]
    {
      assert postings[..i + 1] == postings[..i] + [postings[i]];
      var q := postings[i];
      if FieldOk(field, q.field) {
        ghost var before := m;
        m := PushPlace(m, q);
        assert forall r: int, f: nat, p: nat ::
          PlaceIn(m, r, f, p) <==> PlaceIn(before, r, f, p) || Posting(r, f, p) == q;
      }
    }
    assert postings[..|postings|] == postings;
  }

  method AllPlaces(ix: Index, words: seq<Term>, field: Option<nat>, ghost docs: Docs) returns (ms: seq<Places>)
    requires Matches(ix, docs)
    ensures |ms| == |words| && forall i :: 0 <= i < |ms| ==> PlacesOf(ms[i], docs, words[i], field)
  {
    hide Matches, PlacesOf;
    ms := [];
    while |ms| < |words|
      invariant |ms| <= |words| && forall i :: 0 <= i < |ms| ==> PlacesOf(ms[i], docs, words[i], field)
    {
      var m := CollectPlaces(ix, words[|ms|], field, docs);
      ms := ms + [m];
    }
  }

  method InAll(ms: seq<Places>, k: (int, nat)) returns (all: bool)
    ensures all <==> forall i :: 0 <= i < |ms| ==> k in ms[i]
  {
    for i := 0 to |ms|
      invariant forall j :: 0 <= j < i ==> k in ms[j]
    {
      if k !in ms[i] {
        return false;
      }
    }
    return true;
  }

  lemma ChoiceNeedsAll(groups: seq<seq<nat>>, c: seq<nat>)
    requires IsChoice(groups, c)
    ensures [] !in groups
  {
    forall g | 0 <= g < |groups|
      ensures groups[g] != []
    {
      assert c[g] in groups[g];
    }
  }

  /** The narrowest window decides nearness. */
  lemma SpanDecides(groups: seq<seq<nat>>, best: Option<nat>, distance: nat)
    requires groups != [] && (best.None? <==> groups == [] || [] in groups)
    requires best.Some? ==> IsMinSpan(groups, best.value)
    ensures (best.Some? && best.value <= distance) <==> exists c :: IsChoice(groups, c) && Within(c, distance)
  {
    if best.Some? && best.value <= distance {
      var c :| IsChoice(groups, c) && HasSpan(c, best.value);
      assert Within(c, distance);
    }
    if c :| IsChoice(groups, c) && Within(c, distance) {
      ChoiceNeedsAll(groups, c);
      var s := SpanOf(c);
      var i, j :| 0 <= i < |c| && 0 <= j < |c| && c[i] == c[j] + s;
      assert c[i] - c[j] <= distance;
    }
  }

  /** Groups of positions stand for a document's words in one field. */
  ghost predicate GroupsOf(groups: seq<seq<nat>>, doc: Doc, words: seq<Term>, f: nat) {
    |groups| == |words| && forall i, p: nat :: 0 <= i < |words| ==> (p in groups[i] <==> At(doc, words[i], f, p))
  }

  lemma ChoiceMeansNear(groups: seq<seq<nat>>, doc: Doc, words: seq<Term>, distance: nat, f: nat)
    requires GroupsOf(groups, doc, words, f)
    ensures (exists c :: IsChoice(groups, c) && Within(c, distance)) <==> NearIn(doc, words, distance, f)
  {
    hide At;
    if c :| IsChoice(groups, c) && Within(c, distance) {
      assert forall i :: 0 <= i < |words| ==> At(doc, words[i], f, c[i]);
    }
    if NearIn(doc, words, distance, f) {
      var c: seq<nat> :| |c| == |words| && (forall i :: 0 <= i < |words| ==> At(doc, words[i], f, c[i])) && Within(c, distance);
      assert IsChoice(groups, c);
    }
  }

  method IsNear(groups: seq<seq<nat>>, distance: nat, ghost doc: Doc, ghost words: seq<Term>, ghost f: nat) returns (near: bool)
    requires groups != [] && GroupsOf(groups, doc, words, f)
    ensures near <==> NearIn(doc, words, distance, f)
  {
    hide IsMinSpan, IsChoice, Within;
    var best := MinWindowSpan(groups);
    SpanDecides(groups, best, distance);
    ChoiceMeansNear(groups, doc, words, distance, f);
    return best.Some? && best.value <= distance;
  }

  lemma GroupsFromPlaces(ms: seq<Places>, docs: Docs, words: seq<Term>, field: Option<nat>, k: (int, nat), groups: seq<seq<nat>>)
    requires |ms| == |words| == |groups| && words != []
    requires forall i :: 0 <= i < |ms| ==> PlacesOf(ms[i], docs, words[i], field) && k in ms[i] && groups[i] == ms[i][k]
    ensures k.0 in docs && FieldOk(field, k.1) && GroupsOf(groups, docs[k.0], words, k.1)
  {
    hide At;
    PlaceExists(ms[0], docs, words[0], field, k);
    forall i, p: nat | 0 <= i < |words|
      ensures p in groups[i] <==> At(docs[k.0], words[i], k.1, p)
    {
      assert k == (k.0, k.1);
      assert PlacesOf(ms[i], docs, words[i], field);
      assert PlaceIn(ms[i], k.0, k.1, p) <==> p in groups[i];
      assert TokenAt(docs, words[i], Posting(k.0, k.1, p)) <==> At(docs[k.0], words[i], k.1, p);
    }
  }

  lemma PlaceExists(m: Places, docs: Docs, word: Term, field: Option<nat>, k: (int, nat))
    requires PlacesOf(m, docs, word, field) && k in m
    ensures k.0 in docs && FieldOk(field, k.1)
  {
    hide At;
    var p := m[k][0];
    assert PlaceIn(m, k.0, k.1, p);
    assert TokenAt(docs, word, Posting(k.0, k.1, p));
  }

  /** A row where the words are near each other has a place for each of them, in one field. */
  lemma NearHasPlaces(ms: seq<Places>, docs: Docs, words: seq<Term>, field: Option<nat>, distance: nat, r: int, f: nat)
    requires |ms| == |words| && forall i :: 0 <= i < |ms| ==> PlacesOf(ms[i], docs, words[i], field)
    ensures NearAt(docs, words, distance, field, r, f) ==> forall i :: 0 <= i < |ms| ==> (r, f) in ms[i]
  {
    if NearAt(docs, words, distance, field, r, f) {
      NearPlaces(ms, docs, words, field, distance, r, f);
    }
  }

  ghost predicate NearAt(docs: Docs, words: seq<Term>, distance: nat, field: Option<nat>, r: int, f: nat) {
    r in docs && FieldOk(field, f) && NearIn(docs[r], words, distance, f)
  }

  lemma NearPlaces(ms: seq<Places>, docs: Docs, words: seq<Term>, field: Option<nat>, distance: nat, r: int, f: nat)
    requires |ms| == |words| && forall i :: 0 <= i < |ms| ==> PlacesOf(ms[i], docs, words[i], field)
    requires NearAt(docs, words, distance, field, r, f)
    ensures forall i :: 0 <= i < |ms| ==> (r, f) in ms[i]
  {
    hide At;
    var c: seq<nat> :| |c| == |words| && (forall i :: 0 <= i < |words| ==> At(docs[r], words[i], f, c[i])) && Within(c, distance);
    forall i | 0 <= i < |ms|
      ensures (r, f) in ms[i]
    {
      assert TokenAt(docs, words[i], Posting(r, f, c[i]));
      assert PlaceIn(ms[i], r, f, c[i]);
    }
  }

  method NearRowids(ix: Index, words: seq<Term>, distance: nat, field: Option<nat>, ghost docs: Docs) returns (out: seq<int>)
    requires Matches(ix, docs)
    ensures Ascending(out) && forall r :: r in out <==> r in docs && HasNear(docs[r], words, distance, field)
  {
    hide Matches, PlacesOf, NearIn, GroupsOf;
    if |words| < 2 {
      return [];
    }
    var ms := AllPlaces(ix, words, field, docs);
    var left := ms[0].Keys;
    var ids: seq<int> := [];
    while left != {}
      invariant left <= ms[0].Keys
      invariant forall r :: r in ids ==> r in docs && HasNear(docs[r], words, distance, field)
      invariant forall r: int, f: nat ::
        (r, f) in ms[0].Keys - left && NearAt(docs, words, distance, field, r, f) ==> r in ids
      decreases |left|
    {
      var k :| k in left;
      var all := InAll(ms, k);
      if all {
        var groups := seq(|ms|, i requires 0 <= i < |ms| => ms[i][k]);
        GroupsFromPlaces(ms, docs, words, field, k, groups);
        var near := IsNear(groups, distance, docs[k.0], words, k.1);
        if near {
          assert HasNear(docs[k.0], words, distance, field);
          ids := ids + [k.0];
        }
      } else {
        NearHasPlaces(ms, docs, words, field, distance, k.0, k.1);
      }
      left := left - {k};
    }
    out := SortDistinct(ids);
    forall r | r in docs && HasNear(docs[r], words, distance, field)
      ensures r in ids
    {
      var f: nat :| FieldOk(field, f) && NearIn(docs[r], words, distance, f);
      assert NearAt(docs, words, distance, field, r, f);
      NearHasPlaces(ms, docs, words, field, distance, r, f);
      assert (r, f) in ms[0].Keys - left;
    }
  }

  // -------------------------------------------------------- whole queries

  method TokenizeEach(fts: FtsDef, texts: seq<ByteString>) returns (words: seq<Term>)
    ensures words == TokenizedAll(fts, texts)
  {
    words := [];
    for k := 0 to |texts|
      invariant words == TokenizedAll(fts, texts[..k])
    {
      assert texts[..k + 1][..k] == texts[..k];
      words := words + Tokenized(fts, texts[k]);
    }
    assert texts[..|texts|] == texts;
  }

  lemma NoWords(doc: Doc, field: Option<nat>)
    ensures !HasPhrase(doc, [], field)
  {
  }

  /** The index and the meaning agree: exactly the live rows of which the query is true, ascending, each once. */
  method EvalQuery(ix: Index, s: Schema, q: Query, field: Option<nat>, ghost docs: Docs) returns (out: seq<int>)
    requires Matches(ix, docs) && Accepted(q, s)
    ensures Ascending(out) && forall r :: r in out <==> r in docs && Says(q, docs[r], s, field)
    decreases q
  {
    hide Matches, HasTerm, HasPhrase, HasNear;
    match q {
      case TermQuery(text, isPrefix) =>
        var words := Tokenized(s.fts, text);
        if |words| == 0 {
          forall r | r in docs
            ensures !HasPhrase(docs[r], words, field)
          {
            NoWords(docs[r], field);
          }
          out := [];
        } else if |words| == 1 {
          out := TermRowids(ix, words[0], isPrefix, field, docs);
        } else {
          out := PhraseRowids(ix, words, field, docs);
        }
      case PhraseQuery(texts) =>
        var words := TokenizeEach(s.fts, texts);
        out := PhraseRowids(ix, words, field, docs);
      case NearQuery(texts, distance) =>
        var words := TokenizeEach(s.fts, texts);
        out := NearRowids(ix, words, distance, field, docs);
      case ColumnQuery(name, query) =>
        out := EvalQuery(ix, s, query, IndexedField(s, name), docs);
      case AndQuery(a, b) =>
        var ra := EvalQuery(ix, s, a, field, docs);
        var rb := EvalQuery(ix, s, b, field, docs);
        out := IntersectSorted(ra, rb);
      case OrQuery(a, b) =>
        var ra := EvalQuery(ix, s, a, field, docs);
        var rb := EvalQuery(ix, s, b, field, docs);
        out := UnionSorted(ra, rb);
      case NotQuery(a, b) =>
        var ra := EvalQuery(ix, s, a, field, docs);
        var rb := EvalQuery(ix, s, b, field, docs);
        out := DifferenceSorted(ra, rb);
    }
  }

  // --------------------------------------------------------------- one row

  method DocHasTerm(doc: Doc, word: Term, isPrefix: bool, field: Option<nat>) returns (r: bool)
    ensures r <==> HasTerm(doc, word, isPrefix, field)
  {
    for k := 0 to |doc|
      invariant forall i :: 0 <= i < k ==> !(FieldOk(field, doc[i].field) && TermMatches(doc[i].term, word, isPrefix))
    {
      if FieldOk(field, doc[k].field) && TermMatches(doc[k].term, word, isPrefix) {
        return true;
      }
    }
    return false;
  }

  method DocHasToken(doc: Doc, word: Term, f: nat, p: nat) returns (r: bool)
    requires p < TWO_32
    ensures r <==> At(doc, word, f, p)
  {
    for k := 0 to |doc|
      invariant forall i :: 0 <= i < k ==> doc[i] != DocToken(word, f, p)
    {
      if doc[k].term == word && doc[k].field == f && doc[k].pos == p {
        return true;
      }
    }
    return false;
  }

  method DocHasPhrase(doc: Doc, words: seq<Term>, field: Option<nat>) returns (r: bool)
    ensures r <==> HasPhrase(doc, words, field)
  {
    hide At;
    if |words| == 0 {
      return false;
    }
    if |words| == 1 {
      r := DocHasTerm(doc, words[0], false, field);
      assert words == [words[0]];
      OneWordPhrase(doc, words[0], field);
      return;
    }
    for k := 0 to |doc|
      invariant forall i :: 0 <= i < k && doc[i].term == words[0] && FieldOk(field, doc[i].field) ==>
        !PhraseAt(doc, words, doc[i].field, doc[i].pos)
    {
      if doc[k].term == words[0] && FieldOk(field, doc[k].field) {
        var ok := DocFollows(doc, words, k);
        if ok {
          return true;
        }
      }
    }
    PhraseStartsSomewhere(doc, words, field);
    return false;
  }

  method DocFollows(doc: Doc, words: seq<Term>, k: nat) returns (ok: bool)
    requires k < |doc| && |words| >= 2 && doc[k].term == words[0]
    ensures ok <==> PhraseAt(doc, words, doc[k].field, doc[k].pos)
  {
    var f, p := doc[k].field, doc[k].pos;
    assert doc[k] == DocToken(words[0], f, p);
    for i := 1 to |words|
      invariant forall j :: 0 <= j < i ==> At(doc, words[j], f, p + j)
    {
      var there := false;
      if p + i < TWO_32 {
        there := DocHasToken(doc, words[i], f, p + i);
      }
      if !there {
        assert !At(doc, words[i], f, p + i);
        return false;
      }
    }
    return true;
  }

  lemma PhraseStartsSomewhere(doc: Doc, words: seq<Term>, field: Option<nat>)
    requires words != []
    ensures HasPhrase(doc, words, field) ==>
      exists k :: 0 <= k < |doc| && doc[k].term == words[0] && FieldOk(field, doc[k].field)
        && PhraseAt(doc, words, doc[k].field, doc[k].pos)
  {
    if HasPhrase(doc, words, field) {
      var f: nat, p: nat :| FieldOk(field, f) && PhraseAt(doc, words, f, p);
      assert At(doc, words[0], f, p + 0);
      var k :| 0 <= k < |doc| && doc[k] == DocToken(words[0], f, p);
    }
  }

  method PositionsIn(doc: Doc, word: Term, f: nat) returns (ps: seq<nat>)
    ensures forall p: nat :: p in ps <==> At(doc, word, f, p)
  {
    ps := [];
    for k := 0 to |doc|
      invariant forall p: nat :: p in ps <==> p < TWO_32 && DocToken(word, f, p) in doc[..k]
    {
      assert doc[..k + 1] == doc[..k] + [doc[k]];
      if doc[k].term == word && doc[k].field == f {
        ps := ps + [doc[k].pos];
      }
    }
    assert doc[..|doc|] == doc;
  }

  method GroupsIn(doc: Doc, words: seq<Term>, f: nat) returns (groups: seq<seq<nat>>)
    ensures |groups| == |words| && GroupsOf(groups, doc, words, f)
  {
    hide At;
    groups := [];
    while |groups| < |words|
      invariant |groups| <= |words|
      invariant forall i, p: nat :: 0 <= i < |groups| ==> (p in groups[i] <==> At(doc, words[i], f, p))
    {
      var ps := PositionsIn(doc, words[|groups|], f);
      groups := groups + [ps];
    }
  }

  lemma NearNeedsField(doc: Doc, words: seq<Term>, distance: nat, f: nat)
    requires words != [] && NearIn(doc, words, distance, f)
    ensures exists k :: 0 <= k < |doc| && doc[k].field == f
  {
    var c: seq<nat> :| |c| == |words| && (forall i :: 0 <= i < |words| ==> At(doc, words[i], f, c[i])) && Within(c, distance);
    assert At(doc, words[0], f, c[0]);
    var k :| 0 <= k < |doc| && doc[k] == DocToken(words[0], f, c[0]);
  }

  method DocHasNear(doc: Doc, words: seq<Term>, distance: nat, field: Option<nat>) returns (r: bool)
    ensures r <==> HasNear(doc, words, distance, field)
  {
    hide NearIn, GroupsOf;
    if |words| < 2 {
      return false;
    }
    var fields := set k | 0 <= k < |doc| && FieldOk(field, doc[k].field) :: doc[k].field;
    var left := fields;
    while left != {}
      invariant left <= fields
      invariant forall f: nat :: f in fields - left ==> !NearIn(doc, words, distance, f)
      decreases |left|
    {
      var f :| f in left;
      var groups := GroupsIn(doc, words, f);
      var near := IsNear(groups, distance, doc, words, f);
      if near {
        return true;
      }
      left := left - {f};
    }
    forall f: nat | FieldOk(field, f) && NearIn(doc, words, distance, f)
      ensures f in fields
    {
      NearNeedsField(doc, words, distance, f);
    }
    return false;
  }

  /** The evaluator of one row has the same meaning, by other means. */
  method EvalDoc(q: Query, doc: Doc, s: Schema, field: Option<nat>) returns (r: bool)
    requires Accepted(q, s)
    ensures r <==> Says(q, doc, s, field)
    decreases q
  {
    hide HasTerm, HasPhrase, HasNear;
    match q {
      case TermQuery(text, isPrefix) =>
        var words := Tokenized(s.fts, text);
        NoWords(doc, field);
        if |words| == 0 {
          assert words == [];
          r := false;
        } else if |words| == 1 {
          r := DocHasTerm(doc, words[0], isPrefix, field);
        } else {
          r := DocHasPhrase(doc, words, field);
        }
      case PhraseQuery(texts) =>
        var words := TokenizeEach(s.fts, texts);
        r := DocHasPhrase(doc, words, field);
      case NearQuery(texts, distance) =>
        var words := TokenizeEach(s.fts, texts);
        r := DocHasNear(doc, words, distance, field);
      case ColumnQuery(name, query) =>
        r := EvalDoc(query, doc, s, IndexedField(s, name));
      case AndQuery(a, b) =>
        r := EvalDoc(a, doc, s, field);
        if r {
          r := EvalDoc(b, doc, s, field);
        }
      case OrQuery(a, b) =>
        r := EvalDoc(a, doc, s, field);
        if !r {
          r := EvalDoc(b, doc, s, field);
        }
      case NotQuery(a, b) =>
        r := EvalDoc(a, doc, s, field);
        if r {
          var no := EvalDoc(b, doc, s, field);
          r := !no;
        }
    }
  }

  /** `fts_row_matches`: tokenize the row's indexed columns, and evaluate. */
  method RowMatches(s: Schema, record: Record, q: Query) returns (r: bool)
    requires Accepted(q, s)
    ensures r <==> Says(q, DocOf(s.fts, record), s, None)
  {
    var doc: Doc := [];
    for n := 0 to |s.fts.columns|
      invariant doc == DocUpTo(s.fts, record, n)
    {
      doc := doc + ColumnTokens(s.fts, record, s.fts.columns[n]);
    }
    r := EvalDoc(q, doc, s, None);
  }

  /** The documents of a table's rows. */
  function DocsOf(fts: FtsDef, rows: map<int, Record>): (r: Docs) {
    map r | r in rows :: DocOf(fts, rows[r])
  }

  /**
    MATCH through the index is MATCH row by row.  After any history of inserts, updates
    and deletes, the search returns exactly the rows that the row evaluator accepts.
  */
  method SearchEqualsScan(s: Schema, q: Query, rows: map<int, Record>, ix: Index,
                          ghost ixs: seq<Index>, ghost states: seq<Docs>, ghost ops: seq<Op>)
    returns (found: seq<int>, scanned: set<int>)
    requires Accepted(q, s) && IsHistory(ixs, states, ops)
    requires ix == ixs[|ops|] && states[|ops|] == DocsOf(s.fts, rows)
    ensures Ascending(found) && forall r :: r in found <==> r in scanned
    ensures forall r :: r in scanned <==> r in rows && Says(q, DocOf(s.fts, rows[r]), s, None)
  {
    hide Says, DocOf, Matches;
    IndexAlwaysMatches(ixs, states, ops, |ops|);
    ghost var docs := DocsOf(s.fts, rows);
    found := EvalQuery(ix, s, q, None, docs);
    scanned := {};
    var left := rows.Keys;
    while left != {}
      invariant left <= rows.Keys
      invariant forall r :: r in scanned <==> r in rows && r !in left && Says(q, DocOf(s.fts, rows[r]), s, None)
      decreases |left|
    {
      SomeRow(left);
      var r :| r in left;
      var yes := RowMatches(s, rows[r], q);
      if yes {
        scanned := scanned + {r};
      }
      left := left - {r};
    }
  }
}
