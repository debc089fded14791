/**
  The pager's append zone (`src/pager.rs`): the directory that the sweep rebuilds, pages
  read through the cache, records written behind the last commit, and the logical
  truncation of a torn tail.
*/
module Pager {
  import opened Options
  import opened Bytes
  import opened LittleEndian
  import opened Commit
  import opened Records
  import opened PageCache
  import opened Recovery
  import Ecc

  /** Where a page's sealed payload lies. Offsets count from the start of the append zone. */
  datatype PhysLoc = PhysLoc(offset: nat, len: nat)

  /** The directory of records laid end to end from `offset`. */
  function Directory(nsym: nat, recs: seq<ByteString>, offset: nat): (dir: seq<PhysLoc>)
    requires nsym < 255 && AreRecords(nsym, recs)
    ensures |dir| == |recs|
    decreases |recs|
  {
    if recs == [] then []
    else
      assert AreRecords(nsym, recs[1..]);
      assert IsRecord(nsym, recs[0]);
      [PhysLoc(offset + LEN_PREFIX, |PayloadOf(nsym, recs[0])|)] + Directory(nsym, recs[1..], offset + |recs[0]|)
  }

  lemma DirectoryUnfold(nsym: nat, rec: ByteString, rest: seq<ByteString>, offset: nat)
    requires nsym < 255 && IsRecord(nsym, rec) && AreRecords(nsym, rest)
    ensures AreRecords(nsym, [rec] + rest)
    ensures Directory(nsym, [rec] + rest, offset) ==
      [PhysLoc(offset + LEN_PREFIX, |PayloadOf(nsym, rec)|)] + Directory(nsym, rest, offset + |rec|)
    ensures Joined([rec] + rest) == rec + Joined(rest)
  {
    hide RecordLen, FromLe, PayloadOf, IsRecord;
    assert ([rec] + rest)[1..] == rest;
  }

  lemma DirectoryNothing(nsym: nat, offset: nat)
    requires nsym < 255
    ensures AreRecords(nsym, []) && Directory(nsym, [], offset) == [] && Joined([]) == []
  {
  }

  lemma ConsConcat(a: seq<ByteString>, b: seq<ByteString>)
    requires a != []
    ensures a + b == [a[0]] + (a[1..] + b) && a == [a[0]] + a[1..]
  {
  }

  lemma {:induction false} DirectoryAppend(nsym: nat, a: seq<ByteString>, b: seq<ByteString>, offset: nat)
    requires nsym < 255 && AreRecords(nsym, a) && AreRecords(nsym, b)
    ensures AreRecords(nsym, a + b)
    ensures Directory(nsym, a + b, offset) == Directory(nsym, a, offset) + Directory(nsym, b, offset + |Joined(a)|)
    decreases |a|
  {
    hide IsRecord, PayloadOf, Directory, Joined;
    DirectoryNothing(nsym, offset);
    if a == [] {
      assert a + b == b;
    } else {
      var rest := a[1..];
      assert IsRecord(nsym, a[0]) && AreRecords(nsym, rest);
      DirectoryAppend(nsym, rest, b, offset + |a[0]|);
      ConsConcat(a, b);
      DirectoryUnfold(nsym, a[0], rest, offset);
      DirectoryUnfold(nsym, a[0], rest + b, offset);
    }
  }

  lemma DirectoryOne(nsym: nat, rec: ByteString, offset: nat)
    requires nsym < 255 && IsRecord(nsym, rec)
    ensures AreRecords(nsym, [rec]) && Joined([rec]) == rec
    ensures Directory(nsym, [rec], offset) == [PhysLoc(offset + LEN_PREFIX, |PayloadOf(nsym, rec)|)]
  {
    hide PayloadOf, Directory, Joined, IsRecord;
    DirectoryNothing(nsym, offset + |rec|);
    DirectoryUnfold(nsym, rec, [], offset);
    assert [rec] + [] == [rec] && rec + [] == rec;
  }

  /** Three parts laid end to end: the middle one is where the first ends. */
  lemma MiddleOfFile(a: ByteString, b: ByteString, c: ByteString, file: ByteString)
    requires a + (b + c) <= file
    ensures |a| + |b| <= |file| && file[|a|..|a| + |b|] == b
  {
    assert (a + (b + c))[|a|..|a| + |b|] == b;
  }

  /** The directory finds each record's payload and parity in the file. */
  lemma DirectoryLocates(nsym: nat, recs: seq<ByteString>, file: ByteString, i: nat)
    requires nsym < 255 && AreRecords(nsym, recs) && Joined(recs) <= file && i < |recs|
    ensures var loc := Directory(nsym, recs, 0)[i]; var rec := recs[i];
      && IsRecord(nsym, rec) && loc.len == |PayloadOf(nsym, rec)|
      && loc.offset + loc.len + ParityAfter(nsym, loc.len) <= |file|
      && file[loc.offset..loc.offset + loc.len] == PayloadOf(nsym, rec)
      && file[loc.offset + loc.len..loc.offset + loc.len + ParityAfter(nsym, loc.len)] == ParityOf(nsym, rec)
      && loc.offset + loc.len + ParityAfter(nsym, loc.len) == |Joined(recs[..i + 1])|
  {
    hide RecordLen, ParityAfter, FromLe, IsRecord, PayloadOf, ParityOf, Directory, Joined;
    var before, rec, after := recs[..i], recs[i], recs[i + 1..];
    assert recs == before + ([rec] + after);
    assert recs[..i + 1] == before + [rec];
    assert IsRecord(nsym, rec) && AreRecords(nsym, before) && AreRecords(nsym, after);
    DirectoryUnfold(nsym, rec, after, |Joined(before)|);
    DirectoryAppend(nsym, before, [rec] + after, 0);
    JoinedConcat(before, [rec] + after);
    JoinedConcat(before, [rec]);
    DirectoryOne(nsym, rec, 0);
    MiddleOfFile(Joined(before), rec, Joined(after), file);
    SlicesOfRecord(nsym, rec, file, |Joined(before)|);
  }

  lemma SlicesOfRecord(nsym: nat, rec: ByteString, file: ByteString, at: nat)
    requires nsym < 255 && IsRecord(nsym, rec) && at + |rec| <= |file| && file[at..at + |rec|] == rec
    ensures var o, n := at + LEN_PREFIX, |PayloadOf(nsym, rec)|;
      && |rec| == LEN_PREFIX + n + ParityAfter(nsym, n)
      && file[o..o + n] == PayloadOf(nsym, rec) && file[o + n..o + n + ParityAfter(nsym, n)] == ParityOf(nsym, rec)
  {
    hide FromLe, ParityAfter;
    var o, n := LEN_PREFIX, |PayloadOf(nsym, rec)|;
    SliceOfSlice(file, at, at + |rec|, o, o + n);
    SliceOfSlice(file, at, at + |rec|, o + n, |rec|);
    assert rec[o + n..] == rec[o + n..|rec|];
  }

  /** The bytes of a file after a write. */
  function WriteAt(file: ByteString, offset: nat, bytes: ByteString): (r: ByteString)
    requires offset <= |file|
    ensures offset + |bytes| <= |r| && r[..offset] == file[..offset] && r[offset..offset + |bytes|] == bytes
    ensures |r| == (if offset + |bytes| <= |file| then |file| else offset + |bytes|)
    ensures forall i :: offset + |bytes| <= i < |r| ==> r[i] == file[i]
  {
    if offset + |bytes| <= |file| then file[..offset] + bytes + file[offset + |bytes|..] else file[..offset] + bytes
  }

  lemma PrefixSurvives(p: ByteString, file: ByteString, offset: nat, bytes: ByteString)
    requires p <= file && |p| <= offset <= |file|
    ensures p <= WriteAt(file, offset, bytes)
  {
    assert WriteAt(file, offset, bytes)[..|p|] == WriteAt(file, offset, bytes)[..offset][..|p|];
  }

  class Pager {
    const cfg: Config
    var file: ByteString
    var dir: seq<PhysLoc>
    var nextPage: nat
    var writeOffset: nat
    var nonceCounter: nat
    const cache: PageCache<ByteString>
    /** The records of the pages there are, in order. */
    ghost var recs: seq<ByteString>

    ghost predicate Valid()
      reads this, cache
    {
      && ValidConfig(cfg) && AreRecords(cfg.nsym, recs) && Joined(recs) <= file
      && dir == Directory(cfg.nsym, recs, 0) && writeOffset == |Joined(recs)| && nextPage == FIRST_DATA_PAGE + |recs|
      && cache.Valid() && CacheAgrees(nextPage)
    }

    /** What the cache holds of the pages below n is what reading them gives. */
    ghost predicate CacheAgrees(n: nat)
      requires cfg.nsym < 255 && AreRecords(cfg.nsym, recs) && n <= FIRST_DATA_PAGE + |recs| && cache.Valid()
      reads this, cache
    {
      forall id :: id in cache.Contents() && FIRST_DATA_PAGE <= id < n ==>
        PageIn(cfg, recs[id - FIRST_DATA_PAGE], id) == Some(cache.Contents()[id])
    }

    /** What reading each page gives. */
    ghost function Pages(): (pages: seq<Option<ByteString>>)
      requires cfg.nsym < 255 && AreRecords(cfg.nsym, recs)
      reads this
    {
      PagesOf(cfg, recs)
    }

    /** Opening a file: sweep the append zone. The torn tail, if any of it parses, is still among the pages. */
    constructor (cfg: Config, file: ByteString, cachePages: nat)
      requires ValidConfig(cfg)
      ensures Valid() && this.cfg == cfg && this.file == file && fresh(cache) && cache.Contents() == map[]
      ensures recs == Swept(cfg.nsym, file)
    {
      this.cfg := cfg;
      this.file := file;
      cache := new PageCache(cachePages);
      nonceCounter := 0;
      dir := [];
      nextPage := FIRST_DATA_PAGE;
      writeOffset := 0;
      recs := [];
      new;
      Sweep();
    }

    method Sweep()
      requires ValidConfig(cfg) && cache.Valid() && cache.Contents() == map[]
      modifies this
      ensures Valid() && file == old(file) && recs == Swept(cfg.nsym, file)
    {
      hide RecordLen, PayloadOf, Ecc.ParityLen, Swept, Directory, Joined, IsRecord;
      DirectoryNothing(cfg.nsym, 0);
      dir, recs, writeOffset := [], [], 0;
      var offset: nat := 0;
      assert file[0..] == file;
      while true
        invariant AreRecords(cfg.nsym, recs) && offset == |Joined(recs)| <= |file| && Joined(recs) == file[..offset]
        invariant dir == Directory(cfg.nsym, recs, 0)
        invariant Swept(cfg.nsym, file) == recs + Swept(cfg.nsym, file[offset..])
        invariant file == old(file) && cache.Valid() && cache.Contents() == map[]
        decreases |file| - offset
      {
        var n := RecordLen(cfg.nsym, file[offset..]);
        NoRecords(cfg.nsym, file[offset..]);
        if n.None? {
          break;
        }
        ghost var rec, rest := file[offset..offset + n.value], file[offset + n.value..];
        SliceOfRest(file, offset, n.value);
        PrefixIsRecord(cfg.nsym, file[offset..], n.value);
        RecordsUnfold(cfg.nsym, rec, rest);
        DirectoryOne(cfg.nsym, rec, offset);
        DirectoryAppend(cfg.nsym, recs, [rec], 0);
        JoinedConcat(recs, [rec]);
        PayloadLength(cfg.nsym, rec, file, offset);
        dir := dir + [PhysLoc(offset + LEN_PREFIX, FromLe(file[offset..offset + LEN_PREFIX]))];
        assert recs + ([rec] + Swept(cfg.nsym, rest)) == recs + [rec] + Swept(cfg.nsym, rest);
        recs := recs + [rec];
        offset := offset + n.value;
      }
      assert recs + [] == recs;
      nextPage := FIRST_DATA_PAGE + |dir|;
      writeOffset := offset;
    }

    ghost function PageAt(id: nat): (r: Option<ByteString>)
      requires cfg.nsym < 255 && AreRecords(cfg.nsym, recs)
      reads this
    {
      if FIRST_DATA_PAGE <= id < FIRST_DATA_PAGE + |recs| then Pages()[id - FIRST_DATA_PAGE] else None
    }

    /** A read gives what the page's record holds, whether or not it comes from the cache. */
    method ReadPage(id: nat) returns (r: Option<ByteString>)
      requires Valid()
      modifies cache
      ensures Valid() && r == PageAt(id)
    {
      hide IsRecord, PageIn, Directory, Joined;
      if id >= nextPage || id < FIRST_DATA_PAGE {
        return None;
      }
      var loc := dir[id - FIRST_DATA_PAGE];
      r := cache.Get(id);
      if r.Some? {
        return;
      }
      r := ReadFromFile(id, loc);
      if r.Some? {
        CachePage(id, r.value);
      }
    }

    /** Whatever else it forgets, the cache now has this page, and has changed no other. */
    method CachePage(id: nat, body: ByteString)
      requires cache.Valid()
      modifies cache
      ensures cache.Valid() && id in cache.Contents() && cache.Contents()[id] == body
      ensures forall other :: other in cache.Contents() && other != id ==>
        other in old(cache.Contents()) && cache.Contents()[other] == old(cache.Contents()[other])
    {
      var _, _ := cache.Insert(id, body);
    }

    /** A miss: the record's bytes, opened, corrected if need be, and decoded. */
    method ReadFromFile(id: nat, loc: PhysLoc) returns (r: Option<ByteString>)
      requires Valid() && FIRST_DATA_PAGE <= id < nextPage && |dir| == |recs| && loc == dir[id - FIRST_DATA_PAGE]
      ensures r == PageAt(id)
    {
      hide IsRecord, PayloadOf, ParityOf, PageIn, Directory, Joined, Ecc.ParityLen;
      ghost var i := id - FIRST_DATA_PAGE;
      DirectoryLocates(cfg.nsym, recs, file, i);
      var end := loc.offset + loc.len;
      r := ReadRecord(cfg, file[loc.offset..end], file[end..end + ParityAfter(cfg.nsym, loc.len)], id, recs[i]);
    }

    /** A record past the last commit: the pages there are do not change. */
    method WriteRecordAt(id: nat, body: ByteString, offset: nat) returns (n: nat, loc: PhysLoc, ghost rec: ByteString)
      requires Valid() && |body| == BODY_SIZE && writeOffset <= offset <= |file|
      modifies this`file, this`nonceCounter
      ensures Valid() && IsPage(cfg, rec, id, body) && n == |rec| && file == WriteAt(old(file), offset, rec)
      ensures loc == PhysLoc(offset + LEN_PREFIX, |PayloadOf(cfg.nsym, rec)|)
      ensures nonceCounter == old(nonceCounter) + 1 && SealedWith(cfg, rec, id, old(nonceCounter))
    {
      hide SealedWith, IsRecord, PayloadOf, Directory, Joined, Ecc.ParityLen, IsPage, PageIn, WriteAt;
      var framed := SealPage(cfg, id, body, nonceCounter);
      nonceCounter := nonceCounter + 1;
      PrefixSurvives(Joined(recs), file, offset, framed);
      PageIsRecord(cfg, framed, id, body);
      file := WriteAt(file, offset, framed);
      rec := framed;
      PayloadLength(cfg.nsym, rec, rec, 0);
      n := |framed|;
      loc := PhysLoc(offset + LEN_PREFIX, FromLe(framed[0..LEN_PREFIX]));
    }

    /** Publishing a commit's records: directory, offset and page count move together. */
    method InstallCommit(entries: seq<PhysLoc>, offset: nat, nPages: nat, ghost written: seq<ByteString>)
      requires Valid() && AreRecords(cfg.nsym, written) && entries == Directory(cfg.nsym, written, writeOffset)
      requires offset == writeOffset + |Joined(written)| && Joined(recs) + Joined(written) <= file
      requires nPages == nextPage + |written|
      requires forall id :: id in cache.Contents() && nextPage <= id < nPages ==>
        PageIn(cfg, written[id - nextPage], id) == Some(cache.Contents()[id])
      modifies this`dir, this`recs, this`writeOffset, this`nextPage
      ensures Valid() && recs == old(recs) + written && writeOffset == offset
    {
      hide IsRecord, Directory, Joined, PageIn;
      DirectoryAppend(cfg.nsym, recs, written, 0);
      JoinedConcat(recs, written);
      assert forall i :: |recs| <= i < |recs + written| ==> (recs + written)[i] == written[i - |recs|];
      ghost var before := recs;
      dir := dir + entries;
      recs := recs + written;
      writeOffset := offset;
      nextPage := nPages;
      forall id | id in cache.Contents() && FIRST_DATA_PAGE <= id < nextPage
        ensures PageIn(cfg, recs[id - FIRST_DATA_PAGE], id) == Some(cache.Contents()[id])
      {
        if id - FIRST_DATA_PAGE < |before| {
          assert recs[id - FIRST_DATA_PAGE] == before[id - FIRST_DATA_PAGE];
        } else {
          assert recs[id - FIRST_DATA_PAGE] == written[id - FIRST_DATA_PAGE - |before|];
        }
      }
    }

    /** Dropping the torn tail, logically: the bytes stay, the next record overwrites them. */
    method TruncateToHead(nPages: nat)
      requires Valid() && FIRST_DATA_PAGE <= nPages <= nextPage
      modifies this`dir, this`recs, this`writeOffset, this`nextPage
      ensures Valid() && recs == old(recs)[..nPages - FIRST_DATA_PAGE]
    {
      hide IsRecord, Directory, Joined, PageIn, PayloadOf, ParityOf, Ecc.ParityLen;
      var keep := nPages - FIRST_DATA_PAGE;
      ghost var kept, dropped := recs[..keep], recs[keep..];
      assert recs == kept + dropped;
      DirectoryAppend(cfg.nsym, kept, dropped, 0);
      JoinedConcat(kept, dropped);
      DirectoryNothing(cfg.nsym, 0);
      if keep == 0 {
        writeOffset := 0;
        assert kept == [];
      } else {
        DirectoryLocates(cfg.nsym, recs, file, keep - 1);
        var last := dir[keep - 1];
        writeOffset := last.offset + last.len + ParityAfter(cfg.nsym, last.len);
      }
      assert Directory(cfg.nsym, recs, 0)[..keep] == Directory(cfg.nsym, kept, 0);
      dir := dir[..keep];
      recs := kept;
      nextPage := nPages;
    }

    /** One page appended; every earlier page still reads the same. */
    method AppendPage(body: ByteString) returns (id: nat)
      requires Valid() && |body| == BODY_SIZE
      modifies this, cache
      ensures Valid() && id == old(nextPage) && nextPage == id + 1
      ensures Pages() == old(Pages()) + [Some(body)]
      ensures old(|file|) == old(writeOffset) ==> |file| == writeOffset
    {
      hide IsRecord, Directory, Joined, PageIn, PayloadOf, IsPage, WriteAt;
      id := nextPage;
      var n, loc, rec := WriteRecordAt(id, body, writeOffset);
      CachePage(id, body);
      PageIsRecord(cfg, rec, id, body);
      DirectoryOne(cfg.nsym, rec, writeOffset);
      WrittenBehind(Joined(recs), old(file), rec);
      ghost var before := recs;
      InstallCommit([loc], writeOffset + n, id + 1, [rec]);
      PagesAppend(cfg, before, [rec], [body]);
    }

    /** Pages written behind the head and not yet published: on disk, and in the cache if cached at all. */
    ghost predicate Behind(written: seq<ByteString>, entries: seq<PhysLoc>, cursor: nat, bodies: seq<ByteString>)
      reads this, cache
    {
      && Valid() && OnDisk(written, entries, cursor, bodies)
      && forall id :: id in cache.Contents() && nextPage <= id < nextPage + |written| ==>
           bodies[id - nextPage] == cache.Contents()[id]
    }

    ghost predicate OnDisk(written: seq<ByteString>, entries: seq<PhysLoc>, cursor: nat, bodies: seq<ByteString>)
      requires cfg.nsym < 255
      reads this
    {
      && AreRecords(cfg.nsym, written) && |written| == |bodies|
      && (forall i :: 0 <= i < |written| ==> IsPage(cfg, written[i], FIRST_DATA_PAGE + |recs| + i, bodies[i]))
      && |written| <= nonceCounter && FreshlySealed(cfg, written, FIRST_DATA_PAGE + |recs|, nonceCounter - |written|)
      && entries == Directory(cfg.nsym, written, writeOffset) && cursor == writeOffset + |Joined(written)|
      && Joined(recs) + Joined(written) <= file
    }

    method WriteBehind(body: ByteString, cursor: nat, entries: seq<PhysLoc>, ghost written: seq<ByteString>, ghost bodies: seq<ByteString>)
      returns (cursor': nat, entries': seq<PhysLoc>, ghost written': seq<ByteString>)
      requires Behind(written, entries, cursor, bodies) && |body| == BODY_SIZE
      modifies this`file, this`nonceCounter, cache
      ensures Behind(written', entries', cursor', bodies + [body])
      ensures nonceCounter == old(nonceCounter) + 1 && (old(|file|) == cursor ==> |file| == cursor')
    {
      hide OnDisk, IsRecord, Directory, Joined, PageIn;
      OnDiskIs(written, entries, cursor, bodies);
      cursor', entries', written' := WriteOnDisk(body, cursor, entries, written, bodies);
      OnDiskIs(written', entries', cursor', bodies + [body]);
      CachePage(nextPage + |entries|, body);
    }

    method WriteOnDisk(body: ByteString, cursor: nat, entries: seq<PhysLoc>, ghost written: seq<ByteString>, ghost bodies: seq<ByteString>)
      returns (cursor': nat, entries': seq<PhysLoc>, ghost written': seq<ByteString>)
      requires Valid() && OnDisk(written, entries, cursor, bodies) && |body| == BODY_SIZE
      modifies this`file, this`nonceCounter
      ensures Valid() && OnDisk(written', entries', cursor', bodies + [body])
      ensures nonceCounter == old(nonceCounter) + 1 && (old(|file|) == cursor ==> |file| == cursor')
    {
      hide IsRecord, Directory, Joined, PageIn, PayloadOf, IsPage, WriteAt, SealedWith;
      JoinedConcat(recs, written);
      PrefixIsLong(Joined(recs) + Joined(written), file);
      var n, loc, rec := WriteRecordAt(nextPage + |entries|, body, cursor);
      PageIsRecord(cfg, rec, nextPage + |entries|, body);
      DirectoryOne(cfg.nsym, rec, cursor);
      DirectoryAppend(cfg.nsym, written, [rec], writeOffset);
      JoinedConcat(written, [rec]);
      WrittenBehind(Joined(recs) + Joined(written), old(file), rec);
      assert Joined(recs) + Joined(written) + rec == Joined(recs) + (Joined(written) + rec);
      cursor', entries', written' := cursor + n, entries + [loc], written + [rec];
    }

    lemma OnDiskIs(written: seq<ByteString>, entries: seq<PhysLoc>, cursor: nat, bodies: seq<ByteString>)
      requires cfg.nsym < 255 && OnDisk(written, entries, cursor, bodies)
      ensures |entries| == |written| == |bodies|
    {
      hide IsPage, IsRecord;
    }

    /** Publishing everything written behind the head. */
    method Publish(entries: seq<PhysLoc>, cursor: nat, ghost written: seq<ByteString>, ghost bodies: seq<ByteString>)
      requires Behind(written, entries, cursor, bodies)
      modifies this`dir, this`recs, this`writeOffset, this`nextPage
      ensures Valid() && Pages() == old(Pages()) + Readable(bodies) && recs == old(recs) + written && writeOffset == cursor
      ensures |written| <= nonceCounter && FreshlySealed(cfg, written, old(nextPage), nonceCounter - |written|)
    {
      hide SealedWith, IsRecord, Directory, Joined, PageIn, PayloadOf, IsPage;
      forall i | 0 <= i < |written|
        ensures PageIn(cfg, written[i], nextPage + i) == Some(bodies[i])
      {
        PageIsRecord(cfg, written[i], nextPage + i, bodies[i]);
      }
      ghost var before := recs;
      InstallCommit(entries, cursor, nextPage + |entries|, written);
      PagesAppend(cfg, before, written, bodies);
    }

    /** The data pages of a commit, hashed as they are written. */
    method WriteDataPages(bodies: seq<ByteString>)
      returns (cursor: nat, entries: seq<PhysLoc>, content: ByteString, ghost written: seq<ByteString>)
      requires Valid() && forall i :: 0 <= i < |bodies| ==> |bodies[i]| == BODY_SIZE
      modifies this`file, this`nonceCounter, cache
      ensures Behind(written, entries, cursor, bodies) && content == JoinedBodies(bodies)
      ensures nonceCounter == old(nonceCounter) + |bodies| && (old(|file|) == old(writeOffset) ==> |file| == cursor)
    {
      hide Behind, Directory, IsRecord, PageIn;
      BehindNothing();
      cursor, entries, content, written := writeOffset, [], [], [];
      var k := 0;
      while k < |bodies|
        invariant k <= |bodies| && Behind(written, entries, cursor, bodies[..k]) && content == JoinedBodies(bodies[..k])
        invariant nonceCounter == old(nonceCounter) + k && (old(|file|) == old(writeOffset) ==> |file| == cursor)
      {
        assert bodies[..k + 1] == bodies[..k] + [bodies[k]];
        assert bodies[..k + 1][..k] == bodies[..k];
        cursor, entries, written := WriteBehind(bodies[k], cursor, entries, written, bodies[..k]);
        content := content + bodies[k];
        k := k + 1;
      }
      assert bodies[..k] == bodies;
    }

    /**
      `write_commit_pages`: the data pages, then the commit page whose header hashes
      them, then publication.  The log grows by exactly these pages.
    */
    method WriteCommitPages(env: Env, bodies: seq<ByteString>, params: CommitParams, dataRoot: U64, metaRoot: U64, timestamp: U64)
      returns (head: Head, ghost header: Header)
      requires Valid() && (forall i :: 0 <= i < |bodies| ==> |bodies[i]| == BODY_SIZE) && BranchFits(env, params.branch)
      requires nonceCounter + |bodies| + 1 < TWO_64
      modifies this, cache
      ensures header == NewHeader(env, params, dataRoot, metaRoot, timestamp, old(nonceCounter) + |bodies| + 1,
                                  |bodies| + 1, JoinedBodies(bodies))
      ensures Valid() && Pages() == old(Pages()) + Readable(bodies + [Encode(header)])
      ensures head == HeadFrom(header, old(nextPage) + |bodies|) && head.nPages == nextPage
      ensures head.version == params.version && head.dataRoot == dataRoot && head.metaRoot == metaRoot
      ensures head.commitPage == old(nextPage) + |bodies| && head.nonceCounter == old(nonceCounter) + |bodies| + 1
      ensures head.chainHash == header.chainHash && SelfConsistent(env, header)
      ensures nonceCounter == head.nonceCounter && recs[..|old(recs)|] == old(recs)
      ensures FreshlySealed(cfg, recs[|old(recs)|..], old(nextPage), old(nonceCounter))
      ensures old(|file|) == old(writeOffset) ==> |file| == writeOffset
    {
      hide Behind, Encode, NewHeader, Joined, Directory, IsRecord, PageIn, SelfConsistent, PagesOf, FreshlySealed;
      var cursor, entries, content, written := WriteDataPages(bodies);
      EntriesOf(written, entries, cursor, bodies);
      var h := NewHeader(env, params, dataRoot, metaRoot, timestamp, nonceCounter + 1, |entries| + 1, content);
      head := HeadFrom(h, nextPage + |entries|);
      header := h;
      PublishCommitPage(Encode(h), cursor, entries, written, bodies);
    }

    /** The commit page, and publication. */
    method PublishCommitPage(body: ByteString, cursor: nat, entries: seq<PhysLoc>, ghost written: seq<ByteString>, ghost bodies: seq<ByteString>)
      requires Behind(written, entries, cursor, bodies) && |body| == BODY_SIZE
      modifies this, cache
      ensures Valid() && Pages() == old(Pages()) + Readable(bodies + [body]) && nextPage == old(nextPage) + |bodies| + 1
      ensures nonceCounter == old(nonceCounter) + 1 && recs[..|old(recs)|] == old(recs) && |bodies| < nonceCounter
      ensures FreshlySealed(cfg, recs[|old(recs)|..], old(nextPage), nonceCounter - |bodies| - 1)
      ensures old(|file|) == cursor ==> |file| == writeOffset
    {
      hide Behind, Joined, Directory, IsRecord, PageIn, PagesOf, FreshlySealed;
      EntriesOf(written, entries, cursor, bodies);
      ghost var w: seq<ByteString>;
      var c, e;
      c, e, w := WriteBehind(body, cursor, entries, written, bodies);
      EntriesOf(w, e, c, bodies + [body]);
      Publish(e, c, w, bodies + [body]);
    }

    lemma BehindNothing()
      requires Valid()
      ensures Behind([], [], writeOffset, [])
    {
      hide PageIn, IsRecord;
      DirectoryNothing(cfg.nsym, writeOffset);
      assert Joined(recs) + Joined([]) == Joined(recs);
    }

    lemma EntriesOf(written: seq<ByteString>, entries: seq<PhysLoc>, cursor: nat, bodies: seq<ByteString>)
      requires Behind(written, entries, cursor, bodies)
      ensures |entries| == |bodies| == |written| && Valid() && AreRecords(cfg.nsym, written)
    {
    }
  }

  lemma SliceOfRest(file: ByteString, offset: nat, n: nat)
    requires offset + n <= |file|
    ensures file[offset..][..n] == file[offset..offset + n]
    ensures file[..offset + n] == file[..offset] + file[offset..offset + n]
    ensures file[offset..] == file[offset..offset + n] + file[offset + n..]
  {
  }

  lemma NoRecords(nsym: nat, file: ByteString)
    requires nsym < 255
    ensures RecordLen(nsym, file).None? ==> Swept(nsym, file) == []
  {
  }

  lemma PayloadLength(nsym: nat, rec: ByteString, file: ByteString, at: nat)
    requires nsym < 255 && IsRecord(nsym, rec) && at + |rec| <= |file| && file[at..at + |rec|] == rec
    ensures at + LEN_PREFIX <= |file| && FromLe(file[at..at + LEN_PREFIX]) == |PayloadOf(nsym, rec)|
  {
    hide FromLe, Ecc.ParityLen;
    SliceOfSlice(file, at, at + |rec|, 0, LEN_PREFIX);
  }

  /** Records of consecutive pages, each sealed under the next value of the nonce counter. */
  ghost predicate FreshlySealed(cfg: Config, written: seq<ByteString>, first: nat, counter: nat) {
    forall i :: 0 <= i < |written| ==> SealedWith(cfg, written[i], first + i, counter + i)
  }

  ghost function PagesOf(cfg: Config, recs: seq<ByteString>): (pages: seq<Option<ByteString>>)
    requires cfg.nsym < 255 && AreRecords(cfg.nsym, recs)
    ensures |pages| == |recs|
    ensures forall i :: 0 <= i < |recs| ==> pages[i] == PageIn(cfg, recs[i], FIRST_DATA_PAGE + i)
    ensures forall i :: 0 <= i < |recs| && pages[i].Some? ==> |pages[i].value| == BODY_SIZE
  {
    seq(|recs|, i requires 0 <= i < |recs| => PageIn(cfg, recs[i], FIRST_DATA_PAGE + i))
  }

  lemma PageIsRecord(cfg: Config, rec: ByteString, id: nat, body: ByteString)
    requires IsPage(cfg, rec, id, body)
    ensures cfg.nsym < 255 && IsRecord(cfg.nsym, rec) && PageIn(cfg, rec, id) == Some(body)
  {
  }

  /** A write at the end of the log extends it. */
  lemma WrittenBehind(log: ByteString, file: ByteString, bytes: ByteString)
    requires log <= file
    ensures log + bytes <= WriteAt(file, |log|, bytes)
  {
    var r := WriteAt(file, |log|, bytes);
    assert r[..|log| + |bytes|] == r[..|log|] + r[|log|..|log| + |bytes|];
  }

  /** Records laid behind others are the next pages. */
  lemma PagesAppend(cfg: Config, recs: seq<ByteString>, written: seq<ByteString>, bodies: seq<ByteString>)
    requires cfg.nsym < 255 && AreRecords(cfg.nsym, recs) && |written| == |bodies|
    requires forall i :: 0 <= i < |written| ==> IsPage(cfg, written[i], FIRST_DATA_PAGE + |recs| + i, bodies[i])
    ensures AreRecords(cfg.nsym, recs + written)
    ensures PagesOf(cfg, recs + written) == PagesOf(cfg, recs) + Readable(bodies)
  {
    hide IsRecord, PageIn, IsPage;
    var all := recs + written;
    forall i | 0 <= i < |all|
      ensures IsRecord(cfg.nsym, all[i])
      ensures PageIn(cfg, all[i], FIRST_DATA_PAGE + i) == (PagesOf(cfg, recs) + Readable(bodies))[i]
    {
      if i >= |recs| {
        PageIsRecord(cfg, written[i - |recs|], FIRST_DATA_PAGE + i, bodies[i - |recs|]);
      }
    }
  }

  lemma PrefixIsLong(p: ByteString, file: ByteString)
    requires p <= file
    ensures |p| <= |file|
  {
  }
}
