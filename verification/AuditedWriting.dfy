/** Writing keeps what the audit and recovery ask for: every commit extends an audited history to an audited one. */
module AuditedWriting {
  import opened Options
  import opened Bytes
  import opened Commit
  import opened Recovery

  /** The second log begins with the first. */
  ghost predicate Extends(a: Log, b: Log) {
    a.fileId == b.fileId && |a.pages| <= |b.pages| && b.pages[..|a.pages|] == a.pages
  }

  lemma SameReads(env: Env, a: Log, b: Log, page: nat)
    requires WellFormed(a) && WellFormed(b) && Extends(a, b) && page < End(a)
    ensures ReadPage(b, page) == ReadPage(a, page) && HeaderAt(env, b, page) == HeaderAt(env, a, page)
  {
    if page >= FIRST_DATA_PAGE {
      assert b.pages[page - FIRST_DATA_PAGE] == b.pages[..|a.pages|][page - FIRST_DATA_PAGE];
    }
  }

  lemma {:induction false} SameWalk(env: Env, a: Log, b: Log, page: nat)
    requires WellFormed(a) && WellFormed(b) && Extends(a, b) && Descending(env, a) && Descending(env, b)
    requires Walk(env, a, page).Some?
    ensures Walk(env, b, page) == Walk(env, a, page)
    decreases page
  {
    hide HeaderAt;
    if page != 0 {
      HeaderInside(env, a, page);
      SameReads(env, a, b, page);
      SameWalk(env, a, b, HeaderAt(env, a, page).value.prevPage);
    }
  }

  lemma HeaderInside(env: Env, log: Log, page: nat)
    requires WellFormed(log) && HeaderAt(env, log, page).Some?
    ensures page < End(log)
  {
  }

  lemma {:induction false} SameBodies(env: Env, a: Log, b: Log, start: nat, n: nat)
    requires WellFormed(a) && WellFormed(b) && Extends(a, b) && Bodies(a, start, n).Some?
    ensures Bodies(b, start, n) == Bodies(a, start, n)
    decreases n
  {
    if n > 0 {
      SameReads(env, a, b, start + n - 1);
      SameBodies(env, a, b, start, n - 1);
    }
  }

  lemma {:induction false} BodiesWritten(log: Log, bodies: seq<ByteString>, start: nat)
    requires FIRST_DATA_PAGE <= start && start + |bodies| <= End(log)
    requires log.pages[start - FIRST_DATA_PAGE..start - FIRST_DATA_PAGE + |bodies|] == Readable(bodies)
    ensures Bodies(log, start, |bodies|) == Some(JoinedBodies(bodies))
    decreases |bodies|
  {
    var n, at := |bodies|, start - FIRST_DATA_PAGE;
    if n > 0 {
      var part := log.pages[at..at + n];
      assert part[..n - 1] == Readable(bodies[..n - 1]);
      assert part[..n - 1] == log.pages[at..at + (n - 1)];
      BodiesWritten(log, bodies[..n - 1], start);
      assert log.pages[at + n - 1] == part[n - 1] == Some(bodies[n - 1]);
    }
  }

  /** The parameters of a commit that may be written on this history. */
  ghost predicate Continues(env: Env, log: Log, head: Head, params: CommitParams) {
    && BranchFits(env, params.branch)
    && head.commitPage < head.nPages == End(log)
    && (|| (head.version + 1 < TWO_64 && head.commitPage < TWO_64 && params == After(head, params.branch, params.parentPage))
        || (head == GenesisHead(env, log.fileId) && params.version >= 1
            && params == Checkpoint(env, log.fileId, params.version, params.branch)))
  }

  lemma NewPages(env: Env, log: Log, bodies: seq<ByteString>, h: Header)
    requires WellFormed(log) && DataPages(env, bodies) && BranchFits(env, h.branch)
    ensures var next := WithCommit(log, bodies, h); var page := End(log) + |bodies|;
      && WellFormed(next) && Extends(log, next) && End(next) == page + 1
      && HeaderAt(env, next, page) == Some(h)
      && (forall p :: End(log) <= p < page ==> HeaderAt(env, next, p).None?)
      && next.pages[|log.pages|..|log.pages| + |bodies|] == Readable(bodies)
  {
    hide Encode, Decode;
    var next := WithCommit(log, bodies, h);
    HeaderRoundTrip(env, h);
    forall p | End(log) <= p < End(log) + |bodies|
      ensures HeaderAt(env, next, p).None?
    {
      assert ReadPage(next, p) == Some(bodies[p - End(log)]);
    }
  }

  lemma StillDescending(env: Env, log: Log, bodies: seq<ByteString>, h: Header)
    requires WellFormed(log) && Descending(env, log) && DataPages(env, bodies) && BranchFits(env, h.branch)
    requires h.prevPage < End(log)
    ensures WellFormed(WithCommit(log, bodies, h)) && Descending(env, WithCommit(log, bodies, h))
  {
    hide HeaderAt, Encode, Decode;
    var next := WithCommit(log, bodies, h);
    NewPages(env, log, bodies, h);
    forall p: nat | HeaderAt(env, next, p).Some?
      ensures HeaderAt(env, next, p).value.prevPage < p
    {
      HeaderInside(env, next, p);
      if p < End(log) {
        SameReads(env, log, next, p);
      }
    }
  }

  /** What is asked of the header that follows. */
  ghost predicate IsNext(env: Env, log: Log, head: Head, bodies: seq<ByteString>, params: CommitParams, h: Header) {
    && BranchFits(env, h.branch) && SelfConsistent(env, h)
    && h.flags == params.flags && h.version == params.version && h.prevPage == params.prevPage
    && h.prevChain == params.prevChain && h.contentHash == env.sha(JoinedBodies(bodies)) && h.pagesWritten == |bodies| + 1
  }

  /** The next commit may be adopted by recovery, and points back to the head. */
  lemma NextFollows(env: Env, log: Log, head: Head, links: seq<Link>, bodies: seq<ByteString>, params: CommitParams, h: Header)
    requires WellFormed(log) && Descending(env, log) && Audited(env, log, head, links, None)
    requires Continues(env, log, head, params) && IsNext(env, log, head, bodies, params, h)
    ensures Follows(env, head, h) && h.prevPage == head.commitPage && h.prevChain == ChainBefore(env, log, links, |links|)
    ensures head == GenesisHead(env, log.fileId) ==> links == []
    ensures links != [] ==> h.version == head.version + 1
    ensures links == [] ==> h.version == (if IsCheckpoint(h) then SaturatingSub(h.version, 1) else 0) + 1
  {
    hide SelfConsistent, Passes, HeaderAt;
  }

  /** Earlier commits pass as they did. */
  lemma StillPasses(env: Env, a: Log, b: Log, links: seq<Link>, more: seq<Link>, i: nat)
    requires WellFormed(a) && WellFormed(b) && Extends(a, b) && BranchesFit(env, links)
    requires links <= more && i < |links| && Passes(env, a, links, i, None)
    ensures |more[i].header.branch| <= BRANCH_MAX && Passes(env, b, more, i, None)
  {
    hide SelfConsistent, Bodies;
    var link := links[i];
    assert BranchFits(env, link.header.branch);
    SameBodies(env, a, b, link.page - DataCount(link.header), DataCount(link.header));
    assert more[i] == link && more[0] == links[0];
    assert i > 0 ==> more[i - 1] == links[i - 1];
  }

  /**
    The audit is an invariant of writing: a commit written behind an audited head, or the
    checkpoint that opens a compacted file, gives a history that passes in full.
  */
  lemma CommitKeepsAudit(env: Env, log: Log, head: Head, links: seq<Link>, bodies: seq<ByteString>, params: CommitParams, h: Header)
    requires WellFormed(log) && Descending(env, log) && Audited(env, log, head, links, None)
    requires Continues(env, log, head, params) && IsNext(env, log, head, bodies, params, h) && DataPages(env, bodies)
    ensures var next := WithCommit(log, bodies, h); var page := End(log) + |bodies|;
      && WellFormed(next) && Descending(env, next)
      && Audited(env, next, HeadFrom(h, page), links + [Link(page, h)], None)
  {
    hide SelfConsistent, HeaderAt, Passes, Walk, Encode, Decode, Bodies, Follows;
    var next, page := WithCommit(log, bodies, h), End(log) + |bodies|;
    var more := links + [Link(page, h)];
    NextFollows(env, log, head, links, bodies, params, h);
    NewPages(env, log, bodies, h);
    StillDescending(env, log, bodies, h);
    SameWalk(env, log, next, head.commitPage);
    WalkUnfold(env, next, page);
    assert Walk(env, next, page) == Some(more);
    forall i | 0 <= i < |more|
      ensures Passes(env, next, more, i, None)
    {
      if i < |links| {
        StillPasses(env, log, next, links, more, i);
      } else {
        BodiesWritten(next, bodies, End(log));
        NewestPasses(env, next, more, i, bodies);
      }
    }
  }

  lemma WalkUnfold(env: Env, log: Log, page: nat)
    requires WellFormed(log) && Descending(env, log) && page > 0 && HeaderAt(env, log, page).Some?
    ensures var h := HeaderAt(env, log, page).value;
      Walk(env, log, page) == Append(Walk(env, log, h.prevPage), [Link(page, h)])
  {
  }

  lemma NewestPasses(env: Env, log: Log, links: seq<Link>, i: nat, bodies: seq<ByteString>)
    requires i < |links| && |links[i].header.branch| <= BRANCH_MAX
    requires SelfConsistent(env, links[i].header) && links[i].header.prevChain == ChainBefore(env, log, links, i)
    requires links[i].header.version == FirstVersion(links) + 1 + i && links[i].header.pagesWritten == |bodies| + 1
    requires |bodies| <= links[i].page && Bodies(log, links[i].page - |bodies|, |bodies|) == Some(JoinedBodies(bodies))
    requires links[i].header.contentHash == env.sha(JoinedBodies(bodies))
    ensures Passes(env, log, links, i, None)
  {
    hide SelfConsistent, Bodies;
  }
}
