/**
  What protection of a page means block by block (`src/ecc.rs`): block k is bytes k * (255 -
  nsym) and on, as many as there are up to 255 - nsym, with parity bytes k * nsym and on.
*/
module EccBlocks {
  import opened Gf256
  import opened Polynomials
  import opened Codewords
  import opened Ecc
  import LE = LittleEndian

  /** The distance of two words is the number of places in which they differ. */
  lemma DistanceMeans(a: Poly, b: Poly)
    requires |a| == |b|
    ensures Distance(a, b) == |set i | 0 <= i < |a| && a[i] != b[i]|
  {
    hide Where;
    var ps, places := Errors(a, b), set i | 0 <= i < |a| && a[i] != b[i];
    ErrorsAreTheDifferences(a, b);
    assert forall i :: i in ps <==> i in places;
    CountOnce(ps, |a|, places);
  }

  lemma {:induction false} CountOnce(ps: seq<nat>, n: nat, places: set<int>)
    requires Increasing(ps, n) && forall i: int :: i in places <==> i in ps
    ensures |places| == |ps|
    decreases |ps|
  {
    if ps == [] {
      assert forall i :: i in places ==> i in ps;
      assert places == {};
    } else {
      var front, last := ps[..|ps| - 1], ps[|ps| - 1];
      assert ps == front + [last];
      assert last !in front;
      CountOnce(front, n, places - {last});
    }
  }

  // ------------------------------------------------------------------ blocks

  /** The bytes from `at` on, up to `width` of them. */
  function Piece(s: Poly, at: nat, width: nat): (b: Poly)
    requires at <= |s|
    ensures |b| == if at + width <= |s| then width else |s| - at
  {
    s[at..if at + width <= |s| then at + width else |s|]
  }

  lemma PieceOfRest(s: Poly, at: nat, width: nat, m: nat)
    requires m + at <= |s|
    ensures Piece(s, m + at, width) == Piece(s[m..], at, width)
  {
  }

  // ------------------------------------------------------------------ parity

  /** The parity length is nsym for each block, and there are as many blocks as it takes. */
  lemma ParityLenMeans(len: nat, nsym: nat) returns (blocks: nat)
    requires 1 <= nsym < 255
    ensures ParityLen(len, nsym) == blocks * nsym
    ensures blocks * (255 - nsym) >= len
    ensures blocks > 0 ==> (blocks - 1) * (255 - nsym) < len
  {
    var w := 255 - nsym;
    blocks := DivCeil(len, w);
    assert len + w - 1 == blocks * w + (len + w - 1) % w;
    if blocks > 0 {
      assert (blocks - 1) * w == blocks * w - w;
    }
  }

  /** The block whose data and parity begin at these places is a codeword. */
  ghost predicate ProtectedAt(data: Poly, parity: Poly, nsym: nat, at: nat, p: nat)
    requires nsym < 255
  {
    at <= |data| && p + nsym <= |parity| && IsCodeword(Piece(data, at, 255 - nsym) + Piece(parity, p, nsym), nsym)
  }

  /** Block k of the page and its parity are a codeword. */
  ghost predicate BlockProtected(data: Poly, parity: Poly, nsym: nat, k: nat)
    requires nsym < 255
  {
    ProtectedAt(data, parity, nsym, k * (255 - nsym), k * nsym)
  }

  ghost predicate EachBlockProtected(data: Poly, parity: Poly, nsym: nat)
    requires nsym < 255
  {
    forall k: nat :: k * (255 - nsym) < |data| ==> BlockProtected(data, parity, nsym, k)
  }

  /** A page's parity is as long as its blocks need, and completes each of them to a codeword. */
  lemma {:induction false} ParityMeans(parity: Poly, data: Poly, nsym: nat)
    requires 1 <= nsym < 255
    ensures IsParityOf(parity, data, nsym) <==> |parity| == ParityLen(|data|, nsym) && EachBlockProtected(data, parity, nsym)
    decreases |data|
  {
    hide IsCodeword, ParityLen, BlockProtected, EachBlockProtected;
    ParityLenStep(|data|, nsym);
    if |data| == 0 {
      NothingToProtect(data, parity, nsym);
    } else {
      var m := FirstBlock(|data|, nsym);
      if |parity| >= nsym {
        ParityMeans(parity[nsym..], data[m..], nsym);
        ProtectedStep(data, parity, nsym, m);
      } else {
        FirstIsMissing(data, parity, nsym);
      }
    }
  }

  lemma NothingToProtect(data: Poly, parity: Poly, nsym: nat)
    requires nsym < 255 && data == []
    ensures EachBlockProtected(data, parity, nsym)
  {
    hide BlockProtected;
    forall k: nat
      ensures k * (255 - nsym) < |data| ==> BlockProtected(data, parity, nsym, k)
    {
      assert k * (255 - nsym) >= 0;
    }
  }

  lemma FirstIsMissing(data: Poly, parity: Poly, nsym: nat)
    requires nsym < 255 && data != [] && |parity| < nsym
    ensures !EachBlockProtected(data, parity, nsym)
  {
    assert 0 * (255 - nsym) == 0 && 0 * nsym == 0;
    assert !BlockProtected(data, parity, nsym, 0);
  }

  lemma ProtectedStep(data: Poly, parity: Poly, nsym: nat, m: nat)
    requires 1 <= nsym < 255 && data != [] && m == FirstBlock(|data|, nsym) && nsym <= |parity|
    ensures EachBlockProtected(data, parity, nsym) <==>
      IsCodeword(data[..m] + parity[..nsym], nsym) && EachBlockProtected(data[m..], parity[nsym..], nsym)
  {
    hide IsCodeword;
    FirstProtected(data, parity, nsym, m);
    forall k: nat
      ensures (k + 1) * (255 - nsym) < |data| <==> k * (255 - nsym) < |data[m..]|
      ensures (k + 1) * (255 - nsym) < |data| ==>
        (BlockProtected(data, parity, nsym, k + 1) <==> BlockProtected(data[m..], parity[nsym..], nsym, k))
    {
      LaterProtected(data, parity, nsym, m, k);
    }
    if EachBlockProtected(data, parity, nsym) {
      assert 0 * (255 - nsym) == 0;
      assert BlockProtected(data, parity, nsym, 0);
      forall k: nat | k * (255 - nsym) < |data[m..]|
        ensures BlockProtected(data[m..], parity[nsym..], nsym, k)
      {
        assert BlockProtected(data, parity, nsym, k + 1);
      }
    }
    if IsCodeword(data[..m] + parity[..nsym], nsym) && EachBlockProtected(data[m..], parity[nsym..], nsym) {
      forall k: nat | k * (255 - nsym) < |data|
        ensures BlockProtected(data, parity, nsym, k)
      {
        if k > 0 {
          assert BlockProtected(data[m..], parity[nsym..], nsym, k - 1);
        }
      }
    }
  }

  lemma FirstProtected(data: Poly, parity: Poly, nsym: nat, m: nat)
    requires 1 <= nsym < 255 && data != [] && m == FirstBlock(|data|, nsym) && nsym <= |parity|
    ensures BlockProtected(data, parity, nsym, 0) <==> IsCodeword(data[..m] + parity[..nsym], nsym)
  {
    hide IsCodeword;
    assert 0 * (255 - nsym) == 0 && 0 * nsym == 0;
    assert Piece(data, 0, 255 - nsym) == data[..m] && Piece(parity, 0, nsym) == parity[..nsym];
  }

  lemma LaterProtected(data: Poly, parity: Poly, nsym: nat, m: nat, k: nat)
    requires 1 <= nsym < 255 && data != [] && m == FirstBlock(|data|, nsym) && nsym <= |parity|
    ensures (k + 1) * (255 - nsym) < |data| <==> k * (255 - nsym) < |data[m..]|
    ensures (k + 1) * (255 - nsym) < |data| ==>
      (BlockProtected(data, parity, nsym, k + 1) <==> BlockProtected(data[m..], parity[nsym..], nsym, k))
  {
    hide ProtectedAt;
    var w := 255 - nsym;
    assert (k + 1) * w == w + k * w && (k + 1) * nsym == nsym + k * nsym;
    if (k + 1) * w < |data| {
      ProtectedInRest(data, parity, nsym, k * w, k * nsym);
    }
  }

  lemma ProtectedInRest(data: Poly, parity: Poly, nsym: nat, at: nat, p: nat)
    requires nsym < 255 && 255 - nsym + at <= |data| && nsym <= |parity|
    ensures ProtectedAt(data, parity, nsym, 255 - nsym + at, nsym + p) <==> ProtectedAt(data[255 - nsym..], parity[nsym..], nsym, at, p)
  {
    hide IsCodeword, Piece;
    PieceOfRest(data, at, 255 - nsym, 255 - nsym);
    if nsym + p + nsym <= |parity| {
      PieceOfRest(parity, p, nsym, nsym);
    }
  }

  // ------------------------------------------------------------------ budgets

  /** At most nsym / 2 bytes of the block differ, data and parity together. */
  ghost predicate WithinAt(data: Poly, parity: Poly, data': Poly, parity': Poly, nsym: nat, at: nat, p: nat)
    requires nsym < 255 && |data| == |data'| && |parity| == |parity'|
  {
    && at <= |data| && p + nsym <= |parity|
    && 2 * Distance(Piece(data, at, 255 - nsym) + Piece(parity, p, nsym),
                    Piece(data', at, 255 - nsym) + Piece(parity', p, nsym)) <= nsym
  }

  ghost predicate BlockWithin(data: Poly, parity: Poly, data': Poly, parity': Poly, nsym: nat, k: nat)
    requires nsym < 255 && |data| == |data'| && |parity| == |parity'|
  {
    WithinAt(data, parity, data', parity', nsym, k * (255 - nsym), k * nsym)
  }

  ghost predicate EachBlockWithin(data: Poly, parity: Poly, data': Poly, parity': Poly, nsym: nat)
    requires nsym < 255 && |data| == |data'| && |parity| == |parity'|
  {
    forall k: nat :: k * (255 - nsym) < |data| ==> BlockWithin(data, parity, data', parity', nsym, k)
  }

  /** Damage to a page is within budget when it is in each of its blocks. */
  lemma {:induction false} BudgetMeans(data: Poly, parity: Poly, data': Poly, parity': Poly, nsym: nat)
    requires 1 <= nsym < 255 && |data| == |data'| && |parity| == |parity'|
    ensures WithinBudget(data, parity, data', parity', nsym) <==> EachBlockWithin(data, parity, data', parity', nsym)
    decreases |data|
  {
    hide Distance, BlockWithin;
    if |data| > 0 {
      var m := FirstBlock(|data|, nsym);
      assert 0 * (255 - nsym) == 0;
      if |parity| >= nsym {
        BudgetMeans(data[m..], parity[nsym..], data'[m..], parity'[nsym..], nsym);
        FirstWithin(data, parity, data', parity', nsym, m);
        forall k: nat
          ensures (k + 1) * (255 - nsym) < |data| <==> k * (255 - nsym) < |data[m..]|
          ensures (k + 1) * (255 - nsym) < |data| ==>
            (BlockWithin(data, parity, data', parity', nsym, k + 1) <==>
              BlockWithin(data[m..], parity[nsym..], data'[m..], parity'[nsym..], nsym, k))
        {
          LaterWithin(data, parity, data', parity', nsym, m, k);
        }
        WithinStep(data, parity, data', parity', nsym, m);
      } else {
        NoneWithin(data, parity, data', parity', nsym);
      }
    }
  }

  lemma NoneWithin(data: Poly, parity: Poly, data': Poly, parity': Poly, nsym: nat)
    requires nsym < 255 && |data| == |data'| && |parity| == |parity'| < nsym && data != []
    ensures !EachBlockWithin(data, parity, data', parity', nsym)
  {
    assert 0 * (255 - nsym) == 0 && 0 * nsym == 0;
    assert !BlockWithin(data, parity, data', parity', nsym, 0);
  }

  lemma WithinStep(data: Poly, parity: Poly, data': Poly, parity': Poly, nsym: nat, m: nat)
    requires 1 <= nsym < 255 && |data| == |data'| && |parity| == |parity'| && data != [] && m == FirstBlock(|data|, nsym)
    requires nsym <= |parity|
    requires forall k: nat {:trigger BlockWithin(data[m..], parity[nsym..], data'[m..], parity'[nsym..], nsym, k)} ::
      && ((k + 1) * (255 - nsym) < |data| <==> k * (255 - nsym) < |data[m..]|)
      && ((k + 1) * (255 - nsym) < |data| ==>
            (BlockWithin(data, parity, data', parity', nsym, k + 1) <==>
              BlockWithin(data[m..], parity[nsym..], data'[m..], parity'[nsym..], nsym, k)))
    ensures EachBlockWithin(data, parity, data', parity', nsym) <==>
      BlockWithin(data, parity, data', parity', nsym, 0) && EachBlockWithin(data[m..], parity[nsym..], data'[m..], parity'[nsym..], nsym)
  {
    hide BlockWithin;
    assert 0 * (255 - nsym) == 0;
    if EachBlockWithin(data, parity, data', parity', nsym) {
      forall k: nat | k * (255 - nsym) < |data[m..]|
        ensures BlockWithin(data[m..], parity[nsym..], data'[m..], parity'[nsym..], nsym, k)
      {
        assert BlockWithin(data, parity, data', parity', nsym, k + 1);
      }
    }
    if BlockWithin(data, parity, data', parity', nsym, 0) && EachBlockWithin(data[m..], parity[nsym..], data'[m..], parity'[nsym..], nsym) {
      forall k: nat | k * (255 - nsym) < |data|
        ensures BlockWithin(data, parity, data', parity', nsym, k)
      {
        if k > 0 {
          assert BlockWithin(data[m..], parity[nsym..], data'[m..], parity'[nsym..], nsym, k - 1);
        }
      }
    }
  }

  lemma FirstWithin(data: Poly, parity: Poly, data': Poly, parity': Poly, nsym: nat, m: nat)
    requires 1 <= nsym < 255 && |data| == |data'| && |parity| == |parity'| && data != [] && m == FirstBlock(|data|, nsym)
    requires nsym <= |parity|
    ensures BlockWithin(data, parity, data', parity', nsym, 0) <==>
      2 * Distance(data[..m] + parity[..nsym], data'[..m] + parity'[..nsym]) <= nsym
  {
    hide Distance;
    assert 0 * (255 - nsym) == 0 && 0 * nsym == 0;
    assert Piece(data, 0, 255 - nsym) == data[..m] && Piece(parity, 0, nsym) == parity[..nsym];
    assert Piece(data', 0, 255 - nsym) == data'[..m] && Piece(parity', 0, nsym) == parity'[..nsym];
  }

  lemma LaterWithin(data: Poly, parity: Poly, data': Poly, parity': Poly, nsym: nat, m: nat, k: nat)
    requires 1 <= nsym < 255 && |data| == |data'| && |parity| == |parity'| && data != [] && m == FirstBlock(|data|, nsym)
    requires nsym <= |parity|
    ensures (k + 1) * (255 - nsym) < |data| <==> k * (255 - nsym) < |data[m..]|
    ensures (k + 1) * (255 - nsym) < |data| ==>
      (BlockWithin(data, parity, data', parity', nsym, k + 1) <==>
        BlockWithin(data[m..], parity[nsym..], data'[m..], parity'[nsym..], nsym, k))
  {
    hide WithinAt;
    var w := 255 - nsym;
    assert (k + 1) * w == w + k * w && (k + 1) * nsym == nsym + k * nsym;
    if (k + 1) * w < |data| {
      WithinInRest(data, parity, data', parity', nsym, k * w, k * nsym);
    }
  }

  lemma WithinInRest(data: Poly, parity: Poly, data': Poly, parity': Poly, nsym: nat, at: nat, p: nat)
    requires nsym < 255 && |data| == |data'| && |parity| == |parity'| && 255 - nsym + at <= |data| && nsym <= |parity|
    ensures WithinAt(data, parity, data', parity', nsym, 255 - nsym + at, nsym + p) <==>
      WithinAt(data[255 - nsym..], parity[nsym..], data'[255 - nsym..], parity'[nsym..], nsym, at, p)
  {
    hide Distance, Piece;
    PieceOfRest(data, at, 255 - nsym, 255 - nsym);
    PieceOfRest(data', at, 255 - nsym, 255 - nsym);
    if nsym + p + nsym <= |parity| {
      PieceOfRest(parity, p, nsym, nsym);
      PieceOfRest(parity', p, nsym, nsym);
    }
  }
}
