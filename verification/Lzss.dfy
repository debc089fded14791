/**
  The LZSS coder of `src/compress.rs`: hash chains, flag bytes patched in after their
  group, 12-bit offsets, a short and an extended length, and copies that may overlap
  themselves.
*/
module Lzss {
  import opened Options
  import opened Bytes
  import opened LittleEndian

  const MIN_MATCH: nat := 3
  const MAX_MATCH: nat := 273
  const WINDOW: nat := 4096
  const HASH_SIZE: nat := 8192
  const MAX_CHAIN: nat := 128

  // ---------- tokens and what they stand for ----------

  datatype Token = Literal(b: Byte) | Match(off: nat, len: nat)

  /** Copying byte by byte from off back; the copy may read what it has just written. */
  function CopyBack(out: ByteString, off: nat, len: nat): (r: ByteString)
    requires 1 <= off <= |out|
    ensures |r| == |out| + len
    decreases len
  {
    if len == 0 then out else CopyBack(out + [out[|out| - off]], off, len - 1)
  }

  predicate Fits(t: Token, produced: nat) {
    InFormat(t) && (t.Match? ==> t.off <= produced)
  }

  function Apply(out: ByteString, t: Token): (r: ByteString)
    requires Fits(t, |out|)
    ensures |r| > |out|
  {
    match t
    case Literal(b) => out + [b]
    case Match(off, len) => CopyBack(out, off, len)
  }

  predicate AllFit(ts: seq<Token>, out: ByteString)
    decreases |ts|
  {
    |ts| > 0 ==> Fits(ts[0], |out|) && AllFit(ts[1..], Apply(out, ts[0]))
  }

  function Replay(ts: seq<Token>, out: ByteString): (r: ByteString)
    requires AllFit(ts, out)
    ensures |r| >= |out| + |ts|
    decreases |ts|
  {
    if |ts| == 0 then out else Replay(ts[1..], Apply(out, ts[0]))
  }

  // ---------- the byte format ----------

  predicate InFormat(t: Token) {
    t.Match? ==> 1 <= t.off <= WINDOW && MIN_MATCH <= t.len <= MAX_MATCH
  }

  /** A literal is its byte; a match is two bytes little-endian, a third one in the extended form. */
  function TokenBytes(t: Token): (s: ByteString)
    requires InFormat(t)
    ensures |s| > 0
  {
    match t
    case Literal(b) => [b]
    case Match(off, len) =>
      var lc := if len <= 17 then len - MIN_MATCH else 15;
      var code := off - 1 + lc * 4096;
      if len <= 17 then [code % 256, code / 256] else [code % 256, code / 256, len - 18]
  }

  predicate Encodable(ts: seq<Token>) {
    forall i :: 0 <= i < |ts| ==> InFormat(ts[i])
  }

  function Bodies(ts: seq<Token>): (r: ByteString)
    requires Encodable(ts)
  {
    if |ts| == 0 then [] else Bodies(ts[..|ts| - 1]) + TokenBytes(ts[|ts| - 1])
  }

  function Pow2(k: nat): (p: nat)
    ensures p > 0
  {
    if k == 0 then 1 else 2 * Pow2(k - 1)
  }

  /** Bit i of the flag byte is set when token i is a literal. */
  function Flags(ts: seq<Token>): (r: nat) {
    if |ts| == 0 then 0 else (if ts[0].Literal? then 1 else 0) + 2 * Flags(ts[1..])
  }

  predicate IsSet(flags: nat, bit: nat) {
    if bit == 0 then flags % 2 == 1 else IsSet(flags / 2, bit - 1)
  }

  lemma {:induction false} FlagsBit(ts: seq<Token>, i: nat)
    requires i < |ts|
    ensures IsSet(Flags(ts), i) == ts[i].Literal?
    decreases |ts|
  {
    if i > 0 {
      FlagsBit(ts[1..], i - 1);
      assert Flags(ts) / 2 == Flags(ts[1..]);
    }
  }

  lemma {:induction false} FlagsBound(ts: seq<Token>)
    ensures Flags(ts) < Pow2(|ts|)
  {
    if |ts| > 0 {
      FlagsBound(ts[1..]);
    }
  }

  /** `flags |= 1 << nflags` on a bit not yet set. */
  lemma {:induction false} FlagsAppend(ts: seq<Token>, t: Token)
    ensures Flags(ts + [t]) == Flags(ts) + if t.Literal? then Pow2(|ts|) else 0
    decreases |ts|
  {
    if |ts| > 0 {
      FlagsAppend(ts[1..], t);
      assert (ts + [t])[1..] == ts[1..] + [t];
    }
  }

  lemma FlagsAreAByte(ts: seq<Token>)
    requires |ts| <= 8
    ensures Flags(ts) < 256
  {
    FlagsBound(ts);
    Pow2Monotone(|ts|, 8);
    assert Pow2(4) == 16;
    assert Pow2(8) == 256;
  }

  lemma {:induction false} Pow2Monotone(a: nat, b: nat)
    requires a <= b
    ensures Pow2(a) <= Pow2(b)
    decreases b - a
  {
    if a < b {
      Pow2Monotone(a, b - 1);
    }
  }

  /** One group: its flag byte, then its tokens. */
  function GroupBytes(ts: seq<Token>): (r: ByteString)
    requires Encodable(ts) && |ts| <= 8
  {
    FlagsAreAByte(ts);
    [Flags(ts)] + Bodies(ts)
  }

  /** The token stream: groups of eight, the last one possibly shorter. */
  function Serialize(ts: seq<Token>): (r: ByteString)
    requires Encodable(ts)
    decreases |ts|
  {
    if |ts| == 0 then []
    else if |ts| <= 8 then GroupBytes(ts)
    else GroupBytes(ts[..8]) + Serialize(ts[8..])
  }

  // ---------- the decoder, on any bytes whatever ----------

  datatype Progress = Progress(out: ByteString, pos: nat)

  /** One token at pos, given its flag. */
  function TakeToken(data: ByteString, p: Progress, literal: bool): (r: Option<Progress>)
    ensures r.Some? ==> p.pos < r.value.pos <= |data| && |r.value.out| > |p.out|
  {
    if literal then
      if p.pos < |data| then Some(Progress(p.out + [data[p.pos]], p.pos + 1)) else None
    else if p.pos + 1 >= |data| then None
    else
      var code: nat := data[p.pos] as int + 256 * data[p.pos + 1] as int;
      var off: nat, lc: nat := code % 4096 + 1, code / 4096;
      if lc < 15 then
        if off > |p.out| then None else Some(Progress(CopyBack(p.out, off, lc + MIN_MATCH), p.pos + 2))
      else if p.pos + 2 >= |data| then None
      else if off > |p.out| then None
      else Some(Progress(CopyBack(p.out, off, 18 + data[p.pos + 2] as int), p.pos + 3))
  }

  /** The tokens of one group from bit on, until the target length is reached. */
  function TakeGroup(data: ByteString, p: Progress, n: nat, ctrl: nat, bit: nat): (r: Option<Progress>)
    requires bit <= 8
    ensures r.Some? ==> p.pos <= r.value.pos && |r.value.out| >= |p.out| && (p.pos <= |data| ==> r.value.pos <= |data|)
    decreases 8 - bit
  {
    if bit == 8 || |p.out| >= n then Some(p)
    else
      var t := TakeToken(data, p, IsSet(ctrl, bit));
      if t.None? then None else TakeGroup(data, t.value, n, ctrl, bit + 1)
  }

  function TakeGroups(data: ByteString, p: Progress, n: nat): (r: Option<Progress>)
    requires p.pos <= |data|
    decreases |data| - p.pos
  {
    if |p.out| >= n then Some(p)
    else if p.pos >= |data| then None
    else
      var g := TakeGroup(data, Progress(p.out, p.pos + 1), n, data[p.pos], 0);
      if g.None? then None else TakeGroups(data, g.value, n)
  }

  function Decompressed(data: ByteString): (r: Option<ByteString>) {
    if TakeVarintFrom(data, 0).None? then None
    else
      var t := TakeVarintFrom(data, 0).value;
      var p := TakeGroups(data, Progress([], t.length), t.value);
      if p.None? || |p.value.out| != t.value then None else Some(p.value.out)
  }

  // ---------- the decoder inverts the format ----------

  lemma TakeTokenInverts(data: ByteString, p: Progress, t: Token)
    requires Fits(t, |p.out|)
    requires p.pos + |TokenBytes(t)| <= |data| && data[p.pos..p.pos + |TokenBytes(t)|] == TokenBytes(t)
    ensures TakeToken(data, p, t.Literal?) == Some(Progress(Apply(p.out, t), p.pos + |TokenBytes(t)|))
  {
    hide CopyBack;
    SliceAt(data, p.pos, TokenBytes(t));
    if t.Match? {
      MatchCode(t.off, if t.len <= 17 then t.len - MIN_MATCH else 15);
    }
  }

  lemma SliceAt(data: ByteString, at: nat, s: ByteString)
    requires s != [] && at + |s| <= |data| && data[at..at + |s|] == s
    ensures data[at] == s[0]
    ensures |s| > 1 ==> data[at + 1] == s[1]
    ensures |s| > 2 ==> data[at + 2] == s[2]
  {
    var d := data[at..at + |s|];
    assert d[0] == data[at];
    assert |s| > 1 ==> d[1] == data[at + 1];
    assert |s| > 2 ==> d[2] == data[at + 2];
  }

  /** Offset and length nibble come out of the two code bytes as they went in. */
  lemma MatchCode(off: nat, lc: nat)
    requires 1 <= off <= WINDOW && lc <= 15
    ensures var code := off - 1 + lc * 4096;
      code % 256 + 256 * (code / 256) == code && code % 4096 + 1 == off && code / 4096 == lc
  {
  }

  lemma {:induction false} BodiesUnfoldFront(ts: seq<Token>)
    requires Encodable(ts) && |ts| > 0
    ensures Bodies(ts) == TokenBytes(ts[0]) + Bodies(ts[1..])
    decreases |ts|
  {
    hide TokenBytes, InFormat;
    var l := |ts| - 1;
    if l > 0 {
      BodiesUnfoldFront(ts[..l]);
      assert ts[..l][1..] == ts[1..][..l - 1];
      assert ts[1..][l - 1] == ts[l];
    } else {
      assert ts[..l] == [] && ts[1..] == [];
    }
  }

  lemma FitIsEncodable(ts: seq<Token>, out: ByteString)
    requires AllFit(ts, out)
    ensures Encodable(ts)
    decreases |ts|
  {
    hide Apply;
    if |ts| > 0 {
      FitIsEncodable(ts[1..], Apply(out, ts[0]));
    }
  }

  lemma {:induction false} TakeGroupInverts(data: ByteString, p: Progress, n: nat, ctrl: nat, bit: nat, ts: seq<Token>)
    requires bit + |ts| <= 8 && AllFit(ts, p.out) && Encodable(ts)
    requires forall i :: 0 <= i < |ts| ==> IsSet(ctrl, bit + i) == ts[i].Literal?
    requires p.pos + |Bodies(ts)| <= |data| && data[p.pos..p.pos + |Bodies(ts)|] == Bodies(ts)
    requires |Replay(ts, p.out)| <= n
    requires bit + |ts| < 8 ==> |Replay(ts, p.out)| == n
    ensures TakeGroup(data, p, n, ctrl, bit) == Some(Progress(Replay(ts, p.out), p.pos + |Bodies(ts)|))
    decreases |ts|
  {
    hide IsSet, TakeToken, TokenBytes, Apply, Fits, InFormat, Bodies;
    if |ts| > 0 {
      var t := ts[0];
      BodiesUnfoldFront(ts);
      var a, b := TokenBytes(t), Bodies(ts[1..]);
      SplitSlice(data, p.pos, a, b);
      assert IsSet(ctrl, bit + 0) == t.Literal?;
      TakeTokenInverts(data, p, t);
      forall i | 0 <= i < |ts[1..]| ensures IsSet(ctrl, bit + 1 + i) == ts[1..][i].Literal? {
        assert IsSet(ctrl, bit + (1 + i)) == ts[1 + i].Literal?;
      }
      TakeGroupInverts(data, Progress(Apply(p.out, t), p.pos + |a|), n, ctrl, bit + 1, ts[1..]);
    } else {
      BodiesOfNothing(ts);
    }
  }

  lemma BodiesOfNothing(ts: seq<Token>)
    requires |ts| == 0
    ensures Encodable(ts) && Bodies(ts) == []
  {
  }

  lemma SplitSlice(data: ByteString, at: nat, a: ByteString, b: ByteString)
    requires at + |a| + |b| <= |data| && data[at..at + |a + b|] == a + b
    ensures data[at..at + |a|] == a && data[at + |a|..at + |a| + |b|] == b
  {
    assert data[at..at + |a|] == data[at..at + |a + b|][..|a|];
    assert data[at + |a|..at + |a| + |b|] == data[at..at + |a + b|][|a|..];
  }

  lemma {:induction false} ReplayConcat(a: seq<Token>, b: seq<Token>, out: ByteString)
    ensures AllFit(a + b, out) <==> AllFit(a, out) && AllFit(b, Replay(a, out))
    ensures AllFit(a + b, out) ==> Replay(a + b, out) == Replay(b, Replay(a, out))
    decreases |a|
  {
    hide Apply;
    if |a| == 0 {
      assert a + b == b;
    } else {
      assert (a + b)[1..] == a[1..] + b;
      if Fits(a[0], |out|) {
        ReplayConcat(a[1..], b, Apply(out, a[0]));
      }
    }
  }

  function GroupSize(ts: seq<Token>): (m: nat)
    ensures m <= 8 && m <= |ts| && (|ts| > 0 ==> m > 0) && (|ts| > m ==> m == 8)
  {
    if |ts| <= 8 then |ts| else 8
  }

  /** The first group of a serialized list, taken off the stream. */
  lemma FirstGroupInverts(data: ByteString, p: Progress, n: nat, ts: seq<Token>)
    requires |ts| > 0 && p.pos <= |data| && AllFit(ts, p.out) && Encodable(ts) && |Replay(ts, p.out)| == n
    requires data[p.pos..] == Serialize(ts)
    ensures var m := GroupSize(ts);
      var g := ts[..m];
      var next := p.pos + 1 + |Bodies(g)|;
      && AllFit(g, p.out) && AllFit(ts[m..], Replay(g, p.out)) && Replay(ts[m..], Replay(g, p.out)) == Replay(ts, p.out)
      && next <= |data| && data[next..] == Serialize(ts[m..])
      && TakeGroup(data, Progress(p.out, p.pos + 1), n, data[p.pos], 0) == Some(Progress(Replay(g, p.out), next))
  {
    hide TakeGroup, IsSet, Bodies, Flags, Replay, AllFit, Serialize;
    var m := GroupSize(ts);
    var g, rest := ts[..m], ts[m..];
    assert ts == g + rest;
    ReplayConcat(g, rest, p.out);
    SerializeUnfold(ts);
    FlagsAreAByte(g);
    var body := Bodies(g);
    var tail := data[p.pos..];
    assert data[p.pos] == tail[0];
    assert tail[1..1 + |body|] == body && tail[1 + |body|..] == Serialize(rest);
    SliceOfTail(data, p.pos, 1, |body|);
    forall i | 0 <= i < |g| ensures IsSet(Flags(g), 0 + i) == g[i].Literal? {
      FlagsBit(g, i);
    }
    if |rest| == 0 {
      ReplayOfNothing(Replay(g, p.out));
      assert rest == [];
    }
    TakeGroupInverts(data, Progress(p.out, p.pos + 1), n, Flags(g), 0, g);
  }

  lemma {:induction false} TakeGroupsInverts(data: ByteString, p: Progress, n: nat, ts: seq<Token>)
    requires p.pos <= |data| && AllFit(ts, p.out) && Encodable(ts) && |Replay(ts, p.out)| == n
    requires data[p.pos..] == Serialize(ts)
    ensures TakeGroups(data, p, n) == Some(Progress(Replay(ts, p.out), |data|))
    decreases |ts|
  {
    hide TakeGroup, Bodies, Replay, AllFit, Serialize;
    if |ts| == 0 {
      ReplayOfNothing(p.out);
      assert ts == [] && Serialize([]) == [] by { SerializeNothing(); }
      assert |data[p.pos..]| == 0;
    } else {
      FirstGroupInverts(data, p, n, ts);
      var m := GroupSize(ts);
      var g := ts[..m];
      TakeGroupsInverts(data, Progress(Replay(g, p.out), p.pos + 1 + |Bodies(g)|), n, ts[m..]);
    }
  }

  lemma SerializeNothing()
    ensures Serialize([]) == []
  {
  }

  lemma SliceOfTail(data: ByteString, at: nat, i: nat, len: nat)
    requires at + i + len <= |data|
    ensures data[at + i..at + i + len] == data[at..][i..i + len]
    ensures data[at + i + len..] == data[at..][i + len..]
  {
  }

  lemma ReplayOfNothing(out: ByteString)
    ensures AllFit([], out) && Replay([], out) == out
  {
  }

  lemma SerializeUnfold(ts: seq<Token>)
    requires Encodable(ts) && |ts| > 0
    ensures var m := GroupSize(ts);
      Flags(ts[..m]) < 256 && Serialize(ts) == [Flags(ts[..m])] + Bodies(ts[..m]) + Serialize(ts[m..])
  {
    if |ts| <= 8 {
      assert ts[..|ts|] == ts;
      assert Serialize(ts[|ts|..]) == [];
      FlagsAreAByte(ts);
    } else {
      FlagsAreAByte(ts[..8]);
    }
  }

  /** Any token list that replays to the input decodes to the input. */
  lemma DecodesTokens(input: ByteString, ts: seq<Token>)
    requires |input| < TWO_64 && AllFit(ts, []) && Encodable(ts) && Replay(ts, []) == input
    ensures Decompressed(Varint(|input|) + Serialize(ts)) == Some(input)
  {
    hide TakeGroups, Serialize, Replay, AllFit, Varint, TakeVarintFrom;
    var header := Varint(|input|);
    var data := header + Serialize(ts);
    VarintRoundTrip(|input|, Serialize(ts));
    assert data[|header|..] == Serialize(ts);
    TakeGroupsInverts(data, Progress([], |header|), |input|, ts);
  }

  // ---------- what the tokens and their bytes mean ----------

  /** A copy leaves what was there, and every byte behind it is the one `off` before it. */
  lemma {:induction false} CopyBackMeans(out: ByteString, off: nat, len: nat)
    requires 1 <= off <= |out|
    ensures CopyBack(out, off, len)[..|out|] == out
    ensures forall i :: |out| <= i < |out| + len ==> CopyBack(out, off, len)[i] == CopyBack(out, off, len)[i - off]
    decreases len
  {
    if len > 0 {
      var next := out + [out[|out| - off]];
      CopyBackMeans(next, off, len - 1);
      var r := CopyBack(out, off, len);
      assert r == CopyBack(next, off, len - 1) && r[..|next|] == next;
      assert r[..|out|] == r[..|next|][..|out|] == out;
      assert r[|out|] == next[|out|] && r[|out| - off] == next[|out| - off];
    }
  }

  /** A match in bytes: the offset less one in twelve bits, the length less three in four, or 15 and a third byte. */
  lemma TokenMeans(t: Token)
    requires InFormat(t)
    ensures t.Literal? ==> TokenBytes(t) == [t.b]
    ensures t.Match? ==>
      var s := TokenBytes(t);
      && |s| >= 2 && s[0] as int + 256 * (s[1] as int % 16) == t.off - 1
      && (t.len <= 17 ==> |s| == 2 && s[1] / 16 == t.len - 3)
      && (t.len > 17 ==> |s| == 3 && s[1] / 16 == 15 && s[2] == t.len - 18)
  {
  }

  lemma {:induction false} IsSetMeans(flags: nat, bit: nat)
    ensures IsSet(flags, bit) <==> flags / Pow2(bit) % 2 == 1
  {
    if bit == 0 {
      assert flags / 1 == flags;
    } else {
      IsSetMeans(flags / 2, bit - 1);
      QuotientOfQuotient(flags, 2, Pow2(bit - 1));
    }
  }

  /** A group is its flag byte, whose bit i says that token i is a literal, and then its tokens one after the other. */
  lemma GroupMeans(ts: seq<Token>, i: nat)
    requires Encodable(ts) && i < |ts| <= 8
    ensures GroupBytes(ts)[0] / Pow2(i) % 2 == 1 <==> ts[i].Literal?
    ensures GroupBytes(ts)[1..] == Bodies(ts)
  {
    hide Flags, IsSet, Pow2;
    FlagsBit(ts, i);
    IsSetMeans(Flags(ts), i);
  }

  lemma BodiesMean(ts: seq<Token>, t: Token)
    requires Encodable(ts) && InFormat(t)
    ensures Bodies([]) == [] && Encodable(ts + [t]) && Bodies(ts + [t]) == Bodies(ts) + TokenBytes(t)
  {
    assert (ts + [t])[..|ts|] == ts;
  }

  /** Whatever is decoded has the length that the stream announces. */
  lemma DecodedLength(data: ByteString)
    ensures Decompressed(data).Some? ==>
      TakeVarintFrom(data, 0).Some? && |Decompressed(data).value| == TakeVarintFrom(data, 0).value.value
  {
    hide TakeGroups;
  }

  // ---------- hash chains ----------

  /** Multiplicative hash of three bytes, 13 bits of a 32-bit product. */
  function Hash3(a: Byte, b: Byte, c: Byte): (h: nat)
    ensures h < HASH_SIZE
    ensures h * 0x8_0000 <= (65536 * a + 256 * b + c) * 2654435761 % 0x1_0000_0000 < (h + 1) * 0x8_0000
  {
    var v: nat := a as int * 65536 + b as int * 256 + c as int;
    v * 0x9E37_79B1 % 0x1_0000_0000 / 0x8_0000
  }

  /** `pos as i32` */
  function AsI32(pos: nat): (i: int)
    ensures i <= pos && (pos < 0x8000_0000 ==> i == pos)
  {
    (pos + 0x8000_0000) % 0x1_0000_0000 - 0x8000_0000
  }

  /** The length of the common prefix of the input at c and at pos, up to max. */
  function CommonPrefix(input: ByteString, c: nat, pos: nat, max: nat): (l: nat)
    requires c <= pos && pos + max <= |input|
    ensures l <= max
    ensures input[c..c + l] == input[pos..pos + l]
    ensures l < max ==> input[c + l] != input[pos + l]
  {
    PrefixFromAgrees(input, c, pos, max, 0);
    PrefixFrom(input, c, pos, max, 0)
  }

  function PrefixFrom(input: ByteString, c: nat, pos: nat, max: nat, l: nat): (r: nat)
    requires c <= pos && pos + max <= |input| && l <= max
    ensures l <= r <= max
    decreases max - l
  {
    if l < max && input[c + l] == input[pos + l] then PrefixFrom(input, c, pos, max, l + 1) else l
  }

  lemma {:induction false} PrefixFromAgrees(input: ByteString, c: nat, pos: nat, max: nat, l: nat)
    requires c <= pos && pos + max <= |input| && l <= max
    requires input[c..c + l] == input[pos..pos + l]
    ensures var r := PrefixFrom(input, c, pos, max, l);
      input[c..c + r] == input[pos..pos + r] && (r < max ==> input[c + r] != input[pos + r])
    decreases max - l
  {
    if l < max && input[c + l] == input[pos + l] {
      PrefixGrows(input, c, pos, l);
      PrefixFromAgrees(input, c, pos, max, l + 1);
    }
  }

  lemma PrefixGrows(input: ByteString, c: nat, pos: nat, l: nat)
    requires c <= pos && pos + l < |input|
    requires input[c..c + l] == input[pos..pos + l] && input[c + l] == input[pos + l]
    ensures input[c..c + l + 1] == input[pos..pos + l + 1]
  {
    assert input[c..c + l + 1] == input[c..c + l] + [input[c + l]];
    assert input[pos..pos + l + 1] == input[pos..pos + l] + [input[pos + l]];
  }

  lemma CommonElement(input: ByteString, c: nat, pos: nat, l: nat, k: nat)
    requires c <= pos && pos + l <= |input| && input[c..c + l] == input[pos..pos + l]
    ensures k < l ==> input[c + k] == input[pos + k]
  {
    if k < l {
      assert input[c..c + l][k] == input[pos..pos + l][k];
    }
  }

  lemma PrefixIs(input: ByteString, c: nat, pos: nat, max: nat, l: nat)
    requires c <= pos && pos + max <= |input| && l <= max
    requires input[c..c + l] == input[pos..pos + l]
    requires l < max ==> input[c + l] != input[pos + l]
    ensures CommonPrefix(input, c, pos, max) == l
  {
    hide PrefixFrom;
    var r := CommonPrefix(input, c, pos, max);
    CommonElement(input, c, pos, r, l);
    CommonElement(input, c, pos, l, r);
  }

  /** Every link leads strictly back. */
  predicate LinksGoBack(prev: seq<int>) {
    forall p :: 0 <= p < |prev| ==> -0x8000_0000 <= prev[p] < p
  }

  predicate HeadsBefore(head: seq<int>, pos: nat) {
    forall h :: 0 <= h < |head| ==> -0x8000_0000 <= head[h] < pos
  }

  /** The candidates the search visits from cand on. */
  function Candidates(prev: seq<int>, cand: int, pos: nat, budget: nat): (cs: seq<nat>)
    requires LinksGoBack(prev) && cand < pos <= |prev|
    ensures forall k :: 0 <= k < |cs| ==> cs[k] < pos <= cs[k] + WINDOW
    decreases budget
  {
    if cand < 0 || budget == 0 || pos - cand > WINDOW then []
    else [cand] + Candidates(prev, prev[cand], pos, budget - 1)
  }

  /** (len, off) is the first of the longest matches among the candidates; len is 0 if none agrees in any byte. */
  ghost predicate LongestMatch(input: ByteString, pos: nat, max: nat, cs: seq<nat>, len: nat, off: nat)
    requires pos + max <= |input| && forall k :: 0 <= k < |cs| ==> cs[k] < pos
  {
    && (forall k :: 0 <= k < |cs| ==> CommonPrefix(input, cs[k], pos, max) <= len)
    && (len > 0 ==> exists k :: FirstWith(input, pos, max, cs, len, k) && off == pos - cs[k])
  }

  ghost predicate FirstWith(input: ByteString, pos: nat, max: nat, cs: seq<nat>, len: nat, k: int)
    requires pos + max <= |input| && forall k :: 0 <= k < |cs| ==> cs[k] < pos
  {
    0 <= k < |cs| && CommonPrefix(input, cs[k], pos, max) == len && forall j :: 0 <= j < k ==> CommonPrefix(input, cs[j], pos, max) < len
  }

  /** The inner comparison loop. */
  method MatchLength(input: ByteString, c: nat, pos: nat, max: nat) returns (l: nat)
    requires c <= pos && pos + max <= |input|
    ensures l == CommonPrefix(input, c, pos, max)
  {
    l := 0;
    while l < max && input[c + l] == input[pos + l]
      invariant l <= max
      invariant input[c..c + l] == input[pos..pos + l]
    {
      PrefixGrows(input, c, pos, l);
      l := l + 1;
    }
    PrefixIs(input, c, pos, max, l);
  }

  method FindMatch(input: ByteString, pos: nat, max: nat, first: int, prev: array<int>) returns (bestLen: nat, bestOff: nat)
    requires pos < prev.Length == |input| && pos + max <= |input| && 0 < max
    requires LinksGoBack(prev[..]) && first < pos
    ensures LongestMatch(input, pos, max, Candidates(prev[..], first, pos, MAX_CHAIN), bestLen, bestOff)
  {
    hide CommonPrefix, LongestMatch, Candidates, LinksGoBack;
    NothingSeen(input, pos, max);
    bestLen, bestOff := 0, 0;
    var cand, chain := first, 0;
    ghost var all := Candidates(prev[..], first, pos, MAX_CHAIN);
    ghost var seen: seq<nat> := [];
    while cand >= 0 && chain < MAX_CHAIN
      invariant cand < pos && chain <= MAX_CHAIN
      invariant all == seen + Candidates(prev[..], cand, pos, MAX_CHAIN - chain)
      invariant bestLen <= max
      invariant forall k :: 0 <= k < |seen| ==> seen[k] < pos
      invariant LongestMatch(input, pos, max, seen, bestLen, bestOff)
      decreases MAX_CHAIN - chain
    {
      var c: nat := cand;
      CandidatesUnfold(prev[..], cand, pos, MAX_CHAIN - chain);
      if pos - c > WINDOW {
        break;
      }
      var l := MatchLength(input, c, pos, max);
      ghost var before := seen;
      seen := seen + [c];
      ghost var later := Candidates(prev[..], prev[c], pos, MAX_CHAIN - chain - 1);
      assert before + ([c] + later) == seen + later;
      MatchSeen(input, pos, max, before, c, bestLen, bestOff);
      if l > bestLen {
        bestLen, bestOff := l, pos - c;
        if l == max {
          MatchCannotImprove(input, pos, max, seen, all, bestLen, bestOff);
          return;
        }
      }
      cand := prev[c];
      chain := chain + 1;
    }
    CandidatesUnfold(prev[..], cand, pos, MAX_CHAIN - chain);
    assert all == seen + [];
    assert seen + [] == seen;
  }

  lemma NothingSeen(input: ByteString, pos: nat, max: nat)
    requires pos + max <= |input|
    ensures LongestMatch(input, pos, max, [], 0, 0)
  {
  }

  lemma CandidatesUnfold(prev: seq<int>, cand: int, pos: nat, budget: nat)
    requires LinksGoBack(prev) && cand < pos <= |prev|
    ensures if cand < 0 || budget == 0 || pos - cand > WINDOW then Candidates(prev, cand, pos, budget) == []
      else prev[cand] < pos && Candidates(prev, cand, pos, budget) == [cand] + Candidates(prev, prev[cand], pos, budget - 1)
  {
  }

  lemma MatchSeen(input: ByteString, pos: nat, max: nat, seen: seq<nat>, c: nat, len: nat, off: nat)
    requires pos + max <= |input| && c < pos && forall k :: 0 <= k < |seen| ==> seen[k] < pos
    requires LongestMatch(input, pos, max, seen, len, off)
    ensures var l := CommonPrefix(input, c, pos, max);
      if l > len then LongestMatch(input, pos, max, seen + [c], l, pos - c)
      else LongestMatch(input, pos, max, seen + [c], len, off)
  {
    hide CommonPrefix;
    var l, cs := CommonPrefix(input, c, pos, max), seen + [c];
    assert cs[|seen|] == c;
    if l > len {
      assert FirstWith(input, pos, max, cs, l, |seen|);
    } else if len > 0 {
      var k :| FirstWith(input, pos, max, seen, len, k) && off == pos - seen[k];
      assert FirstWith(input, pos, max, cs, len, k) && cs[k] == seen[k];
    }
  }

  lemma MatchCannotImprove(input: ByteString, pos: nat, max: nat, seen: seq<nat>, all: seq<nat>, len: nat, off: nat)
    requires pos + max <= |input| && forall k :: 0 <= k < |all| ==> all[k] < pos
    requires |seen| <= |all| && all[..|seen|] == seen
    requires LongestMatch(input, pos, max, seen, len, off) && len == max > 0
    ensures LongestMatch(input, pos, max, all, len, off)
  {
    hide CommonPrefix;
    var k :| FirstWith(input, pos, max, seen, len, k) && off == pos - seen[k];
    assert forall j :: 0 <= j < |seen| ==> all[j] == all[..|seen|][j];
    assert FirstWith(input, pos, max, all, len, k);
  }

  /** A match found in the input is what the decoder's copy reproduces. */
  lemma {:induction false} CopyReproduces(input: ByteString, pos: nat, off: nat, len: nat)
    requires 1 <= off <= pos && pos + len <= |input|
    requires input[pos - off..pos - off + len] == input[pos..pos + len]
    ensures CopyBack(input[..pos], off, len) == input[..pos + len]
    decreases len
  {
    if len > 0 {
      assert input[pos - off] == input[pos - off..pos - off + len][0] == input[pos..pos + len][0];
      assert input[..pos] + [input[..pos][pos - off]] == input[..pos + 1];
      assert input[pos + 1 - off..pos - off + len] == input[pos - off..pos - off + len][1..];
      assert input[pos + 1..pos + len] == input[pos..pos + len][1..];
      CopyReproduces(input, pos + 1, off, len - 1);
    }
  }

  // ---------- the compressor ----------

  datatype Chains = Chains(head: seq<int>, prev: seq<int>)

  /** The chains once position pos is filed in front of its hash's chain, if three bytes are left. */
  function Filed(input: ByteString, pos: nat, chains: Chains): (r: Chains)
    requires pos < |input| == |chains.prev| && |chains.head| == HASH_SIZE
    ensures |r.head| == HASH_SIZE && |r.prev| == |input|
  {
    if pos + MIN_MATCH <= |input| then
      var h := Hash3(input[pos], input[pos + 1], input[pos + 2]);
      Chains(chains.head[h := AsI32(pos)], chains.prev[pos := chains.head[h]])
    else chains
  }

  /** The same for the positions from `from` on, in order. */
  function FiledRun(input: ByteString, from: nat, len: nat, chains: Chains): (r: Chains)
    requires from + len <= |input| == |chains.prev| && |chains.head| == HASH_SIZE
    ensures |r.head| == HASH_SIZE && |r.prev| == |input|
  {
    if len == 0 then chains else Filed(input, from + len - 1, FiledRun(input, from, len - 1, chains))
  }

  /**
    What filing is for: a later search under the same hash, within the window, tries the
    filed position first, and then whatever it would have tried without it.
  */
  lemma FiledIsFirst(input: ByteString, pos: nat, chains: Chains, later: nat, budget: nat)
    requires pos + MIN_MATCH <= |input| == |chains.prev| && |chains.head| == HASH_SIZE && pos < 0x8000_0000
    requires LinksGoBack(chains.prev) && HeadsBefore(chains.head, pos)
    requires pos < later <= |input| && later - pos <= WINDOW && budget > 0
    ensures var h := Hash3(input[pos], input[pos + 1], input[pos + 2]);
      var r := Filed(input, pos, chains);
      && LinksGoBack(r.prev) && r.head[h] < later
      && Candidates(r.prev, r.head[h], later, budget) == [pos] + Candidates(chains.prev, chains.head[h], later, budget - 1)
  {
    var h := Hash3(input[pos], input[pos + 1], input[pos + 2]);
    var r := Filed(input, pos, chains);
    assert r.head[h] == pos && r.prev[pos] == chains.head[h];
    SameCandidates(chains.prev, r.prev, chains.head[h], pos, later, budget - 1);
  }

  /** A chain is not touched by what is filed in front of it. */
  lemma {:induction false} SameCandidates(a: seq<int>, b: seq<int>, cand: int, pos: nat, later: nat, budget: nat)
    requires LinksGoBack(a) && LinksGoBack(b) && |a| == |b| && cand < pos < later <= |a|
    requires forall p :: 0 <= p < pos ==> a[p] == b[p]
    ensures Candidates(a, cand, later, budget) == Candidates(b, cand, later, budget)
    decreases budget
  {
    if cand >= 0 && budget > 0 && later - cand <= WINDOW {
      SameCandidates(a, b, a[cand], pos, later, budget - 1);
    }
  }

  /** Files position pos under its hash, if three bytes are left. */
  method Insert(input: ByteString, pos: nat, head: array<int>, prev: array<int>)
    requires pos < |input| == prev.Length && head.Length == HASH_SIZE && head != prev
    requires LinksGoBack(prev[..]) && HeadsBefore(head[..], pos)
    modifies head, prev
    ensures LinksGoBack(prev[..]) && HeadsBefore(head[..], pos + 1)
    ensures Chains(head[..], prev[..]) == Filed(input, pos, old(Chains(head[..], prev[..])))
  {
    if pos + MIN_MATCH <= |input| {
      var h := Hash3(input[pos], input[pos + 1], input[pos + 2]);
      prev[pos] := head[h];
      head[h] := AsI32(pos);
    }
  }

  lemma FreshChains(head: seq<int>, prev: seq<int>)
    requires forall h :: 0 <= h < |head| ==> head[h] == -1
    requires forall p :: 0 <= p < |prev| ==> prev[p] == -1
    ensures LinksGoBack(prev) && HeadsBefore(head, 0)
  {
  }

  /** Files every position a match covers. */
  method InsertRun(input: ByteString, from: nat, len: nat, head: array<int>, prev: array<int>)
    requires from + len <= |input| == prev.Length && head.Length == HASH_SIZE && head != prev
    requires LinksGoBack(prev[..]) && HeadsBefore(head[..], from)
    modifies head, prev
    ensures LinksGoBack(prev[..]) && HeadsBefore(head[..], from + len)
    ensures Chains(head[..], prev[..]) == FiledRun(input, from, len, old(Chains(head[..], prev[..])))
  {
    hide Filed;
    for i := from to from + len
      invariant LinksGoBack(prev[..]) && HeadsBefore(head[..], i)
      invariant Chains(head[..], prev[..]) == FiledRun(input, from, i - from, old(Chains(head[..], prev[..])))
    {
      Insert(input, i, head, prev);
    }
  }

  // ---------- which matches are taken ----------

  function Fresh(n: nat): (r: Chains)
    ensures |r.head| == HASH_SIZE && |r.prev| == n
  {
    Chains(seq(HASH_SIZE, _ => -1), seq(n, _ => -1))
  }

  /** The chains when position pos is reached, whatever matches were taken: all positions before it are filed, in order. */
  function ChainsAt(input: ByteString, pos: nat): (r: Chains)
    requires pos <= |input|
    ensures |r.head| == HASH_SIZE && |r.prev| == |input|
  {
    FiledRun(input, 0, pos, Fresh(|input|))
  }

  lemma {:induction false} ChainsLater(input: ByteString, pos: nat, len: nat)
    requires pos + len <= |input|
    ensures ChainsAt(input, pos + len) == FiledRun(input, pos, len, ChainsAt(input, pos))
  {
    hide Filed;
    if len > 0 {
      ChainsLater(input, pos, len - 1);
    }
  }

  lemma FileOne(input: ByteString, pos: nat, chains: Chains)
    requires pos < |input| == |chains.prev| && |chains.head| == HASH_SIZE
    ensures Filed(input, pos, chains) == FiledRun(input, pos, 1, chains)
  {
    assert FiledRun(input, pos, 0, chains) == chains;
  }

  /** What the search finds: the first longest match on the chain of the next three bytes, within its bounds. */
  ghost predicate IsBest(input: ByteString, pos: nat, chains: Chains, len: nat, off: nat)
    requires pos < |input| == |chains.prev| && |chains.head| == HASH_SIZE && LinksGoBack(chains.prev) && HeadsBefore(chains.head, pos)
  {
    if pos + MIN_MATCH > |input| then len == 0
    else
      var max := if |input| - pos < MAX_MATCH then |input| - pos else MAX_MATCH;
      var cs := Candidates(chains.prev, chains.head[Hash3(input[pos], input[pos + 1], input[pos + 2])], pos, MAX_CHAIN);
      LongestMatch(input, pos, max, cs, len, off)
  }

  /** The token for position pos: that match, if it is worth a token, and otherwise the byte itself. */
  ghost predicate IsChoice(input: ByteString, pos: nat, t: Token)
    requires pos < |input|
  {
    var chains := ChainsAt(input, pos);
    && LinksGoBack(chains.prev) && HeadsBefore(chains.head, pos)
    && exists len: nat, off: nat :: IsBest(input, pos, chains, len, off) && t == if len >= MIN_MATCH then Match(off, len) else Literal(input[pos])
  }

  /** How many bytes the tokens stand for. */
  function Covered(ts: seq<Token>): (n: nat) {
    if ts == [] then 0
    else Covered(ts[..|ts| - 1]) + if ts[|ts| - 1].Literal? then 1 else ts[|ts| - 1].len
  }

  ghost predicate AreChoices(input: ByteString, ts: seq<Token>) {
    forall i :: 0 <= i < |ts| ==> ChosenAt(input, ts, i)
  }

  ghost predicate ChosenAt(input: ByteString, ts: seq<Token>, i: nat)
    requires i < |ts|
  {
    Covered(ts[..i]) < |input| && IsChoice(input, Covered(ts[..i]), ts[i])
  }

  lemma ChoicesGrow(input: ByteString, ts: seq<Token>, t: Token)
    requires AreChoices(input, ts) && Covered(ts) < |input| && IsChoice(input, Covered(ts), t)
    ensures AreChoices(input, ts + [t])
    ensures Covered(ts + [t]) == Covered(ts) + if t.Literal? then 1 else t.len
  {
    hide IsChoice;
    var more := ts + [t];
    assert more[..|ts|] == ts;
    forall i | 0 <= i < |more|
      ensures ChosenAt(input, more, i)
    {
      if i < |ts| {
        assert ChosenAt(input, ts, i);
        assert more[..i] == ts[..i];
      }
    }
  }

  lemma ChoiceIs(input: ByteString, pos: nat, chains: Chains, len: nat, off: nat)
    requires pos < |input| && chains == ChainsAt(input, pos) && LinksGoBack(chains.prev) && HeadsBefore(chains.head, pos)
    requires IsBest(input, pos, chains, len, off)
    ensures IsChoice(input, pos, if len >= MIN_MATCH then Match(off, len) else Literal(input[pos]))
  {
    hide IsBest, ChainsAt, LinksGoBack, HeadsBefore;
  }

  /** The bytes out so far: finished groups, then the open group with its flag byte still blank. */
  ghost predicate Emitted(out: ByteString, header: ByteString, done: seq<Token>, cur: seq<Token>, flagsPos: nat, flags: nat)
    requires Encodable(done) && Encodable(cur)
  {
    && |done| % 8 == 0
    && |cur| < 8
    && (|cur| == 0 ==> out == header + Serialize(done))
    && (|cur| > 0 ==> OpenGroup(out, header, done, cur, flagsPos, flags))
  }

  ghost predicate OpenGroup(out: ByteString, header: ByteString, done: seq<Token>, cur: seq<Token>, flagsPos: nat, flags: nat)
    requires Encodable(done) && Encodable(cur)
  {
    && flags == Flags(cur)
    && flagsPos < |out| && out[..flagsPos] == header + Serialize(done) && out[flagsPos + 1..] == Bodies(cur)
  }

  lemma {:induction false} SerializeAppend(done: seq<Token>, cur: seq<Token>)
    requires Encodable(done) && Encodable(cur) && |done| % 8 == 0 && 0 < |cur| <= 8
    ensures Encodable(done + cur) && Flags(cur) < 256
    ensures Serialize(done + cur) == Serialize(done) + [Flags(cur)] + Bodies(cur)
    decreases |done|
  {
    hide Bodies, Flags;
    FlagsAreAByte(cur);
    if |done| == 0 {
      assert done + cur == cur;
    } else {
      SerializeAppend(done[8..], cur);
      assert (done + cur)[..8] == done[..8];
      assert (done + cur)[8..] == done[8..] + cur;
      SerializeUnfold(done + cur);
      SerializeUnfold(done);
    }
  }

  /** Patching the flag byte closes the group. */
  lemma CloseGroup(out: ByteString, header: ByteString, done: seq<Token>, cur: seq<Token>, flagsPos: nat, flags: nat)
    requires Encodable(done) && Encodable(cur) && |done| % 8 == 0 && 0 < |cur| <= 8
    requires OpenGroup(out, header, done, cur, flagsPos, flags)
    ensures flags < 256 && flagsPos < |out| && Encodable(done + cur)
    ensures out[flagsPos := flags] == header + Serialize(done + cur)
  {
    hide Bodies, Flags, Serialize;
    SerializeAppend(done, cur);
    assert out == out[..flagsPos] + [out[flagsPos]] + out[flagsPos + 1..];
    assert out[flagsPos := flags] == out[..flagsPos] + [flags] + out[flagsPos + 1..];
  }

  lemma ExtendGroup(out: ByteString, header: ByteString, done: seq<Token>, cur: seq<Token>, flagsPos: nat, flags: nat, t: Token)
    requires Encodable(done) && Encodable(cur) && InFormat(t) && |cur| < 8
    requires OpenGroup(out, header, done, cur, flagsPos, flags)
    ensures Encodable(cur + [t])
    ensures OpenGroup(out + TokenBytes(t), header, done, cur + [t], flagsPos,
      flags + if t.Literal? then Pow2(|cur|) else 0)
  {
    hide TokenBytes, Flags, Serialize, Bodies;
    FlagsAppend(cur, t);
    BodiesAppend(cur, t);
    var next := out + TokenBytes(t);
    assert next[..flagsPos] == out[..flagsPos];
    assert next[flagsPos + 1..] == out[flagsPos + 1..] + TokenBytes(t);
  }

  lemma BodiesAppend(ts: seq<Token>, t: Token)
    requires Encodable(ts) && InFormat(t)
    ensures Encodable(ts + [t]) && Bodies(ts + [t]) == Bodies(ts) + TokenBytes(t)
  {
    assert (ts + [t])[..|ts|] == ts;
  }

  lemma StartGroup(out: ByteString, header: ByteString, done: seq<Token>)
    requires Encodable(done) && out == header + Serialize(done)
    ensures OpenGroup(out + [0], header, done, [], |out|, 0)
  {
    hide Serialize;
    assert (out + [0])[..|out|] == out;
  }

  lemma ReplayOne(ts: seq<Token>, t: Token, before: ByteString, after: ByteString)
    requires AllFit(ts, []) && Replay(ts, []) == before
    requires Fits(t, |before|) && Apply(before, t) == after
    ensures AllFit(ts + [t], []) && Replay(ts + [t], []) == after
  {
    hide Apply, Fits;
    ReplayConcat(ts, [t], []);
    ReplayOfNothing(after);
    assert [t][1..] == [];
  }

  lemma MatchIsCommon(input: ByteString, pos: nat, max: nat, cs: seq<nat>, len: nat, off: nat)
    requires pos + max <= |input| && forall k :: 0 <= k < |cs| ==> cs[k] < pos <= cs[k] + WINDOW
    requires LongestMatch(input, pos, max, cs, len, off) && len > 0
    ensures 1 <= off <= pos && off <= WINDOW && len <= max
    ensures input[pos - off..pos - off + len] == input[pos..pos + len]
  {
    hide CommonPrefix;
    var k :| FirstWith(input, pos, max, cs, len, k) && off == pos - cs[k];
  }

  method BestMatch(input: ByteString, pos: nat, head: array<int>, prev: array<int>) returns (bestLen: nat, bestOff: nat)
    requires pos < |input| == prev.Length && head.Length == HASH_SIZE
    requires LinksGoBack(prev[..]) && HeadsBefore(head[..], pos)
    ensures bestLen > 0 ==> 1 <= bestOff <= pos && bestOff <= WINDOW && bestLen <= MAX_MATCH
    ensures bestLen > 0 ==> pos + bestLen <= |input|
    ensures bestLen > 0 ==>
      input[pos - bestOff..pos - bestOff + bestLen] == input[pos..pos + bestLen]
    ensures IsBest(input, pos, Chains(head[..], prev[..]), bestLen, bestOff)
  {
    hide Hash3, Candidates, LongestMatch, CommonPrefix;
    bestLen, bestOff := 0, 0;
    if pos + MIN_MATCH <= |input| {
      var max := if |input| - pos < MAX_MATCH then |input| - pos else MAX_MATCH;
      var h := Hash3(input[pos], input[pos + 1], input[pos + 2]);
      bestLen, bestOff := FindMatch(input, pos, max, head[h], prev);
      if bestLen > 0 {
        MatchIsCommon(input, pos, max, Candidates(prev[..], head[h], pos, MAX_CHAIN), bestLen, bestOff);
      }
    }
  }

  /** The bytes a match is written as, by the source's steps. */
  method MatchBytes(len: nat, off: nat) returns (s: ByteString)
    requires 1 <= off <= WINDOW && MIN_MATCH <= len <= MAX_MATCH
    ensures s == TokenBytes(Match(off, len))
  {
    var lc := if len <= 17 then len - MIN_MATCH else 15;
    var code := off - 1 + lc * 4096;
    s := [code % 256, code / 256];
    if len > 17 {
      s := s + [len - 18];
    }
  }

  /** The length, and then the tokens for the first longest match at every place that has one; the output decodes to the input. */
  method LzCompress(input: ByteString) returns (out: ByteString, ghost ts: seq<Token>)
    ensures Encodable(ts) && out == Varint(|input|) + Serialize(ts)
    ensures AllFit(ts, []) && Replay(ts, []) == input && AreChoices(input, ts)
    ensures |input| < TWO_64 ==> Decompressed(out) == Some(input)
  {
    hide IsBest, IsChoice, AreChoices, ChainsAt, Covered, CopyBack, Fresh;
    hide Serialize, Bodies, Flags, Replay, AllFit, Varint, TokenBytes, Pow2, LongestMatch, Candidates, Hash3, OpenGroup, Decompressed, LinksGoBack, HeadsBefore, Filed,
      FiledRun;
    var n := |input|;
    out := PutVarint([], n);
    ghost var header := out;
    assert header == Varint(n);
    var head := new int[HASH_SIZE](i => -1);
    var prev := new int[n](i => -1);
    ts := [];
    var flagsPos: nat, flags: nat, nflags: nat, pos: nat := 0, 0, 0, 0;
    ghost var done: seq<Token>, cur: seq<Token> := [], [];
    ReplayOfNothing([]);
    FreshChains(head[..], prev[..]);
    NothingFiled(input, Chains(head[..], prev[..]));
    NothingChosen(input);
    assert done + cur == [];
    SerializeNothing();
    while pos < n
      invariant pos <= n
      invariant LinksGoBack(prev[..]) && HeadsBefore(head[..], pos)
      invariant Encodable(done) && Encodable(cur) && nflags == |cur|
      invariant Emitted(out, header, done, cur, flagsPos, flags)
      invariant AllFit(done + cur, []) && Replay(done + cur, []) == input[..pos]
      invariant Covered(done + cur) == pos && AreChoices(input, done + cur) && Chains(head[..], prev[..]) == ChainsAt(input, pos)
      decreases n - pos
    {
      if nflags == 0 {
        StartGroup(out, header, done);
        flagsPos := |out|;
        out := out + [0];
        flags := 0;
      }
      assert OpenGroup(out, header, done, cur, flagsPos, flags);
      var bestLen, bestOff := BestMatch(input, pos, head, prev);
      ghost var t := if bestLen >= MIN_MATCH then Match(bestOff, bestLen) else Literal(input[pos]);
      ghost var from := pos;
      ChoiceIs(input, pos, Chains(head[..], prev[..]), bestLen, bestOff);
      ChoicesGrow(input, done + cur, t);
      ExtendGroup(out, header, done, cur, flagsPos, flags, t);
      var token: ByteString;
      if bestLen >= MIN_MATCH {
        CopyReproduces(input, pos, bestOff, bestLen);
        token := MatchBytes(bestLen, bestOff);
        ChainsLater(input, pos, bestLen);
        InsertRun(input, pos, bestLen, head, prev);
        pos := pos + bestLen;
      } else {
        LiteralBytes(input[pos]);
        flags := flags + Pow2(nflags);
        token := [input[pos]];
        ChainsLater(input, pos, 1);
        FileOne(input, pos, ChainsAt(input, pos));
        Insert(input, pos, head, prev);
        assert input[..pos] + [input[pos]] == input[..pos + 1];
        pos := pos + 1;
      }
      out := out + token;
      ReplayOne(done + cur, t, input[..from], input[..pos]);
      assert done + cur + [t] == done + (cur + [t]);
      cur := cur + [t];
      nflags := nflags + 1;
      if nflags == 8 {
        CloseGroup(out, header, done, cur, flagsPos, flags);
        out := out[flagsPos := flags];
        nflags := 0;
        assert done + cur + [] == done + cur;
        done, cur := done + cur, [];
      }
    }
    if nflags > 0 {
      CloseGroup(out, header, done, cur, flagsPos, flags);
      out := out[flagsPos := flags];
    }
    ts := done + cur;
    assert cur == [] ==> ts == done;
    assert out == header + Serialize(ts);
    assert input[..pos] == input;
    FitIsEncodable(ts, []);
    if |input| < TWO_64 {
      DecodesTokens(input, ts);
    }
  }

  lemma NothingFiled(input: ByteString, chains: Chains)
    requires |chains.head| == HASH_SIZE && |chains.prev| == |input|
    requires (forall h :: 0 <= h < HASH_SIZE ==> chains.head[h] == -1) && forall p :: 0 <= p < |input| ==> chains.prev[p] == -1
    ensures chains == ChainsAt(input, 0)
  {
    var fresh' := Fresh(|input|);
    assert chains.head == fresh'.head && chains.prev == fresh'.prev;
  }

  lemma NothingChosen(input: ByteString)
    ensures Covered([]) == 0 && AreChoices(input, [])
  {
  }

  lemma LiteralBytes(b: Byte)
    ensures TokenBytes(Literal(b)) == [b]
  {
  }

  // ---------- the decompressor ----------

  /** The copy loop. */
  method CopyLoop(before: ByteString, off: nat, len: nat) returns (out: ByteString)
    requires 1 <= off <= |before|
    ensures out == CopyBack(before, off, len)
  {
    out := before;
    var start := |before| - off;
    for i := 0 to len
      invariant |out| == |before| + i
      invariant CopyBack(out, off, len - i) == CopyBack(before, off, len)
    {
      out := out + [out[start + i]];
    }
  }

  /** One token of the decoder loop. */
  method ReadToken(data: ByteString, before: Progress, literal: bool) returns (r: Option<Progress>)
    ensures r == TakeToken(data, before, literal)
  {
    hide CopyBack;
    var out, pos := before.out, before.pos;
    if literal {
      if pos >= |data| {
        return None;
      }
      return Some(Progress(out + [data[pos]], pos + 1));
    }
    if pos + 1 >= |data| {
      return None;
    }
    var code: nat := data[pos] as int + 256 * data[pos + 1] as int;
    pos := pos + 2;
    var off: nat, lc: nat := code % 4096 + 1, code / 4096;
    var count: nat;
    if lc < 15 {
      count := lc + MIN_MATCH;
    } else {
      if pos >= |data| {
        return None;
      }
      count := 18 + data[pos] as int;
      pos := pos + 1;
    }
    if off > |out| {
      return None;
    }
    out := CopyLoop(out, off, count);
    return Some(Progress(out, pos));
  }

  /** The tokens under one flag byte. */
  method ReadGroup(data: ByteString, before: Progress, n: nat, ctrl: nat) returns (r: Option<Progress>)
    ensures r == TakeGroup(data, before, n, ctrl, 0)
  {
    hide TakeToken, IsSet;
    var p := before;
    var bit := 0;
    while bit < 8 && |p.out| < n
      invariant bit <= 8
      invariant TakeGroup(data, p, n, ctrl, bit) == TakeGroup(data, before, n, ctrl, 0)
    {
      var t := ReadToken(data, p, IsSet(ctrl, bit));
      if t.None? {
        return None;
      }
      p := t.value;
      bit := bit + 1;
    }
    return Some(p);
  }

  method LzDecompress(data: ByteString) returns (r: Option<ByteString>)
    ensures r == Decompressed(data)
  {
    hide TakeGroup, TakeVarintFrom;
    assert data[0..] == data;
    var len, pos := TakeVarint(data, 0);
    if len.None? {
      return None;
    }
    var n := len.value;
    var p := Progress([], pos);
    while |p.out| < n
      invariant p.pos <= |data|
      invariant TakeGroups(data, p, n) == TakeGroups(data, Progress([], pos), n)
      decreases |data| - p.pos
    {
      if p.pos >= |data| {
        return None;
      }
      var g := ReadGroup(data, Progress(p.out, p.pos + 1), n, data[p.pos]);
      if g.None? {
        return None;
      }
      p := g.value;
    }
    return if |p.out| == n then Some(p.out) else None;
  }
}
