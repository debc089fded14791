/**
  The adaptive range coder of `src/compress.rs` (Subbotin's carry-less coder).
  `low`, `range` and `code` are u32 in the source; here they are numbers, and every
  place where the source wraps or truncates is written out with `% TWO_32`.
*/
module RangeCoder {
  import opened Options
  import opened Bytes

  const TOP: nat := 0x100_0000
  const BOT: nat := 0x1_0000
  const INC: nat := 24
  const MAX_TOTAL: nat := 0x8000
  const MIN_INPUT: nat := 32

  // ---------- the adaptive model ----------

  function Total(freq: seq<nat>): (r: nat) {
    if |freq| == 0 then 0 else Total(freq[..|freq| - 1]) + freq[|freq| - 1]
  }

  datatype Model = Model(freq: seq<nat>, total: nat)
  {
    /** Every symbol can be coded, the total is the sum, and it is small enough for the coder. */
    predicate Valid() {
      && |freq| == 256
      && (forall i :: 0 <= i < 256 ==> freq[i] >= 1)
      && total == Total(freq)
      && 256 <= total < MAX_TOTAL
    }

    /** The cumulative frequency of the symbols below sym. */
    function Cum(sym: nat): (r: nat)
      requires sym <= |freq|
    {
      Total(freq[..sym])
    }

    function Update(sym: nat): (r: Model)
      requires sym < |freq|
    {
      var f := freq[sym := freq[sym] + INC];
      if total + INC >= MAX_TOTAL then Model(Halved(f), Total(Halved(f))) else Model(f, total + INC)
    }
  }

  function Ones(n: nat): (r: seq<nat>)
    ensures |r| == n && forall i :: 0 <= i < n ==> r[i] == 1
  {
    seq(n, i => 1)
  }

  function Uniform(): (r: Model) {
    Model(Ones(256), 256)
  }

  /** (f >> 1) | 1 */
  function HalfOf(f: nat): (h: nat)
    ensures h >= 1 && f / 2 <= h <= f / 2 + 1
  {
    if f / 2 % 2 == 1 then f / 2 else f / 2 + 1
  }

  function Halved(freq: seq<nat>): (r: seq<nat>)
    ensures |r| == |freq|
    ensures forall i :: 0 <= i < |r| ==> r[i] == HalfOf(freq[i])
  {
    seq(|freq|, i requires 0 <= i < |freq| => HalfOf(freq[i]))
  }

  lemma {:induction false} TotalOfUpdate(freq: seq<nat>, i: nat, d: nat)
    requires i < |freq|
    ensures Total(freq[i := freq[i] + d]) == Total(freq) + d
    decreases |freq|
  {
    var l := |freq| - 1;
    var g := freq[i := freq[i] + d];
    if i == l {
      assert g[..l] == freq[..l];
    } else {
      TotalOfUpdate(freq[..l], i, d);
      assert g[..l] == freq[..l][i := freq[..l][i] + d];
    }
  }

  lemma {:induction false} TotalAtLeastLength(freq: seq<nat>)
    requires forall i :: 0 <= i < |freq| ==> freq[i] >= 1
    ensures Total(freq) >= |freq|
  {
    if |freq| > 0 {
      TotalAtLeastLength(freq[..|freq| - 1]);
    }
  }

  lemma {:induction false} TotalOfHalved(freq: seq<nat>)
    ensures 2 * Total(Halved(freq)) <= Total(freq) + 2 * |freq|
  {
    if |freq| > 0 {
      var l := |freq| - 1;
      TotalOfHalved(freq[..l]);
      assert Halved(freq)[..l] == Halved(freq[..l]);
    }
  }

  lemma {:induction false} TotalOfOnes(n: nat)
    ensures Total(Ones(n)) == n
  {
    if n > 0 {
      TotalOfOnes(n - 1);
      assert Ones(n)[..n - 1] == Ones(n - 1);
    }
  }

  lemma UniformIsValid()
    ensures Uniform().Valid()
  {
    hide Total;
    TotalOfOnes(256);
  }

  /** The model stays valid, so `range / total` never reaches zero. */
  lemma UpdateKeepsValid(m: Model, sym: nat)
    requires m.Valid() && sym < 256
    ensures m.Update(sym).Valid()
  {
    hide Total, HalfOf;
    var f := m.freq[sym := m.freq[sym] + INC];
    TotalOfUpdate(m.freq, sym, INC);
    TotalOfHalved(f);
    TotalAtLeastLength(Halved(f));
  }

  /**
    A step below the limit adds 24 to the coded symbol's frequency and changes no other; at
    the limit all frequencies, that one grown, are halved to odd numbers and recounted.
  */
  lemma UpdateMeans(m: Model, sym: nat)
    requires m.Valid() && sym < 256
    ensures var r := m.Update(sym);
      && |r.freq| == 256
      && (m.total + 24 < 0x8000 ==> r.total == m.total + 24 && r.freq[sym] == m.freq[sym] + 24)
      && (m.total + 24 < 0x8000 ==> forall i :: 0 <= i < 256 && i != sym ==> r.freq[i] == m.freq[i])
      && (m.total + 24 >= 0x8000 ==> r.total == Total(r.freq))
      && (m.total + 24 >= 0x8000 ==> forall i :: 0 <= i < 256 ==>
            var grown := if i == sym then m.freq[i] + 24 else m.freq[i];
            r.freq[i] % 2 == 1 && 2 * r.freq[i] - 2 <= grown <= 2 * r.freq[i] + 1)
  {
    hide Total;
  }

  /** The cumulative frequency of a symbol is the sum of those before it. */
  lemma CumMeans(m: Model, sym: nat)
    requires sym < |m.freq|
    ensures m.Cum(0) == 0 && m.Cum(sym + 1) == m.Cum(sym) + m.freq[sym]
  {
    CumSplits(m.freq, sym);
  }

  lemma {:induction false} CumSplits(freq: seq<nat>, sym: nat)
    requires sym < |freq|
    ensures Total(freq[..sym + 1]) == Total(freq[..sym]) + freq[sym]
    ensures Total(freq[..sym + 1]) <= Total(freq)
    decreases |freq| - sym
  {
    assert freq[..sym + 1][..sym] == freq[..sym];
    if sym + 1 < |freq| {
      CumSplits(freq, sym + 1);
    } else {
      assert freq[..sym + 1] == freq;
    }
  }

  lemma {:induction false} CumMonotone(freq: seq<nat>, i: nat, j: nat)
    requires i <= j <= |freq|
    ensures Total(freq[..i]) <= Total(freq[..j])
    decreases j - i
  {
    if i < j {
      CumSplits(freq, i);
      CumMonotone(freq, i + 1, j);
    }
  }

  /** All other symbols keep at least one unit each. */
  lemma RoomForTheOthers(m: Model, sym: nat)
    requires m.Valid() && sym < 256
    ensures m.Cum(sym) + m.freq[sym] <= m.total && m.freq[sym] + 255 <= m.total
  {
    hide Total;
    CumSplits(m.freq, sym);
    var f := m.freq[sym := 0];
    assert f[sym := f[sym] + m.freq[sym]] == m.freq;
    TotalOfUpdate(f, sym, m.freq[sym]);
    var g := f[sym := f[sym] + 1];
    TotalOfUpdate(f, sym, 1);
    TotalAtLeastLength(g);
  }

  /** The symbol whose interval contains target; the last symbol beyond the total. */
  function FindFrom(m: Model, target: nat, s: nat): (sym: nat)
    requires s <= 256 && |m.freq| == 256
    ensures sym < 256
    decreases 256 - s
  {
    if s == 256 then 255
    else if m.Cum(s) + m.freq[s] > target then s
    else FindFrom(m, target, s + 1)
  }

  lemma {:induction false} FindHits(m: Model, target: nat, s: nat, sym: nat)
    requires m.Valid() && s <= sym < 256
    requires m.Cum(sym) <= target < m.Cum(sym) + m.freq[sym]
    ensures FindFrom(m, target, s) == sym
    decreases 256 - s
  {
    hide Total;
    if s < sym {
      CumSplits(m.freq, s);
      CumMonotone(m.freq, s + 1, sym);
      FindHits(m, target, s + 1, sym);
    }
  }

  // ---------- one coding step ----------

  datatype Interval = Interval(low: nat, range: nat)
  {
    /**
      The interval never reaches past 2^32.  It may end exactly there, after an
      underflow, but then it starts in the upper part.
    */
    predicate Valid() {
      low < TWO_32 && 1 <= range < TWO_32 && low + range <= TWO_32 && (low + range == TWO_32 ==> low >= TOP)
    }

    /** `(low ^ low.wrapping_add(range)) < TOP`: both ends have the same top byte. */
    predicate SameTop() {
      low / TOP == (low + range) % TWO_32 / TOP
    }

    predicate Settled() {
      !SameTop() && range >= BOT
    }

    /** The sub-interval of a symbol. */
    function Narrow(m: Model, sym: nat): (r: Interval)
      requires sym < |m.freq| && m.total > 0
    {
      var r := range / m.total;
      Interval((low + m.Cum(sym) * r) % TWO_32, r * m.freq[sym])
    }

    /** The underflow branch: `low.wrapping_neg() & (BOT - 1)`. */
    function ForcedRange(): (r: nat)
      requires low <= TWO_32
    {
      (TWO_32 - low) % BOT
    }

    /** `low <<= 8; range <<= 8`, for a given range. */
    function Shifted(r: nat): (v: Interval) {
      Interval(low * 256 % TWO_32, r * 256 % TWO_32)
    }

    /** One pass of the renormalisation loop. */
    function Next(): (r: Interval)
      requires low <= TWO_32
    {
      if SameTop() then Shifted(range) else Shifted(ForcedRange())
    }

    predicate Contains(v: int) {
      low <= v < low + range
    }
  }

  /** A 32-bit machine word: its bytes, its bits, and the number it stands for. */
  datatype Word = Word(b3: bv8, b2: bv8, b1: bv8, b0: bv8)
  {
    function Bits(): (r: bv32) {
      (b3 as bv32 << 24) | (b2 as bv32 << 16) | (b1 as bv32 << 8) | (b0 as bv32)
    }

    function Number(): (r: nat) {
      b3 as int * TOP + b2 as int * BOT + b1 as int * 256 + b0 as int
    }
  }

  lemma EqualNumbers(a: bv8, b: bv8)
    ensures a as int == b as int ==> a == b
  {
  }

  lemma TopOfNumber(w: Word)
    ensures w.Number() / TOP == w.b3 as int
  {
  }

  lemma SmallXor(a: Word, b: Word)
    ensures (a.Bits() ^ b.Bits()) < 0x100_0000 <==> a.b3 == b.b3
  {
  }

  /** The source's test on the two ends as machine words is the test on their top bytes. */
  lemma XorTestIsSameTop(c: Interval, low: Word, high: Word)
    requires c.Valid() && low.Number() == c.low && high.Number() == (c.low + c.range) % TWO_32
    ensures (low.Bits() ^ high.Bits()) < 0x100_0000 <==> c.SameTop()
  {
    hide Word.Bits, Word.Number;
    SmallXor(low, high);
    TopOfNumber(low);
    TopOfNumber(high);
    EqualNumbers(low.b3, high.b3);
  }

  const Full: Interval := Interval(0, TWO_32 - 1)

  /** The same top byte leaves no carry: the shifted interval is exactly 256 times as wide. */
  lemma SameTopStep(c: Interval)
    requires c.Valid() && c.SameTop()
    ensures c.range < TOP && c.low + c.range < TWO_32
    ensures var d := c.Next();
      d == Interval(c.low % TOP * 256, c.range * 256) && d.Valid() && d.low + d.range < TWO_32
  {
    var low, range := c.low, c.range;
    assert low + range < TWO_32;
    var t := low / TOP;
    assert low == t * TOP + low % TOP && low + range == t * TOP + (low + range) % TOP;
    assert low * 256 % TWO_32 == low % TOP * 256 by { ShiftLosesTop(low); }
  }

  lemma ShiftLosesTop(low: nat)
    requires low < TWO_32
    ensures low * 256 % TWO_32 == low % TOP * 256
  {
    assert low * 256 == low / TOP * TWO_32 + low % TOP * 256;
  }

  /**
    The underflow: the interval straddles a multiple of 2^24 with less than 2^16 to
    spare, so the forced range ends exactly on it and shrinks nothing else.
  */
  lemma UnderflowStep(c: Interval)
    requires c.Valid() && !c.SameTop() && c.range < BOT
    ensures 1 <= c.ForcedRange() <= c.range
    ensures var d := c.Next();
      d == Interval(c.low % TOP * 256, c.ForcedRange() * 256) && d.Valid() && d.low + d.range == TWO_32
    ensures c.low + c.range == TWO_32 ==> c.ForcedRange() == c.range
  {
    ShiftLosesTop(c.low);
    NextBoundary(c.low, c.range);
  }

  /** The distance from low to the next multiple of 2^24, when it is below 2^16. */
  lemma NextBoundary(low: nat, range: nat)
    requires low < TWO_32 && range < BOT && low + range <= TWO_32
    requires low / TOP != (low + range) % TWO_32 / TOP
    ensures var r := (TWO_32 - low) % BOT;
      1 <= r <= range && low % TOP == TOP - r && (low + range == TWO_32 ==> r == range)
  {
    var t := low / TOP + 1;
    var r := t * TOP - low;
    assert 1 <= r <= range;
    RemainderIs(TWO_32 - low, (256 - t) * 256, r);
  }

  lemma RemainderIs(x: int, q: int, r: nat)
    requires x == q * BOT + r && r < BOT
    ensures x % BOT == r
  {
  }

  datatype Renormed = Renormed(bytes: ByteString, interval: Interval)

  /** The renormalisation loop: the bytes it shifts out and the settled interval. */
  function Renorm(c: Interval): (r: Renormed)
    requires c.Valid()
    ensures r.interval.Valid() && r.interval.Settled()
    decreases if c.low + c.range == TWO_32 then 0 else 1, TWO_32 - c.range
  {
    if c.Settled() then Renormed([], c)
    else
      assert c.Next().Valid() && (c.low + c.range == TWO_32 ==> c.Next().low + c.Next().range == TWO_32 && c.Next().range > c.range)
          && (c.low + c.range < TWO_32 && c.Next().low + c.Next().range < TWO_32 ==> c.Next().range > c.range)
      by { if c.SameTop() { SameTopStep(c); } else { UnderflowStep(c); } }
      var rest := Renorm(c.Next());
      Renormed([c.low / TOP] + rest.bytes, rest.interval)
  }

  lemma MulLe(a: nat, b: nat, c: nat)
    requires a <= b
    ensures a * c <= b * c && c * a <= c * b
  {
    assert b * c == a * c + (b - a) * c;
  }

  /** r = range / total, so that cum + freq <= total units of r fit in the range. */
  lemma SubInterval(range: nat, cum: nat, f: nat, t: nat)
    requires BOT <= range < TWO_32 && 0 < t < MAX_TOTAL && f >= 1 && cum + f <= t && f + 255 <= t
    ensures var r := range / t;
      r >= 1 && 0 <= cum * r && 1 <= r * f && cum * r + r * f <= range && r * f <= TWO_32 - TOP
  {
    var r := range / t;
    QuotientBounds(range, t);
    MulLe(cum + f, t, r);
    assert (cum + f) * r == cum * r + r * f;
    MulLe(1, f, r);
    MulLe(f + 255, t, r);
    assert (f + 255) * r == r * f + 255 * r;
    MulLe(0, cum, r);
    if range > TWO_32 - TOP {
      WideQuotient(range, t);
    }
  }

  /** A settled interval split by the model stays an interval, without wrapping. */
  lemma NarrowStep(c: Interval, m: Model, sym: nat)
    requires c.Valid() && c.range >= BOT && m.Valid() && sym < 256
    ensures c.Narrow(m, sym).Valid()
    ensures var r := c.range / m.total;
      r >= 1 && 0 <= m.Cum(sym) * r && 1 <= r * m.freq[sym]
      && c.Narrow(m, sym) == Interval(c.low + m.Cum(sym) * r, r * m.freq[sym])
      && c.low + m.Cum(sym) * r + r * m.freq[sym] <= c.low + c.range
  {
    hide Total;
    RoomForTheOthers(m, sym);
    SubInterval(c.range, m.Cum(sym), m.freq[sym], m.total);
  }

  lemma QuotientBounds(n: nat, t: nat)
    requires BOT <= n && 0 < t < MAX_TOTAL
    ensures n / t >= 1 && n / t * t <= n < n / t * t + t
  {
    assert n == n / t * t + n % t;
  }

  lemma WideQuotient(n: nat, t: nat)
    requires TWO_32 - TOP < n < TWO_32 && 0 < t < MAX_TOTAL
    ensures 255 * (n / t) > TOP
  {
    QuotientBounds(n, t);
    var q := n / t + 1;
    assert q * t == n / t * t + t;
    MulLe(t, MAX_TOTAL, q);
  }

  // ---------- the stream a coder leaves and the window a decoder holds ----------

  function ByteAt(s: ByteString, i: nat): (r: Byte) {
    if i < |s| then s[i] else 0
  }

  /** The four bytes from index at, missing ones read as zero, most significant first. */
  function Window(s: ByteString, at: nat): (v: nat)
    ensures v < TWO_32
  {
    ((ByteAt(s, at) * 256 + ByteAt(s, at + 1)) * 256 + ByteAt(s, at + 2)) * 256 + ByteAt(s, at + 3)
  }

  /** `code = (code << 8) | next` moves the window one byte on. */
  lemma WindowShift(s: ByteString, at: nat)
    ensures Window(s, at + 1) == Window(s, at) * 256 % TWO_32 + ByteAt(s, at + 4)
    ensures Window(s, at) == ByteAt(s, at) * TOP + Window(s, at + 1) / 256
  {
    var rest := (ByteAt(s, at + 1) * 256 + ByteAt(s, at + 2)) * 256 + ByteAt(s, at + 3);
    assert Window(s, at) == ByteAt(s, at) * TOP + rest;
    assert Window(s, at + 1) == rest * 256 + ByteAt(s, at + 4);
    assert Window(s, at) * 256 == ByteAt(s, at) * TWO_32 + rest * 256;
  }

  /** The last four bytes the encoder shifts out. */
  function Flush(low: nat, n: nat): (s: ByteString)
    requires low < TWO_32
    ensures |s| == n
    decreases n
  {
    if n == 0 then [] else [low / TOP] + Flush(low * 256 % TWO_32, n - 1)
  }

  /** Everything the encoder still emits from a settled interval. */
  function Encode(c: Interval, m: Model, input: ByteString): (s: ByteString)
    requires c.Valid() && c.range >= BOT && m.Valid()
    ensures |s| >= 4
    decreases |input|
  {
    if |input| == 0 then Flush(c.low, 4)
    else
      NarrowStep(c, m, input[0]);
      UpdateKeepsValid(m, input[0]);
      var r := Renorm(c.Narrow(m, input[0]));
      r.bytes + Encode(r.interval, m.Update(input[0]), input[1..])
  }

  /** The symbol a code value selects. */
  function Select(c: Interval, m: Model, code: nat): (sym: Byte)
    requires c.Valid() && c.range >= BOT && m.Valid() && code < TWO_32
  {
    QuotientBounds(c.range, m.total);
    var q := (code - c.low) % TWO_32 / (c.range / m.total);
    FindFrom(m, if q <= m.total - 1 then q else m.total - 1, 0)
  }

  datatype Decoded = Decoded(output: ByteString, at: nat)

  /** The decoder on any stream whatever: n symbols, and where its window ends up. */
  function Decode(c: Interval, m: Model, s: ByteString, at: nat, n: nat): (r: Decoded)
    requires c.Valid() && c.range >= BOT && m.Valid()
    ensures |r.output| == n
    decreases n
  {
    if n == 0 then Decoded([], at)
    else
      var sym := Select(c, m, Window(s, at));
      NarrowStep(c, m, sym);
      UpdateKeepsValid(m, sym);
      var r := Renorm(c.Narrow(m, sym));
      var rest := Decode(r.interval, m.Update(sym), s, at + |r.bytes|, n - 1);
      Decoded([sym] + rest.output, rest.at)
  }

  // ---------- the window always lies in the interval ----------

  lemma FlushWindow(pre: ByteString, low: nat)
    requires low < TWO_32
    ensures |Flush(low, 4)| == 4
    ensures Window(pre + Flush(low, 4), |pre|) == low
  {
    var b0, l1 := low / TOP, low * 256 % TWO_32;
    var b1, l2 := l1 / TOP, l1 * 256 % TWO_32;
    var b2, l3 := l2 / TOP, l2 * 256 % TWO_32;
    var b3 := l3 / TOP;
    ShiftLosesTop(low);
    ShiftLosesTop(l1);
    ShiftLosesTop(l2);
    assert Flush(l3 * 256 % TWO_32, 0) == [];
    assert Flush(l3, 1) == [b3];
    assert Flush(l2, 2) == [b2] + Flush(l3, 1) == [b2, b3];
    assert Flush(l1, 3) == [b1] + Flush(l2, 2) == [b1, b2, b3];
    assert Flush(low, 4) == [b0] + Flush(l1, 3) == [b0, b1, b2, b3];
  }

  /** Shifting a byte out: the window before lies in the interval if the window after does. */
  lemma ContainsBefore(c: Interval, s: ByteString, at: nat)
    requires c.Valid() && !c.Settled() && at < |s| && s[at] == c.low / TOP
    requires c.Next().Contains(Window(s, at + 1))
    ensures c.Contains(Window(s, at))
  {
    hide Window;
    WindowShift(s, at);
    var v := Window(s, at + 1);
    assert c.low == c.low / TOP * TOP + c.low % TOP;
    if c.SameTop() {
      SameTopStep(c);
      assert c.low % TOP <= v / 256 < c.low % TOP + c.range by { DivideWindow(c.low % TOP, c.range, v); }
    } else {
      UnderflowStep(c);
      assert c.low % TOP <= v / 256 < c.low % TOP + c.ForcedRange() by { DivideWindow(c.low % TOP, c.ForcedRange(), v); }
    }
  }

  lemma DivideWindow(a: nat, r: nat, v: nat)
    requires a * 256 <= v < a * 256 + r * 256
    ensures a <= v / 256 < a + r
  {
  }

  lemma RenormUnfold(c: Interval)
    requires c.Valid()
    ensures c.Settled() ==> Renorm(c) == Renormed([], c)
    ensures !c.Settled() ==> c.Next().Valid()
    ensures !c.Settled() ==>
      Renorm(c) == Renormed([c.low / TOP] + Renorm(c.Next()).bytes, Renorm(c.Next()).interval)
  {
    if !c.Settled() {
      if c.SameTop() { SameTopStep(c); } else { UnderflowStep(c); }
    }
  }

  /** The same through the whole renormalisation. */
  lemma {:induction false} RenormWindow(c: Interval, s: ByteString, at: nat)
    requires c.Valid()
    requires at + |Renorm(c).bytes| <= |s| && s[at..at + |Renorm(c).bytes|] == Renorm(c).bytes
    requires Renorm(c).interval.Contains(Window(s, at + |Renorm(c).bytes|))
    ensures c.Contains(Window(s, at))
    decreases |Renorm(c).bytes|
  {
    hide Window, Renorm, Interval.Next, Interval.Settled, Interval.Contains, Interval.Valid;
    RenormUnfold(c);
    if !c.Settled() {
      var bytes := Renorm(c).bytes;
      assert s[at] == s[at..at + |bytes|][0];
      assert s[at + 1..at + |bytes|] == s[at..at + |bytes|][1..];
      RenormWindow(c.Next(), s, at + 1);
      ContainsBefore(c, s, at);
    }
  }

  lemma {:induction false} EncodedWindow(c: Interval, m: Model, input: ByteString, pre: ByteString)
    requires c.Valid() && c.range >= BOT && m.Valid()
    ensures c.Contains(Window(pre + Encode(c, m, input), |pre|))
    decreases |input|
  {
    hide Window, Renorm;
    if |input| == 0 {
      FlushWindow(pre, c.low);
    } else {
      var sym := input[0];
      NarrowStep(c, m, sym);
      UpdateKeepsValid(m, sym);
      var d := c.Narrow(m, sym);
      var r := Renorm(d);
      var rest := Encode(r.interval, m.Update(sym), input[1..]);
      var s := pre + Encode(c, m, input);
      assert s == pre + r.bytes + rest;
      EncodedWindow(r.interval, m.Update(sym), input[1..], pre + r.bytes);
      RenormWindow(d, s, |pre|);
    }
  }

  /** A code value inside a symbol's sub-interval selects that symbol. */
  lemma SelectHits(c: Interval, m: Model, sym: Byte, code: nat)
    requires c.Valid() && c.range >= BOT && m.Valid()
    requires c.Narrow(m, sym).Contains(code) && code < TWO_32
    ensures Select(c, m, code) == sym
  {
    hide FindFrom, Model.Cum, Total;
    NarrowStep(c, m, sym);
    RoomForTheOthers(m, sym);
    var r, cum, f := c.range / m.total, m.Cum(sym), m.freq[sym];
    hide Interval.Narrow, Interval.Valid;
    assert 0 <= code - c.low < TWO_32;
    var d: nat := code - c.low;
    assert d % TWO_32 == d;
    QuotientBetween(d, r, cum, f);
    FindHits(m, d / r, 0, sym);
  }

  lemma QuotientBetween(d: nat, r: nat, cum: nat, f: nat)
    requires r >= 1 && cum * r <= d < cum * r + r * f
    ensures cum <= d / r < cum + f
  {
    var q := d / r;
    assert d == q * r + d % r;
    assert (q + 1) * r == q * r + r;
    assert (cum + f) * r == cum * r + r * f;
    if q < cum {
      MulLe(q + 1, cum, r);
    }
    if q >= cum + f {
      MulLe(cum + f, q, r);
    }
  }

  lemma EncodeUnfold(c: Interval, m: Model, input: ByteString)
    requires c.Valid() && c.range >= BOT && m.Valid()
    ensures |input| == 0 ==> Encode(c, m, input) == Flush(c.low, 4)
    ensures |input| > 0 ==>
      var d, m' := c.Narrow(m, input[0]), m.Update(input[0]);
      && d.Valid() && m'.Valid()
      && Encode(c, m, input) == Renorm(d).bytes + Encode(Renorm(d).interval, m', input[1..])
  {
    hide Renorm, Total;
    if |input| > 0 {
      NarrowStep(c, m, input[0]);
      UpdateKeepsValid(m, input[0]);
    }
  }

  lemma DecodeUnfold(c: Interval, m: Model, s: ByteString, at: nat, n: nat)
    requires c.Valid() && c.range >= BOT && m.Valid() && n > 0
    ensures var sym := Select(c, m, Window(s, at));
      var d, m' := c.Narrow(m, sym), m.Update(sym);
      && d.Valid() && m'.Valid()
      && var rest := Decode(Renorm(d).interval, m', s, at + |Renorm(d).bytes|, n - 1);
         Decode(c, m, s, at, n) == Decoded([sym] + rest.output, rest.at)
  {
    hide Renorm, Total, Window;
    var sym := Select(c, m, Window(s, at));
    NarrowStep(c, m, sym);
    UpdateKeepsValid(m, sym);
  }

  /** One symbol through the decoder: the window the encoder left selects it. */
  lemma DecodeStep(c: Interval, m: Model, sym: Byte, s: ByteString, pre: ByteString, rest: ByteString, n: nat)
    requires c.Valid() && c.range >= BOT && m.Valid() && n > 0
    requires c.Narrow(m, sym).Valid() && m.Update(sym).Valid()
    requires var r := Renorm(c.Narrow(m, sym));
      s == pre + r.bytes + rest && r.interval.Contains(Window(s, |pre| + |r.bytes|))
    ensures var r := Renorm(c.Narrow(m, sym));
      var d := Decode(r.interval, m.Update(sym), s, |pre| + |r.bytes|, n - 1);
      Decode(c, m, s, |pre|, n) == Decoded([sym] + d.output, d.at)
  {
    hide Window, Renorm, Select, Total, Encode, Interval.Narrow, Interval.Contains, Interval.Valid, Model.Valid, Model.Update, Decode;
    ValidShape(c, m);
    var r := Renorm(c.Narrow(m, sym));
    assert s[|pre|..|pre| + |r.bytes|] == r.bytes;
    RenormWindow(c.Narrow(m, sym), s, |pre|);
    SelectHits(c, m, sym, Window(s, |pre|));
    DecodeUnfold(c, m, s, |pre|, n);
  }

  /** Decoding what was encoded, wherever the stream starts, consumes exactly the stream. */
  lemma {:induction false} DecodeInvertsEncode(c: Interval, m: Model, input: ByteString, pre: ByteString)
    requires c.Valid() && c.range >= BOT && m.Valid()
    ensures var s := pre + Encode(c, m, input);
      Decode(c, m, s, |pre|, |input|) == Decoded(input, |s| - 4)
    decreases |input|
  {
    hide Window, Renorm, Select, Total, Encode, Decode, Flush, Interval.Narrow, Interval.Contains, Interval.Valid, Model.Valid, Model.Update;
    EncodeUnfold(c, m, input);
    ValidShape(c, m);
    if |input| == 0 {
      FlushWindow(pre, c.low);
      DecodeNothing(c, m, pre + Encode(c, m, input), |pre|);
    } else {
      var sym := input[0];
      var m' := m.Update(sym);
      var r := Renorm(c.Narrow(m, sym));
      var rest := Encode(r.interval, m', input[1..]);
      var s := pre + Encode(c, m, input);
      assert s == pre + r.bytes + rest;
      EncodedWindow(r.interval, m', input[1..], pre + r.bytes);
      DecodeStep(c, m, sym, s, pre, rest, |input|);
      DecodeInvertsEncode(r.interval, m', input[1..], pre + r.bytes);
      assert input == [sym] + input[1..];
    }
  }

  lemma DecodeNothing(c: Interval, m: Model, s: ByteString, at: nat)
    requires c.Valid() && c.range >= BOT && m.Valid()
    ensures Decode(c, m, s, at, 0) == Decoded([], at)
  {
  }

  lemma ValidShape(c: Interval, m: Model)
    requires c.Valid() && m.Valid()
    ensures c.low < TWO_32 && |m.freq| == 256 && m.total > 0
  {
  }

  // ---------- the loops ----------

  /** The model the source updates in place. */
  class RangeModel {
    const freq: array<nat>
    var total: nat

    /** The abstract model. */
    ghost function Value(): (r: Model)
      reads this, freq
    {
      Model(freq[..], total)
    }

    ghost predicate Valid()
      reads this, freq
    {
      freq.Length == 256 && Value().Valid()
    }

    constructor ()
      ensures Valid() && Value() == Uniform()
      ensures fresh(freq)
    {
      freq := new nat[256](i => 1);
      total := 256;
      new;
      assert freq[..] == Ones(256);
      UniformIsValid();
    }

    /** Cumulative frequency of the symbols below sym. */
    method Cum(sym: nat) returns (sum: nat)
      requires Valid() && sym < 256
      ensures sum == Value().Cum(sym)
    {
      sum := 0;
      for i := 0 to sym
        invariant sum == Total(freq[..i])
      {
        assert freq[..i + 1][..i] == freq[..i];
        sum := sum + freq[i];
      }
      assert Value().freq[..sym] == freq[..sym];
    }

    method Find(target: nat) returns (sym: Byte, cum: nat, f: nat)
      requires Valid()
      ensures sym == FindFrom(Value(), target, 0)
      ensures cum == Value().Cum(sym) && f == freq[sym]
    {
      hide Total, FindFrom;
      cum := 0;
      CumOfNothing(freq[..]);
      for s := 0 to 256
        invariant cum == Total(freq[..][..s])
        invariant FindFrom(Value(), target, 0) == FindFrom(Value(), target, s)
      {
        FindUnfold(Value(), target, s);
        CumSplits(freq[..], s);
        if cum + freq[s] > target {
          return s, cum, freq[s];
        }
        cum := cum + freq[s];
      }
      // only a target beyond the total gets here
      assert freq[..][..256] == freq[..];
      CumSplits(freq[..], 255);
      FindPastTheEnd(Value(), target);
      return 255, total - freq[255], freq[255];
    }

    /** The rescaling loop: every frequency halved, none to zero, and the total recounted. */
    method Halve()
      requires freq.Length == 256
      modifies this, freq
      ensures freq[..] == Halved(old(freq[..])) && total == Total(freq[..])
    {
      hide Total, HalfOf, Halved;
      ghost var f := freq[..];
      total := 0;
      CumOfNothing(Halved(f));
      for i := 0 to 256
        invariant forall k :: 0 <= k < 256 ==> freq[k] == if k < i then Halved(f)[k] else f[k]
        invariant total == Total(Halved(f)[..i])
      {
        CumSplits(Halved(f), i);
        freq[i] := HalfOf(freq[i]);
        total := total + freq[i];
      }
      assert Halved(f)[..256] == Halved(f);
      assert freq[..] == Halved(f);
    }

    /** One symbol seen.  The 16-bit frequencies never overflow, not even before rescaling. */
    method Update(sym: Byte)
      requires Valid()
      modifies this, freq
      ensures Valid() && Value() == old(Value()).Update(sym)
      ensures old(freq[sym]) + INC < 0x1_0000 && forall i :: 0 <= i < 256 ==> freq[i] < 0x1_0000
    {
      hide Total, HalfOf;
      ghost var m := Value();
      UpdateKeepsValid(m, sym);
      freq[sym] := freq[sym] + INC;
      total := total + INC;
      ghost var f := freq[..];
      assert f == m.freq[sym := m.freq[sym] + INC];
      if total >= MAX_TOTAL {
        Halve();
      }
      assert Value() == m.Update(sym);
      RoomForTheOthers(m, sym);
      forall i | 0 <= i < 256
        ensures freq[i] < 0x1_0000
      {
        RoomForTheOthers(Value(), i);
      }
    }
  }

  lemma CumOfNothing(freq: seq<nat>)
    ensures Total(freq[..0]) == 0
  {
  }

  lemma FindPastTheEnd(m: Model, target: nat)
    requires |m.freq| == 256
    ensures FindFrom(m, target, 256) == 255
  {
  }

  lemma FindUnfold(m: Model, target: nat, s: nat)
    requires s < 256 && |m.freq| == 256
    ensures FindFrom(m, target, s) == if m.Cum(s) + m.freq[s] > target then s else FindFrom(m, target, s + 1)
  {
  }

  /** The renormalisation loop of the encoder. */
  method ShiftOut(c: Interval, out: ByteString) returns (low: nat, range: nat, r: ByteString)
    requires c.Valid()
    ensures Renorm(c).interval == Interval(low, range)
    ensures r == out + Renorm(c).bytes
  {
    hide Renorm, Interval.SameTop, Interval.Valid;
    low, range, r := c.low, c.range, out;
    while true
      invariant Interval(low, range).Valid()
      invariant Renorm(Interval(low, range)).interval == Renorm(c).interval
      invariant r + Renorm(Interval(low, range)).bytes == out + Renorm(c).bytes
      decreases |Renorm(Interval(low, range)).bytes|
    {
      ghost var d := Interval(low, range);
      RenormUnfold(d);
      LowIsByte(d);
      if Interval(low, range).SameTop() {
        // high byte settled
      } else if range < BOT {
        range := (TWO_32 - low) % BOT;
      } else {
        break;
      }
      assert Interval(low * 256 % TWO_32, range * 256 % TWO_32) == d.Next();
      assert r + ([d.low / TOP] + Renorm(d.Next()).bytes) == r + [low / TOP] + Renorm(d.Next()).bytes;
      r := r + [low / TOP];
      low := low * 256 % TWO_32;
      range := range * 256 % TWO_32;
    }
  }

  lemma LowIsByte(c: Interval)
    requires c.Valid()
    ensures c.low < TWO_32 && 0 <= c.low / TOP < 256
  {
  }

  /** What `rc_compress` writes for an input that is long enough. */
  function Compressed(input: ByteString): (s: ByteString) {
    UniformIsValid();
    Varint(|input|) + Encode(Full, Uniform(), input)
  }

  method RcCompress(input: ByteString) returns (r: Option<ByteString>)
    ensures r == if |input| >= MIN_INPUT && |Compressed(input)| < |input| then Some(Compressed(input)) else None
  {
    hide Renorm, Total, Encode, Varint, Interval.Narrow, Interval.Valid, Model.Valid, Model.Update, Flush;
    var n := |input|;
    if n < MIN_INPUT {
      return None;
    }
    var out: ByteString := PutVarint([], n);
    var low: nat, range: nat := 0, TWO_32 - 1;
    var model := new RangeModel();
    UniformIsValid();
    FullIsValid();
    assert input[0..] == input;
    for i := 0 to n
      invariant model.Valid() && fresh(model) && fresh(model.freq)
      invariant Interval(low, range).Valid() && range >= BOT
      invariant out + Encode(Interval(low, range), model.Value(), input[i..]) == Compressed(input)
    {
      var sym := input[i];
      ghost var c, m := Interval(low, range), model.Value();
      ValidShape(c, m);
      EncodeUnfold(c, m, input[i..]);
      assert input[i..][0] == sym && input[i..][1..] == input[i + 1..];
      var cum := model.Cum(sym);
      var freq := model.freq[sym];
      range := range / model.total;
      low := (low + cum * range) % TWO_32;
      range := range * freq;
      assert Interval(low, range) == c.Narrow(m, sym) by { NarrowIs(c, m, sym); }
      low, range, out := ShiftOut(Interval(low, range), out);
      model.Update(sym);
    }
    assert input[n..] == [];
    EncodeUnfold(Interval(low, range), model.Value(), []);
    ValidShape(Interval(low, range), model.Value());
    out := FlushOut(low, out);
    return if |out| < n then Some(out) else None;
  }

  /** The final loop: four bytes of `low`. */
  method FlushOut(from: nat, before: ByteString) returns (out: ByteString)
    requires from < TWO_32
    ensures out == before + Flush(from, 4)
  {
    hide Flush;
    out := before;
    var low: nat := from;
    for i := 0 to 4
      invariant low < TWO_32
      invariant out + Flush(low, 4 - i) == before + Flush(from, 4)
    {
      FlushUnfold(low, 4 - i);
      assert out + ([low / TOP] + Flush(low * 256 % TWO_32, 3 - i)) == out + [low / TOP] + Flush(low * 256 % TWO_32, 3 - i);
      out := out + [low / TOP];
      low := low * 256 % TWO_32;
    }
    FlushUnfold(low, 0);
    assert out + [] == out;
  }

  lemma FullIsValid()
    ensures Full.Valid() && Full.range >= BOT
  {
  }

  lemma NarrowIs(c: Interval, m: Model, sym: nat)
    requires sym < |m.freq| && m.total > 0
    ensures c.Narrow(m, sym)
         == Interval((c.low + m.Cum(sym) * (c.range / m.total)) % TWO_32, c.range / m.total * m.freq[sym])
  {
  }

  lemma FlushUnfold(low: nat, n: nat)
    requires low < TWO_32
    ensures n == 0 ==> Flush(low, n) == []
    ensures n > 0 ==> Flush(low, n) == [low / TOP] + Flush(low * 256 % TWO_32, n - 1)
  {
  }

  /** The renormalisation loop of the decoder: it slides the window over the body. */
  method ShiftIn(c: Interval, body: ByteString, code: nat, bp: nat) returns (low: nat, range: nat, code': nat, bp': nat)
    requires c.Valid() && bp >= 4 && code == Window(body, bp - 4)
    ensures Renorm(c).interval == Interval(low, range)
    ensures bp' == bp + |Renorm(c).bytes| && code' == Window(body, bp' - 4)
  {
    hide Renorm, Interval.SameTop, Interval.Valid, Window;
    low, range, code', bp' := c.low, c.range, code, bp;
    while true
      invariant Interval(low, range).Valid()
      invariant Renorm(Interval(low, range)).interval == Renorm(c).interval
      invariant bp' + |Renorm(Interval(low, range)).bytes| == bp + |Renorm(c).bytes|
      invariant bp' >= 4 && code' == Window(body, bp' - 4)
      decreases |Renorm(Interval(low, range)).bytes|
    {
      ghost var d := Interval(low, range);
      RenormUnfold(d);
      LowIsByte(d);
      if Interval(low, range).SameTop() {
      } else if range < BOT {
        range := (TWO_32 - low) % BOT;
      } else {
        break;
      }
      assert Interval(low * 256 % TWO_32, range * 256 % TWO_32) == d.Next();
      WindowShift(body, bp' - 4);
      code' := code' * 256 % TWO_32 + ByteAt(body, bp');
      bp' := bp' + 1;
      low := low * 256 % TWO_32;
      range := range * 256 % TWO_32;
    }
  }

  /** What `rc_decompress` returns for any bytes at all. */
  function Decompressed(data: ByteString): (r: Option<ByteString>) {
    UniformIsValid();
    if TakeVarintFrom(data, 0).None? then None
    else
      var t := TakeVarintFrom(data, 0).value;
      Some(Decode(Full, Uniform(), data[t.length..], 0, t.value).output)
  }

  /** The four bytes that fill the window. */
  method FillWindow(body: ByteString) returns (code: nat)
    ensures code == Window(body, 0) && code < TWO_32
  {
    code := 0;
    for i := 0 to 4
      invariant code == FirstBytes(body, i)
    {
      FirstBytesBound(body, i);
      code := code * 256 % TWO_32 + ByteAt(body, i);
    }
    FirstBytesAreTheWindow(body);
  }

  /** One symbol: the step the decoder loop takes from a window. */
  method DecodeSymbol(model: RangeModel, c: Interval, code: nat) returns (sym: Byte, d: Interval)
    requires model.Valid() && c.Valid() && c.range >= BOT && code < TWO_32
    ensures sym == Select(c, model.Value(), code) && d == c.Narrow(model.Value(), sym)
  {
    hide Total, FindFrom, Model.Valid, Interval.Valid, Select, Interval.Narrow, Model.Cum;
    ghost var m := model.Value();
    ValidShape(c, m);
    SelectIs(c, m, code);
    var range := c.range / model.total;
    var q := (code - c.low) % TWO_32 / range;
    var target := if q <= model.total - 1 then q else model.total - 1;
    var cum, freq;
    sym, cum, freq := model.Find(target);
    d := Interval((c.low + cum * range) % TWO_32, range * freq);
    NarrowIs(c, m, sym);
  }

  method RcDecompress(data: ByteString) returns (r: Option<ByteString>)
    ensures r == Decompressed(data)
  {
    hide Renorm, Total, Decode, Interval.Narrow, Interval.Valid, Model.Valid, Model.Update, Window, Select, Uniform, Decompressed, TakeVarintFrom;
    assert data[0..] == data;
    var n, pos := TakeVarint(data, 0);
    if n.None? {
      assert Decompressed(data) == None by { DecompressedNothing(data); }
      return None;
    }
    DecompressedIs(data, TakeVarintFrom(data, 0).value);
    var out: ByteString := [];
    var low: nat, range: nat := 0, TWO_32 - 1;
    var body := data[pos..];
    var bp := 4;
    var code := FillWindow(body);
    var model := new RangeModel();
    ghost var whole := Decode(Full, Uniform(), body, 0, n.value).output;
    while |out| < n.value
      invariant model.Valid() && fresh(model) && fresh(model.freq)
      invariant |out| <= n.value && bp >= 4 && code == Window(body, bp - 4)
      invariant Interval(low, range).Valid() && range >= BOT
      invariant out + Decode(Interval(low, range), model.Value(), body, bp - 4, n.value - |out|).output == whole
    {
      ghost var c, m := Interval(low, range), model.Value();
      DecodeUnfold(c, m, body, bp - 4, n.value - |out|);
      ValidShape(c, m);
      var sym, d := DecodeSymbol(model, Interval(low, range), code);
      low, range, code, bp := ShiftIn(d, body, code, bp);
      RenormedShape(d);
      out := out + [sym];
      model.Update(sym);
    }
    DecodeNothing(Interval(low, range), model.Value(), body, bp - 4);
    assert out + [] == out;
    return Some(out);
  }

  lemma RenormedShape(c: Interval)
    requires c.Valid()
    ensures Renorm(c).interval.Valid() && Renorm(c).interval.range >= BOT
  {
  }

  lemma DecompressedNothing(data: ByteString)
    requires TakeVarintFrom(data, 0).None?
    ensures Decompressed(data) == None
  {
  }

  lemma SelectIs(c: Interval, m: Model, code: nat)
    requires c.Valid() && c.range >= BOT && m.Valid() && code < TWO_32
    ensures c.range / m.total >= 1
    ensures var q := (code - c.low) % TWO_32 / (c.range / m.total);
      Select(c, m, code) == FindFrom(m, if q <= m.total - 1 then q else m.total - 1, 0)
  {
    hide FindFrom;
    QuotientBounds(c.range, m.total);
  }

  /** The number the first n bytes spell. */
  function FirstBytes(s: ByteString, n: nat): (r: nat) {
    if n == 0 then 0 else FirstBytes(s, n - 1) * 256 + ByteAt(s, n - 1)
  }

  lemma FirstBytesBound(s: ByteString, n: nat)
    requires n < 4
    ensures FirstBytes(s, n) * 256 < TWO_32
  {
    assert FirstBytes(s, 0) == 0;
    assert FirstBytes(s, 1) < 256;
    assert FirstBytes(s, 2) < 65536;
    assert FirstBytes(s, 3) < 16777216;
  }

  lemma FirstBytesAreTheWindow(s: ByteString)
    ensures FirstBytes(s, 4) == Window(s, 0) < TWO_32
  {
    assert FirstBytes(s, 1) == ByteAt(s, 0);
    assert FirstBytes(s, 2) == ByteAt(s, 0) * 256 + ByteAt(s, 1);
  }

  lemma DecompressedIs(data: ByteString, t: Taken)
    requires TakeVarintFrom(data, 0) == Some(t)
    ensures Full.Valid() && Full.range >= BOT && Uniform().Valid() && t.length <= |data|
    ensures Decompressed(data) == Some(Decode(Full, Uniform(), data[t.length..], 0, t.value).output)
  {
    hide Decode;
    UniformIsValid();
    FullIsValid();
  }

  /** The decoder undoes the encoder and consumes every byte it wrote, no more. */
  lemma RoundTrip(input: ByteString)
    requires |input| < TWO_64
    ensures Decompressed(Compressed(input)) == Some(input)
    ensures Full.Valid() && Full.range >= BOT && Uniform().Valid()
    ensures Decode(Full, Uniform(), Encode(Full, Uniform(), input), 0, |input|).at + 4 == |Encode(Full, Uniform(), input)|
  {
    hide Encode, Decode, Varint, TakeVarintFrom, Decompressed, Uniform;
    UniformIsValid();
    FullIsValid();
    var body := Encode(Full, Uniform(), input);
    var data := Varint(|input|) + body;
    VarintRoundTrip(|input|, body);
    DecompressedIs(data, Taken(|input|, |Varint(|input|)|));
    assert data[|Varint(|input|)|..] == body;
    assert [] + body == body;
    DecodeInvertsEncode(Full, Uniform(), input, []);
  }
}
