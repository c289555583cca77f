/**
 The frame loop of the comparator as one layout-parameterised routine.
 `readYUV444`, `readYUV422` and `readYUV420` share it: per row (or row pair
 for 4:2:0) read `width`-byte row buffers from both files, expand them into
 (Y, U, V) samples, and add each pixel's error terms to three wrapping
 32-bit accumulators; after the last row, divide each accumulator by the
 pixel count. Every loop here is proved to compute the pixel-by-pixel
 definition of module Frames.
 */
module Scoring {
  import opened Common
  import opened Subsampling
  import opened Layouts
  import opened Frames

  // ---------------------------------------------------------------------
  // Chroma expansion of row buffers

  /** The samples of one luma row built from its Y, U and V row buffers:
      `r.y = yBuf[x]`, and U and V taken at the layout's chroma index. */
  function ExpandRow(l: Layout, yb: seq<byte>, ub: seq<byte>, vb: seq<byte>): (row: seq<Sample>)
    requires |ub| == |yb| && |vb| == |yb|
    ensures |row| == |yb|
    ensures forall x :: 0 <= x < |row| ==> row[x].y == yb[x]
  {
    seq(|yb|, x requires 0 <= x < |yb| => Sample(yb[x], ub[ChromaIndex(l, x)], vb[ChromaIndex(l, x)]))
  }

  /** How each layout expands chroma: 4:4:4 maps every column to its own U
      and V bytes; 4:2:2 gives an even column its own bytes and an odd column
      the bytes of the column before it; 4:2:0 gives column x the bytes at
      index x / 2, so both columns of a 2x2 block share them. */
  lemma ExpandRowChroma(l: Layout, yb: seq<byte>, ub: seq<byte>, vb: seq<byte>, x: nat)
    requires |ub| == |yb| && |vb| == |yb| && x < |yb|
    ensures ExpandRow(l, yb, ub, vb)[x].y == yb[x]
    ensures l == L444 ==> ExpandRow(l, yb, ub, vb)[x].u == ub[x] && ExpandRow(l, yb, ub, vb)[x].v == vb[x]
    ensures l == L422 && x % 2 == 0 ==> ExpandRow(l, yb, ub, vb)[x].u == ub[x] && ExpandRow(l, yb, ub, vb)[x].v == vb[x]
    ensures l == L422 && x % 2 == 1 ==> ExpandRow(l, yb, ub, vb)[x] == ExpandRow(l, yb, ub, vb)[x - 1].(y := yb[x])
    ensures l == L420 ==> ExpandRow(l, yb, ub, vb)[x].u == ub[x / 2] && ExpandRow(l, yb, ub, vb)[x].v == vb[x / 2]
  {
    if l == L422 && x % 2 == 1 {
      assert ChromaIndex(l, x) == x - 1 == ChromaIndex(l, x - 1);
    }
  }

  /** The pixels of luma row `y` of frame `f`, left to right. */
  function PixelRow(c: Config, file: seq<byte>, f: nat, y: nat): seq<Sample> {
    seq(c.width, x requires 0 <= x < c.width => PixelAt(c, file, f, x, y))
  }

  /** Row buffers filled from the rows that luma row `y` reads are exactly
      that row's pixels. */
  lemma ExpandedRowIsPixels(c: Config, file: seq<byte>, f: nat, y: nat, yb: seq<byte>, ub: seq<byte>, vb: seq<byte>)
    requires ReadRow(file, LumaPos(c, f, y), c.width) == Some(yb)
    requires ReadRow(file, UPos(c, f, y), c.width) == Some(ub)
    requires ReadRow(file, VPos(c, f, y), c.width) == Some(vb)
    ensures ExpandRow(c.layout, yb, ub, vb) == PixelRow(c, file, f, y)
  {
    forall x | 0 <= x < c.width
      ensures ExpandRow(c.layout, yb, ub, vb)[x] == PixelAt(c, file, f, x, y)
    {
      var ci := ChromaIndex(c.layout, x);
      assert ci <= x;
      assert ub[ci] == ByteAt(file, UPos(c, f, y) + ci);
      assert vb[ci] == ByteAt(file, VPos(c, f, y) + ci);
    }
  }

  // ---------------------------------------------------------------------
  // Accumulation

  /** All three values fit a `uint32_t`. */
  predicate Words(e: Errors) {
    e.y < U32 && e.u < U32 && e.v < U32
  }

  /** `mse_y += ...; mse_u += ...; mse_v += ...;` for one pixel. */
  function AddSample(acc: Errors, r: Sample, t: Sample): (acc': Errors)
    ensures Words(acc')
  {
    Errors(Wrap32(acc.y + Term(Luma, r, t)), Wrap32(acc.u + Term(Cb, r, t)), Wrap32(acc.v + Term(Cr, r, t)))
  }

  lemma AddSampleGet(acc: Errors, r: Sample, t: Sample, ch: Channel, exact: int)
    requires acc.Get(ch) == Wrap32(exact)
    ensures AddSample(acc, r, t).Get(ch) == Wrap32(exact + Term(ch, r, t))
  {
    WrapAdd(exact, Term(ch, r, t));
  }

  /** Four pixels added in turn, as one 4:2:0 block is. */
  lemma BlockStep(acc: Errors, ch: Channel, exact: int, r1: Sample, t1: Sample, r2: Sample, t2: Sample,
                  r3: Sample, t3: Sample, r4: Sample, t4: Sample)
    requires acc.Get(ch) == Wrap32(exact)
    ensures AddSample(AddSample(AddSample(AddSample(acc, r1, t1), r2, t2), r3, t3), r4, t4).Get(ch)
         == Wrap32(exact + Term(ch, r1, t1) + Term(ch, r2, t2) + Term(ch, r3, t3) + Term(ch, r4, t4))
  {
    var a1 := AddSample(acc, r1, t1);
    var a2 := AddSample(a1, r2, t2);
    var a3 := AddSample(a2, r3, t3);
    AddSampleGet(acc, r1, t1, ch, exact);
    AddSampleGet(a1, r2, t2, ch, exact + Term(ch, r1, t1));
    AddSampleGet(a2, r3, t3, ch, exact + Term(ch, r1, t1) + Term(ch, r2, t2));
    AddSampleGet(a3, r4, t4, ch, exact + Term(ch, r1, t1) + Term(ch, r2, t2) + Term(ch, r3, t3));
  }

  /** Exact sum of the channel's terms over the first `n` sample pairs. */
  function SampleTotal(ch: Channel, rs: seq<Sample>, ts: seq<Sample>, n: nat): int
    requires n <= |rs| && n <= |ts|
  {
    if n == 0 then 0 else SampleTotal(ch, rs, ts, n - 1) + Term(ch, rs[n - 1], ts[n - 1])
  }

  lemma {:induction false} SampleTotalIsRowTotal(ch: Channel, c: Config, ref: seq<byte>, tst: seq<byte>, f: nat, y: nat, n: nat)
    requires n <= c.width
    ensures SampleTotal(ch, PixelRow(c, ref, f, y), PixelRow(c, tst, f, y), n) == RowTotal(ch, c, ref, tst, f, y, n)
  {
    if n > 0 {
      SampleTotalIsRowTotal(ch, c, ref, tst, f, y, n - 1);
    }
  }

  /** The inner column loop of 4:4:4 and 4:2:2: one pixel per iteration. */
  method AccumulateRow(acc0: Errors, rs: seq<Sample>, ts: seq<Sample>) returns (acc: Errors)
    requires Words(acc0) && |rs| == |ts|
    ensures Words(acc)
    ensures forall ch: Channel :: acc.Get(ch) == Wrap32(acc0.Get(ch) + SampleTotal(ch, rs, ts, |rs|))
  {
    acc := acc0;
    var x := 0;
    while x < |rs|
      invariant 0 <= x <= |rs|
      invariant Words(acc)
      invariant forall ch: Channel :: acc.Get(ch) == Wrap32(acc0.Get(ch) + SampleTotal(ch, rs, ts, x))
    {
      forall ch: Channel
        ensures AddSample(acc, rs[x], ts[x]).Get(ch) == Wrap32(acc0.Get(ch) + SampleTotal(ch, rs, ts, x + 1))
      {
        AddSampleGet(acc, rs[x], ts[x], ch, acc0.Get(ch) + SampleTotal(ch, rs, ts, x));
      }
      acc := AddSample(acc, rs[x], ts[x]);
      x := x + 1;
    }
  }

  /** The running totals of the 4:2:0 column loop after the first `x`
      columns of both rows. */
  predicate PairPrefix(acc: Errors, acc0: Errors, rTop: seq<Sample>, rBot: seq<Sample>, tTop: seq<Sample>, tBot: seq<Sample>, x: nat)
    requires x <= |rTop| && x <= |rBot| && x <= |tTop| && x <= |tBot|
  {
    forall ch: Channel :: acc.Get(ch) == Wrap32(acc0.Get(ch) + (SampleTotal(ch, rTop, tTop, x) + SampleTotal(ch, rBot, tBot, x)))
  }

  /** One 2x2 block: top-left, top-right, bottom-left, bottom-right. */
  function AddBlock(acc: Errors, rTop: seq<Sample>, rBot: seq<Sample>, tTop: seq<Sample>, tBot: seq<Sample>, x: nat): Errors
    requires x + 2 <= |rTop| && x + 2 <= |rBot| && x + 2 <= |tTop| && x + 2 <= |tBot|
  {
    AddSample(AddSample(AddSample(AddSample(acc, rTop[x], tTop[x]), rTop[x + 1], tTop[x + 1]), rBot[x], tBot[x]), rBot[x + 1], tBot[x + 1])
  }

  lemma BlockPrefix(acc: Errors, acc0: Errors, rTop: seq<Sample>, rBot: seq<Sample>, tTop: seq<Sample>, tBot: seq<Sample>, x: nat)
    requires x + 2 <= |rTop| && x + 2 <= |rBot| && x + 2 <= |tTop| && x + 2 <= |tBot|
    requires PairPrefix(acc, acc0, rTop, rBot, tTop, tBot, x)
    ensures PairPrefix(AddBlock(acc, rTop, rBot, tTop, tBot, x), acc0, rTop, rBot, tTop, tBot, x + 2)
  {
    forall ch: Channel
      ensures AddBlock(acc, rTop, rBot, tTop, tBot, x).Get(ch)
           == Wrap32(acc0.Get(ch) + (SampleTotal(ch, rTop, tTop, x + 2) + SampleTotal(ch, rBot, tBot, x + 2)))
    {
      var e := acc0.Get(ch) + (SampleTotal(ch, rTop, tTop, x) + SampleTotal(ch, rBot, tBot, x));
      BlockStep(acc, ch, e, rTop[x], tTop[x], rTop[x + 1], tTop[x + 1], rBot[x], tBot[x], rBot[x + 1], tBot[x + 1]);
      assert SampleTotal(ch, rTop, tTop, x + 2) == SampleTotal(ch, rTop, tTop, x) + Term(ch, rTop[x], tTop[x]) + Term(ch, rTop[x + 1], tTop[x + 1]);
      assert SampleTotal(ch, rBot, tBot, x + 2) == SampleTotal(ch, rBot, tBot, x) + Term(ch, rBot[x], tBot[x]) + Term(ch, rBot[x + 1], tBot[x + 1]);
    }
  }

  /** One iteration of the 4:2:0 column loop. */
  method AccumulateBlock(acc: Errors, acc0: Errors, rTop: seq<Sample>, rBot: seq<Sample>, tTop: seq<Sample>, tBot: seq<Sample>, x: nat)
    returns (acc': Errors)
    requires x + 2 <= |rTop| && x + 2 <= |rBot| && x + 2 <= |tTop| && x + 2 <= |tBot|
    requires PairPrefix(acc, acc0, rTop, rBot, tTop, tBot, x)
    ensures Words(acc') && PairPrefix(acc', acc0, rTop, rBot, tTop, tBot, x + 2)
  {
    BlockPrefix(acc, acc0, rTop, rBot, tTop, tBot, x);
    acc' := AddBlock(acc, rTop, rBot, tTop, tBot, x);
  }

  /** Stepping by two from an even index below an even length stays in range. */
  lemma EvenStep(x: nat, n: nat)
    requires x < n && x % 2 == 0 && n % 2 == 0
    ensures x + 2 <= n
  {
  }

  /** The inner column loop of 4:2:0: one 2x2 block per iteration, adding
      the top-left, top-right, bottom-left and bottom-right pixels in turn. */
  method AccumulatePair(acc0: Errors, rTop: seq<Sample>, rBot: seq<Sample>, tTop: seq<Sample>, tBot: seq<Sample>)
    returns (acc: Errors)
    requires Words(acc0)
    requires |rBot| == |rTop| && |tTop| == |rTop| && |tBot| == |rTop| && |rTop| % 2 == 0
    ensures Words(acc)
    ensures forall ch: Channel :: acc.Get(ch) == Wrap32(acc0.Get(ch) + (SampleTotal(ch, rTop, tTop, |rTop|) + SampleTotal(ch, rBot, tBot, |rBot|)))
  {
    acc := acc0;
    var x := 0;
    while x < |rTop|
      invariant 0 <= x <= |rTop| && x % 2 == 0
      invariant Words(acc)
      invariant PairPrefix(acc, acc0, rTop, rBot, tTop, tBot, x)
    {
      EvenStep(x, |rTop|);
      acc := AccumulateBlock(acc, acc0, rTop, rBot, tTop, tBot, x);
      x := x + 2;
    }
  }

  // ---------------------------------------------------------------------
  // Loading row buffers

  datatype RowBuffers = RowBuffers(luma: seq<byte>, u: seq<byte>, v: seq<byte>)

  /** The chroma rows of an odd row in 4:2:2 and 4:2:0 are those of the even
      row above it, which is why 4:2:2 may skip reloading them. */
  lemma ChromaRowShared(c: Config, f: nat, y: nat)
    requires c.layout != L444 && y % 2 == 1
    ensures UPos(c, f, y) == UPos(c, f, y - 1) && VPos(c, f, y) == VPos(c, f, y - 1)
  {
    assert y / 2 == (y - 1) / 2;
  }

  /** The reads of one iteration of the 4:4:4 / 4:2:2 row loop in one file.
      4:2:2 reads U and V on even rows only and otherwise keeps the buffers
      `ub0`, `vb0` filled on the row before. */
  method LoadRow(c: Config, file: seq<byte>, f: nat, y: nat, ub0: seq<byte>, vb0: seq<byte>) returns (r: Option<RowBuffers>)
    requires c.layout != L420
    requires c.layout == L422 && y % 2 == 1 ==>
               ReadRow(file, UPos(c, f, y - 1), c.width) == Some(ub0) && ReadRow(file, VPos(c, f, y - 1), c.width) == Some(vb0)
    ensures r.None? <==> !GroupReadable(c, file, f, y)
    ensures r.Some? ==> (&& ReadRow(file, LumaPos(c, f, y), c.width) == Some(r.value.luma)
                         && ReadRow(file, UPos(c, f, y), c.width) == Some(r.value.u)
                         && ReadRow(file, VPos(c, f, y), c.width) == Some(r.value.v))
  {
    var w := c.width;
    var positions := GroupReads(c, f, y);
    var lb := ReadRow(file, LumaPos(c, f, y), w);
    if lb.None? {
      assert positions[0] + w > |file|;
      return None;
    }
    if c.layout == L444 || y % 2 == 0 {
      var ub := ReadRow(file, UPos(c, f, y), w);
      if ub.None? {
        assert positions[1] + w > |file|;
        return None;
      }
      var vb := ReadRow(file, VPos(c, f, y), w);
      if vb.None? {
        assert positions[2] + w > |file|;
        return None;
      }
      r := Some(RowBuffers(lb.value, ub.value, vb.value));
    } else {
      ChromaRowShared(c, f, y);
      r := Some(RowBuffers(lb.value, ub0, vb0));
    }
  }

  datatype PairBuffers = PairBuffers(top: seq<byte>, bottom: seq<byte>, u: seq<byte>, v: seq<byte>)

  /** The reads of one iteration of the 4:2:0 row-pair loop in one file. */
  method LoadPair(c: Config, file: seq<byte>, f: nat, k: nat) returns (r: Option<PairBuffers>)
    requires c.layout == L420
    ensures r.None? <==> !GroupReadable(c, file, f, k)
    ensures r.Some? ==> (&& ReadRow(file, LumaPos(c, f, 2 * k), c.width) == Some(r.value.top)
                         && ReadRow(file, LumaPos(c, f, 2 * k + 1), c.width) == Some(r.value.bottom)
                         && ReadRow(file, UPos(c, f, 2 * k), c.width) == Some(r.value.u)
                         && ReadRow(file, VPos(c, f, 2 * k), c.width) == Some(r.value.v))
  {
    var w := c.width;
    var y := 2 * k;
    var positions := GroupReads(c, f, k);
    var y1 := ReadRow(file, LumaPos(c, f, y), w);
    if y1.None? {
      assert positions[0] + w > |file|;
      return None;
    }
    var y2 := ReadRow(file, LumaPos(c, f, y + 1), w);
    if y2.None? {
      assert positions[1] + w > |file|;
      return None;
    }
    var ub := ReadRow(file, UPos(c, f, y), w);
    if ub.None? {
      assert positions[2] + w > |file|;
      return None;
    }
    var vb := ReadRow(file, VPos(c, f, y), w);
    if vb.None? {
      assert positions[3] + w > |file|;
      return None;
    }
    r := Some(PairBuffers(y1.value, y2.value, ub.value, vb.value));
  }

  // ---------------------------------------------------------------------
  // One frame

  /** Row-loop iterations that have succeeded in both files. */
  predicate GroupsReadable(c: Config, ref: seq<byte>, tst: seq<byte>, f: nat, n: nat) {
    forall k :: 0 <= k < n ==> GroupReadable(c, ref, f, k) && GroupReadable(c, tst, f, k)
  }

  /** The accumulators hold the wrapped exact totals of luma rows [0, rows). */
  predicate SumsUpTo(acc: Errors, c: Config, ref: seq<byte>, tst: seq<byte>, f: nat, rows: nat) {
    forall ch: Channel :: acc.Get(ch) == Wrap32(FrameTotal(ch, c, ref, tst, f, rows))
  }

  lemma GroupsReadableStep(c: Config, ref: seq<byte>, tst: seq<byte>, f: nat, n: nat)
    requires GroupsReadable(c, ref, tst, f, n)
    requires GroupReadable(c, ref, f, n) && GroupReadable(c, tst, f, n)
    ensures GroupsReadable(c, ref, tst, f, n + 1)
  {
  }

  /** A short read in any iteration leaves the frame without a result. */
  lemma ShortReadNoResult(c: Config, ref: seq<byte>, tst: seq<byte>, f: nat, k: nat)
    requires k < GroupCount(c)
    requires !GroupReadable(c, ref, f, k) || !GroupReadable(c, tst, f, k)
    ensures FrameResult(c, ref, tst, f) == None
  {
  }

  /** Once every iteration has read in full, the accumulators are the result. */
  lemma CompletedFrame(c: Config, ref: seq<byte>, tst: seq<byte>, f: nat, acc: Errors)
    requires GroupsReadable(c, ref, tst, f, GroupCount(c))
    requires SumsUpTo(acc, c, ref, tst, f, ScannedRows(c))
    ensures FrameResult(c, ref, tst, f) == Some(acc)
  {
    assert acc == Errors(acc.Get(Luma), acc.Get(Cb), acc.Get(Cr));
  }

  /** Adds luma row `y`, given its sample rows built from both files. */
  method AddRow(c: Config, ref: seq<byte>, tst: seq<byte>, f: nat, y: nat, acc: Errors, rs: seq<Sample>, ts: seq<Sample>)
    returns (acc': Errors)
    requires Words(acc) && SumsUpTo(acc, c, ref, tst, f, y)
    requires rs == PixelRow(c, ref, f, y) && ts == PixelRow(c, tst, f, y)
    ensures Words(acc') && SumsUpTo(acc', c, ref, tst, f, y + 1)
  {
    acc' := AccumulateRow(acc, rs, ts);
    forall ch: Channel
      ensures acc'.Get(ch) == Wrap32(FrameTotal(ch, c, ref, tst, f, y + 1))
    {
      SampleTotalIsRowTotal(ch, c, ref, tst, f, y, c.width);
      WrapAdd(FrameTotal(ch, c, ref, tst, f, y), SampleTotal(ch, rs, ts, c.width));
    }
  }

  /** Two more luma rows add their sample totals to the frame total. */
  lemma FrameTotalPair(ch: Channel, c: Config, ref: seq<byte>, tst: seq<byte>, f: nat, y: nat)
    ensures FrameTotal(ch, c, ref, tst, f, y + 2)
         == FrameTotal(ch, c, ref, tst, f, y)
          + (SampleTotal(ch, PixelRow(c, ref, f, y), PixelRow(c, tst, f, y), c.width)
           + SampleTotal(ch, PixelRow(c, ref, f, y + 1), PixelRow(c, tst, f, y + 1), c.width))
  {
    SampleTotalIsRowTotal(ch, c, ref, tst, f, y, c.width);
    SampleTotalIsRowTotal(ch, c, ref, tst, f, y + 1, c.width);
  }

  /** Adds luma rows `y` and `y + 1` block by block, given their sample rows. */
  method AddRowPair(c: Config, ref: seq<byte>, tst: seq<byte>, f: nat, y: nat, acc: Errors,
                    rTop: seq<Sample>, rBot: seq<Sample>, tTop: seq<Sample>, tBot: seq<Sample>)
    returns (acc': Errors)
    requires Words(acc) && SumsUpTo(acc, c, ref, tst, f, y) && c.width % 2 == 0
    requires rTop == PixelRow(c, ref, f, y) && tTop == PixelRow(c, tst, f, y)
    requires rBot == PixelRow(c, ref, f, y + 1) && tBot == PixelRow(c, tst, f, y + 1)
    ensures Words(acc') && SumsUpTo(acc', c, ref, tst, f, y + 2)
  {
    acc' := AccumulatePair(acc, rTop, rBot, tTop, tBot);
    forall ch: Channel
      ensures acc'.Get(ch) == Wrap32(FrameTotal(ch, c, ref, tst, f, y + 2))
    {
      PairSumStep(ch, c, ref, tst, f, y, acc.Get(ch), acc'.Get(ch));
    }
  }

  /** A channel's accumulator after a row pair, from its value before. */
  lemma PairSumStep(ch: Channel, c: Config, ref: seq<byte>, tst: seq<byte>, f: nat, y: nat, a: nat, a': nat)
    requires a == Wrap32(FrameTotal(ch, c, ref, tst, f, y))
    requires a' == Wrap32(a + (SampleTotal(ch, PixelRow(c, ref, f, y), PixelRow(c, tst, f, y), c.width)
                             + SampleTotal(ch, PixelRow(c, ref, f, y + 1), PixelRow(c, tst, f, y + 1), c.width)))
    ensures a' == Wrap32(FrameTotal(ch, c, ref, tst, f, y + 2))
  {
    var total := FrameTotal(ch, c, ref, tst, f, y);
    var pair := SampleTotal(ch, PixelRow(c, ref, f, y), PixelRow(c, tst, f, y), c.width)
              + SampleTotal(ch, PixelRow(c, ref, f, y + 1), PixelRow(c, tst, f, y + 1), c.width);
    FrameTotalPair(ch, c, ref, tst, f, y);
    WrapChain(a, total, pair, a');
  }

  /** The accumulators and the chroma row buffers both files hold after an
      iteration of the 4:4:4 / 4:2:2 row loop. */
  datatype RowState = RowState(acc: Errors, rU: seq<byte>, rV: seq<byte>, tU: seq<byte>, tV: seq<byte>)

  /** The chroma buffers hold the rows read for luma row `y`. */
  predicate HoldsChroma(st: RowState, c: Config, ref: seq<byte>, tst: seq<byte>, f: nat, y: nat) {
    && ReadRow(ref, UPos(c, f, y), c.width) == Some(st.rU) && ReadRow(ref, VPos(c, f, y), c.width) == Some(st.rV)
    && ReadRow(tst, UPos(c, f, y), c.width) == Some(st.tU) && ReadRow(tst, VPos(c, f, y), c.width) == Some(st.tV)
  }

  /** What holds after the first `y` iterations of the 4:4:4 / 4:2:2 row loop. */
  predicate RowsDone(st: RowState, c: Config, ref: seq<byte>, tst: seq<byte>, f: nat, y: nat) {
    && y <= c.height
    && Words(st.acc) && SumsUpTo(st.acc, c, ref, tst, f, y)
    && GroupsReadable(c, ref, tst, f, y)
    && (c.layout == L422 && y % 2 == 1 ==> HoldsChroma(st, c, ref, tst, f, y - 1))
  }

  /** One iteration of the 4:4:4 / 4:2:2 row loop: load luma row `y` (and,
      unless 4:2:2 keeps them, its chroma rows) from both files and add it;
      a short read ends the frame without a result. */
  method ScoreRow(c: Config, ref: seq<byte>, tst: seq<byte>, f: nat, y: nat, st: RowState) returns (r: Option<RowState>)
    requires c.layout != L420 && y < c.height
    requires RowsDone(st, c, ref, tst, f, y)
    ensures r.None? ==> FrameResult(c, ref, tst, f) == None
    ensures r.Some? ==> RowsDone(r.value, c, ref, tst, f, y + 1)
  {
    var rb := LoadRow(c, ref, f, y, st.rU, st.rV);
    var tb := LoadRow(c, tst, f, y, st.tU, st.tV);
    if rb.None? || tb.None? {
      ShortReadNoResult(c, ref, tst, f, y);
      return None;
    }
    var rr, tr := rb.value, tb.value;
    ExpandedRowIsPixels(c, ref, f, y, rr.luma, rr.u, rr.v);
    ExpandedRowIsPixels(c, tst, f, y, tr.luma, tr.u, tr.v);
    var acc := AddRow(c, ref, tst, f, y, st.acc, ExpandRow(c.layout, rr.luma, rr.u, rr.v), ExpandRow(c.layout, tr.luma, tr.u, tr.v));
    GroupsReadableStep(c, ref, tst, f, y);
    var next := RowState(acc, rr.u, rr.v, tr.u, tr.v);
    assert (y + 1) % 2 == 1 ==> y % 2 == 0;
    assert HoldsChroma(next, c, ref, tst, f, y);
    r := Some(next);
  }

  /** The 4:4:4 and 4:2:2 row loop over frame `f`. */
  method ScoreRows(c: Config, ref: seq<byte>, tst: seq<byte>, f: nat) returns (res: Option<Errors>)
    requires c.layout != L420
    ensures res == FrameResult(c, ref, tst, f)
  {
    var st := RowState(Errors(0, 0, 0), [], [], [], []);
    var y := 0;
    while y < c.height
      invariant RowsDone(st, c, ref, tst, f, y)
    {
      var next := ScoreRow(c, ref, tst, f, y, st);
      if next.None? {
        return None;
      }
      st := next.value;
      y := y + 1;
    }
    CompletedFrame(c, ref, tst, f, st.acc);
    res := Some(st.acc);
  }

  /** The two sample rows of a row pair. */
  datatype PairRows = PairRows(top: seq<Sample>, bottom: seq<Sample>)

  /** The bottom row of 4:2:0 row pair `k`, expanded with the chroma rows
      loaded for the top row, is the pixels of luma row `2k + 1`. */
  lemma BottomRowIsPixels(c: Config, file: seq<byte>, f: nat, k: nat, yb: seq<byte>, ub: seq<byte>, vb: seq<byte>)
    requires c.layout == L420
    requires ReadRow(file, LumaPos(c, f, 2 * k + 1), c.width) == Some(yb)
    requires ReadRow(file, UPos(c, f, 2 * k), c.width) == Some(ub)
    requires ReadRow(file, VPos(c, f, 2 * k), c.width) == Some(vb)
    ensures ExpandRow(L420, yb, ub, vb) == PixelRow(c, file, f, 2 * k + 1)
  {
    PairChromaReads(c, file, f, k);
    ExpandedRowIsPixels(c, file, f, 2 * k + 1, yb, ub, vb);
  }

  /** Both rows of 4:2:0 row pair `k` read the same U and V rows. */
  lemma PairChromaReads(c: Config, file: seq<byte>, f: nat, k: nat)
    requires c.layout == L420
    ensures ReadRow(file, UPos(c, f, 2 * k + 1), c.width) == ReadRow(file, UPos(c, f, 2 * k), c.width)
    ensures ReadRow(file, VPos(c, f, 2 * k + 1), c.width) == ReadRow(file, VPos(c, f, 2 * k), c.width)
  {
    ChromaRowShared(c, f, 2 * k + 1);
  }

  /** Loads row pair `k` of one file and expands it: the rows are the
      pixels of luma rows `2k` and `2k + 1`. */
  method LoadPairPixels(c: Config, file: seq<byte>, f: nat, k: nat) returns (r: Option<PairRows>)
    requires c.layout == L420
    ensures r.None? <==> !GroupReadable(c, file, f, k)
    ensures r.Some? ==> r.value.top == PixelRow(c, file, f, 2 * k) && r.value.bottom == PixelRow(c, file, f, 2 * k + 1)
  {
    var b := LoadPair(c, file, f, k);
    if b.None? {
      return None;
    }
    var p := b.value;
    ExpandedRowIsPixels(c, file, f, 2 * k, p.top, p.u, p.v);
    BottomRowIsPixels(c, file, f, k, p.bottom, p.u, p.v);
    r := Some(PairRows(ExpandRow(L420, p.top, p.u, p.v), ExpandRow(L420, p.bottom, p.u, p.v)));
  }

  /** What holds after the first `y / 2` iterations of the 4:2:0 loop. */
  predicate PairsDone(acc: Errors, c: Config, ref: seq<byte>, tst: seq<byte>, f: nat, y: nat) {
    && y <= ScannedRows(c) && y % 2 == 0
    && Words(acc) && SumsUpTo(acc, c, ref, tst, f, y)
    && GroupsReadable(c, ref, tst, f, y / 2)
  }

  /** One iteration of the 4:2:0 loop: load luma rows `y` and `y + 1` and
      their shared chroma rows from both files and add the row pair; a short
      read ends the frame without a result. */
  method ScoreRowPair(c: Config, ref: seq<byte>, tst: seq<byte>, f: nat, y: nat, acc: Errors) returns (r: Option<Errors>)
    requires c.layout == L420 && c.width % 2 == 0 && y < c.height
    requires PairsDone(acc, c, ref, tst, f, y)
    ensures r.None? ==> FrameResult(c, ref, tst, f) == None
    ensures r.Some? ==> PairsDone(r.value, c, ref, tst, f, y + 2)
  {
    var k := y / 2;
    assert y == 2 * k;
    var rb := LoadPairPixels(c, ref, f, k);
    var tb := LoadPairPixels(c, tst, f, k);
    if rb.None? || tb.None? {
      ShortReadNoResult(c, ref, tst, f, k);
      return None;
    }
    var p, q := rb.value, tb.value;
    var acc' := AddRowPair(c, ref, tst, f, y, acc, p.top, p.bottom, q.top, q.bottom);
    assert (y + 2) / 2 == k + 1 && k < GroupCount(c) && y + 2 <= ScannedRows(c);
    GroupsReadableStep(c, ref, tst, f, k);
    r := Some(acc');
  }

  /** The 4:2:0 loop over the row pairs of frame `f`. */
  method ScoreRowPairs(c: Config, ref: seq<byte>, tst: seq<byte>, f: nat) returns (res: Option<Errors>)
    requires c.layout == L420 && c.width % 2 == 0
    ensures res == FrameResult(c, ref, tst, f)
  {
    var acc := Errors(0, 0, 0);
    var y := 0;
    while y < c.height
      invariant PairsDone(acc, c, ref, tst, f, y)
    {
      var next := ScoreRowPair(c, ref, tst, f, y, acc);
      if next.None? {
        return None;
      }
      acc := next.value;
      y := y + 2;
    }
    assert y == ScannedRows(c) && y / 2 == GroupCount(c);
    CompletedFrame(c, ref, tst, f, acc);
    res := Some(acc);
  }

  /** The accumulators of frame `f`, or `None` on a short read. */
  method ScoreFrame(c: Config, ref: seq<byte>, tst: seq<byte>, f: nat) returns (res: Option<Errors>)
    requires c.Valid()
    ensures res.Some? <==> FrameReadable(c, ref, f) && FrameReadable(c, tst, f)
    ensures res.Some? ==> res.value == FrameSums(c, ref, tst, f)
  {
    if c.layout == L420 {
      res := ScoreRowPairs(c, ref, tst, f);
    } else {
      res := ScoreRows(c, ref, tst, f);
    }
  }
}
