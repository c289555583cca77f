/**
 Properties of whole runs of the comparator: which frames it scores, when
 a run is cut short, and the range of the per-frame MSE.
 */
module Runs {
  import opened Common
  import opened Layouts
  import opened Frames
  import opened Comparator

  /** An in-frame offset whose absolute position stays below 2^32 is not
      disturbed by the 32-bit `frameOffset + offset` arithmetic. */
  lemma SeekNoWrap(c: Config, f: nat, off: nat)
    requires FrameOffset(c.layout, c.FrameSize(), f) + off < U32
    ensures Seek(FrameBase(c, f), off) == FrameOffset(c.layout, c.FrameSize(), f) + off
  {
    WrapSmall(FrameOffset(c.layout, c.FrameSize(), f));
    WrapSmall(FrameOffset(c.layout, c.FrameSize(), f) + off);
  }

  /** A read of `width` bytes at in-frame offset `off` is full when it ends
      within `bound` bytes of the frame start and the frame start plus
      `bound` lies in the file. The 32-bit wrap of `frameOffset + offset`
      can only move a read towards the start of the file. */
  lemma ReadInFile(c: Config, file: seq<byte>, f: nat, off: nat, bound: nat)
    requires off + c.width <= bound && FrameOffset(c.layout, c.FrameSize(), f) + bound <= |file|
    ensures Seek(FrameBase(c, f), off) + c.width <= |file|
  {
    WrapBelow(FrameOffset(c.layout, c.FrameSize(), f));
    WrapBelow(FrameBase(c, f) + off);
  }

  // ---------------------------------------------------------------------
  // 4:4:4 and 4:2:2

  /** A 4:4:4 frame, or a 4:2:2 frame of even height, that lies wholly in a
      file is read in full. */
  lemma WholeFrameReadable(c: Config, file: seq<byte>, f: nat)
    requires c.Valid() && (c.layout == L444 || (c.layout == L422 && c.height % 2 == 0))
    requires FrameOffset(c.layout, c.FrameSize(), f) + BytesPerFrame(c.layout, c.FrameSize()) <= |file|
    ensures FrameReadable(c, file, f)
  {
    var l, w, h, fs := c.layout, c.width, c.height, c.FrameSize();
    var bpf := BytesPerFrame(l, fs);
    if l == L422 {
      Rows422InPlanes(w, h);
    }
    forall k | 0 <= k < GroupCount(c)
      ensures GroupReadable(c, file, f, k)
    {
      var y := k;
      if l == L444 {
        Rows444InPlanes(w, h, y);
      }
      assert RowReadsInPlanes(l, w, h, y);
      ReadInFile(c, file, f, LumaOffset(w, y), bpf);
      ReadInFile(c, file, f, UOffset(l, fs, w, y), bpf);
      ReadInFile(c, file, f, VOffset(l, fs, w, y), bpf);
    }
  }

  /** 4:4:4, and 4:2:2 with an even height, score every whole frame the
      shorter file holds, each with the MSE of its pixel-by-pixel sums. */
  lemma WholeFramesScored(c: Config, ref: seq<byte>, tst: seq<byte>)
    requires c.Valid() && (c.layout == L444 || (c.layout == L422 && c.height % 2 == 0))
    ensures Compare(c, ref, tst).Scored?
    ensures |Compare(c, ref, tst).mse| == FramesToScore(c.layout, c.FrameSize(), |ref|, |tst|)
    ensures forall f :: 0 <= f < |Compare(c, ref, tst).mse| ==>
              Compare(c, ref, tst).mse[f] == Mse(FrameSums(c, ref, tst, f), c.FrameSize())
  {
    var n := FramesToScore(c.layout, c.FrameSize(), |ref|, |tst|);
    forall f | 0 <= f < n
      ensures FrameResult(c, ref, tst, f) == Some(FrameSums(c, ref, tst, f))
    {
      FrameCountWhole(c.layout, c.FrameSize(), |ref|, |tst|, f);
      WholeFrameReadable(c, ref, f);
      WholeFrameReadable(c, tst, f);
    }
  }

  // ---------------------------------------------------------------------
  // 4:2:0

  /** The V row of 4:2:0 row pair `y` ends no later than that of the last
      pair, which is `frameSize / 4` bytes past the frame. */
  lemma VReadBound420(w: nat, h: nat, y: nat)
    requires h >= 2 && h % 2 == 0 && y % 2 == 0 && y < h
    ensures VOffset(L420, w * h, w, y) + w <= BytesPerFrame(L420, w * h) + (w * h) / 4
  {
    Rows420VOverrun(w, h);
    MulLe(y / 2, (h - 2) / 2, w);
  }

  /** Each of the four reads of the 4:2:0 row pair starting at luma row `y`
      ends within `frameSize / 4` bytes past the end of the frame. */
  lemma Reads420InBound(w: nat, h: nat, y: nat)
    requires h >= 2 && h % 2 == 0 && y % 2 == 0 && y < h
    ensures LumaOffset(w, y) + w <= BytesPerFrame(L420, w * h) + (w * h) / 4
    ensures LumaOffset(w, y + 1) + w <= BytesPerFrame(L420, w * h) + (w * h) / 4
    ensures UOffset(L420, w * h, w, y) + w <= BytesPerFrame(L420, w * h) + (w * h) / 4
    ensures VOffset(L420, w * h, w, y) + w <= BytesPerFrame(L420, w * h) + (w * h) / 4
  {
    Rows420LumaAndU(w, h, y);
    VReadBound420(w, h, y);
    assert LumaOffset(w, y) + w <= LumaOffset(w, y + 1);
  }

  /** The four reads of a 4:2:0 row pair, seeked from a frame start `base`,
      fit in a file that extends `frameSize / 4` bytes past the frame. */
  lemma PairReadsFit(w: nat, h: nat, base: nat, len: nat, y: nat)
    requires w > 0 && h >= 2 && h % 2 == 0 && y % 2 == 0 && y < h
    requires base + BytesPerFrame(L420, w * h) + (w * h) / 4 <= len
    ensures Seek(base, LumaOffset(w, y)) + w <= len
    ensures Seek(base, LumaOffset(w, y + 1)) + w <= len
    ensures Seek(base, UOffset(L420, w * h, w, y)) + w <= len
    ensures Seek(base, VOffset(L420, w * h, w, y)) + w <= len
  {
    Reads420InBound(w, h, y);
    WrapBelow(base + LumaOffset(w, y));
    WrapBelow(base + LumaOffset(w, y + 1));
    WrapBelow(base + UOffset(L420, w * h, w, y));
    WrapBelow(base + VOffset(L420, w * h, w, y));
  }

  /** A 4:2:0 row pair is readable when each of its four reads is full. */
  lemma PairReadable(c: Config, file: seq<byte>, f: nat, k: nat)
    requires c.layout == L420
    requires LumaPos(c, f, 2 * k) + c.width <= |file| && LumaPos(c, f, 2 * k + 1) + c.width <= |file|
    requires UPos(c, f, 2 * k) + c.width <= |file| && VPos(c, f, 2 * k) + c.width <= |file|
    ensures GroupReadable(c, file, f, k)
  {
    assert GroupReads(c, f, k) == [LumaPos(c, f, 2 * k), LumaPos(c, f, 2 * k + 1), UPos(c, f, 2 * k), VPos(c, f, 2 * k)];
  }

  /** The reads of 4:2:0 row pair `k` are full when the file extends
      `frameSize / 4` bytes past the end of the frame. */
  lemma Group420Readable(c: Config, file: seq<byte>, f: nat, k: nat)
    requires c.Valid() && c.layout == L420 && c.height % 2 == 0 && k < GroupCount(c)
    requires FrameOffset(L420, c.FrameSize(), f) + BytesPerFrame(L420, c.FrameSize()) + c.FrameSize() / 4 <= |file|
    ensures GroupReadable(c, file, f, k)
  {
    FrameStart420(c, f, |file|);
    DoubleIsEven(k);
    assert 2 * k < c.height && c.height >= 2 && c.width > 0;
    PairReadsFit(c.width, c.height, FrameBase(c, f), |file|, 2 * k);
    PairReadable(c, file, f, k);
  }

  lemma DoubleIsEven(k: nat)
    ensures (2 * k) % 2 == 0
  {
  }

  /** The 32-bit `frameOffset` is at most the true start of the frame, so a
      file that reaches `frameSize / 4` bytes past the frame also reaches
      that far past the wrapped start. */
  lemma FrameStart420(c: Config, f: nat, len: nat)
    requires c.Valid() && c.layout == L420 && c.height % 2 == 0
    requires FrameOffset(L420, c.FrameSize(), f) + BytesPerFrame(L420, c.FrameSize()) + c.FrameSize() / 4 <= len
    ensures FrameBase(c, f) + BytesPerFrame(L420, c.FrameSize()) + c.FrameSize() / 4 <= len
  {
    EvenFrame420(c);
    WrapBelow(FrameOffset(L420, c.FrameSize(), f));
  }

  /** A 4:2:0 frame of even height is read in full when the file extends
      `frameSize / 4` bytes past its end. */
  lemma Frame420Readable(c: Config, file: seq<byte>, f: nat)
    requires c.Valid() && c.layout == L420 && c.height % 2 == 0
    requires FrameOffset(L420, c.FrameSize(), f) + BytesPerFrame(L420, c.FrameSize()) + c.FrameSize() / 4 <= |file|
    ensures FrameReadable(c, file, f)
  {
    forall k | 0 <= k < GroupCount(c)
      ensures GroupReadable(c, file, f, k)
    {
      Group420Readable(c, file, f, k);
    }
  }

  /** Even width and height give a pixel count that is a positive multiple
      of 4, so a quarter of it is a positive part of a frame. */
  lemma EvenFrame420(c: Config)
    requires c.Valid() && c.layout == L420 && c.height % 2 == 0
    ensures c.FrameSize() % 2 == 0 && 0 < c.FrameSize() / 4 < BytesPerFrame(L420, c.FrameSize())
  {
    var p := QuarterFrame(c.width, c.height);
    assert c.FrameSize() == 4 * p;
  }

  /** Even width and height make the pixel count four times a positive
      number. */
  lemma QuarterFrame(w: nat, h: nat) returns (p: nat)
    requires w > 0 && h > 0 && w % 2 == 0 && h % 2 == 0
    ensures p > 0 && w * h == 4 * p
  {
    var a, b := w / 2, h / 2;
    p := a * b;
    assert w * h == (2 * a) * (2 * b);
    MulLe(1, a, b);
  }

  /** A frame that is not the last of `k` whole 4:2:0 frames is followed by
      more than `frameSize / 4` bytes. */
  lemma EarlyFrame420Readable(c: Config, file: seq<byte>, f: nat, k: nat)
    requires c.Valid() && c.layout == L420 && c.height % 2 == 0 && f + 1 < k
    requires |file| == k * BytesPerFrame(L420, c.FrameSize())
    ensures FrameReadable(c, file, f)
  {
    var fs := c.FrameSize();
    var bpf := BytesPerFrame(L420, fs);
    EvenFrame420(c);
    FrameOffsets(L420, fs, f);
    FrameOffsets(L420, fs, f + 1);
    MulLe(f + 2, k, bpf);
    assert (f + 2) * bpf == f * bpf + bpf + bpf;
    Frame420Readable(c, file, f);
  }

  /** The V read of the last row pair of a 4:2:0 frame of even height fails
      on a file that ends less than `frameSize / 4` bytes past the frame. */
  lemma Frame420Short(c: Config, file: seq<byte>, f: nat)
    requires c.Valid() && c.layout == L420 && c.height % 2 == 0
    requires FrameOffset(L420, c.FrameSize(), f) + BytesPerFrame(L420, c.FrameSize()) + c.FrameSize() / 4 <= U32
    requires |file| < FrameOffset(L420, c.FrameSize(), f) + BytesPerFrame(L420, c.FrameSize()) + c.FrameSize() / 4
    ensures !FrameReadable(c, file, f)
  {
    var w, h, fs := c.width, c.height, c.FrameSize();
    var k := h / 2 - 1;
    Rows420VOverrun(w, h);
    assert 2 * k == h - 2;
    SeekNoWrap(c, f, VOffset(L420, fs, w, h - 2));
    assert GroupReads(c, f, k)[3] == VPos(c, f, h - 2);
    assert !GroupReadable(c, file, f, k);
  }

  /** The last of `k` whole 4:2:0 frames that exactly fill a file cannot be
      read in full. */
  lemma LastFrame420Short(c: Config, file: seq<byte>, k: nat)
    requires c.Valid() && c.layout == L420 && c.height % 2 == 0 && k >= 1
    requires |file| == k * BytesPerFrame(L420, c.FrameSize())
    requires |file| + BytesPerFrame(L420, c.FrameSize()) <= U32
    ensures !FrameReadable(c, file, k - 1)
  {
    var fs := c.FrameSize();
    var bpf := BytesPerFrame(L420, fs);
    EvenFrame420(c);
    FrameOffsets(L420, fs, k - 1);
    assert (k - 1) * bpf + bpf == k * bpf;
    Frame420Short(c, file, k - 1);
  }

  /** With two 4:2:0 files of even height that hold exactly `k` whole
      frames, the V read of the last row pair of the last frame runs past
      the end of the files: the run is cut short at frame `k - 1`, after
      scoring the `k - 1` frames before it. */
  lemma Overrun420Truncates(c: Config, ref: seq<byte>, tst: seq<byte>, k: nat)
    requires c.Valid() && c.layout == L420 && c.height % 2 == 0 && k >= 1
    requires |ref| == k * BytesPerFrame(L420, c.FrameSize()) && |tst| == |ref|
    requires |ref| + BytesPerFrame(L420, c.FrameSize()) <= U32
    ensures Compare(c, ref, tst).TruncatedAt? && Compare(c, ref, tst).frame == k - 1
    ensures |Compare(c, ref, tst).mse| == k - 1
  {
    var fs := c.FrameSize();
    var bpf := BytesPerFrame(L420, fs);
    EvenFrame420(c);
    // The loop runs over exactly k frames.
    FrameCount420Partial(fs, |ref|, |tst|);
    DivUnique(|ref|, bpf, k, 0);
    // Every frame before the last is read in full; the last one is not.
    forall f | 0 <= f < k - 1
      ensures FrameResult(c, ref, tst, f).Some?
    {
      EarlyFrame420Readable(c, ref, f, k);
      EarlyFrame420Readable(c, tst, f, k);
    }
    LastFrame420Short(c, ref, k);
    TruncationPoint(c, ref, tst, k - 1, k);
  }

  // ---------------------------------------------------------------------
  // Streams past 4 GiB

  /** `frameOffset` is a `uint32_t`, so a stream longer than 4 GiB is read
      in circles: frame 32768 of a 256x256 4:2:2 stream starts at byte
      2^32 and is read from the bytes of frame 0. */
  lemma FrameOffsetWraps(file: seq<byte>, x: nat, y: nat)
    ensures FrameOffset(L422, 256 * 256, 32768) == U32
    ensures PixelAt(Config(L422, 256, 256), file, 32768, x, y) == PixelAt(Config(L422, 256, 256), file, 0, x, y)
  {
    var c := Config(L422, 256, 256);
    assert FrameOffset(L422, c.FrameSize(), 32768) == U32;
    assert FrameBase(c, 32768) == 0 == FrameBase(c, 0);
  }

  // ---------------------------------------------------------------------
  // MSE range

  /** When every scanned position is a pixel and 255^2 per pixel cannot wrap
      the Y and U accumulators, their MSE lies in [0, 255^2]. */
  lemma SquaredMseBound(c: Config, ref: seq<byte>, tst: seq<byte>, f: nat)
    requires c.Valid() && (c.layout != L420 || c.height % 2 == 0)
    requires 0 < 65025 * c.FrameSize() < U32
    ensures Mse(FrameSums(c, ref, tst, f), c.FrameSize()).y <= 65025
    ensures Mse(FrameSums(c, ref, tst, f), c.FrameSize()).u <= 65025
  {
    var fs := c.FrameSize();
    assert ScannedRows(c) == c.height;
    assert ScannedRows(c) * c.width == fs;
    var e := FrameSums(c, ref, tst, f);
    var m := Mse(e, fs);
    forall ch: Channel | ch != Cr
      ensures m.Get(ch) <= 65025
    {
      SquaredSumsExact(c, ref, tst, f, ch);
      SquaredFrameTotalBounds(ch, c, ref, tst, f, ScannedRows(c));
      if m.Get(ch) > 65025 {
        MulLe(65026, m.Get(ch), fs);
      }
    }
    assert m.y == m.Get(Luma) && m.u == m.Get(Cb);
  }

  // ---------------------------------------------------------------------
  // A worked example

  const ExampleRef: seq<byte> := [100, 100, 100, 100, 128, 128, 128, 128, 128, 128, 128, 128]
  const ExampleTst: seq<byte> := [110, 110, 110, 110, 128, 128, 128, 128, 128, 128, 128, 128]

  lemma ExamplePixels(x: nat, y: nat)
    requires x < 2 && y < 2
    ensures PixelAt(Config(L444, 2, 2), ExampleRef, 0, x, y) == Sample(100, 128, 128)
    ensures PixelAt(Config(L444, 2, 2), ExampleTst, 0, x, y) == Sample(110, 128, 128)
  {
    var c := Config(L444, 2, 2);
    assert FrameBase(c, 0) == 0;
    WrapSmall(2 * y);
    WrapSmall(4 + 2 * y);
    WrapSmall(8 + 2 * y);
    assert LumaPos(c, 0, y) == 2 * y;
    assert UPos(c, 0, y) == 4 + 2 * y;
    assert VPos(c, 0, y) == 8 + 2 * y;
  }

  lemma ExampleRowTotals(ch: Channel, y: nat)
    requires y < 2
    ensures RowTotal(ch, Config(L444, 2, 2), ExampleRef, ExampleTst, 0, y, 2) == if ch == Luma then 200 else 0
  {
    ExamplePixels(0, y);
    ExamplePixels(1, y);
    var c := Config(L444, 2, 2);
    assert RowTotal(ch, c, ExampleRef, ExampleTst, 0, y, 1) == Term(ch, Sample(100, 128, 128), Sample(110, 128, 128));
  }

  lemma ExampleFrameTotal(ch: Channel)
    ensures FrameTotal(ch, Config(L444, 2, 2), ExampleRef, ExampleTst, 0, 2) == if ch == Luma then 400 else 0
  {
    ExampleRowTotals(ch, 0);
    ExampleRowTotals(ch, 1);
  }

  lemma ExampleSums()
    ensures FrameSums(Config(L444, 2, 2), ExampleRef, ExampleTst, 0) == Errors(400, 0, 0)
  {
    var c := Config(L444, 2, 2);
    ExampleFrameTotal(Luma);
    ExampleFrameTotal(Cb);
    ExampleFrameTotal(Cr);
    WrapSmall(400);
    WrapSmall(0);
    assert ScannedRows(c) == 2;
  }

  lemma ExampleCompare()
    ensures Compare(Config(L444, 2, 2), ExampleRef, ExampleTst) == Scored([Errors(100, 0, 0)])
  {
    var c := Config(L444, 2, 2);
    assert FramesToScore(L444, 4, 12, 12) == 1;
    WholeFramesScored(c, ExampleRef, ExampleTst);
    ExampleSums();
    assert Mse(Errors(400, 0, 0), 4) == Errors(100, 0, 0);
  }

  /** One 2x2 4:4:4 frame whose luma differs by 10 on every pixel and whose
      chroma matches gives a luma MSE of 100 and zero chroma error. */
  lemma LumaOffByTen()
    ensures Execute("4:4:4", 2, 2, ExampleRef, ExampleTst) == Ran(L444, Scored([Errors(100, 0, 0)]))
  {
    assert Spelling(L444) == "4:4:4";
    ExampleCompare();
  }
}
