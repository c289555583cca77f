/**
 What one frame of a reference/test pair contributes: the bytes each pixel
 position reads from a file, the per-pixel error terms, and the three
 wrapped `uint32_t` accumulators the source ends a frame with.

 This module is the pixel-by-pixel definition; the row-buffer loops that
 compute the same thing the way the source does are in module Scoring.
 Files are byte sequences: `ifstream::seekg` plus `read` of `width` bytes
 is `ReadRow`, and a read that would run past the end of a file is a short
 read, which makes the whole frame unusable (`FrameResult` is `None`).
 */
module Frames {
  import opened Common
  import opened Layouts

  /** The comparator's run parameters after layout dispatch. */
  datatype Config = Config(layout: Layout, width: nat, height: nat) {
    /** Positive dimensions whose 32-bit frame arithmetic does not wrap; a
        4:2:0 row pair is consumed two columns at a time, so an odd width
        would read one byte past each `width`-byte row buffer. */
    predicate Valid() {
      ValidDims(width, height) && (layout == L420 ==> width % 2 == 0)
    }

    function FrameSize(): nat {
      width * height
    }
  }

  /** `uint32_t frameOffset` of frame `f`. */
  function FrameBase(c: Config, f: nat): nat {
    Wrap32(FrameOffset(c.layout, c.FrameSize(), f))
  }

  /** `seekg(frameOffset + offset)`: the sum is formed in 32 bits. */
  function Seek(base: nat, off: nat): nat {
    Wrap32(base + off)
  }

  /** File positions of the Y, U and V rows that luma row `y` reads. */
  function LumaPos(c: Config, f: nat, y: nat): nat {
    Seek(FrameBase(c, f), LumaOffset(c.width, y))
  }

  function UPos(c: Config, f: nat, y: nat): nat {
    Seek(FrameBase(c, f), UOffset(c.layout, c.FrameSize(), c.width, y))
  }

  function VPos(c: Config, f: nat, y: nat): nat {
    Seek(FrameBase(c, f), VOffset(c.layout, c.FrameSize(), c.width, y))
  }

  /** Reads `n` bytes at `pos`; `None` is a short read. */
  function ReadRow(file: seq<byte>, pos: nat, n: nat): (r: Option<seq<byte>>)
    ensures r.Some? <==> pos + n <= |file|
    ensures r.Some? ==> |r.value| == n && forall i :: 0 <= i < n ==> r.value[i] == file[pos + i]
  {
    if pos + n <= |file| then Some(file[pos..pos + n]) else None
  }

  // ---------------------------------------------------------------------
  // The iterations of the row loop and the reads each one performs

  /** Iterations of the row loop: one per row, or one per row pair in 4:2:0. */
  function GroupCount(c: Config): nat {
    if c.layout == L420 then (c.height + 1) / 2 else c.height
  }

  /** First luma row of iteration `k`. */
  function GroupRow(c: Config, k: nat): nat {
    if c.layout == L420 then 2 * k else k
  }

  /** Luma rows the row loop covers. A 4:2:0 frame of odd height also
      covers row `height`, which lies past the Y plane. */
  function ScannedRows(c: Config): nat {
    if c.layout == L420 then 2 * GroupCount(c) else c.height
  }

  /** Positions that iteration `k` reads `width` bytes from, in the order the
      source reads them. 4:2:2 reloads U and V on even rows only. */
  function GroupReads(c: Config, f: nat, k: nat): (r: seq<nat>)
    ensures |r| > 0 && r[0] == LumaPos(c, f, GroupRow(c, k))
    ensures forall i :: 0 <= i < |r| ==> r[i] < U32
    ensures c.layout == L422 ==> (|r| == 3 <==> k % 2 == 0)
    ensures c.layout == L420 ==> |r| == 4 && r[1] == LumaPos(c, f, GroupRow(c, k) + 1)
  {
    var y := GroupRow(c, k);
    match c.layout
    case L444 => [LumaPos(c, f, y), UPos(c, f, y), VPos(c, f, y)]
    case L422 =>
      if y % 2 == 0 then [LumaPos(c, f, y), UPos(c, f, y), VPos(c, f, y)]
      else [LumaPos(c, f, y)]
    case L420 => [LumaPos(c, f, y), LumaPos(c, f, y + 1), UPos(c, f, y), VPos(c, f, y)]
  }

  predicate GroupReadable(c: Config, file: seq<byte>, f: nat, k: nat) {
    forall i :: 0 <= i < |GroupReads(c, f, k)| ==> GroupReads(c, f, k)[i] + c.width <= |file|
  }

  /** Every read the row loop performs for frame `f` is a full read. */
  predicate FrameReadable(c: Config, file: seq<byte>, f: nat) {
    forall k :: 0 <= k < GroupCount(c) ==> GroupReadable(c, file, f, k)
  }

  // ---------------------------------------------------------------------
  // Pixels

  /** One pixel's (Y, U, V) triple, the source's `YCbCr`. */
  datatype Sample = Sample(y: byte, u: byte, v: byte)

  /** The byte at `i`; past the end of the file it is 0, a value that is
      never used because such a frame has no result. */
  function ByteAt(file: seq<byte>, i: nat): byte {
    if i < |file| then file[i] else 0
  }

  /** The sample the frame loop builds for pixel column `x` of luma row `y`:
      Y from the row's own luma bytes, U and V from the chroma row that the
      layout assigns to `y`, at the index the layout assigns to `x`. */
  function PixelAt(c: Config, file: seq<byte>, f: nat, x: nat, y: nat): (s: Sample)
  {
    var ci := ChromaIndex(c.layout, x);
    Sample(ByteAt(file, LumaPos(c, f, y) + x), ByteAt(file, UPos(c, f, y) + ci), ByteAt(file, VPos(c, f, y) + ci))
  }

  /** In 4:2:2 an odd column repeats the chroma of the column before it, and
      an odd row repeats the chroma of the row before it. */
  lemma Chroma422Duplication(c: Config, file: seq<byte>, f: nat, x: nat, y: nat)
    requires c.layout == L422
    ensures x % 2 == 1 ==> PixelAt(c, file, f, x, y).u == PixelAt(c, file, f, x - 1, y).u
    ensures x % 2 == 1 ==> PixelAt(c, file, f, x, y).v == PixelAt(c, file, f, x - 1, y).v
    ensures y % 2 == 1 ==> PixelAt(c, file, f, x, y).u == PixelAt(c, file, f, x, y - 1).u
    ensures y % 2 == 1 ==> PixelAt(c, file, f, x, y).v == PixelAt(c, file, f, x, y - 1).v
  {
    if x % 2 == 1 {
      assert ChromaIndex(c.layout, x) == x - 1 == ChromaIndex(c.layout, x - 1);
    }
    if y % 2 == 1 {
      assert ChromaRow(c.layout, y) == y / 2 == (y - 1) / 2 == ChromaRow(c.layout, y - 1);
      assert UOffset(c.layout, c.FrameSize(), c.width, y) == UOffset(c.layout, c.FrameSize(), c.width, y - 1);
      assert VOffset(c.layout, c.FrameSize(), c.width, y) == VOffset(c.layout, c.FrameSize(), c.width, y - 1);
    }
  }

  /** In 4:2:0 the four pixels of the 2x2 block whose top-left corner is
      (x, y) all carry the U and V bytes at index x / 2 of the block row's
      chroma rows. */
  lemma Block420Shared(c: Config, file: seq<byte>, f: nat, x: nat, y: nat, dx: nat, dy: nat)
    requires c.layout == L420 && x % 2 == 0 && y % 2 == 0 && dx <= 1 && dy <= 1
    ensures PixelAt(c, file, f, x + dx, y + dy).u == ByteAt(file, UPos(c, f, y) + x / 2)
    ensures PixelAt(c, file, f, x + dx, y + dy).v == ByteAt(file, VPos(c, f, y) + x / 2)
  {
    assert (x + dx) / 2 == x / 2 && (y + dy) / 2 == y / 2;
  }

  // ---------------------------------------------------------------------
  // Error terms and frame totals

  datatype Channel = Luma | Cb | Cr

  /** The amount added to a channel's accumulator for one pixel. The V term
      is the source's `(r.v - t.v) * (r.y - t.v)`, which is not a square:
      it vanishes on identical pixels but can be negative. */
  function Term(ch: Channel, r: Sample, t: Sample): (d: int)
    ensures r == t ==> d == 0
    ensures ch != Cr ==> 0 <= d <= 65025
  {
    match ch
    case Luma => SquareBound(r.y - t.y); (r.y - t.y) * (r.y - t.y)
    case Cb => SquareBound(r.u - t.u); (r.u - t.u) * (r.u - t.u)
    case Cr => (r.v - t.v) * (r.y - t.v)
  }

  /** Exact sum of the channel's terms over columns [0, n) of luma row `y`. */
  function RowTotal(ch: Channel, c: Config, ref: seq<byte>, tst: seq<byte>, f: nat, y: nat, n: nat): int {
    if n == 0 then 0
    else RowTotal(ch, c, ref, tst, f, y, n - 1) + Term(ch, PixelAt(c, ref, f, n - 1, y), PixelAt(c, tst, f, n - 1, y))
  }

  /** Exact sum of the channel's terms over all columns of luma rows [0, rows). */
  function FrameTotal(ch: Channel, c: Config, ref: seq<byte>, tst: seq<byte>, f: nat, rows: nat): int {
    if rows == 0 then 0
    else FrameTotal(ch, c, ref, tst, f, rows - 1) + RowTotal(ch, c, ref, tst, f, rows - 1, c.width)
  }

  /** The three per-channel values of a frame: accumulators or mean errors. */
  datatype Errors = Errors(y: nat, u: nat, v: nat) {
    function Get(ch: Channel): nat {
      match ch
      case Luma => y
      case Cb => u
      case Cr => v
    }
  }

  /** The accumulators `mse_y`, `mse_u`, `mse_v` at the end of frame `f`. */
  function FrameSums(c: Config, ref: seq<byte>, tst: seq<byte>, f: nat): Errors {
    var rows := ScannedRows(c);
    Errors(Wrap32(FrameTotal(Luma, c, ref, tst, f, rows)),
           Wrap32(FrameTotal(Cb, c, ref, tst, f, rows)),
           Wrap32(FrameTotal(Cr, c, ref, tst, f, rows)))
  }

  /** The frame's accumulators, or `None` when a read of either file is short. */
  function FrameResult(c: Config, ref: seq<byte>, tst: seq<byte>, f: nat): Option<Errors> {
    if FrameReadable(c, ref, f) && FrameReadable(c, tst, f) then Some(FrameSums(c, ref, tst, f)) else None
  }

  /** Identical pixels add nothing to any accumulator, the V term included. */
  lemma {:induction false} IdenticalRowTotal(ch: Channel, c: Config, s: seq<byte>, f: nat, y: nat, n: nat)
    ensures RowTotal(ch, c, s, s, f, y, n) == 0
  {
    if n > 0 {
      IdenticalRowTotal(ch, c, s, f, y, n - 1);
    }
  }

  lemma {:induction false} IdenticalFrameTotal(ch: Channel, c: Config, s: seq<byte>, f: nat, rows: nat)
    ensures FrameTotal(ch, c, s, s, f, rows) == 0
  {
    if rows > 0 {
      IdenticalFrameTotal(ch, c, s, f, rows - 1);
      IdenticalRowTotal(ch, c, s, f, rows - 1, c.width);
    }
  }

  /** Comparing a file with itself leaves all three accumulators at zero. */
  lemma IdenticalFrameSums(c: Config, s: seq<byte>, f: nat)
    ensures FrameSums(c, s, s, f) == Errors(0, 0, 0)
  {
    IdenticalFrameTotal(Luma, c, s, f, ScannedRows(c));
    IdenticalFrameTotal(Cb, c, s, f, ScannedRows(c));
    IdenticalFrameTotal(Cr, c, s, f, ScannedRows(c));
  }

  /** The Y and U terms are squares of byte differences, so their exact
      totals lie between 0 and 255^2 per pixel position scanned. */
  lemma {:induction false} SquaredRowTotalBounds(ch: Channel, c: Config, ref: seq<byte>, tst: seq<byte>, f: nat, y: nat, n: nat)
    requires ch != Cr
    ensures 0 <= RowTotal(ch, c, ref, tst, f, y, n) <= 65025 * n
  {
    if n > 0 {
      SquaredRowTotalBounds(ch, c, ref, tst, f, y, n - 1);
      var r, t := PixelAt(c, ref, f, n - 1, y), PixelAt(c, tst, f, n - 1, y);
      var d := if ch == Luma then r.y - t.y else r.u - t.u;
      assert Term(ch, r, t) == d * d;
      assert -255 <= d <= 255;
      SquareBound(d);
    }
  }

  lemma SquareBound(d: int)
    requires -255 <= d <= 255
    ensures 0 <= d * d <= 65025
  {
    var a := if d < 0 then -d else d;
    assert d * d == a * a;
    MulLe(a, 255, a);
    MulLe(a, 255, 255);
  }

  lemma {:induction false} SquaredFrameTotalBounds(ch: Channel, c: Config, ref: seq<byte>, tst: seq<byte>, f: nat, rows: nat)
    requires ch != Cr
    ensures 0 <= FrameTotal(ch, c, ref, tst, f, rows) <= 65025 * (rows * c.width)
  {
    if rows > 0 {
      SquaredFrameTotalBounds(ch, c, ref, tst, f, rows - 1);
      SquaredRowTotalBounds(ch, c, ref, tst, f, rows - 1, c.width);
      AddRowBound(FrameTotal(ch, c, ref, tst, f, rows - 1), RowTotal(ch, c, ref, tst, f, rows - 1, c.width), rows, c.width);
    }
  }

  lemma AddRowBound(a: int, b: int, rows: nat, w: nat)
    requires rows > 0 && a <= 65025 * ((rows - 1) * w) && b <= 65025 * w
    ensures a + b <= 65025 * (rows * w)
  {
    assert rows * w == (rows - 1) * w + w;
  }

  /** When 255^2 times the number of pixel positions scanned stays below
      2^32, the Y and U accumulators never wrap: each equals the exact sum
      of squared differences over those positions. */
  lemma SquaredSumsExact(c: Config, ref: seq<byte>, tst: seq<byte>, f: nat, ch: Channel)
    requires ch != Cr && 65025 * (ScannedRows(c) * c.width) < U32
    ensures FrameSums(c, ref, tst, f).Get(ch) == FrameTotal(ch, c, ref, tst, f, ScannedRows(c))
  {
    var total := FrameTotal(ch, c, ref, tst, f, ScannedRows(c));
    SquaredFrameTotalBounds(ch, c, ref, tst, f, ScannedRows(c));
    WrapSmall(total);
  }
}
