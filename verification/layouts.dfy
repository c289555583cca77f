/**
 Layout selection and frame geometry of the comparator: which J:a:b triples
 select which of the three planar layouts, how many bytes a frame takes,
 where each frame starts, where the Y, U and V rows of a frame are read
 from, and how many frames a pair of files yields.

 All offsets are byte offsets relative to the start of the frame unless a
 name says otherwise. Where the source computes in `double` (the 1.5 and
 1.25 factors of the subsampled layouts) the values involved are multiples
 of 1/4 far below 2^53, so the double result is exact and truncating it to
 an integer is a floor division, which is how it is written here.
 */
module Layouts {
  import opened Common
  import opened Subsampling

  datatype Layout = L444 | L422 | L420

  /** The J:a:b spelling of each layout. */
  function NotationOf(l: Layout): Notation {
    match l
    case L444 => Notation(4, 4, 4)
    case L422 => Notation(4, 2, 2)
    case L420 => Notation(4, 2, 0)
  }

  /** What `main` does with a parsed triple: run one of the three readers,
      stop with the "unsupported sub-sampling mode" error, or (for J other
      than 4) do nothing at all. */
  datatype Mode = Process(layout: Layout) | Unsupported | Ignored

  function Dispatch(n: Notation): (m: Mode)
    ensures m.Process? ==> n == NotationOf(m.layout)
    ensures m == Ignored <==> n.j != 4
    ensures m == Unsupported <==> n.j == 4 && forall l: Layout :: n != NotationOf(l)
  {
    if n.j == 4 then
      if n.a == 4 && n.b == 4 then Process(L444)
      else if n.a == 2 && n.b == 2 then Process(L422)
      else if n.a == 2 && n.b == 0 then Process(L420)
      else Unsupported
    else Ignored
  }

  /** Each layout's own spelling selects it: together with the contract of
      `Dispatch`, the three supported triples and the three layouts are in
      one-to-one correspondence. */
  lemma DispatchSelectsLayout(l: Layout)
    ensures Dispatch(NotationOf(l)) == Process(l)
  {
  }

  // ---------------------------------------------------------------------
  // Frame geometry

  /** Dimensions for which `frameSize`, `bytesPerFrame` and every in-frame
      offset stay below 2^32, so that the source's `uint` and `uint32_t`
      arithmetic on them does not wrap. A zero dimension makes the source
      divide by a zero `bytesPerFrame`. (`w * h > 0` follows from the
      first two conjuncts and is spelled out for the solver.) */
  predicate ValidDims(w: nat, h: nat) {
    w > 0 && h > 0 && w * h > 0 && 3 * (w * h) < U32
  }

  /** Bytes per frame: Y plane plus U and V planes. For 4:2:0 the source
      keeps 1.5 * frameSize as a double; this is its integer part. */
  function BytesPerFrame(l: Layout, fs: nat): nat {
    match l
    case L444 => 3 * fs
    case L422 => 2 * fs
    case L420 => 3 * fs / 2
  }

  /** Twice the number of bytes per pixel: 6, 4 and 3 half-bytes. */
  function HalfBytesPerPixel(l: Layout): nat {
    match l
    case L444 => 6
    case L422 => 4
    case L420 => 3
  }

  /** Start of frame `f`: `f * bytesPerFrame`, with the 4:2:0 product formed
      in double and truncated. */
  function FrameOffset(l: Layout, fs: nat, f: nat): (r: nat)
    ensures 2 * r <= HalfBytesPerPixel(l) * (fs * f) < 2 * r + 2
  {
    match l
    case L444 => assert f * (3 * fs) == 3 * (fs * f); f * (3 * fs)
    case L422 => assert f * (2 * fs) == 2 * (fs * f); f * (2 * fs)
    case L420 => assert 3 * fs * f == 3 * (fs * f); (3 * fs * f) / 2
  }

  /** A frame occupies 3, 2 or 1.5 times the pixel count, and frame `f`
      starts at `f * bytesPerFrame`, right after frame `f - 1` ends. For
      4:2:0 this needs an even pixel count, without which 1.5 * frameSize
      is not a whole number of bytes. */
  lemma {:induction false} FrameOffsets(l: Layout, fs: nat, f: nat)
    requires l != L420 || fs % 2 == 0
    ensures 2 * BytesPerFrame(l, fs) == HalfBytesPerPixel(l) * fs
    ensures FrameOffset(l, fs, f) == f * BytesPerFrame(l, fs)
    ensures FrameOffset(l, fs, f + 1) == FrameOffset(l, fs, f) + BytesPerFrame(l, fs)
  {
    if l == L420 {
      var k := fs / 2;
      assert fs == 2 * k;
      assert 3 * fs * f == 2 * (3 * k * f);
      assert 3 * fs * (f + 1) == 2 * (3 * k * f + 3 * k);
      assert f * BytesPerFrame(l, fs) == f * (3 * k) == 3 * k * f;
    }
  }

  /** Offset of luma row `y` (the same in every layout). */
  function LumaOffset(w: nat, y: nat): nat {
    y * w
  }

  /** Start of the V plane: the U plane always starts at `frameSize`. */
  function VPlaneStart(l: Layout, fs: nat): nat {
    match l
    case L444 => 2 * fs
    case L422 => 3 * fs / 2
    case L420 => 5 * fs / 4
  }

  /** The chroma row number that luma row `y` reads: 4:4:4 has one chroma
      row per luma row; 4:2:2 and 4:2:0 both read row `y / 2`, with a
      stride of a full `width` bytes. */
  function ChromaRow(l: Layout, y: nat): nat {
    if l == L444 then y else y / 2
  }

  /** Offset of the U row that luma row `y` reads; it lies past the Y plane. */
  function UOffset(l: Layout, fs: nat, w: nat, y: nat): (r: nat)
    ensures fs <= r
  {
    fs + ChromaRow(l, y) * w
  }

  /** Offset of the V row that luma row `y` reads; it lies past the start
      of the V plane, which lies past the Y plane. */
  function VOffset(l: Layout, fs: nat, w: nat, y: nat): (r: nat)
    ensures fs <= VPlaneStart(l, fs) <= r
  {
    VPlaneStart(l, fs) + ChromaRow(l, y) * w
  }

  /** The index inside a `width`-byte chroma row buffer that pixel column `x`
      reads: its own column in 4:4:4; in 4:2:2 an odd column reads the
      column before it; in 4:2:0 the block index `x / 2`. */
  function ChromaIndex(l: Layout, x: nat): (i: nat)
    ensures i <= x
  {
    match l
    case L444 => x
    case L422 => if x % 2 == 0 then x else x - 1
    case L420 => x / 2
  }

  /** The three `width`-byte reads for row `y` each lie inside their own
      plane: Y in [0, fs), U in [fs, V start), V in [V start, bytesPerFrame). */
  predicate RowReadsInPlanes(l: Layout, w: nat, h: nat, y: nat) {
    var fs := w * h;
    && LumaOffset(w, y) + w <= fs
    && UOffset(l, fs, w, y) + w <= VPlaneStart(l, fs)
    && VPlaneStart(l, fs) <= VOffset(l, fs, w, y)
    && VOffset(l, fs, w, y) + w <= BytesPerFrame(l, fs)
  }

  /** In 4:4:4 every row's reads stay inside their planes, hence inside the frame. */
  lemma Rows444InPlanes(w: nat, h: nat, y: nat)
    requires y < h
    ensures RowReadsInPlanes(L444, w, h, y)
  {
    RowFits(w, h, y);
  }

  /** Row `y` of a `w`-by-`h` plane ends inside the plane. */
  lemma RowFits(w: nat, h: nat, y: nat)
    requires y < h
    ensures y * w + w <= w * h
  {
    MulLe(y + 1, h, w);
    assert (y + 1) * w == y * w + w;
  }

  /** In 4:2:2 the reads of every row stay inside their planes exactly when
      the height is even; with an odd height the last row's U read runs into
      the V plane. */
  lemma Rows422InPlanes(w: nat, h: nat)
    requires w > 0
    ensures (forall y: nat :: y < h ==> RowReadsInPlanes(L422, w, h, y)) <==> h % 2 == 0
  {
    var fs := w * h;
    if h % 2 == 0 {
      forall y: nat | y < h
        ensures RowReadsInPlanes(L422, w, h, y)
      {
        var k := h / 2;
        assert fs == 2 * (k * w);
        MulLe(y / 2 + 1, k, w);
        MulLe(y + 1, h, w);
      }
    } else if h > 0 {
      var y := h - 1;
      var k := y / 2;
      assert h == 2 * k + 1;
      assert fs == 2 * (k * w) + w;
      assert UOffset(L422, fs, w, y) + w == fs + k * w + w;
      assert !RowReadsInPlanes(L422, w, h, y);
    }
  }

  /** In 4:2:0 with an even height, both luma rows of every row pair lie in
      the Y plane and the U row read at `frameSize + (y / 2) * width` ends
      inside the frame. */
  lemma Rows420LumaAndU(w: nat, h: nat, y: nat)
    requires h % 2 == 0 && y % 2 == 0 && y < h
    ensures LumaOffset(w, y + 1) + w <= w * h
    ensures UOffset(L420, w * h, w, y) + w <= BytesPerFrame(L420, w * h)
  {
    var k := h / 2;
    assert w * h == 2 * (k * w);
    MulLe(y + 2, h, w);
    MulLe(y / 2 + 1, k, w);
  }

  /** In 4:2:0 with an even height the V row read of the last row pair ends
      `frameSize / 4` bytes past the end of the frame: the source reads the
      V plane with a stride of `width` bytes, twice the stride of a plane
      that is `width / 2` samples wide. */
  lemma Rows420VOverrun(w: nat, h: nat)
    requires h >= 2 && h % 2 == 0
    ensures VOffset(L420, w * h, w, h - 2) + w == BytesPerFrame(L420, w * h) + (w * h) / 4
  {
    var k := h / 2;
    var fs := w * h;
    assert fs == 2 * (k * w);
    assert (h - 2) / 2 == k - 1;
    assert (k - 1) * w + w == k * w;
    assert 5 * fs / 4 == fs + fs / 4;
  }

  // ---------------------------------------------------------------------
  // Frame count

  function Min(a: nat, b: nat): nat {
    if a <= b then a else b
  }

  /** The number of iterations of the frame loop. For 4:4:4 and 4:2:2 it is
      the smaller of the two integer quotients size / bytesPerFrame. For
      4:2:0 the quotients are doubles and the loop runs while the integer
      counter is below the smaller one, i.e. ceil(size / (1.5 * frameSize)).
      The exact quotient is an integer or at least 1 / (3 * frameSize) away
      from one, so rounding it cannot change that comparison for files
      below about 2^50 bytes. */
  function FramesToScore(l: Layout, fs: nat, rSize: nat, tSize: nat): (n: nat)
    requires fs > 0
    ensures l != L420 ==>
              n * BytesPerFrame(l, fs) <= Min(rSize, tSize) < (n + 1) * BytesPerFrame(l, fs)
    ensures l == L420 ==>
              2 * Min(rSize, tSize) <= n * (3 * fs) &&
              (n == 0 || (n - 1) * (3 * fs) < 2 * Min(rSize, tSize))
  {
    match l
    case L444 =>
      WholeQuotient(rSize, tSize, 3 * fs);
      Min(rSize / (3 * fs), tSize / (3 * fs))
    case L422 =>
      WholeQuotient(rSize, tSize, 2 * fs);
      Min(rSize / (2 * fs), tSize / (2 * fs))
    case L420 =>
      CeilQuotient(2 * Min(rSize, tSize), 3 * fs);
      (2 * Min(rSize, tSize) + 3 * fs - 1) / (3 * fs)
  }

  /** The smaller of two floor quotients is the floor quotient of the
      smaller dividend. */
  lemma WholeQuotient(a: nat, b: nat, d: nat)
    requires d > 0
    ensures var q := Min(a / d, b / d); q * d <= Min(a, b) < (q + 1) * d
  {
    if a <= b {
      DivMono(a, b, d);
      DivBounds(a, d);
    } else {
      DivMono(b, a, d);
      DivBounds(b, d);
    }
  }

  lemma DivMono(a: nat, b: nat, d: nat)
    requires d > 0 && a <= b
    ensures a / d <= b / d
  {
    var qa, qb := a / d, b / d;
    DivBounds(a, d);
    DivBounds(b, d);
    if qb < qa {
      MulLe(qb + 1, qa, d);
    }
  }

  /** `(a + d - 1) / d` rounds `a / d` up. */
  lemma CeilQuotient(a: nat, d: nat)
    requires d > 0
    ensures var q := (a + d - 1) / d; a <= q * d && (q == 0 || (q - 1) * d < a)
  {
    DivBounds(a + d - 1, d);
  }

  lemma DivUnique(a: int, d: nat, q: int, r: int)
    requires d > 0 && a == q * d + r && 0 <= r < d
    ensures a / d == q
  {
    var q', r' := a / d, a % d;
    assert a == q' * d + r';
    assert (q - q') * d == r' - r;
    if q - q' >= 1 {
      MulLe(1, q - q', d);
    } else if q' - q >= 1 {
      MulLe(1, q' - q, d);
    }
  }

  lemma FloorCount(a: nat, d: nat, f: nat)
    requires d > 0
    ensures f < a / d <==> (f + 1) * d <= a
  {
    var q := a / d;
    assert a == q * d + a % d;
    if f < q {
      MulLe(f + 1, q, d);
    } else {
      MulLe(q + 1, f + 1, d);
    }
  }

  lemma CeilCount(a: nat, d: nat, f: nat)
    requires d > 0
    ensures f < (a + d - 1) / d <==> f * d < a
  {
    var q := (a + d - 1) / d;
    assert a + d - 1 == q * d + (a + d - 1) % d;
    if f < q {
      MulLe(f + 1, q, d);
    } else {
      MulLe(q, f, d);
    }
  }

  /** 4:4:4 and 4:2:2 score frame `f` exactly when the whole frame lies in
      both files: trailing bytes short of a frame are ignored. */
  lemma {:induction false} FrameCountWhole(l: Layout, fs: nat, rSize: nat, tSize: nat, f: nat)
    requires fs > 0 && l != L420
    ensures f < FramesToScore(l, fs, rSize, tSize) <==>
              (FrameOffset(l, fs, f) + BytesPerFrame(l, fs) <= rSize &&
               FrameOffset(l, fs, f) + BytesPerFrame(l, fs) <= tSize)
  {
    var d := BytesPerFrame(l, fs);
    FrameOffsets(l, fs, f);
    FloorCount(rSize, d, f);
    FloorCount(tSize, d, f);
    assert (f + 1) * d == f * d + d;
  }

  /** 4:2:0 scores frame `f` exactly when the frame STARTS inside both files,
      so a trailing partial frame is iterated too. */
  lemma {:induction false} FrameCount420(fs: nat, rSize: nat, tSize: nat, f: nat)
    requires fs > 0
    ensures f < FramesToScore(L420, fs, rSize, tSize) <==>
              (FrameOffset(L420, fs, f) < rSize && FrameOffset(L420, fs, f) < tSize)
  {
    var m := Min(rSize, tSize);
    CeilCount(2 * m, 3 * fs, f);
    assert f * (3 * fs) == 3 * fs * f;
  }

  /** With an even pixel count the 4:2:0 loop runs over the whole frames of
      the shorter file plus one more exactly when a partial frame trails it. */
  lemma {:induction false} FrameCount420Partial(fs: nat, rSize: nat, tSize: nat)
    requires fs > 0 && fs % 2 == 0
    ensures var m := Min(rSize, tSize);
            var d := BytesPerFrame(L420, fs);
            FramesToScore(L420, fs, rSize, tSize) == m / d + (if m % d == 0 then 0 else 1)
  {
    var m := Min(rSize, tSize);
    var d := BytesPerFrame(L420, fs);
    var k := fs / 2;
    assert d == 3 * k && 3 * fs == 2 * d;
    var q := m / d;
    var r := m % d;
    assert m == q * d + r;
    if r == 0 {
      DivUnique(2 * m + 2 * d - 1, 2 * d, q, 2 * d - 1);
    } else {
      DivUnique(2 * m + 2 * d - 1, 2 * d, q + 1, 2 * r - 1);
    }
  }
}
