/**
 A square matrix over GF(2) stored column by column in `dim * dim` byte
 cells, addressed with 1-based (row, column) pairs: cell (r, c) is byte
 `(c - 1) * dim + (r - 1)`. Elements are written by OR-ing in their low
 bit, so a well-formed matrix only ever holds 0s and 1s.
 */
module Gf2Matrix {
  import opened Common

  /** `GF2_ELEM`, an unsigned byte. */
  type Elem = bv8

  datatype Matrix = Matrix(dim: nat, cells: seq<Elem>)

  /** The cell storage holds exactly `dim * dim` bytes. */
  predicate WellShaped(m: Matrix) {
    |m.cells| == m.dim * m.dim
  }

  /** Every cell is a GF(2) element. */
  predicate IsGf2(m: Matrix) {
    forall i :: 0 <= i < |m.cells| ==> m.cells[i] <= 1
  }

  /** The 1-based bounds `getValue` and `setValue` assert. */
  predicate InBounds(dim: nat, row: nat, col: nat) {
    1 <= row <= dim && 1 <= col <= dim
  }

  // ---------------------------------------------------------------------
  // Column-major addressing

  function CellIndex(dim: nat, row: nat, col: nat): nat
    requires InBounds(dim, row, col)
  {
    (col - 1) * dim + (row - 1)
  }

  /** The (row, column) pair a cell index stands for. */
  function CellRow(dim: nat, i: nat): nat
    requires dim > 0
  {
    i % dim + 1
  }

  function CellCol(dim: nat, i: nat): nat
    requires dim > 0
  {
    i / dim + 1
  }

  /** Addressing maps the in-bounds pairs into the storage and back. */
  lemma CellIndexRoundTrip(dim: nat, row: nat, col: nat)
    requires InBounds(dim, row, col)
    ensures CellIndex(dim, row, col) < dim * dim
    ensures CellRow(dim, CellIndex(dim, row, col)) == row && CellCol(dim, CellIndex(dim, row, col)) == col
  {
    var i := CellIndex(dim, row, col);
    LessMul(col - 1, dim, dim, row - 1);
    DivModUnique(i, dim, col - 1, row - 1);
  }

  /** Every storage index is the address of exactly one in-bounds pair. */
  lemma CellIndexOnto(dim: nat, i: nat)
    requires i < dim * dim
    ensures dim > 0 && InBounds(dim, CellRow(dim, i), CellCol(dim, i))
    ensures CellIndex(dim, CellRow(dim, i), CellCol(dim, i)) == i
  {
    assert dim > 0;
    var q, r := i / dim, i % dim;
    assert i == q * dim + r;
    if q >= dim {
      MulLe(dim, q, dim);
    }
  }

  /** Distinct in-bounds pairs address distinct cells. */
  lemma CellIndexInjective(dim: nat, r1: nat, c1: nat, r2: nat, c2: nat)
    requires InBounds(dim, r1, c1) && InBounds(dim, r2, c2)
    ensures CellIndex(dim, r1, c1) == CellIndex(dim, r2, c2) <==> r1 == r2 && c1 == c2
  {
    CellIndexRoundTrip(dim, r1, c1);
    CellIndexRoundTrip(dim, r2, c2);
  }

  lemma LessMul(q: nat, n: nat, d: nat, r: nat)
    requires q < n && r < d
    ensures q * d + r < n * d
  {
    MulLe(q + 1, n, d);
  }

  lemma DivModUnique(i: nat, d: nat, q: nat, r: nat)
    requires 0 <= r < d && i == q * d + r
    ensures i / d == q && i % d == r
  {
    var q', r' := i / d, i % d;
    assert i == q' * d + r';
    if q' > q {
      MulLe(q + 1, q', d);
    } else if q' < q {
      MulLe(q' + 1, q, d);
    }
  }

  // ---------------------------------------------------------------------
  // Operations

  /** `getValue(row, col, m)`. */
  function GetValue(m: Matrix, row: nat, col: nat): (e: Elem)
    requires WellShaped(m) && InBounds(m.dim, row, col)
    ensures IsGf2(m) ==> e <= 1
  {
    CellIndexRoundTrip(m.dim, row, col);
    m.cells[CellIndex(m.dim, row, col)]
  }

  /** A plain store into one element leaves every other element as it was. */
  lemma StoreFrame(m: Matrix, r0: nat, c0: nat, v: Elem, r: nat, c: nat)
    requires WellShaped(m) && InBounds(m.dim, r0, c0) && InBounds(m.dim, r, c)
    ensures CellIndex(m.dim, r0, c0) < |m.cells|
    ensures GetValue(m.(cells := m.cells[CellIndex(m.dim, r0, c0) := v]), r, c) ==
              if r == r0 && c == c0 then v else GetValue(m, r, c)
  {
    CellIndexRoundTrip(m.dim, r0, c0);
    CellIndexRoundTrip(m.dim, r, c);
    CellIndexInjective(m.dim, r, c, r0, c0);
    var m' := m.(cells := m.cells[CellIndex(m.dim, r0, c0) := v]);
    assert GetValue(m', r, c) == m'.cells[CellIndex(m.dim, r, c)];
  }

  /** `cell | (e & 0x1)`: only bit 0 of `e` reaches the cell, and it can
      only set that bit of the cell. */
  function OrLowBit(cell: Elem, e: Elem): Elem {
    cell | (e & 1)
  }

  lemma OrLowBitFacts(cell: Elem, e: Elem)
    ensures e & 1 == 0 ==> OrLowBit(cell, e) == cell
    ensures e & 1 == 1 ==> OrLowBit(cell, e) & 1 == 1 && OrLowBit(cell, e) >> 1 == cell >> 1
    ensures cell <= 1 ==> OrLowBit(cell, e) == if e & 1 == 1 then 1 else cell
  {
  }

  /** `setValue(row, col, e, m)`: `*cell |= (e & 0x1)`. */
  function SetValue(m: Matrix, row: nat, col: nat, e: Elem): (m': Matrix)
    requires WellShaped(m) && InBounds(m.dim, row, col)
    ensures m'.dim == m.dim && WellShaped(m')
    ensures e & 1 == 0 ==> m' == m
    ensures e & 1 == 1 ==> GetValue(m', row, col) & 1 == 1 && GetValue(m', row, col) >> 1 == GetValue(m, row, col) >> 1
    ensures forall r: nat, c: nat :: InBounds(m.dim, r, c) && (r != row || c != col) ==> GetValue(m', r, c) == GetValue(m, r, c)
    ensures IsGf2(m) ==> IsGf2(m') && GetValue(m', row, col) == (if e & 1 == 1 then 1 else GetValue(m, row, col))
  {
    CellIndexRoundTrip(m.dim, row, col);
    var i := CellIndex(m.dim, row, col);
    var v := OrLowBit(m.cells[i], e);
    OrLowBitFacts(m.cells[i], e);
    var m' := m.(cells := m.cells[i := v]);
    forall r: nat, c: nat | InBounds(m.dim, r, c)
      ensures GetValue(m', r, c) == if r == row && c == col then v else GetValue(m, r, c)
    {
      StoreFrame(m, row, col, v, r, c);
    }
    m'
  }

  /** The first `n` cells hold 0. */
  predicate ZeroUpTo(cells: seq<Elem>, n: nat)
    requires n <= |cells|
  {
    forall i :: 0 <= i < n ==> cells[i] == 0
  }

  /** The inner loop of `create`: zero the `dim` cells of one column,
      starting at cell `base`. */
  method ZeroColumn(cells: seq<Elem>, base: nat, dim: nat) returns (cells': seq<Elem>)
    requires base + dim <= |cells| && ZeroUpTo(cells, base)
    ensures |cells'| == |cells| && ZeroUpTo(cells', base + dim)
  {
    cells' := cells;
    var row := 0;
    while row < dim
      invariant 0 <= row <= dim && |cells'| == |cells| && ZeroUpTo(cells', base + row)
    {
      cells' := cells'[base + row := 0];
      row := row + 1;
    }
  }

  /** `create(dim)`: both loops write 0 into every cell of the freshly
      allocated storage `raw`, whose bytes are indeterminate. */
  method Create(dim: nat, raw: seq<Elem>) returns (m: Matrix)
    requires |raw| == dim * dim
    ensures m.dim == dim && WellShaped(m) && IsGf2(m)
    ensures forall r: nat, c: nat :: InBounds(dim, r, c) ==> GetValue(m, r, c) == 0
  {
    var cells := raw;
    var col, base := 0, 0;
    while col < dim
      invariant 0 <= col <= dim && base == col * dim && |cells| == dim * dim
      invariant ZeroUpTo(cells, base)
    {
      MulLe(col + 1, dim, dim);
      assert (col + 1) * dim == base + dim;
      cells := ZeroColumn(cells, base, dim);
      col, base := col + 1, base + dim;
    }
    m := Matrix(dim, cells);
    assert ZeroUpTo(m.cells, |m.cells|);
    forall r: nat, c: nat | InBounds(dim, r, c)
      ensures GetValue(m, r, c) == 0
    {
      CellIndexRoundTrip(dim, r, c);
    }
  }

  /** The identity loop after its first `i` iterations. */
  ghost predicate DiagonalUpTo(m: Matrix, i: nat)
    requires WellShaped(m)
  {
    forall r: nat, c: nat :: InBounds(m.dim, r, c) ==> GetValue(m, r, c) == if r == c && r <= i then 1 else 0
  }

  /** Writing 1 into cell (i + 1, i + 1) extends the diagonal by one. */
  lemma DiagonalStep(m: Matrix, i: nat)
    requires WellShaped(m) && i < m.dim && DiagonalUpTo(m, i)
    ensures CellIndex(m.dim, i + 1, i + 1) == i * m.dim + i
    ensures DiagonalUpTo(m.(cells := m.cells[CellIndex(m.dim, i + 1, i + 1) := 1]), i + 1)
  {
    CellIndexRoundTrip(m.dim, i + 1, i + 1);
    var m' := m.(cells := m.cells[CellIndex(m.dim, i + 1, i + 1) := 1]);
    forall r: nat, c: nat | InBounds(m.dim, r, c)
      ensures GetValue(m', r, c) == if r == c && r <= i + 1 then 1 else 0
    {
      StoreFrame(m, i + 1, i + 1, 1, r, c);
    }
  }

  /** A matrix whose every addressable element is 0 or 1 is a GF(2) matrix. */
  lemma ElementsAreCells(m: Matrix)
    requires WellShaped(m)
    requires forall r: nat, c: nat :: InBounds(m.dim, r, c) ==> GetValue(m, r, c) <= 1
    ensures IsGf2(m)
  {
    forall j | 0 <= j < |m.cells|
      ensures m.cells[j] <= 1
    {
      CellIndexOnto(m.dim, j);
      assert GetValue(m, CellRow(m.dim, j), CellCol(m.dim, j)) <= 1;
    }
  }

  /** `createIdentityMatrix(dim)`: a zero matrix with 1 written (by plain
      assignment) into the cells (i, i). */
  method CreateIdentityMatrix(dim: nat, raw: seq<Elem>) returns (m: Matrix)
    requires |raw| == dim * dim
    ensures m.dim == dim && WellShaped(m) && IsGf2(m)
    ensures forall r: nat, c: nat :: InBounds(dim, r, c) ==> GetValue(m, r, c) == if r == c then 1 else 0
  {
    m := Create(dim, raw);
    var i := 0;
    while i < dim
      invariant 0 <= i <= dim && m.dim == dim && WellShaped(m)
      invariant DiagonalUpTo(m, i)
    {
      DiagonalStep(m, i);
      m := m.(cells := m.cells[i * dim + i := 1]);
      i := i + 1;
    }
    ElementsAreCells(m);
  }

  // ---------------------------------------------------------------------
  // Properties of setValue

  /** Setting the same element twice has the effect of setting it once. */
  lemma SetValueIdempotent(m: Matrix, row: nat, col: nat, e: Elem)
    requires WellShaped(m) && InBounds(m.dim, row, col)
    ensures SetValue(SetValue(m, row, col, e), row, col, e) == SetValue(m, row, col, e)
  {
    CellIndexRoundTrip(m.dim, row, col);
  }

  /** On a GF(2) matrix `setValue` can turn a 0 into a 1 but never a 1 into
      a 0: every element afterwards is at least what it was. */
  lemma SetValueNeverClears(m: Matrix, row: nat, col: nat, e: Elem, r: nat, c: nat)
    requires WellShaped(m) && IsGf2(m) && InBounds(m.dim, row, col) && InBounds(m.dim, r, c)
    ensures GetValue(SetValue(m, row, col, e), r, c) >= GetValue(m, r, c)
  {
  }

  /** Two `setValue` calls give the same matrix in either order. */
  lemma SetValueCommutes(m: Matrix, r1: nat, c1: nat, e1: Elem, r2: nat, c2: nat, e2: Elem)
    requires WellShaped(m) && InBounds(m.dim, r1, c1) && InBounds(m.dim, r2, c2)
    ensures SetValue(SetValue(m, r1, c1, e1), r2, c2, e2) == SetValue(SetValue(m, r2, c2, e2), r1, c1, e1)
  {
    CellIndexRoundTrip(m.dim, r1, c1);
    CellIndexRoundTrip(m.dim, r2, c2);
    CellIndexInjective(m.dim, r1, c1, r2, c2);
  }
}
