/** The geometry of the 64x64 board of bpf_life.c: the board is a flat array of
    4096 cells, cell `o` sits at row `o / 64` and column `o % 64`, and the edges
    wrap around (a torus). `cell_math` finds the eight neighbours of a cell with
    unsigned 32-bit offset arithmetic and a final `& MASK`; this module states
    that arithmetic as the source writes it and proves it equal to the toroidal
    definition. */
module Torus {
  import opened Wire

  const Width: nat := 64
  const Height: nat := 64
  /** `MAX_CELL_MAP_SIZE`, the number of cells on the board. */
  const CellMapSize: nat := 4096

  /** `x & MASK` with `MASK == 0xfff`, for a non-negative `x`. */
  function Masked(x: nat): (i: nat)
    ensures i < CellMapSize
  {
    x % 0x1000
  }

  /** The mask leaves a board index as it is. */
  lemma MaskedIndex(x: nat)
    requires x < CellMapSize
    ensures Masked(x) == x
  {
  }

  // The four unsigned deltas `cell_math` chooses for an offset; a negative
  // constant assigned to an `unsigned int` is its 32-bit two's complement.

  function XLeft(offset: U32): U32 {
    if offset % Width == 0 then Width - 1 else Wrap32(-1)
  }

  function XRight(offset: U32): U32 {
    if offset % Width == Width - 1 then Wrap32(-(Width - 1)) else 1
  }

  function YUp(offset: U32): U32 {
    if offset < Width then Width * (Height - 1) else Wrap32(-(Width as int))
  }

  function YDown(offset: U32): U32 {
    if offset > Width * (Height - 1) then Wrap32(-(Width * (Height - 1))) else Width
  }

  /** The k-th board index `cell_math` updates for `offset`, in source order:
      up-left, up, up-right, left, right, down-left, down, down-right. The
      vertical delta is added first, then the horizontal one; each sum is an
      `unsigned int` sum, so it wraps at 2^32 before the mask is applied. */
  function NeighbourIndex(offset: U32, k: nat): (i: nat)
    requires k < 8
    ensures i < CellMapSize
  {
    if DCol(k) == 0 then Masked(Wrap32(offset + VDelta(offset, DRow(k))))
    else if DRow(k) == 0 then Masked(Wrap32(offset + HDelta(offset, DCol(k))))
    else Masked(Wrap32(Wrap32(offset + VDelta(offset, DRow(k))) + HDelta(offset, DCol(k))))
  }

  /** Row and column steps of the k-th neighbour, in the same order. The table is
      point-symmetric: neighbour `7 - k` is the step back from neighbour `k`. */
  function DRow(k: nat): int
    requires k < 8
  {
    if k < 3 then -1 else if k < 5 then 0 else 1
  }

  function DCol(k: nat): int
    requires k < 8
  {
    if k == 0 || k == 3 || k == 5 then -1 else if k == 1 || k == 6 then 0 else 1
  }

  /** Reference definition: the k-th neighbour of `cell` on the 64x64 torus,
      `((row + dr) mod 64) * 64 + ((col + dc) mod 64)`. */
  function Toroidal(cell: nat, k: nat): (n: nat)
    requires cell < CellMapSize && k < 8
    ensures n < CellMapSize
  {
    ((cell / 64 + DRow(k)) % 64) * 64 + (cell % 64 + DCol(k)) % 64
  }

  /** Row and column of the k-th neighbour. */
  lemma ToroidalCoords(cell: nat, k: nat)
    requires cell < CellMapSize && k < 8
    ensures Toroidal(cell, k) / 64 == (cell / 64 + DRow(k)) % 64
    ensures Toroidal(cell, k) % 64 == (cell % 64 + DCol(k)) % 64
  {
  }

  /** `(a mod 2^32) mod 4096 == a mod 4096`, because 4096 divides 2^32. */
  lemma MaskedWrap(a: int)
    ensures Wrap32(a) % 0x1000 == a % 0x1000
  {
    var q := a / 0x1_0000_0000;
    assert a == 0x1_0000_0000 * q + Wrap32(a);
    assert 0x1_0000_0000 * q == 0x1000 * (0x10_0000 * q);
    ModShift(Wrap32(a), 0x10_0000 * q);
  }

  /** Adding a multiple of 4096 does not change an index modulo 4096. */
  lemma ModShift(a: int, m: int)
    ensures (a + 0x1000 * m) % 0x1000 == a % 0x1000
  {
  }

  /** Addition commutes with reduction modulo 4096. */
  lemma ModAdd(a: int, b: int)
    ensures (a + b) % 0x1000 == (a % 0x1000 + b % 0x1000) % 0x1000
  {
    var qa, qb := a / 0x1000, b / 0x1000;
    assert a + b == (a % 0x1000 + b % 0x1000) + 0x1000 * (qa + qb);
    ModShift(a % 0x1000 + b % 0x1000, qa + qb);
  }

  /** The source's two nested wrap-arounds vanish under the mask. */
  lemma MaskedWrapSum(a: nat, b: nat)
    ensures Masked(Wrap32(Wrap32(a) + b)) == (a + b) % 0x1000
  {
    MaskedWrap(Wrap32(a) + b);
    ModAdd(Wrap32(a), b);
    MaskedWrap(a);
    ModAdd(a, b);
  }

  /** Residue modulo 4096 of the vertical delta of `cell_math` for row step `dr`. */
  function RowResidue(dr: int): nat {
    if dr == -1 then 4032 else if dr == 1 then 64 else 0
  }

  /** Residue modulo 4096 of the horizontal delta for column step `dc` at column `col`. */
  function ColResidue(col: nat, dc: int): nat {
    if dc == -1 then (if col == 0 then 63 else 4095)
    else if dc == 1 then (if col == 63 then 4033 else 1)
    else 0
  }

  /** Both branches of each delta, reduced modulo 4096. */
  lemma DeltaResidues(offset: U32)
    ensures YUp(offset) % 0x1000 == RowResidue(-1)
    ensures YDown(offset) % 0x1000 == RowResidue(1)
    ensures XLeft(offset) % 0x1000 == ColResidue(offset % Width, -1)
    ensures XRight(offset) % 0x1000 == ColResidue(offset % Width, 1)
  {
  }

  /** The column of `offset & MASK` is the column of `offset`. */
  lemma MaskedColumn(offset: nat)
    ensures Masked(offset) % 64 == offset % 64
  {
    var q := offset / 0x1000;
    assert offset == Masked(offset) + 64 * (64 * q);
  }

  /** The vertical residue moves a row start to the wrapped row start. */
  lemma RowPart(row: nat, dr: int)
    requires row < 64 && -1 <= dr <= 1
    ensures (64 * row + RowResidue(dr)) % 0x1000 == 64 * ((row + dr) % 64)
  {
    if dr == -1 {
      if row == 0 {
        assert 64 * row + RowResidue(dr) == 64 * 63;
      } else {
        assert 64 * row + RowResidue(dr) == 64 * (row - 1) + 0x1000;
      }
    } else if dr == 1 {
      if row == 63 {
        assert 64 * row + RowResidue(dr) == 0x1000;
      } else {
        assert 64 * row + RowResidue(dr) == 64 * (row + 1);
      }
    }
  }

  /** The horizontal residue moves a column to the wrapped column. */
  lemma ColPart(col: nat, dc: int)
    requires col < 64 && -1 <= dc <= 1
    ensures (col + ColResidue(col, dc)) % 0x1000 == (col + dc) % 64
  {
  }

  /** On the board itself the residues give the toroidal neighbour. */
  lemma ResidueStep(cell: nat, k: nat)
    requires cell < CellMapSize && k < 8
    ensures (cell + RowResidue(DRow(k)) + ColResidue(cell % 64, DCol(k))) % 0x1000 == Toroidal(cell, k)
  {
    var row, col := cell / 64, cell % 64;
    assert cell == 64 * row + col;
    RowPart(row, DRow(k));
    ColPart(col, DCol(k));
    ModAdd(64 * row + RowResidue(DRow(k)), col + ColResidue(col, DCol(k)));
    assert cell + RowResidue(DRow(k)) + ColResidue(col, DCol(k))
      == (64 * row + RowResidue(DRow(k))) + (col + ColResidue(col, DCol(k)));
    var nr, nc := (row + DRow(k)) % 64, (col + DCol(k)) % 64;
    assert Toroidal(cell, k) == 64 * nr + nc;
    MaskedIndex(64 * nr + nc);
  }

  /** The vertical delta `cell_math` adds for row step `dr`. */
  function VDelta(offset: U32, dr: int): nat {
    if dr == -1 then YUp(offset) else if dr == 1 then YDown(offset) else 0
  }

  /** The horizontal delta `cell_math` adds for column step `dc`. */
  function HDelta(offset: U32, dc: int): nat {
    if dc == -1 then XLeft(offset) else if dc == 1 then XRight(offset) else 0
  }

  /** The index `cell_math` computes for slot `k`, as one exact sum of the offset and
      the chosen deltas, reduced modulo 4096. */
  lemma NeighbourIndexSum(offset: U32, k: nat)
    requires k < 8
    ensures NeighbourIndex(offset, k) == (offset + VDelta(offset, DRow(k)) + HDelta(offset, DCol(k))) % 0x1000
  {
    var e1, e2 := VDelta(offset, DRow(k)), HDelta(offset, DCol(k));
    if k == 1 || k == 6 {
      assert NeighbourIndex(offset, k) == Masked(Wrap32(offset + e1)) && e2 == 0;
      MaskedWrap(offset + e1);
    } else if k == 3 || k == 4 {
      assert NeighbourIndex(offset, k) == Masked(Wrap32(offset + e2)) && e1 == 0;
      MaskedWrap(offset + e2);
    } else {
      assert NeighbourIndex(offset, k) == Masked(Wrap32(Wrap32(offset + e1) + e2));
      MaskedWrapSum(offset + e1, e2);
    }
  }

  /** A sum may be reduced term by term modulo 4096. */
  lemma ReduceSum(a: int, b: int, c: int, ra: nat, rb: nat, rc: nat)
    requires a % 0x1000 == ra && b % 0x1000 == rb && c % 0x1000 == rc
    requires ra < 0x1000 && rb < 0x1000 && rc < 0x1000
    ensures (a + b + c) % 0x1000 == (ra + rb + rc) % 0x1000
  {
    var q := a / 0x1000 + b / 0x1000 + c / 0x1000;
    assert a + b + c == (ra + rb + rc) + 0x1000 * q;
    ModShift(ra + rb + rc, q);
  }

  /** `cell_math` updates exactly the toroidal neighbours of `offset & MASK`, for
      every 32-bit offset: the column tests pick the horizontal wrap, and both
      vertical branches are congruent modulo 4096 (`4032 == -64` and
      `-4032 == 64`), so the mask alone wraps the rows, also at `offset == 4032`
      where the `>` test keeps `ydown == 64`. */
  lemma {:induction false} NeighbourIsToroidal(offset: U32, k: nat)
    requires k < 8
    ensures NeighbourIndex(offset, k) == Toroidal(Masked(offset), k)
  {
    var cell := Masked(offset);
    var dr, dc := DRow(k), DCol(k);
    var e1, e2 := VDelta(offset, dr), HDelta(offset, dc);
    NeighbourIndexSum(offset, k);
    assert NeighbourIndex(offset, k) == (offset + e1 + e2) % 0x1000;
    DeltaResidues(offset);
    MaskedColumn(offset);
    assert e1 % 0x1000 == RowResidue(dr);
    assert e2 % 0x1000 == ColResidue(cell % 64, dc);
    ReduceSum(offset, e1, e2, cell, RowResidue(dr), ColResidue(cell % 64, dc));
    ResidueStep(cell, k);
  }

  /** The eight neighbours of a cell are pairwise distinct and differ from the cell. */
  lemma ToroidalDistinct(cell: nat, j: nat, k: nat)
    requires cell < CellMapSize && j < 8 && k < 8
    ensures Toroidal(cell, k) != cell
    ensures j != k ==> Toroidal(cell, j) != Toroidal(cell, k)
  {
    ToroidalCoords(cell, j);
    ToroidalCoords(cell, k);
    assert cell == 64 * (cell / 64) + cell % 64;
  }

  /** Two board indices are equal exactly when their rows and columns are. */
  lemma SameCell(a: nat, b: nat)
    requires a < CellMapSize && b < CellMapSize
    ensures a == b <==> a / 64 == b / 64 && a % 64 == b % 64
  {
    assert a == 64 * (a / 64) + a % 64;
    assert b == 64 * (b / 64) + b % 64;
  }

  /** One step on a circle of 64 positions, forwards or backwards. */
  lemma CircleStep(a: int, b: int, d: int)
    requires 0 <= a < 64 && 0 <= b < 64 && -1 <= d <= 1
    ensures (a + d) % 64 == b <==> (b - d) % 64 == a
  {
  }

  /** Neighbourhood is symmetric: `n` is the k-th neighbour of `cell` exactly when
      `cell` is the (7-k)-th neighbour of `n`. */
  lemma ToroidalSymmetric(cell: nat, n: nat, k: nat)
    requires cell < CellMapSize && n < CellMapSize && k < 8
    ensures Toroidal(cell, k) == n <==> Toroidal(n, 7 - k) == cell
  {
    ToroidalCoords(cell, k);
    ToroidalCoords(n, 7 - k);
    SameCell(Toroidal(cell, k), n);
    SameCell(Toroidal(n, 7 - k), cell);
    CircleStep(cell / 64, n / 64, DRow(k));
    CircleStep(cell % 64, n % 64, DCol(k));
  }

  /** 1 if the condition holds, 0 otherwise. */
  function Ind(b: bool): nat {
    if b then 1 else 0
  }

  /** The eight neighbours of `cell`, in `cell_math`'s order. */
  function Neighbours(cell: nat): (ns: seq<nat>)
    requires cell < CellMapSize
    ensures |ns| == 8
    ensures forall k :: 0 <= k < 8 ==> ns[k] < CellMapSize
  {
    [Toroidal(cell, 0), Toroidal(cell, 1), Toroidal(cell, 2), Toroidal(cell, 3),
     Toroidal(cell, 4), Toroidal(cell, 5), Toroidal(cell, 6), Toroidal(cell, 7)]
  }

  /** The eight indices `cell_math(offset, ...)` updates, in the order it writes them. */
  function CellMathIndices(offset: U32): (ns: seq<nat>)
    ensures |ns| == 8
    ensures forall k :: 0 <= k < 8 ==> ns[k] < CellMapSize
  {
    seq(8, k requires 0 <= k < 8 => NeighbourIndex(offset, k))
  }

  /** The three indices of the row above, written out as `cell_math` computes them. */
  lemma RowAboveAsWritten(offset: U32, up: U32, left: U32, right: U32)
    requires up == YUp(offset) && left == XLeft(offset) && right == XRight(offset)
    ensures CellMathIndices(offset)[0] == Masked(Wrap32(Wrap32(offset + up) + left))
    ensures CellMathIndices(offset)[1] == Masked(Wrap32(offset + up))
    ensures CellMathIndices(offset)[2] == Masked(Wrap32(Wrap32(offset + up) + right))
  {
  }

  /** The left and right indices, written out as `cell_math` computes them. */
  lemma SameRowAsWritten(offset: U32, left: U32, right: U32)
    requires left == XLeft(offset) && right == XRight(offset)
    ensures CellMathIndices(offset)[3] == Masked(Wrap32(offset + left))
    ensures CellMathIndices(offset)[4] == Masked(Wrap32(offset + right))
  {
  }

  /** The three indices of the row below, written out as `cell_math` computes them. */
  lemma RowBelowAsWritten(offset: U32, down: U32, left: U32, right: U32)
    requires down == YDown(offset) && left == XLeft(offset) && right == XRight(offset)
    ensures CellMathIndices(offset)[5] == Masked(Wrap32(Wrap32(offset + down) + left))
    ensures CellMathIndices(offset)[6] == Masked(Wrap32(offset + down))
    ensures CellMathIndices(offset)[7] == Masked(Wrap32(Wrap32(offset + down) + right))
  {
  }

  /** `cell_math` updates the toroidal neighbours of `offset & MASK`, in order. */
  lemma {:induction false} CellMathIndicesToroidal(offset: U32)
    ensures CellMathIndices(offset) == Neighbours(Masked(offset))
  {
    forall k | 0 <= k < 8
      ensures CellMathIndices(offset)[k] == Neighbours(Masked(offset))[k]
    {
      NeighbourIsToroidal(offset, k);
    }
  }

  /** The eight neighbours of a cell are eight different cells, none of them the
      cell itself. */
  lemma {:induction false} NeighboursDistinct(cell: nat)
    requires cell < CellMapSize
    ensures forall j, k :: 0 <= j < k < 8 ==> Neighbours(cell)[j] != Neighbours(cell)[k]
    ensures cell !in Neighbours(cell)
  {
    var ns := Neighbours(cell);
    forall j, k | 0 <= j < k < 8 ensures ns[j] != ns[k] {
      ToroidalDistinct(cell, j, k);
    }
    forall k | 0 <= k < 8 ensures ns[k] != cell {
      ToroidalDistinct(cell, k, k);
    }
  }

  /** How many of the eight entries of `ns` are `n`. */
  function Occurrences(ns: seq<nat>, n: nat): (h: nat)
    requires |ns| == 8
    ensures h <= 8
  {
    Ind(ns[0] == n) + Ind(ns[1] == n) + Ind(ns[2] == n) + Ind(ns[3] == n) +
    Ind(ns[4] == n) + Ind(ns[5] == n) + Ind(ns[6] == n) + Ind(ns[7] == n)
  }

  /** How many of `cell`'s eight neighbour slots are `n`. */
  function Hits(cell: nat, n: nat): (h: nat)
    requires cell < CellMapSize
  {
    Occurrences(Neighbours(cell), n)
  }

  /** `n` is one of the eight neighbours of `cell`. */
  predicate IsNeighbour(cell: nat, n: nat)
    requires cell < CellMapSize
  {
    n in Neighbours(cell)
  }

  /** Counting in two eight-entry lists that are reverses of each other with
      respect to `x` and `y`; the first has distinct entries, none equal to `x`. */
  lemma OccurrencesFacts(a: seq<nat>, b: seq<nat>, x: nat, y: nat)
    requires |a| == 8 && |b| == 8
    requires forall k :: 0 <= k < 8 ==> (a[k] == y <==> b[7 - k] == x)
    requires forall j, k :: 0 <= j < k < 8 ==> a[j] != a[k]
    requires x !in a
    ensures Occurrences(a, y) == Occurrences(b, x)
    ensures Occurrences(a, y) == Ind(y in a)
    ensures Occurrences(a, x) == 0
  {
  }

  /** A cell appears at most once among another cell's neighbours, never among its
      own, and the relation is symmetric. */
  lemma {:induction false} HitsFacts(cell: nat, n: nat)
    requires cell < CellMapSize && n < CellMapSize
    ensures Hits(cell, n) == Hits(n, cell)
    ensures Hits(cell, n) == Ind(IsNeighbour(cell, n))
    ensures Hits(cell, cell) == 0
  {
    var a, b := Neighbours(cell), Neighbours(n);
    NeighboursDistinct(cell);
    forall k | 0 <= k < 8
      ensures a[k] == n <==> b[7 - k] == cell
    {
      ToroidalSymmetric(cell, n, k);
    }
    OccurrencesFacts(a, b, cell, n);
  }
}
