/** Grids of cells and the neighbour count of every cell. */
module Grids {

  /** One row of a generation; a cell holds 0 (dead) or 1 (alive). */
  type Row = seq<int>
  /** One generation (or a matrix of neighbour counts), row by row. */
  type Grid = seq<Row>

  /** g has exactly n rows of exactly m cells each. */
  predicate HasShape(g: Grid, n: int, m: int) {
    |g| == n && forall r :: 0 <= r < |g| ==> |g[r]| == m
  }

  /** Every cell of g is 0 or 1. */
  predicate IsBinary(g: Grid) {
    forall r, c :: 0 <= r < |g| && 0 <= c < |g[r]| ==> g[r][c] == 0 || g[r][c] == 1
  }

  /** The number of columns of g as its first row tells it (0 for a grid without rows). */
  function Width(g: Grid): nat {
    if |g| == 0 then 0 else |g[0]|
  }

  /** The n x m grid of zeros that the history buffer starts as. */
  function Zeros(n: nat, m: nat): (g: Grid)
    ensures HasShape(g, n, m) && IsBinary(g)
    ensures forall r, c :: 0 <= r < n && 0 <= c < m ==> g[r][c] == 0
  {
    seq(n, _ => seq(m, _ => 0))
  }

  /** The n x m grid of live cells. */
  function Ones(n: nat, m: nat): (g: Grid)
    ensures HasShape(g, n, m) && IsBinary(g)
    ensures forall r, c :: 0 <= r < n && 0 <= c < m ==> g[r][c] == 1
  {
    seq(n, _ => seq(m, _ => 1))
  }

  /** Cell (r, c) of g with zero padding: a position outside the grid reads as dead. */
  function Cell(g: Grid, r: int, c: int): (v: int) {
    if 0 <= r < |g| && 0 <= c < |g[r]| then g[r][c] else 0
  }

  /** The sum of the 8 Moore neighbours of (r, c), each bounds-checked. */
  function NeighbourCount(g: Grid, r: int, c: int): (count: int) {
    Cell(g, r - 1, c - 1) + Cell(g, r - 1, c) + Cell(g, r - 1, c + 1) +
    Cell(g, r, c - 1)                         + Cell(g, r, c + 1) +
    Cell(g, r + 1, c - 1) + Cell(g, r + 1, c) + Cell(g, r + 1, c + 1)
  }

  /** The zero padding of "same" mode: a position off the grid reads as dead, and a cell of a 0/1
      grid is 0 or 1. */
  lemma CellValues(g: Grid, r: int, c: int)
    ensures !(0 <= r < |g| && 0 <= c < |g[r]|) ==> Cell(g, r, c) == 0
    ensures IsBinary(g) ==> Cell(g, r, c) == 0 || Cell(g, r, c) == 1
  {
  }

  /** On a 0/1 grid the neighbour count of any position lies in [0, 8]. */
  lemma NeighbourCountRange(g: Grid, r: int, c: int)
    requires IsBinary(g)
    ensures 0 <= NeighbourCount(g, r, c) <= 8
  {
  }

  /** The neighbour counts of cells c.. of row r. */
  function CountRow(g: Grid, r: int, c: nat): (counts: Row)
    requires 0 <= r < |g| && c <= |g[r]|
    ensures |counts| == |g[r]| - c
    decreases |g[r]| - c
  {
    if c == |g[r]| then [] else [NeighbourCount(g, r, c)] + CountRow(g, r, c + 1)
  }

  /** The neighbour counts of rows r.. of g. */
  function CountRows(g: Grid, r: nat): (counts: Grid)
    requires r <= |g|
    ensures |counts| == |g| - r
    ensures forall i :: 0 <= i < |counts| ==> |counts[i]| == |g[r + i]|
    decreases |g| - r
  {
    if r == |g| then [] else [CountRow(g, r, 0)] + CountRows(g, r + 1)
  }

  /** compute_sum_neighbours: the neighbour counts of every cell, in a grid of the input's shape. */
  function SumNeighbours(g: Grid): (counts: Grid)
    ensures |counts| == |g|
    ensures forall r :: 0 <= r < |g| ==> |counts[r]| == |g[r]|
  {
    CountRows(g, 0)
  }

  /** Entry j of CountRow is the count of cell c + j. */
  lemma {:induction false} CountRowAt(g: Grid, r: int, c: nat, j: nat)
    requires 0 <= r < |g| && c + j < |g[r]|
    ensures CountRow(g, r, c)[j] == NeighbourCount(g, r, c + j)
    decreases j
  {
    if j > 0 {
      CountRowAt(g, r, c + 1, j - 1);
    }
  }

  /** Row i of CountRows is the count row of row r + i. */
  lemma {:induction false} CountRowsAt(g: Grid, r: nat, i: nat)
    requires r + i < |g|
    ensures CountRows(g, r)[i] == CountRow(g, r + i, 0)
    decreases i
  {
    if i > 0 {
      CountRowsAt(g, r + 1, i - 1);
    }
  }

  /** Each entry of SumNeighbours is the bounds-checked neighbour sum of that cell. */
  lemma SumNeighboursAt(g: Grid, r: int, c: int)
    requires 0 <= r < |g| && 0 <= c < |g[r]|
    ensures SumNeighbours(g)[r][c] == NeighbourCount(g, r, c)
  {
    CountRowsAt(g, 0, r);
    var counts := CountRow(g, r, 0);
    assert SumNeighbours(g)[r] == counts;
    CountRowAt(g, r, 0, c);
  }

  /** For a 0/1 grid every neighbour count lies in [0, 8]. */
  lemma NeighbourCountBounds(g: Grid)
    requires IsBinary(g)
    ensures forall r, c :: 0 <= r < |g| && 0 <= c < |g[r]| ==> 0 <= SumNeighbours(g)[r][c] <= 8
  {
    forall r, c | 0 <= r < |g| && 0 <= c < |g[r]|
      ensures 0 <= SumNeighbours(g)[r][c] <= 8
    {
      SumNeighboursAt(g, r, c);
      NeighbourCountRange(g, r, c);
    }
  }

  /** Cells outside the grid contribute nothing: the count of a 0/1 cell never exceeds the number of
      its neighbours that lie inside the grid, which is the count on the all-alive grid of that shape. */
  lemma NeighbourCountAtMostInside(g: Grid, n: nat, m: nat, r: int, c: int)
    requires HasShape(g, n, m) && IsBinary(g)
    ensures 0 <= NeighbourCount(g, r, c) <= NeighbourCount(Ones(n, m), r, c)
  {
  }

  /** A corner cell of a 0/1 grid has at most 3 live neighbours. */
  lemma CornerCountAtMostThree(g: Grid, n: nat, m: nat)
    requires HasShape(g, n, m) && IsBinary(g) && n > 0 && m > 0
    ensures NeighbourCount(g, 0, 0) <= 3
    ensures NeighbourCount(g, 0, m - 1) <= 3
    ensures NeighbourCount(g, n - 1, 0) <= 3
    ensures NeighbourCount(g, n - 1, m - 1) <= 3
  {
    NeighbourCountAtMostInside(g, n, m, 0, 0);
    NeighbourCountAtMostInside(g, n, m, 0, m - 1);
    NeighbourCountAtMostInside(g, n, m, n - 1, 0);
    NeighbourCountAtMostInside(g, n, m, n - 1, m - 1);
  }

  /** The single cell of a 1 x 1 grid has no neighbours, whatever it holds. */
  lemma SingleCellCountsZero(g: Grid)
    requires HasShape(g, 1, 1)
    ensures SumNeighbours(g) == [[0]]
  {
    SumNeighboursAt(g, 0, 0);
    assert SumNeighbours(g)[0][0] == NeighbourCount(g, 0, 0) == 0;
    assert SumNeighbours(g)[0] == [0];
  }

  // ---------------------------------------------------------------------------------------------
  // The reference the neighbour sum replaces: scipy's convolve2d(state, kernel, mode="same") with
  // the default zero fill, written for a 3 x 3 kernel.  Entry (r, c) of the "same" output is entry
  // (r + 1, c + 1) of the full convolution, i.e. the sum over kernel positions (a, b) of
  // kernel[a][b] * state[r + 1 - a][c + 1 - b].

  /** The kernel of the source: all ones with a zero centre. */
  const MooreKernel: Grid := [[1, 1, 1], [1, 0, 1], [1, 1, 1]]

  /** Convolution terms of kernel row a, from column b on. */
  function ConvolveRow(g: Grid, kernel: Grid, r: int, c: int, a: nat, b: nat): int
    requires HasShape(kernel, 3, 3) && a < 3 && b <= 3
    decreases 3 - b
  {
    if b == 3 then 0
    else kernel[a][b] * Cell(g, r + 1 - a, c + 1 - b) + ConvolveRow(g, kernel, r, c, a, b + 1)
  }

  /** Convolution terms of kernel rows a.. 2. */
  function ConvolveRows(g: Grid, kernel: Grid, r: int, c: int, a: nat): int
    requires HasShape(kernel, 3, 3) && a <= 3
    decreases 3 - a
  {
    if a == 3 then 0 else ConvolveRow(g, kernel, r, c, a, 0) + ConvolveRows(g, kernel, r, c, a + 1)
  }

  /** convolve2d(g, kernel, mode="same") with zero fill: output of the input's shape. */
  function ConvolveSame(g: Grid, kernel: Grid): (out: Grid)
    requires HasShape(kernel, 3, 3)
    ensures |out| == |g| && forall r :: 0 <= r < |g| ==> |out[r]| == |g[r]|
  {
    seq(|g|, r requires 0 <= r < |g| => seq(|g[r]|, c => ConvolveRows(g, kernel, r, c, 0)))
  }

  /** Correlation terms of kernel row a, from column b on (the kernel is not flipped). */
  function CorrelateRow(g: Grid, kernel: Grid, r: int, c: int, a: nat, b: nat): int
    requires HasShape(kernel, 3, 3) && a < 3 && b <= 3
    decreases 3 - b
  {
    if b == 3 then 0
    else kernel[a][b] * Cell(g, r - 1 + a, c - 1 + b) + CorrelateRow(g, kernel, r, c, a, b + 1)
  }

  /** Correlation terms of kernel rows a.. 2. */
  function CorrelateRows(g: Grid, kernel: Grid, r: int, c: int, a: nat): int
    requires HasShape(kernel, 3, 3) && a <= 3
    decreases 3 - a
  {
    if a == 3 then 0 else CorrelateRow(g, kernel, r, c, a, 0) + CorrelateRows(g, kernel, r, c, a + 1)
  }

  /** kernel reads the same after a half-turn. */
  predicate PointSymmetric(kernel: Grid)
    requires HasShape(kernel, 3, 3)
  {
    && kernel[0][0] == kernel[2][2] && kernel[0][1] == kernel[2][1] && kernel[0][2] == kernel[2][0]
    && kernel[1][0] == kernel[1][2]
  }

  /** The nine terms of ConvolveRows, written out. */
  lemma ConvolveRowsExpanded(g: Grid, k: Grid, r: int, c: int)
    requires HasShape(k, 3, 3)
    ensures ConvolveRows(g, k, r, c, 0) ==
      k[0][0] * Cell(g, r + 1, c + 1) + k[0][1] * Cell(g, r + 1, c) + k[0][2] * Cell(g, r + 1, c - 1) +
      k[1][0] * Cell(g, r, c + 1)     + k[1][1] * Cell(g, r, c)     + k[1][2] * Cell(g, r, c - 1) +
      k[2][0] * Cell(g, r - 1, c + 1) + k[2][1] * Cell(g, r - 1, c) + k[2][2] * Cell(g, r - 1, c - 1)
  {
    assert ConvolveRow(g, k, r, c, 0, 1) ==
      k[0][1] * Cell(g, r + 1, c) + k[0][2] * Cell(g, r + 1, c - 1);
    assert ConvolveRow(g, k, r, c, 1, 1) ==
      k[1][1] * Cell(g, r, c) + k[1][2] * Cell(g, r, c - 1);
    assert ConvolveRow(g, k, r, c, 2, 1) ==
      k[2][1] * Cell(g, r - 1, c) + k[2][2] * Cell(g, r - 1, c - 1);
    assert ConvolveRows(g, k, r, c, 2) == ConvolveRow(g, k, r, c, 2, 0);
  }

  /** The nine terms of CorrelateRows, written out. */
  lemma CorrelateRowsExpanded(g: Grid, k: Grid, r: int, c: int)
    requires HasShape(k, 3, 3)
    ensures CorrelateRows(g, k, r, c, 0) ==
      k[0][0] * Cell(g, r - 1, c - 1) + k[0][1] * Cell(g, r - 1, c) + k[0][2] * Cell(g, r - 1, c + 1) +
      k[1][0] * Cell(g, r, c - 1)     + k[1][1] * Cell(g, r, c)     + k[1][2] * Cell(g, r, c + 1) +
      k[2][0] * Cell(g, r + 1, c - 1) + k[2][1] * Cell(g, r + 1, c) + k[2][2] * Cell(g, r + 1, c + 1)
  {
    assert CorrelateRow(g, k, r, c, 0, 1) ==
      k[0][1] * Cell(g, r - 1, c) + k[0][2] * Cell(g, r - 1, c + 1);
    assert CorrelateRow(g, k, r, c, 1, 1) ==
      k[1][1] * Cell(g, r, c) + k[1][2] * Cell(g, r, c + 1);
    assert CorrelateRow(g, k, r, c, 2, 1) ==
      k[2][1] * Cell(g, r + 1, c) + k[2][2] * Cell(g, r + 1, c + 1);
    assert CorrelateRows(g, k, r, c, 2) == CorrelateRow(g, k, r, c, 2, 0);
  }

  /** For a point-symmetric kernel, convolution and correlation agree at every position. */
  lemma SymmetricKernelConvolutionIsCorrelation(g: Grid, kernel: Grid, r: int, c: int)
    requires HasShape(kernel, 3, 3) && PointSymmetric(kernel)
    ensures ConvolveRows(g, kernel, r, c, 0) == CorrelateRows(g, kernel, r, c, 0)
  {
    ConvolveRowsExpanded(g, kernel, r, c);
    CorrelateRowsExpanded(g, kernel, r, c);
  }

  /** At one cell, the explicit bounds-checked sum is the convolution with the Moore kernel. */
  lemma NeighbourCountIsConvolution(g: Grid, r: int, c: int)
    ensures HasShape(MooreKernel, 3, 3)
    ensures NeighbourCount(g, r, c) == ConvolveRows(g, MooreKernel, r, c, 0)
  {
    assert HasShape(MooreKernel, 3, 3);
    ConvolveRowsExpanded(g, MooreKernel, r, c);
  }

  /** compute_sum_neighbours as written (a zero-padded "same" convolution with the Moore kernel)
      and the explicit bounds-checked sum agree on every grid. */
  lemma NeighbourSumIsConvolution(g: Grid)
    ensures HasShape(MooreKernel, 3, 3)
    ensures SumNeighbours(g) == ConvolveSame(g, MooreKernel)
  {
    assert HasShape(MooreKernel, 3, 3);
    var sums, conv := SumNeighbours(g), ConvolveSame(g, MooreKernel);
    forall r | 0 <= r < |g|
      ensures sums[r] == conv[r]
    {
      forall c | 0 <= c < |g[r]|
        ensures sums[r][c] == conv[r][c]
      {
        SumNeighboursAt(g, r, c);
        NeighbourCountIsConvolution(g, r, c);
      }
    }
  }
}
