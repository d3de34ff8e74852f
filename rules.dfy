/** The rule step that advances one generation, and its iteration. */
module Rules {
  import opened Grids

  /** Rule 1 mask: a live cell with fewer than two or more than three live neighbours dies. */
  function DiesMask(v: int, neighbours: int): (dies: bool)
    ensures dies <==> v == 1 && StandardRule(v, neighbours) == 0
  {
    (neighbours < 2 || neighbours > 3) && v == 1
  }

  /** Rule 2 mask: a live cell with two or three live neighbours lives on. */
  function SurvivesMask(v: int, neighbours: int): (survives: bool)
    ensures survives <==> v == 1 && StandardRule(v, neighbours) == 1
  {
    (neighbours == 2 || neighbours == 3) && v == 1
  }

  /** Rule 3 mask: a dead cell with exactly three live neighbours becomes alive. */
  function BirthMask(v: int, neighbours: int): (born: bool)
    ensures born <==> v == 0 && StandardRule(v, neighbours) == 1
  {
    neighbours == 3 && v == 0
  }

  /** One cell of compute_next_state: the cell is copied, then the three masks overwrite it in order. */
  function NextCell(v: int, neighbours: int): (next: int)
    ensures next == v || next == 0 || next == 1
    ensures (v == 0 || v == 1) ==> (next == 1 <==> StandardRule(v, neighbours) == 1)
  {
    var afterDeaths := if DiesMask(v, neighbours) then 0 else v;
    var afterSurvival := if SurvivesMask(v, neighbours) then 1 else afterDeaths;
    if BirthMask(v, neighbours) then 1 else afterSurvival
  }

  /** The standard form of the rules: alive next exactly when alive with 2 or 3 live neighbours,
      or dead with exactly 3; dead otherwise. */
  function StandardRule(v: int, neighbours: int): (next: int) {
    if (v == 1 && (neighbours == 2 || neighbours == 3)) || (v == 0 && neighbours == 3) then 1 else 0
  }

  /** On a live or dead cell at most one mask applies, and the masked-overwrite sequence is the standard form. */
  lemma NextCellIsStandardRule(v: int, neighbours: int)
    requires v == 0 || v == 1
    ensures !(DiesMask(v, neighbours) && SurvivesMask(v, neighbours))
    ensures !(DiesMask(v, neighbours) && BirthMask(v, neighbours))
    ensures !(SurvivesMask(v, neighbours) && BirthMask(v, neighbours))
    ensures NextCell(v, neighbours) == StandardRule(v, neighbours)
  {
  }

  /** No mask selects a cell holding anything but 0 or 1, so such a cell keeps its copied value. */
  lemma NextCellKeepsOtherValues(v: int, neighbours: int)
    requires v != 0 && v != 1
    ensures NextCell(v, neighbours) == v
  {
  }

  /** neighbours is a matrix of the same shape as state. */
  predicate SameShape(state: Grid, neighbours: Grid) {
    |neighbours| == |state| && forall r :: 0 <= r < |state| ==> |neighbours[r]| == |state[r]|
  }

  /** The masked-overwrite sequence applied to every cell of one row. */
  function NextRow(row: Row, counts: Row): (next: Row)
    requires |counts| == |row|
    ensures |next| == |row|
    decreases |row|
  {
    if row == [] then [] else [NextCell(row[0], counts[0])] + NextRow(row[1..], counts[1..])
  }

  /** The rows after the first of two grids of the same shape have the same shape. */
  lemma SameShapeTail(state: Grid, neighbours: Grid)
    requires SameShape(state, neighbours) && state != []
    ensures SameShape(state[1..], neighbours[1..])
  {
    forall r | 0 <= r < |state| - 1 ensures |neighbours[1..][r]| == |state[1..][r]| {
      assert neighbours[1..][r] == neighbours[r + 1] && state[1..][r] == state[r + 1];
    }
  }

  /** compute_next_state: a new grid of the input's shape, row by row; the input is a value and stays as it was. */
  function NextState(state: Grid, neighbours: Grid): (next: Grid)
    requires SameShape(state, neighbours)
    ensures SameShape(state, next)
    decreases |state|
  {
    if state == [] then []
    else
      SameShapeTail(state, neighbours);
      [NextRow(state[0], neighbours[0])] + NextState(state[1..], neighbours[1..])
  }

  /** Cell c of NextRow is the masked-overwrite sequence applied to cell c. */
  lemma {:induction false} NextRowAt(row: Row, counts: Row, c: nat)
    requires |counts| == |row| && c < |row|
    ensures NextRow(row, counts)[c] == NextCell(row[c], counts[c])
    decreases c
  {
    if c > 0 {
      NextRowAt(row[1..], counts[1..], c - 1);
    }
  }

  /** Each cell of the next state is the masked-overwrite sequence applied to that cell. */
  lemma {:induction false} NextStateAt(state: Grid, neighbours: Grid, r: nat, c: nat)
    requires SameShape(state, neighbours) && r < |state| && c < |state[r]|
    ensures NextState(state, neighbours)[r][c] == NextCell(state[r][c], neighbours[r][c])
    decreases r
  {
    if r == 0 {
      NextRowAt(state[0], neighbours[0], c);
    } else {
      SameShapeTail(state, neighbours);
      assert state[1..][r - 1] == state[r] && neighbours[1..][r - 1] == neighbours[r];
      NextStateAt(state[1..], neighbours[1..], r - 1, c);
    }
  }

  /** For a 0/1 input each cell of the next state is 1 exactly when the standard rules say so, and 0 otherwise. */
  lemma NextStateIsStandard(state: Grid, neighbours: Grid)
    requires SameShape(state, neighbours) && IsBinary(state)
    ensures forall r, c :: 0 <= r < |state| && 0 <= c < |state[r]| ==>
      NextState(state, neighbours)[r][c] == StandardRule(state[r][c], neighbours[r][c])
  {
    forall r, c | 0 <= r < |state| && 0 <= c < |state[r]|
      ensures NextState(state, neighbours)[r][c] == StandardRule(state[r][c], neighbours[r][c])
    {
      NextStateAt(state, neighbours, r, c);
      NextCellIsStandardRule(state[r][c], neighbours[r][c]);
    }
  }

  /** The output contains only 0/1 values whenever the input does. */
  lemma NextStateIsBinary(state: Grid, neighbours: Grid)
    requires SameShape(state, neighbours) && IsBinary(state)
    ensures IsBinary(NextState(state, neighbours))
  {
    NextStateIsStandard(state, neighbours);
  }

  /** One generation of the runner: neighbour counts, then the next state. */
  function Step(g: Grid): (next: Grid)
    ensures SameShape(g, next)
  {
    NextState(g, SumNeighbours(g))
  }

  /** A step keeps the shape and the 0/1 values of a grid. */
  lemma StepKeepsValues(g: Grid)
    requires IsBinary(g)
    ensures SameShape(g, Step(g)) && IsBinary(Step(g))
  {
    NextStateIsBinary(g, SumNeighbours(g));
  }

  /** A step decides every cell of a 0/1 grid by the standard rules on its neighbour count. */
  lemma StepAt(g: Grid, r: int, c: int)
    requires IsBinary(g) && 0 <= r < |g| && 0 <= c < |g[r]|
    ensures Step(g)[r][c] == StandardRule(g[r][c], NeighbourCount(g, r, c))
  {
    var counts := SumNeighbours(g);
    NextStateAt(g, counts, r, c);
    SumNeighboursAt(g, r, c);
    NextCellIsStandardRule(g[r][c], counts[r][c]);
  }

  /** The rule step applied k times; every iterate has the shape of the start. */
  function Iterate(g: Grid, k: nat): (h: Grid)
    ensures SameShape(g, h)
  {
    if k == 0 then g else Step(Iterate(g, k - 1))
  }

  /** Every iterate of a 0/1 grid is a 0/1 grid. */
  lemma {:induction false} IterateIsBinary(g: Grid, k: nat)
    requires IsBinary(g)
    ensures IsBinary(Iterate(g, k))
  {
    if k == 0 {
      assert Iterate(g, k) == g;
    } else {
      IterateIsBinary(g, k - 1);
      IterateStepKeepsValues(g, k);
    }
  }

  /** One more step keeps the 0/1 values of an iterate. */
  lemma IterateStepKeepsValues(g: Grid, k: nat)
    requires k > 0
    ensures IsBinary(Iterate(g, k - 1)) ==> IsBinary(Iterate(g, k))
  {
    if IsBinary(Iterate(g, k - 1)) {
      StepKeepsValues(Iterate(g, k - 1));
    }
  }

  /** Iterating a + b times is iterating a times and then b times. */
  lemma {:induction false} IterateAdd(g: Grid, a: nat, b: nat)
    ensures Iterate(g, a + b) == Iterate(Iterate(g, a), b)
  {
    if b > 0 {
      IterateAdd(g, a, b - 1);
      assert Iterate(g, a + b) == Step(Iterate(g, a + b - 1));
    }
  }

  /** A still life (a grid the step leaves as it is) is unchanged after any number of steps. */
  lemma {:induction false} StillLifeStaysStill(g: Grid, k: nat)
    requires Step(g) == g
    ensures Iterate(g, k) == g
  {
    if k > 0 {
      StillLifeStaysStill(g, k - 1);
      assert Iterate(g, k) == Step(Iterate(g, k - 1));
    }
  }
}
