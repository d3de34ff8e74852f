/** Known patterns under the rule step. */
module Patterns {
  import opened Grids
  import opened Rules

  /** A 2 x 2 block of live cells filling a 2 x 2 board; the padding around it is dead. */
  const Block: Grid := [[1, 1], [1, 1]]

  /** Every cell of the block sees the three others. */
  const BlockCounts: Grid := [[3, 3], [3, 3]]

  /** The neighbour counts of the block, row by row. */
  lemma BlockNeighbours()
    ensures SumNeighbours(Block) == BlockCounts
  {
    assert CountRow(Block, 0, 0) == BlockCounts[0];
    assert CountRow(Block, 1, 0) == BlockCounts[1];
    assert CountRows(Block, 1) == [BlockCounts[1]];
  }

  /** The rule step keeps every row of the block as it is. */
  lemma BlockNextState()
    ensures SameShape(Block, BlockCounts)
    ensures NextState(Block, BlockCounts) == Block
  {
    assert SameShape(Block, BlockCounts);
    assert NextRow(Block[0], BlockCounts[0]) == Block[0];
    assert NextRow(Block[1], BlockCounts[1]) == Block[1];
    assert NextState(Block[1..], BlockCounts[1..]) == Block[1..];
  }

  /** One step leaves the block as it is. */
  lemma BlockStep()
    ensures Step(Block) == Block
  {
    BlockNeighbours();
    BlockNextState();
  }

  /** The block is a still life: it is unchanged after any number of steps. */
  lemma BlockIsStill(k: nat)
    ensures Iterate(Block, k) == Block
  {
    BlockStep();
    StillLifeStaysStill(Block, k);
  }

  /** A live cell alone on a 1 x 1 board, and the board after it died. */
  const Lone: Grid := [[1]]
  const Dead: Grid := [[0]]

  /** The lone cell has no neighbours: its only count is 0. */
  lemma LoneNeighbours()
    ensures SumNeighbours(Lone) == Dead
  {
    assert CountRow(Lone, 0, 0) == Dead[0];
  }

  /** With no neighbours the live cell dies of underpopulation. */
  lemma LoneNextState()
    ensures SameShape(Lone, Dead)
    ensures NextState(Lone, Dead) == Dead
  {
    assert SameShape(Lone, Dead);
    assert NextRow(Lone[0], Dead[0]) == Dead[0];
  }

  /** One step empties the 1 x 1 board. */
  lemma LoneCellDies()
    ensures Step(Lone) == Dead
  {
    LoneNeighbours();
    LoneNextState();
  }
}
