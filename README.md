# Game of Life engine

A Dafny model of the `GameOfLife` class in `gameoflife.py`. The engine holds an N x M board of
dead (0) and alive (1) cells. It resolves the initial state, which is either a grid supplied by the
caller or a seeded random 0/1 grid. `simulate` runs `n_steps` generations into a history buffer
and marks the run finished. `save_as_txt` exports that buffer as `n_steps * N` rows of `M` values.
`load_from_txt` cuts such rows back into `n_steps` grids.

Modules, one per part of the engine:

- `Outcomes`: the exceptions the engine raises, as a `Result` datatype, and `Option` for the
  optional initial state.
- `Grids`: grids as sequences of rows. `compute_sum_neighbours` is modelled as the zero-padded sum
  of the eight Moore neighbours of every cell. Beside it is the "same"-mode 2-D convolution with a
  3 x 3 kernel (`ConvolveSame`), which the neighbour sum is proved equal to when the kernel is
  `[[1,1,1],[1,0,1],[1,1,1]]`.
- `Rules`: `compute_next_state` as the copy followed by the three masked overwrites, applied in
  the source's order. Also here: the proof that this equals the usual two-rule form of the game
  (birth on 3, survival on 2 or 3), one generation (`Step`), and its iteration (`Iterate`).
- `Patterns`: the block still life and a lone cell dying, worked through the model.
- `History`: the flattening that `save_as_txt` writes and the cutting that `load_from_txt`
  performs, their round trip, and the as-written loader.
- `Engine`: `get_initial_state`, and the class `GameOfLife`. Its `nSteps`, `n`, `m`, initial state
  and history array are fixed at construction (Python never rebinds them). `isFinished` is the only
  field that is reassigned. `Simulate` writes the history array in a loop and is proved to leave
  `states[k] == Iterate(initialState, k + 1)`.

A step count that does not divide the row count makes `reshape` raise `ValueError`, because the
element count then differs from `n_steps * (rows // n_steps) * M` (`InvalidReshape`). A wrong step
count that does divide it is accepted silently (`History.WrongStepCountIsSilent`).

## Model

| member | source | states |
|---|---|---|
| Grids.Zeros | gameoflife.py:23 | the history buffer's starting grids have shape N x M and hold only zeros |
| Grids.CellValues | gameoflife.py:30 | the zero padding of "same" mode (Grids.Cell): a position off the board reads as 0, and a cell of a 0/1 board is 0 or 1 |
| Grids.NeighbourCountRange | gameoflife.py:27-30 | the sum of the eight bounds-checked neighbours (Grids.NeighbourCount) lies in [0, 8] at any position of a 0/1 board |
| Grids.SumNeighbours | gameoflife.py:27-30 | the neighbour-count matrix has the shape of the state |
| Grids.SumNeighboursAt | gameoflife.py:27-30 | each entry of the count matrix is the zero-padded sum of the eight cells around that position |
| Grids.NeighbourCountBounds | gameoflife.py:27-30 | for a 0/1 state every neighbour count lies in [0, 8] |
| Grids.NeighbourCountAtMostInside | gameoflife.py:29-30 | a 0/1 cell's count never exceeds the number of its neighbours that lie inside the board |
| Grids.CornerCountAtMostThree | gameoflife.py:29-30 | a corner cell of a 0/1 board has at most 3 live neighbours |
| Grids.SingleCellCountsZero | gameoflife.py:29-30 | on a 1 x 1 board the only count is 0, since the padding is dead |
| Grids.ConvolveSame | gameoflife.py:30 | "same"-mode 2-D convolution keeps the input's shape |
| Grids.SymmetricKernelConvolutionIsCorrelation | gameoflife.py:29-30 | with a point-symmetric 3 x 3 kernel, flipping the kernel in the convolution changes nothing |
| Grids.NeighbourCountIsConvolution | gameoflife.py:29-30 | convolving with the kernel [[1,1,1],[1,0,1],[1,1,1]] at one cell gives its neighbour count |
| Grids.NeighbourSumIsConvolution | gameoflife.py:27-30 | the whole neighbour-count matrix equals the "same"-mode convolution with that kernel |
| Rules.DiesMask | gameoflife.py:38 | mask_rule_1 selects exactly the live cells that the standard rule kills |
| Rules.SurvivesMask | gameoflife.py:40 | mask_rule_2 selects exactly the live cells that the standard rule keeps alive |
| Rules.BirthMask | gameoflife.py:42 | mask_rule_3 selects exactly the dead cells that the standard rule brings to life |
| Rules.NextCell | gameoflife.py:35-46 | a cell after the copy and the three overwrites is its copied value, 0 or 1; for a 0/1 cell it is 1 exactly when the standard rule says so |
| Rules.NextCellIsStandardRule | gameoflife.py:36-46 | on a 0/1 cell the three masks are pairwise exclusive, and copy-then-overwrite gives 1 exactly for a live cell with 2 or 3 neighbours or a dead cell with 3, else 0 |
| Rules.NextCellKeepsOtherValues | gameoflife.py:38-46 | no mask selects a cell whose value is neither 0 nor 1, so such a cell keeps its copied value |
| Rules.NextState | gameoflife.py:33-47 | the next state is a new grid with the input's shape; the input is a value and stays as it was |
| Rules.NextStateAt | gameoflife.py:35-46 | each cell of the next state is the copied cell after the three masked overwrites in order |
| Rules.NextStateIsStandard | gameoflife.py:33-47 | for a 0/1 state every cell of the next state follows the standard birth/survival rule |
| Rules.NextStateIsBinary | gameoflife.py:33-47 | a 0/1 state has a 0/1 next state |
| Rules.Step | gameoflife.py:68-69 | one generation (counts, then next state) keeps the shape of the board |
| Rules.StepKeepsValues | gameoflife.py:68-69 | one generation keeps the shape and the 0/1 values of the board |
| Rules.StepAt | gameoflife.py:68-69 | one generation decides each cell by the standard rule on its bounds-checked neighbour count |
| Rules.Iterate | gameoflife.py:65-70 | every generation has the shape of the initial state |
| Rules.IterateIsBinary | gameoflife.py:65-70 | every generation of a 0/1 board is a 0/1 board |
| Rules.IterateAdd | gameoflife.py:67-70 | running a + b generations is running a and then b more |
| Rules.StillLifeStaysStill | gameoflife.py:67-70 | a board that one generation leaves unchanged is unchanged after any number of generations |
| Patterns.BlockNeighbours | gameoflife.py:27-30 | every cell of a 2 x 2 board of live cells has exactly 3 live neighbours |
| Patterns.BlockNextState | gameoflife.py:33-47 | with those counts the rules keep every cell of the block alive |
| Patterns.BlockStep | gameoflife.py:68-69 | one generation leaves the block as it is |
| Patterns.BlockIsStill | gameoflife.py:62-71 | the block is a still life: every generation equals it |
| Patterns.LoneNeighbours | gameoflife.py:27-30 | the cell of a 1 x 1 board has no neighbours |
| Patterns.LoneNextState | gameoflife.py:36-46 | with no neighbours a live cell dies of underpopulation |
| Patterns.LoneCellDies | gameoflife.py:62-71 | one generation empties a 1 x 1 board holding a live cell |
| History.Flatten | gameoflife.py:79 | reshape(-1, M): the grids' rows stacked in step order; its length and row-index facts are stated by FlattenLength and FlattenAt |
| History.FlattenLength | gameoflife.py:79 | a history of k grids of N rows flattens to k * N rows |
| History.FlattenAt | gameoflife.py:79 | row s * N + r of the flattened buffer is row r of step s |
| History.FlattenRowsHaveWidth | gameoflife.py:79 | every flattened row has M values |
| History.Chunks | gameoflife.py:86-87 | cutting k * per rows gives k grids of per rows each |
| History.LoadFromTxt | gameoflife.py:83-88 | the corrected loader, reading the file as two-dimensional (ndmin = 2): the restore succeeds exactly when n_steps > 0 and divides the row count; n_steps = 0 is the division by zero, a non-dividing count the reshape error; on success there are n_steps grids of rows // n_steps rows |
| History.FlattenChunks | gameoflife.py:86-87 | stacking the cut blocks again gives back the rows |
| History.ChunksFlatten | gameoflife.py:79-87 | cutting a flattened history with its own step count gives it back |
| History.RoundTrip | gameoflife.py:79-87 | saving a history of n_steps > 0 grids and loading it with the same n_steps reproduces it |
| History.LoadFromTxtInverse | gameoflife.py:83-88 | every successful restore flattens back to the file's rows |
| History.LoadFromTxtAt | gameoflife.py:86-87 | grid s, row r of a restore is file row s * (rows // n_steps) + r |
| History.WrongStepCountIsSilent | gameoflife.py:83-88 | two steps of two rows loaded with n_steps = 4 give four one-row grids, with no error |
| History.LoadFromTxtAsWritten | gameoflife.py:85-87 | with loadtxt's squeezing and left-to-right evaluation: a single-value file fails on shape[0]; otherwise n_steps = 0 raises the division by zero; otherwise a file of at most one line, or of one column, fails on shape[1]; any other file is restored as by LoadFromTxt |
| History.AsWrittenZeroStepsOrder | gameoflife.py:86-87 | with n_steps = 0 a one-column, a one-line and an empty file raise the division by zero before shape[1] is read; a single-value file fails on shape[0] first |
| History.AsWrittenRoundTrip | gameoflife.py:79-87 | a saved history of n_steps > 0 grids of N x M cells loads back as written exactly when n_steps * N > 1 and M != 1 |
| History.OneByOneRoundTripFails | gameoflife.py:85-87 | five steps of a 1 x 1 board do not load back as written, while the corrected loader restores them |
| Engine.InitialState | gameoflife.py:49-59 | succeeds exactly when no grid is supplied or the supplied grid is N x M; it then returns that grid (or the seeded random grid), otherwise ShapeMismatch with the supplied shape |
| Engine.HasTxtSuffix | gameoflife.py:77 | the guard str(path)[-3:] == "txt"; a path it accepts has at least three characters |
| Engine.LastChars | gameoflife.py:77 | Python's s[-k:] for k > 0 (used with k = 3): the last k characters, or the whole string when it is shorter |
| Engine.TxtSuffixIsEnding | gameoflife.py:77-78 | the destination check accepts exactly the paths that end in "txt" |
| Engine.TxtSuffixExamples | gameoflife.py:77-78 | "run.txt", "runtxt" and "txt" are accepted; "run.gif", "tx" and "run.txt " are refused |
| Engine.GameOfLife.constructor | gameoflife.py:19-24 | stores N, M, n_steps and the initial state; the history is n_steps zero grids; the run is not finished |
| Engine.GameOfLife.Create | gameoflife.py:11-24 | construction fails exactly when get_initial_state does, with the same error; otherwise it gives a fresh, unfinished engine on the resolved initial state whose history is n_steps zero grids |
| Engine.GameOfLife.Simulate | gameoflife.py:62-71 | afterwards states[k] is generation k + 1 of the unchanged initial state, all states are 0/1 when the initial state is, and the run is finished |
| Engine.GameOfLife.SaveAsTxt | gameoflife.py:73-80 | NotFinished before the run, InvalidDestination for a path not ending in "txt", otherwise n_steps * N rows of M values; the corrected loader restores the history from them with the same n_steps, and load_from_txt as written does so exactly when n_steps * N > 1 and M != 1 |

## Findings

| source | as written | input that shows it | evidently intended | confidence | as-written member | corrected member |
|---|---|---|---|---|---|---|
| gameoflife.py:85-87 | `np.loadtxt` with its default `ndmin = 0` returns a one-axis array for a file of one line or one column, so `shape[1]` raises IndexError | N = M = 1, n_steps = 5: `save_as_txt` writes five lines of one value, which `load_from_txt(path, 5)` cannot restore (in general every history with M = 1 or n_steps * N <= 1, History.AsWrittenRoundTrip) | read the file as two-dimensional (`ndmin = 2`), so that every saved history loads back (History.RoundTrip) | not executed | History.OneByOneRoundTripFails | History.LoadFromTxt |

## Left out

- The random branch of `get_initial_state` (`np.random.seed(0)` and `randint`) is not modelled as a generator. The seeded grid is a parameter of `Engine.InitialState` and `Engine.GameOfLife.Create`. It is required, as `randint(2, size=(N, M))` guarantees, to be an N x M grid of 0/1 values.
- `save_as_gif` and its animation are left out: they touch only matplotlib.
- File I/O is left out. `save_as_txt` returns the rows it would write; `load_from_txt` takes the rows it would read. The `%i` text format and both `print` calls are left out too.
- `scipy.signal.convolve2d` is foreign code. It is replaced by the bounds-checked neighbour sum, and that sum is proved equal to the "same"-mode convolution definition `Grids.ConvolveSame`.
- The float dtype of the history buffer (`np.zeros`) and of the loaded array is left out. Cells are integers, and the values involved (0, 1 and other integers) are stored exactly.
- Engine.GameOfLife.Create: N, M and n_steps are natural numbers. The negative sizes for which `np.zeros` raises are not modelled.
- Engine.InitialState: a supplied grid is always two-dimensional. The ValueError that unpacking `shape` raises for a 1-D or 3-D array is not modelled. A supplied grid with no rows has no column count of its own, so for N = 0 it is accepted whatever its declared width.
- Engine.GameOfLife.SaveAsTxt: for M = 0 numpy cannot infer the `-1` axis of `reshape(-1, M)` and raises. The model flattens such a history to its rows of zero width instead.
- History.LoadFromTxt: n_steps is a natural number. For a negative n_steps the source's `//` floors and `reshape` is given a negative axis, which the model does not represent; `History.LoadFromTxtAsWritten` leaves it out likewise.
- The history buffer is an array of grids rather than one three-dimensional array.
- main.py, the command-line driver, is not modelled.
