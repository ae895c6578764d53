# Projection-based Sudoku solvers — a Dafny model

This project models the discrete core of a Sudoku solver built on the
probability encoding of a 9×9 board, and proves properties of that model. A
board is a 9×9 grid of integers, where 0 means an unknown cell. Its
probability tensor Z assigns each cell a vector over the values 1..9.

The solver has two iterative schemes:

- **Alternating Projection.** Each round projects every row, then every
  column, then every 3×3 box of Z onto the permutation matrices.
- **Douglas-Rachford.** Each round projects every value layer of Z into an
  auxiliary tensor W. It then does the reflection bookkeeping `Z = Z - W;
  W = W - Z`, projects every box of W, and adds W back into Z. After the last
  round, every value layer of Z is projected once more.

Each projection (`Hungarian_Projection`) solves a maximising linear assignment
problem on the benefit matrix W + K·X. Here X is the binarised initial
encoding, which holds the clues. K is 10 in Alternating Projection and 100 in
Douglas-Rachford.

The helpers around the schemes are also modelled:

- the box numbering `block_to_coordinate`;
- the validators `check_board` and `constraints_helper`;
- the encoders `to_onehot`, `convert_to_3d_repr` and `convert_to_board`;
- `init_from_board`, which builds the initial tensor: clue cells become
  one-hot vectors, and each unknown cell is uniform over the values that no
  clue in its row, column or box uses.

Modules:

| file | module | what it holds |
|---|---|---|
| grid.dfy | Grid | shapes, one-hot vectors, box index maps, distinctness and pigeonhole |
| encoding.dfy | Encoding | `to_onehot`, `convert_to_3d_repr`, `convert_to_board`, and their round trips |
| init.dfy | Init | the two passes of `init_from_board` and the candidate characterisation |
| validate.dfy | Validate | `check_board`, `constraints_helper` |
| assignment.dfy | Assignment | `Hungarian_Projection`, with the assignment solver as a parameter |
| tensor_ops.dfy | TensorOps | row, column, box and layer views of Z and their write-backs; binarisation; elementwise arithmetic |
| passes.dfy | Passes | the `for i in range(N)` projection loops over rows, columns, boxes and layers |
| alternating_projection.dfy | AlternatingProjection | `Alternating_Projection_binary_encoding` |
| douglas_rachford.dfy | DouglasRachford | `Douglas_Rachford_binary_encoding` |

Modelling choices:

- **Numbers.** Reals are exact (`real`). The board is `seq<seq<int>>` and a
  tensor is `seq<seq<seq<real>>>`, indexed row, column, value.
- **The assignment solver.** `linear_sum_assignment` is a function parameter
  (`Oracle`). `ValidOracle` says it answers every 9×9 matrix with a
  permutation. `MaximisesBenefit` additionally says that its answer has
  maximal total benefit. Only the optimality lemma assumes the latter.
- **Failures.** A failing Python assertion, or a NaN that would spread
  through the tensor, becomes an `Err` of the `Result` type:
  - an entry outside 0..9 fails `to_onehot`'s assertion, which is
    `Err(ValueOutOfRange)`;
  - an unknown cell with no open value divides 0 by 0, which is
    `Err(NoCandidates)`.
- **Loops.** A loop `for i in range(N)` is a function of the number of
  iterations done so far. Its contract states what holds after the first m
  iterations. `maxiter` is an integer parameter. A negative value runs no
  round, as an empty `range` does.
- **Box numbering.** The solvers' box loop numbers its boxes column-major:
  box i covers rows (i%3)*3.. and columns (i/3)*3... `block_to_coordinate`
  numbers them row-major. `LoopBoxToBlock` converts between the two, and the
  model proves that it is its own inverse.

## Model

| member | source | states |
|---|---|---|
| Grid.OneHot | helper_funcs.py:84-90 | the vector has length 9, with a 1.0 at index k and 0.0 everywhere else |
| Grid.OneHotInjective | helper_funcs.py:84-90 | two one-hot vectors are equal only when their hot indices are equal |
| Grid.OneHotFromEntries | helper_funcs.py:84-90 | a length-9 vector with a 1.0 at k and 0.0 elsewhere is the one-hot vector of k |
| Grid.BlockToCoordinate | helper_funcs.py:36-48 | for box id and index k in 0..8, the cell lies on the board |
| Grid.BlockToCoordinateRoundTrip | helper_funcs.py:36-48 | the inverse map recovers (id, k) from the cell of entry k of box id |
| Grid.CoordinateToBlockRoundTrip | helper_funcs.py:36-48 | every cell is entry k of box id for the (id, k) the inverse map gives, so every cell is reached |
| Grid.BlockToCoordinateBijection | helper_funcs.py:36-48 | block_to_coordinate is a bijection between (box, index) pairs and the 81 cells |
| Grid.BoxCellRoundTrip | src/Alternating-Projection.py:49-56 | the cell at in-box index k of loop box i lies in box i, at index k |
| Grid.BoxOfRoundTrip | src/Alternating-Projection.py:49-56 | every cell is the cell at its own index in its own loop box |
| Grid.BoxCell | src/Alternating-Projection.py:51-55 | entry k of the reshape of loop box i, which spans rows (i%3)*3.. and columns (i//3)*3.., is a cell of the board |
| Grid.BoxCellBijection | src/Alternating-Projection.py:49-56 | the slice-and-reshape of the box loop is a bijection between (box, row of the reshape) pairs and cells |
| Grid.BoxLoopVisitsEveryBlockOnce | src/Alternating-Projection.py:50-56 | loop box i is block_to_coordinate's box 3*(i%3)+i/3, cell for cell; that renumbering maps 0..8 onto itself and is its own inverse |
| Grid.DistinctIffElementCount | helper_funcs.py:64 | the entries of a row are pairwise distinct iff the number of its distinct elements equals its length |
| Grid.DistinctInRangeIsOnto | src/Alternating-Projection.py:22-25 | nine pairwise distinct entries from 0..8 take every value of 0..8 (the pigeonhole step that makes every column of an assignment matrix one-hot) |
| Encoding.ToOnehot | helper_funcs.py:84-90 | for x in 1..9, the vector has its only 1.0 at x-1 and 0.0 at every other index |
| Encoding.ConvertTo3d | helper_funcs.py:92-108 | the encoding succeeds iff every entry is in 1..9; cell (i,j) then has a 1.0 at value b[i][j]-1 and 0.0 elsewhere |
| Encoding.ArgMax | helper_funcs.py:123 | returns an index of a maximal entry, and every earlier entry is strictly smaller (the first maximum, as np.argmax) |
| Encoding.ArgMaxUnique | helper_funcs.py:123 | ArgMax's two properties single out one index |
| Encoding.ArgMaxOneHot | helper_funcs.py:123 | the arg-max of a one-hot vector is its hot index |
| Encoding.ConvertToBoard | helper_funcs.py:110-126 | every decoded entry is in 1..9, its vector is maximal at entry-1, and every earlier component is strictly smaller |
| Encoding.DecodeOneHotCell | helper_funcs.py:110-126 | a one-hot cell with hot index v decodes to v+1 |
| Encoding.DecodeEncode | helper_funcs.py:92-126 | for a board with entries in 1..9, convert_to_board(convert_to_3d_repr(b)) == b |
| Encoding.EncodeDecode | helper_funcs.py:92-126 | a tensor whose every cell is one-hot is the encoding of its own decoding |
| Init.CandidateCount | helper_funcs.py:167-172 | the count is at most k, and it is 0 iff no value below k is open at the cell |
| Init.Clear | helper_funcs.py:156-165 | zeroing entry (p,q,v) changes that entry to 0.0 and no other entry |
| Init.Ones | helper_funcs.py:144 | every entry of the initial temp_3d_arr is 1.0 |
| Init.ClearUpTo | helper_funcs.py:154-165 | the first k rounds of the inner loop only write 0.0, and only at the clue's value index |
| Init.ClearUpToEffect | helper_funcs.py:154-165 | after k rounds of the inner loop for a clue with value index v at (i,j), entry (p,q,w) is 0.0 iff w = v and (p,q) lies in the clue's row before column k, in its column before row k, or in its box before in-box index k; every other entry is unchanged |
| Init.ClearUpToStep | helper_funcs.py:154-165 | each round of the inner loop adds exactly the three cells it visits to those cleared |
| Init.ClearRound | helper_funcs.py:156-165 | round k' clears value v at (i,k'), (k',j) and (3*(i//3)+k'//3, 3*(j//3)+k'%3), and nothing else |
| Init.ReachedStep | helper_funcs.py:160-165 | cell k' of the clue's box is the cell at (3*(i//3)+k'//3, 3*(j//3)+k'%3) |
| Init.FirstPass | helper_funcs.py:149-165 | after any number of iterations of the cell loop, every entry of temp_3d_arr is 0.0 or 1.0 |
| Init.InBoxIndex | helper_funcs.py:160-165 | (p,q) is the k'-th cell of the box of (i,j) iff it shares that box and has in-box index k' |
| Init.FirstPassEffect | helper_funcs.py:149-165 | after m cells (row-major), temp_3d_arr is 0.0 at (p,q,w) iff one of those cells holds clue w+1 and shares a row, column or box with (p,q); otherwise it is 1.0 |
| Init.FirstPassStep | helper_funcs.py:149-165 | one iteration of the cell loop clears exactly the entries that its clue sees |
| Init.FirstPassMarksCandidates | helper_funcs.py:144-165 | after the first pass, temp_3d_arr is 1.0 exactly at the values still open at each cell, and 0.0 elsewhere |
| Init.MaskEntry | helper_funcs.py:144-165 | one entry of the mask after the first pass is 1.0 iff its value is open at its cell, and 0.0 otherwise |
| Init.Sum | helper_funcs.py:172 | np.sum of a vector, accumulated from the last entry back; its properties are stated by SumNonNegative, SumScaled and MaskSum |
| Init.SumNonNegative | helper_funcs.py:172 | a vector with no negative entry has a nonnegative np.sum |
| Init.SumScaled | helper_funcs.py:172 | dividing every entry by s divides the sum by s |
| Init.MaskSum | helper_funcs.py:172 | the sum of the first k entries of a cell's mask is the number of open values below k |
| Init.MaskSumFull | helper_funcs.py:172 | np.sum of a cell's mask is the number of values open at that cell |
| Init.Normalize | helper_funcs.py:172 | the normalised vector has the same length and sums to 1 |
| Init.NormalizedEntry | helper_funcs.py:172 | each entry of the normalised vector is the mask entry divided by the mask's sum |
| Init.InitUnknownIsNormalized | helper_funcs.py:167-172 | an unknown cell of a successful init is the normalised first-pass mask, and that mask has a positive sum (by SumNonNegative, since every mask entry is 0 or 1) |
| Init.InitFromBoard | helper_funcs.py:128-174 | the result is Err(ValueOutOfRange) iff some entry lies outside 0..9; an Ok result is a 9×9×9 tensor |
| Init.InitSucceeds | helper_funcs.py:128-174 | init succeeds iff every entry is in 0..9 and every unknown cell has at least one open value |
| Init.InitClueCells | helper_funcs.py:152-153 | a clue cell is to_onehot of its clue and decodes back to the clue |
| Init.InitUnknownCells | helper_funcs.py:167-172 | an unknown cell has at least one open value; its entry v is 1/count when v is open and 0 otherwise; its entry is nonzero iff v is open; it sums to 1 |
| Init.InitUnknownEntry | helper_funcs.py:167-172 | entry v of an unknown cell is 1/count when v is open and 0 otherwise, and the count is positive |
| Init.InitEntriesInUnitInterval | helper_funcs.py:128-174 | every entry of the initial tensor lies in [0, 1] |
| Validate.Column | helper_funcs.py:69 | entry r of column j is b[r][j] |
| Validate.Block | helper_funcs.py:73-77 | entry k of block id is the board entry at block_to_coordinate(id, k) |
| Validate.CheckBoard | helper_funcs.py:50-82 | returns true iff every row, every column and every block has pairwise distinct entries |
| Validate.ConstraintsHelper | helper_funcs.py:203-210 | returns 0 or 1, and 1 iff Z equals X at every nonzero entry of X |
| Assignment.MatColumn | src/Alternating-Projection.py:22-25 | entry i of column j is m[i][j] |
| Assignment.PermutationMatrix | src/Alternating-Projection.py:23-25 | the matrix has a 1.0 at (i,j) iff p[i] = j and 0.0 elsewhere; every row and every column is one-hot |
| Assignment.ColumnsOfPermutationMatrix | src/Alternating-Projection.py:23-25 | setting one 1.0 per row at a permutation's columns leaves every column one-hot |
| Assignment.HotIndex | src/Alternating-Projection.py:23-25 | the position of the 1 of a one-hot vector |
| Assignment.PermutationOfMatrix | src/Alternating-Projection.py:22-25 | reading off the 1 of every row of a permutation matrix gives a permutation, whose matrix is the original one |
| Assignment.Benefit | src/Alternating-Projection.py:19-20 | W + K·X is again 9×9 |
| Assignment.BenefitSplits | src/Alternating-Projection.py:19-20 | the total of an assignment under W + K·X is its total under W plus K times its total under X |
| Assignment.HungarianProjection | src/Alternating-Projection.py:15-27 | the result is a 0/1 permutation matrix with a 1.0 at (i,j) iff the solver assigns column j to row i of W + K·X |
| Assignment.ProjectionMaximisesWeightedAgreement | Douglas-Rachford.py:14-26 | with a maximising solver, no permutation beats the chosen one on (total under W) + K·(total under X) |
| TensorOps.ColumnView | src/Alternating-Projection.py:47 | row r of Z[:, j] is the vector of cell (r, j) |
| TensorOps.SetColumn | src/Alternating-Projection.py:47 | after Z[:, j] = m, column view j is m, and every cell outside column j is unchanged |
| TensorOps.SetColumnOwnView | src/Alternating-Projection.py:47 | writing a column back unchanged leaves Z as it was |
| TensorOps.BoxView | src/Alternating-Projection.py:54-55 | row k of the reshape of box i is the vector of in-box cell k |
| TensorOps.SetBox | src/Alternating-Projection.py:56 | after the write-back, box view i is m, and every cell outside box i is unchanged |
| TensorOps.SetBoxKeepsOtherBoxes | src/Alternating-Projection.py:56 | writing box i leaves the view of every other box unchanged |
| TensorOps.SetBoxOwnView | src/Alternating-Projection.py:54-56 | writing a box's own reshape back leaves Z as it was |
| TensorOps.CellInBoxView | src/Alternating-Projection.py:54-56 | every cell vector is a row of the reshape of the box that contains it |
| TensorOps.LayerView | Douglas-Rachford.py:42 | entry (r,c) of Z[:, :, v] is Z[r][c][v] |
| TensorOps.SetLayer | Douglas-Rachford.py:42 | after W[:, :, v] = m, layer view v is m, and every other value index is unchanged |
| TensorOps.SetLayerOwnView | Douglas-Rachford.py:42 | writing a layer back unchanged leaves the tensor as it was |
| TensorOps.SameLayer | Douglas-Rachford.py:57-58 | two tensors that agree on value index v have the same layer v |
| TensorOps.TensorFromLayers | Douglas-Rachford.py:41-42 | two tensors with the same nine layers are equal |
| TensorOps.Binarize | src/Alternating-Projection.py:35 | each entry becomes 0.0 if it is below 1 and is kept otherwise |
| TensorOps.InitEntryIsOne | src/Alternating-Projection.py:30-35 | an entry of the initial tensor is at most 1, and reaches 1 iff it is the clue's value or the only open value of an unknown cell |
| TensorOps.BinarizeInit | src/Alternating-Projection.py:30-35 | binarised X is 0/1, and X is 1 exactly at the clue values and at the single open value of each unknown cell that has exactly one |
| TensorOps.Sub | Douglas-Rachford.py:43-44 | the entrywise difference |
| TensorOps.Add | Douglas-Rachford.py:55 | the entrywise sum |
| TensorOps.Zeros | Douglas-Rachford.py:38 | every entry is 0.0 |
| Passes.ProjectRow | src/Alternating-Projection.py:43 | row i becomes Hungarian_Projection(X[i], Z[i]), a permutation matrix, and every other row is unchanged |
| Passes.RowPass | src/Alternating-Projection.py:42-43 | after m iterations, each row i below m is Hungarian_Projection(X[i], Z[i]) of the original Z, hence a permutation matrix; the other rows are unchanged |
| Passes.ProjectColumn | src/Alternating-Projection.py:47 | column view j becomes Hungarian_Projection(X[:, j], Z[:, j]), a permutation matrix, and the cells of every other column are unchanged |
| Passes.ColumnPass | src/Alternating-Projection.py:46-47 | after m iterations, each column view j below m is Hungarian_Projection(X[:, j], Z[:, j]) of the original Z, hence a permutation matrix; later columns are unchanged |
| Passes.ProjectBox | src/Alternating-Projection.py:54-56 | box view i becomes Hungarian_Projection of the reshapes of box i of X and of Z, a permutation matrix, and every cell outside box i is unchanged |
| Passes.BoxPass | src/Alternating-Projection.py:50-56 | after m iterations, each box view i below m is Hungarian_Projection of the reshapes of box i of X and of the original Z, hence a permutation matrix; the cells of later boxes are unchanged |
| Passes.BoxPassKeepsEarlierBoxes | src/Alternating-Projection.py:50-56 | projecting box i leaves the view of every other box unchanged |
| Passes.CellsOneHotWhenBoxesArePermutations | src/Alternating-Projection.py:49-58 | once every box view is a permutation matrix, every cell vector is one-hot |
| Passes.RangeLength | src/Alternating-Projection.py:40 | `for t in range(maxiter)` runs maxiter times, and not at all when maxiter is 0 or negative |
| Passes.ProjectLayer | Douglas-Rachford.py:42 | layer v of the destination becomes the projection of layer v of X and of layer v of the source, a permutation matrix; every other value index is unchanged |
| Passes.LayerStepKeepsOtherLayers | Douglas-Rachford.py:41-42 | projecting layer v leaves every other layer view unchanged |
| Passes.LayerPass | Douglas-Rachford.py:41-42 | after m iterations, W's layers below m are the projections of Z's layers and are permutation matrices; W's later layers are unchanged |
| Passes.LayerPassOverwrites | Douglas-Rachford.py:41-42 | a full layer pass does not depend on what W held before |
| Passes.InPlaceLayerPass | Douglas-Rachford.py:57-58 | after m in-place iterations, layers below m are permutation matrices and later layers are unchanged |
| Passes.InPlaceLayerPassReadsOriginal | Douglas-Rachford.py:57-58 | the in-place pass equals the pass that reads the original Z throughout, since no step reads a layer an earlier step wrote |
| AlternatingProjection.Round | src/Alternating-Projection.py:41-56 | every box view of the result is Hungarian_Projection of that box of X and of Z after the row and column passes, hence a permutation matrix |
| AlternatingProjection.Iterate | src/Alternating-Projection.py:40-56 | zero rounds leave Z as it was; round t is a Round applied to the result of round t-1; after one or more rounds, every box view is a permutation matrix and every cell is one-hot |
| AlternatingProjection.IterateFirstRound | src/Alternating-Projection.py:40-56 | running one round and then the remaining rounds gives the same Z as running all rounds from the start |
| AlternatingProjection.FinalTensor | src/Alternating-Projection.py:29-56 | succeeds iff init_from_board succeeds; the result is maxiter rounds started from X = the binarised encoding and Z = the encoding itself, so maxiter <= 0 returns the encoding unchanged; with maxiter >= 1, every box is a permutation matrix and every cell is one-hot |
| AlternatingProjection.Solve | src/Alternating-Projection.py:29-58 | succeeds iff init_from_board succeeds, and then returns a 9×9 board |
| AlternatingProjection.DecodedBoxHoldsEachValueOnce | src/Alternating-Projection.py:49-58 | a box whose reshape is a permutation matrix decodes to a block holding each of 1..9 exactly once |
| AlternatingProjection.SolveFillsEveryBox | src/Alternating-Projection.py:29-58 | with maxiter >= 1, every block of the returned board holds each of 1..9 exactly once, whatever the solver's choices |
| DouglasRachford.Reflect | Douglas-Rachford.py:43-44 | with W holding the projection P, Z becomes Z₀ − P and W becomes 2P − Z₀ |
| DouglasRachford.Round | Douglas-Rachford.py:41-55 | with P the layer projection of Z₀, every box of the new W is Hungarian_Projection of that box of X and of the reflection 2P − Z₀, hence a permutation matrix; the new Z is Z₀ − P + W |
| DouglasRachford.Recombine | Douglas-Rachford.py:55 | adding the projected W to Z₀ − P gives Z₀ − P + W |
| DouglasRachford.RoundIgnoresPreviousW | Douglas-Rachford.py:41-55 | the W a round starts from does not affect that round |
| DouglasRachford.Iterate | Douglas-Rachford.py:40-55 | zero rounds leave the state as it was; round t is a Round applied to the state after round t-1; after one or more rounds, every box of W is a permutation matrix |
| DouglasRachford.IterateFirstRound | Douglas-Rachford.py:40-55 | running one round and then the remaining rounds gives the same state as running all rounds from the start |
| DouglasRachford.FinalTensor | Douglas-Rachford.py:28-58 | succeeds iff init_from_board succeeds; every value layer v of the result is then the projection of layer v of X (the binarised encoding) and of layer v of the Z left by maxiter rounds started from Z = the encoding and W = 0, so a permutation matrix over (row, column) |
| DouglasRachford.Solve | Douglas-Rachford.py:28-60 | succeeds iff init_from_board succeeds, and then returns a 9×9 board |
| DouglasRachford.OneHotCellsDecodeToEachValueOnce | helper_funcs.py:110-126 | nine one-hot cells, where component v of the cells is also one-hot for every v, decode to each of 1..9 exactly once |
| DouglasRachford.DecodedRowHoldsEachValueOnce | Douglas-Rachford.py:57-60 | if every cell is one-hot and every value layer is a permutation matrix, each decoded row holds each of 1..9 exactly once |
| DouglasRachford.DecodedColumnHoldsEachValueOnce | Douglas-Rachford.py:57-60 | under the same hypotheses, each decoded column holds each of 1..9 exactly once |
| DouglasRachford.SolveFillsRowsAndColumnsWhenOneHot | Douglas-Rachford.py:28-60 | if the final Z is one-hot in every cell, the returned board holds each of 1..9 exactly once in every row and every column |

## Left out

- Alternating-Bregman projection (src/Alternating-Bregman-Projection.py): the Sinkhorn-style scheme is not part of this model.
- Printing, loading, saving and comparing boards (`print_sudoku`, `load_sudokus`, `save_sudokus`, `compare_sudokus`, `IsConstraints`, `DebugMode`, `main`): these are I/O only. The debug `print` calls inside `check_board` are dropped as well.
- `np.random.seed(0)`: no modelled operation draws random numbers.
- `linear_sum_assignment`: this is foreign code. It is the `Oracle` parameter, constrained only by `ValidOracle`. `MaximisesBenefit` adds optimality.
- Floating point: entries are exact reals. The rounding of `1/count` and of the Douglas-Rachford sums is not modelled.
- NaN propagation: in the source, an unknown cell with no open value divides 0 by 0 and becomes a NaN vector. The model returns `Err(NoCandidates)` instead. The source also fails whenever a projection reads that cell. `linear_sum_assignment` then receives a benefit matrix containing NaN, which it rejects with an error. This happens in Alternating Projection with maxiter ≥ 1, and always in Douglas-Rachford, whose final layer pass runs even when maxiter ≤ 0. Only Alternating Projection with maxiter ≤ 0 returns a board: it decodes such a cell to 1, since np.argmax of an all-NaN vector is 0. The model's `Err` differs from the source only there.
- Shape and type assertions (`r == c`, `a**2 == r`, ndarray and int checks): they become the `IsBoard`, `IsMatrix` and `IsTensor` requirements. Only size 9 with box side 3 is modelled, as the hard-coded `// 3` in `block_to_coordinate` and `init_from_board` requires.
- Default iteration counts: `maxiter` defaults to 10 in Alternating Projection and to 100 in Douglas-Rachford, and Douglas-Rachford's `main` passes 200. These defaults are not modelled. `maxiter` is always an explicit argument, and every proved property holds for any value of it.
- Convergence, and the choice of K as large enough for clues to win the assignment: these are numeric questions, not properties of one round.
- Idempotence of a projection at a permutation matrix: this needs an optimal and tie-breaking solver, and the oracle is not constrained that far.
- DouglasRachford.Solve: the row and column property is proved only when the final Z is one-hot in every cell. Each value layer of the final Z is always a permutation matrix, but a cell vector can hold several 1s or none. Arg-max decoding of such a cell need not give distinct rows or columns. Nothing is proved about boxes.
- AlternatingProjection.Solve: proves only the box constraint for the returned board. The last pass of every round is the box pass, and it may undo the row and column passes.
