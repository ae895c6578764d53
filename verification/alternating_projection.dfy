/** Alternating_Projection_binary_encoding: every round projects each row, then
    each column, then each box of Z onto the permutation matrices, with the
    binarised initial encoding X as the clue reference; the last pass of every
    round is the box pass. */
module AlternatingProjection {
  import opened Grid
  import opened Encoding
  import opened Init
  import opened Validate
  import opened Assignment
  import opened TensorOps
  import opened Passes

  /** Weight of X in the benefit matrix W + K·X of this scheme. */
  const K: real := 10.0

  /** One round: the row pass, the column pass, then the box pass. Every box of
      the result is the projection of that box of X and of Z after the row and
      column passes, hence a permutation matrix. */
  function Round(x: Tensor, z: Tensor, assign: Oracle): (u: Tensor)
    requires IsTensor(x) && IsTensor(z) && ValidOracle(assign)
    ensures IsTensor(u)
    ensures forall i :: 0 <= i < N ==> IsPermutationMatrix(BoxView(u, i))
    ensures forall i :: 0 <= i < N ==>
      BoxView(u, i) == HungarianProjection(K, BoxView(x, i),
        BoxView(ColumnPass(K, x, RowPass(K, x, z, N, assign), N, assign), i), assign)
  {
    var afterRows := RowPass(K, x, z, N, assign);
    var afterColumns := ColumnPass(K, x, afterRows, N, assign);
    BoxPass(K, x, afterColumns, N, assign)
  }

  /** `for t in range(maxiter)` over the rounds; X is read, never written. After
      at least one round every box is a permutation matrix in the cell × value
      reshape, and so every cell vector is one-hot. */
  function Iterate(x: Tensor, z: Tensor, rounds: nat, assign: Oracle): (u: Tensor)
    requires IsTensor(x) && IsTensor(z) && ValidOracle(assign)
    ensures IsTensor(u)
    ensures rounds == 0 ==> u == z
    ensures rounds >= 1 ==> u == Round(x, Iterate(x, z, rounds - 1, assign), assign)
    ensures rounds >= 1 ==> forall i :: 0 <= i < N ==> IsPermutationMatrix(BoxView(u, i))
    ensures rounds >= 1 ==> forall r, c :: 0 <= r < N && 0 <= c < N ==> IsOneHot(u[r][c])
  {
    if rounds == 0 then z
    else
      var u := Round(x, Iterate(x, z, rounds - 1, assign), assign);
      CellsOneHotWhenBoxesArePermutations(u);
      u
  }

  /** The rounds compose: running one round first and then rounds − 1 more is
      the same as running rounds rounds. */
  lemma {:induction false} IterateFirstRound(x: Tensor, z: Tensor, rounds: nat, assign: Oracle)
    requires IsTensor(x) && IsTensor(z) && ValidOracle(assign) && rounds >= 1
    ensures Iterate(x, Round(x, z, assign), rounds - 1, assign) == Iterate(x, z, rounds, assign)
  {
    if rounds > 1 {
      IterateFirstRound(x, z, rounds - 1, assign);
    }
  }

  /** The tensor Z the scheme decodes: X and Z both start from the encoding of
      the board, X binarised. */
  function FinalTensor(board: Board, maxiter: int, assign: Oracle): (r: Result<Tensor>)
    requires IsBoard(board) && ValidOracle(assign)
    ensures r.Ok? <==> InitFromBoard(board).Ok?
    ensures r.Ok? ==> IsTensor(r.value)
    ensures r.Ok? ==> r.value == Iterate(Binarize(InitFromBoard(board).value),
      InitFromBoard(board).value, RangeLength(maxiter), assign)
    ensures r.Ok? && maxiter <= 0 ==> r.value == InitFromBoard(board).value
    ensures r.Ok? && maxiter >= 1 ==>
      forall i :: 0 <= i < N ==> IsPermutationMatrix(BoxView(r.value, i))
    ensures r.Ok? && maxiter >= 1 ==>
      forall p, q :: 0 <= p < N && 0 <= q < N ==> IsOneHot(r.value[p][q])
  {
    match InitFromBoard(board)
    case Err(e) => Err(e)
    case Ok(t) => Ok(Iterate(Binarize(t), t, RangeLength(maxiter), assign))
  }

  /** Alternating_Projection_binary_encoding: the decoding of the final Z. */
  function Solve(board: Board, maxiter: int, assign: Oracle): (r: Result<Board>)
    requires IsBoard(board) && ValidOracle(assign)
    ensures r.Ok? <==> InitFromBoard(board).Ok?
    ensures r.Ok? ==> IsBoard(r.value)
  {
    match FinalTensor(board, maxiter, assign)
    case Err(e) => Err(e)
    case Ok(z) => Ok(ConvertToBoard(z))
  }

  /** A box whose reshape is a permutation matrix decodes to a box that holds
      each value once; the loop's box i is block_to_coordinate's box
      LoopBoxToBlock(i). */
  lemma DecodedBoxHoldsEachValueOnce(z: Tensor, i: int)
    requires IsTensor(z) && 0 <= i < N
    requires IsPermutationMatrix(BoxView(z, i))
    ensures HoldsEachValueOnce(Block(ConvertToBoard(z), LoopBoxToBlock(i)))
  {
    var m := BoxView(z, i);
    PermutationOfMatrix(m);
    var p := seq(N, k requires 0 <= k < N => HotIndex(m[k]));
    BoxLoopVisitsEveryBlockOnce();
    var s := Block(ConvertToBoard(z), LoopBoxToBlock(i));
    forall k | 0 <= k < N ensures s[k] == p[k] + 1 {
      var (r, c) := BoxCell(i, k);
      DecodeOneHotCell(z, r, c, p[k]);
    }
    forall v | 1 <= v <= N ensures v in s {
      DistinctInRangeIsOnto(p, v - 1);
      var k :| 0 <= k < N && p[k] == v - 1;
      assert s[k] == v;
    }
    assert Distinct(s) by {
      forall a, b | 0 <= a < b < N ensures s[a] != s[b] {
        assert p[a] != p[b];
      }
    }
  }

  /** With maxiter >= 1, every box of the returned board holds each of 1..N
      exactly once, whatever the solver's choices. */
  lemma SolveFillsEveryBox(board: Board, maxiter: int, assign: Oracle)
    requires IsBoard(board) && ValidOracle(assign) && maxiter >= 1
    requires Solve(board, maxiter, assign).Ok?
    ensures forall id :: 0 <= id < N ==>
      HoldsEachValueOnce(Block(Solve(board, maxiter, assign).value, id))
  {
    var z := FinalTensor(board, maxiter, assign).value;
    BoxLoopVisitsEveryBlockOnce();
    forall id | 0 <= id < N
      ensures HoldsEachValueOnce(Block(Solve(board, maxiter, assign).value, id))
    {
      DecodedBoxHoldsEachValueOnce(z, LoopBoxToBlock(id));
    }
  }
}
