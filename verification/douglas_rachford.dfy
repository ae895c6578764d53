/** Douglas_Rachford_binary_encoding: every round projects each value layer of
    Z into W, does the reflection bookkeeping, projects each box of W, and adds
    W back into Z; after the rounds, every value layer of Z is projected once
    more before decoding. */
module DouglasRachford {
  import opened Grid
  import opened Encoding
  import opened Init
  import opened Validate
  import opened Assignment
  import opened TensorOps
  import opened Passes

  /** Weight of X in the benefit matrix W + K·X of this scheme. */
  const K: real := 100.0

  /** The working tensor Z and the auxiliary tensor W. */
  datatype State = State(z: Tensor, w: Tensor)

  predicate IsState(s: State) {
    IsTensor(s.z) && IsTensor(s.w)
  }

  /** `Z = Z - W; W = W - Z` with W holding the layer projection P: afterwards
      Z is Z₀ − P and W is the reflection 2P − Z₀. */
  function Reflect(z: Tensor, p: Tensor): (s: State)
    requires IsTensor(z) && IsTensor(p)
    ensures IsState(s)
    ensures forall r, c, v :: 0 <= r < N && 0 <= c < N && 0 <= v < N ==>
      s.z[r][c][v] == z[r][c][v] - p[r][c][v] &&
      s.w[r][c][v] == 2.0 * p[r][c][v] - z[r][c][v]
  {
    var z1 := Sub(z, p);
    State(z1, Sub(p, z1))
  }

  /** One round. With P the layer projection of Z₀, every box of the new W is,
      in the cell × value reshape, the projection of that box of X and of the
      reflection 2P − Z₀, hence a permutation matrix; and the new Z is
      Z₀ − P + W. */
  function Round(x: Tensor, s: State, assign: Oracle): (s': State)
    requires IsTensor(x) && IsState(s) && ValidOracle(assign)
    ensures IsState(s')
    ensures forall i :: 0 <= i < N ==> IsPermutationMatrix(BoxView(s'.w, i))
    ensures forall i :: 0 <= i < N ==>
      BoxView(s'.w, i) == HungarianProjection(K, BoxView(x, i),
        BoxView(Reflect(s.z, LayerPass(K, x, s.z, s.w, N, assign)).w, i), assign)
    ensures Recombined(s.z, LayerPass(K, x, s.z, s.w, N, assign), s'.w, s'.z)
  {
    var p := LayerPass(K, x, s.z, s.w, N, assign);
    var reflected := Reflect(s.z, p);
    var w := BoxPass(K, x, reflected.w, N, assign);
    var z := Add(reflected.z, w);
    Recombine(s.z, p, reflected.z, w, z);
    State(z, w)
  }

  /** z is z0 − p + w, entry by entry. */
  ghost predicate Recombined(z0: Tensor, p: Tensor, w: Tensor, z: Tensor)
    requires IsTensor(z0) && IsTensor(p) && IsTensor(w) && IsTensor(z)
  {
    forall r, c, v :: 0 <= r < N && 0 <= c < N && 0 <= v < N ==>
      z[r][c][v] == z0[r][c][v] - p[r][c][v] + w[r][c][v]
  }

  lemma Recombine(z0: Tensor, p: Tensor, z1: Tensor, w: Tensor, z: Tensor)
    requires IsTensor(z0) && IsTensor(p) && IsTensor(z1) && IsTensor(w)
    requires forall r, c, v :: 0 <= r < N && 0 <= c < N && 0 <= v < N ==>
      z1[r][c][v] == z0[r][c][v] - p[r][c][v]
    requires z == Add(z1, w)
    ensures Recombined(z0, p, w, z)
  {
  }

  /** The W a round starts from is overwritten before it is read, so it does not
      affect the round. */
  lemma RoundIgnoresPreviousW(x: Tensor, z: Tensor, w1: Tensor, w2: Tensor, assign: Oracle)
    requires IsTensor(x) && IsTensor(z) && IsTensor(w1) && IsTensor(w2) && ValidOracle(assign)
    ensures Round(x, State(z, w1), assign) == Round(x, State(z, w2), assign)
  {
    LayerPassOverwrites(K, x, z, w1, w2, assign);
  }

  /** `for t in range(maxiter)` over the rounds; X is read, never written. */
  function Iterate(x: Tensor, s: State, rounds: nat, assign: Oracle): (s': State)
    requires IsTensor(x) && IsState(s) && ValidOracle(assign)
    ensures IsState(s')
    ensures rounds == 0 ==> s' == s
    ensures rounds >= 1 ==> s' == Round(x, Iterate(x, s, rounds - 1, assign), assign)
    ensures rounds >= 1 ==> forall i :: 0 <= i < N ==> IsPermutationMatrix(BoxView(s'.w, i))
  {
    if rounds == 0 then s
    else Round(x, Iterate(x, s, rounds - 1, assign), assign)
  }

  /** The rounds compose: running one round first and then rounds − 1 more is
      the same as running rounds rounds. */
  lemma {:induction false} IterateFirstRound(x: Tensor, s: State, rounds: nat, assign: Oracle)
    requires IsTensor(x) && IsState(s) && ValidOracle(assign) && rounds >= 1
    ensures Iterate(x, Round(x, s, assign), rounds - 1, assign) == Iterate(x, s, rounds, assign)
  {
    if rounds > 1 {
      IterateFirstRound(x, s, rounds - 1, assign);
    }
  }

  /** The tensor the scheme decodes: the rounds start from Z = the encoding of
      the board and W = 0, and every value layer of the resulting Z is then
      projected in place, so each value layer is a permutation matrix over
      (row, column). */
  function FinalTensor(board: Board, maxiter: int, assign: Oracle): (r: Result<Tensor>)
    requires IsBoard(board) && ValidOracle(assign)
    ensures r.Ok? <==> InitFromBoard(board).Ok?
    ensures r.Ok? ==> IsTensor(r.value)
    ensures r.Ok? ==> forall v :: 0 <= v < N ==> IsPermutationMatrix(LayerView(r.value, v))
    ensures r.Ok? ==> forall v :: 0 <= v < N ==>
      LayerView(r.value, v) == HungarianProjection(K, LayerView(Binarize(InitFromBoard(board).value), v),
        LayerView(Iterate(Binarize(InitFromBoard(board).value), State(InitFromBoard(board).value, Zeros()),
          RangeLength(maxiter), assign).z, v), assign)
  {
    match InitFromBoard(board)
    case Err(e) => Err(e)
    case Ok(t) =>
      var x := Binarize(t);
      var s := Iterate(x, State(t, Zeros()), RangeLength(maxiter), assign);
      InPlaceLayerPassReadsOriginal(K, x, s.z, N, assign);
      Ok(InPlaceLayerPass(K, x, s.z, N, assign))
  }

  /** Douglas_Rachford_binary_encoding: the decoding of the final Z. */
  function Solve(board: Board, maxiter: int, assign: Oracle): (r: Result<Board>)
    requires IsBoard(board) && ValidOracle(assign)
    ensures r.Ok? <==> InitFromBoard(board).Ok?
    ensures r.Ok? ==> IsBoard(r.value)
  {
    match FinalTensor(board, maxiter, assign)
    case Err(e) => Err(e)
    case Ok(z) => Ok(ConvertToBoard(z))
  }

  /** N one-hot cells, where component v of the cells is also one-hot for every
      value v (a row or a column of layer v), decode to each value exactly once. */
  lemma OneHotCellsDecodeToEachValueOnce(cells: seq<seq<real>>)
    requires IsMatrix(cells)
    requires forall c :: 0 <= c < N ==> IsOneHot(cells[c])
    requires forall v :: 0 <= v < N ==> IsOneHot(MatColumn(cells, v))
    ensures HoldsEachValueOnce(seq(N, c requires 0 <= c < N => ArgMax(cells[c]) + 1))
  {
    var d := seq(N, c requires 0 <= c < N => ArgMax(cells[c]) + 1);
    var h := seq(N, c requires 0 <= c < N => HotIndex(cells[c]));
    forall c | 0 <= c < N ensures d[c] == h[c] + 1 {
      ArgMaxOneHot(h[c]);
    }
    forall v | 1 <= v <= N ensures v in d {
      var c := HotIndex(MatColumn(cells, v - 1));
      assert cells[c][v - 1] == 1.0;
      assert d[c] == v;
    }
    forall c | 0 <= c < N ensures HotIndex(MatColumn(cells, h[c])) == c {
      assert MatColumn(cells, h[c])[c] == 1.0;
    }
  }

  /** Row r of a tensor whose cells are one-hot and whose value layers are
      permutation matrices decodes to each value once. */
  lemma DecodedRowHoldsEachValueOnce(z: Tensor, r: int)
    requires IsTensor(z) && 0 <= r < N
    requires forall p, q :: 0 <= p < N && 0 <= q < N ==> IsOneHot(z[p][q])
    requires forall v :: 0 <= v < N ==> IsPermutationMatrix(LayerView(z, v))
    ensures HoldsEachValueOnce(ConvertToBoard(z)[r])
  {
    forall v | 0 <= v < N ensures IsOneHot(MatColumn(z[r], v)) {
      assert MatColumn(z[r], v) == LayerView(z, v)[r];
    }
    OneHotCellsDecodeToEachValueOnce(z[r]);
    assert ConvertToBoard(z)[r] == seq(N, c requires 0 <= c < N => ArgMax(z[r][c]) + 1);
  }

  /** Column c likewise. */
  lemma DecodedColumnHoldsEachValueOnce(z: Tensor, c: int)
    requires IsTensor(z) && 0 <= c < N
    requires forall p, q :: 0 <= p < N && 0 <= q < N ==> IsOneHot(z[p][q])
    requires forall v :: 0 <= v < N ==> IsPermutationMatrix(LayerView(z, v))
    ensures HoldsEachValueOnce(Column(ConvertToBoard(z), c))
  {
    var cells := ColumnView(z, c);
    forall v | 0 <= v < N ensures IsOneHot(MatColumn(cells, v)) {
      assert MatColumn(cells, v) == MatColumn(LayerView(z, v), c);
    }
    OneHotCellsDecodeToEachValueOnce(cells);
    assert Column(ConvertToBoard(z), c) == seq(N, r requires 0 <= r < N => ArgMax(cells[r]) + 1);
  }

  /** Once the final Z is one-hot in every cell, the returned board holds each
      of 1..N exactly once in every row and every column: each value layer of
      the final Z is a permutation matrix over (row, column). */
  lemma SolveFillsRowsAndColumnsWhenOneHot(board: Board, maxiter: int, assign: Oracle)
    requires IsBoard(board) && ValidOracle(assign)
    requires FinalTensor(board, maxiter, assign).Ok?
    requires forall p, q :: 0 <= p < N && 0 <= q < N ==>
      IsOneHot(FinalTensor(board, maxiter, assign).value[p][q])
    ensures Solve(board, maxiter, assign).Ok?
    ensures forall r :: 0 <= r < N ==> HoldsEachValueOnce(Solve(board, maxiter, assign).value[r])
    ensures forall c :: 0 <= c < N ==>
      HoldsEachValueOnce(Column(Solve(board, maxiter, assign).value, c))
  {
    var z := FinalTensor(board, maxiter, assign).value;
    forall r | 0 <= r < N ensures HoldsEachValueOnce(ConvertToBoard(z)[r]) {
      DecodedRowHoldsEachValueOnce(z, r);
    }
    forall c | 0 <= c < N ensures HoldsEachValueOnce(Column(ConvertToBoard(z), c)) {
      DecodedColumnHoldsEachValueOnce(z, c);
    }
  }
}
