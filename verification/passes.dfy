/** One pass of hard-assignment projections over a family of constraint groups:
    the rows, the columns or the boxes of Z (Alternating Projection, and the box
    step of Douglas-Rachford), or the value layers (Douglas-Rachford). Each pass
    is the loop `for i in range(N)`; the functions below take the number of
    iterations done so far. */
module Passes {
  import opened Grid
  import opened Assignment
  import opened TensorOps

  /** The number of iterations of `for t in range(n)`: none when n is not positive. */
  function RangeLength(n: int): (k: nat)
    ensures n <= 0 ==> k == 0
    ensures n >= 0 ==> k == n
  {
    if n < 0 then 0 else n
  }

  /** Z[i] = Hungarian_Projection(X[i], Z[i]) */
  function ProjectRow(K: real, x: Tensor, z: Tensor, i: int, assign: Oracle): (u: Tensor)
    requires IsTensor(x) && IsTensor(z) && 0 <= i < N && ValidOracle(assign)
    ensures IsTensor(u)
    ensures IsPermutationMatrix(u[i])
    ensures u[i] == HungarianProjection(K, x[i], z[i], assign)
    ensures forall r :: 0 <= r < N && r != i ==> u[r] == z[r]
  {
    z[i := HungarianProjection(K, x[i], z[i], assign)]
  }

  /** The first m iterations of the row loop: each row below m is the projection
      of that row of X and of Z, hence a permutation matrix (each cell of the
      row one-hot, each value once in the row); the other rows are untouched. */
  function RowPass(K: real, x: Tensor, z: Tensor, m: nat, assign: Oracle): (u: Tensor)
    requires IsTensor(x) && IsTensor(z) && m <= N && ValidOracle(assign)
    ensures IsTensor(u)
    ensures forall i :: 0 <= i < m ==> IsPermutationMatrix(u[i])
    ensures forall i :: 0 <= i < m ==> u[i] == HungarianProjection(K, x[i], z[i], assign)
    ensures forall i :: m <= i < N ==> u[i] == z[i]
  {
    if m == 0 then z
    else ProjectRow(K, x, RowPass(K, x, z, m - 1, assign), m - 1, assign)
  }

  /** Z[:, j] = Hungarian_Projection(X[:, j], Z[:, j]) */
  function ProjectColumn(K: real, x: Tensor, z: Tensor, j: int, assign: Oracle): (u: Tensor)
    requires IsTensor(x) && IsTensor(z) && 0 <= j < N && ValidOracle(assign)
    ensures IsTensor(u)
    ensures IsPermutationMatrix(ColumnView(u, j))
    ensures ColumnView(u, j) == HungarianProjection(K, ColumnView(x, j), ColumnView(z, j), assign)
    ensures forall r, c :: 0 <= r < N && 0 <= c < N && c != j ==> u[r][c] == z[r][c]
  {
    SetColumn(z, j, HungarianProjection(K, ColumnView(x, j), ColumnView(z, j), assign))
  }

  /** The first m iterations of the column loop: each column below m is the
      projection of that column of X and of Z. */
  function ColumnPass(K: real, x: Tensor, z: Tensor, m: nat, assign: Oracle): (u: Tensor)
    requires IsTensor(x) && IsTensor(z) && m <= N && ValidOracle(assign)
    ensures IsTensor(u)
    ensures forall j :: 0 <= j < m ==> IsPermutationMatrix(ColumnView(u, j))
    ensures forall j :: 0 <= j < m ==>
      ColumnView(u, j) == HungarianProjection(K, ColumnView(x, j), ColumnView(z, j), assign)
    ensures forall r, c :: 0 <= r < N && m <= c < N ==> u[r][c] == z[r][c]
  {
    if m == 0 then z
    else
      var prev := ColumnPass(K, x, z, m - 1, assign);
      var u := ProjectColumn(K, x, prev, m - 1, assign);
      assert forall j :: 0 <= j < m - 1 ==> ColumnView(u, j) == ColumnView(prev, j);
      UntouchedColumnView(prev, z, m - 1);
      u
  }

  /** A column whose cells two tensors share has the same view in both. */
  lemma UntouchedColumnView(t: Tensor, z: Tensor, j: int)
    requires IsTensor(t) && IsTensor(z) && 0 <= j < N
    requires forall r, c :: 0 <= r < N && j <= c < N ==> t[r][c] == z[r][c]
    ensures ColumnView(t, j) == ColumnView(z, j)
  {
    assert forall r :: 0 <= r < N ==> ColumnView(t, j)[r] == ColumnView(z, j)[r];
  }

  /** Z[box i] = Hungarian_Projection(X_block, Z_block).reshape(n, n, N) */
  function ProjectBox(K: real, x: Tensor, z: Tensor, i: int, assign: Oracle): (u: Tensor)
    requires IsTensor(x) && IsTensor(z) && 0 <= i < N && ValidOracle(assign)
    ensures IsTensor(u)
    ensures IsPermutationMatrix(BoxView(u, i))
    ensures BoxView(u, i) == HungarianProjection(K, BoxView(x, i), BoxView(z, i), assign)
    ensures forall r, c :: 0 <= r < N && 0 <= c < N && BoxOf(r, c) != i ==> u[r][c] == z[r][c]
  {
    SetBox(z, i, HungarianProjection(K, BoxView(x, i), BoxView(z, i), assign))
  }

  /** The first m iterations of the box loop: each box below m is, in the
      cell × value reshape, the projection of that box of X and of Z, hence a
      permutation matrix; the cells of the other boxes are untouched. */
  function BoxPass(K: real, x: Tensor, z: Tensor, m: nat, assign: Oracle): (u: Tensor)
    requires IsTensor(x) && IsTensor(z) && m <= N && ValidOracle(assign)
    ensures IsTensor(u)
    ensures forall i :: 0 <= i < m ==> IsPermutationMatrix(BoxView(u, i))
    ensures forall i :: 0 <= i < m ==>
      BoxView(u, i) == HungarianProjection(K, BoxView(x, i), BoxView(z, i), assign)
    ensures forall r, c :: 0 <= r < N && 0 <= c < N && m <= BoxOf(r, c) ==> u[r][c] == z[r][c]
  {
    if m == 0 then z
    else
      var prev := BoxPass(K, x, z, m - 1, assign);
      var u := ProjectBox(K, x, prev, m - 1, assign);
      BoxPassKeepsEarlierBoxes(K, x, prev, m - 1, assign);
      UntouchedBoxView(prev, z, m - 1);
      u
  }

  lemma BoxPassKeepsEarlierBoxes(K: real, x: Tensor, z: Tensor, i: int, assign: Oracle)
    requires IsTensor(x) && IsTensor(z) && 0 <= i < N && ValidOracle(assign)
    ensures forall j :: 0 <= j < N && j != i ==> BoxView(ProjectBox(K, x, z, i, assign), j) == BoxView(z, j)
  {
    forall j | 0 <= j < N && j != i
      ensures BoxView(ProjectBox(K, x, z, i, assign), j) == BoxView(z, j)
    {
      SetBoxKeepsOtherBoxes(z, i, HungarianProjection(K, BoxView(x, i), BoxView(z, i), assign), j);
    }
  }

  /** A box whose cells two tensors share has the same view in both. */
  lemma UntouchedBoxView(t: Tensor, z: Tensor, i: int)
    requires IsTensor(t) && IsTensor(z) && 0 <= i < N
    requires forall r, c :: 0 <= r < N && 0 <= c < N && i <= BoxOf(r, c) ==> t[r][c] == z[r][c]
    ensures BoxView(t, i) == BoxView(z, i)
  {
    forall k | 0 <= k < N ensures BoxView(t, i)[k] == BoxView(z, i)[k] {
      BoxCellRoundTrip(i, k);
    }
  }

  /** Every cell lies in some box; so once every box view is a permutation
      matrix, every cell vector is one-hot. */
  lemma CellsOneHotWhenBoxesArePermutations(z: Tensor)
    requires IsTensor(z)
    requires forall i :: 0 <= i < N ==> IsPermutationMatrix(BoxView(z, i))
    ensures forall r, c :: 0 <= r < N && 0 <= c < N ==> IsOneHot(z[r][c])
  {
    forall r, c | 0 <= r < N && 0 <= c < N ensures IsOneHot(z[r][c]) {
      CellInBoxView(z, r, c);
    }
  }

  /** dst[:, :, v] = Hungarian_Projection(X[:, :, v], src[:, :, v]) */
  function ProjectLayer(K: real, x: Tensor, src: Tensor, dst: Tensor, v: int, assign: Oracle): (u: Tensor)
    requires IsTensor(x) && IsTensor(src) && IsTensor(dst) && 0 <= v < N && ValidOracle(assign)
    ensures IsTensor(u)
    ensures IsPermutationMatrix(LayerView(u, v))
    ensures LayerView(u, v) == HungarianProjection(K, LayerView(x, v), LayerView(src, v), assign)
    ensures forall r, c, w :: 0 <= r < N && 0 <= c < N && 0 <= w < N && w != v ==>
      u[r][c][w] == dst[r][c][w]
  {
    SetLayer(dst, v, HungarianProjection(K, LayerView(x, v), LayerView(src, v), assign))
  }

  lemma LayerStepKeepsOtherLayers(K: real, x: Tensor, src: Tensor, dst: Tensor, v: int, assign: Oracle)
    requires IsTensor(x) && IsTensor(src) && IsTensor(dst) && 0 <= v < N && ValidOracle(assign)
    ensures forall w :: 0 <= w < N && w != v ==>
      LayerView(ProjectLayer(K, x, src, dst, v, assign), w) == LayerView(dst, w)
  {
    forall w | 0 <= w < N && w != v
      ensures LayerView(ProjectLayer(K, x, src, dst, v, assign), w) == LayerView(dst, w)
    {
      SameLayer(ProjectLayer(K, x, src, dst, v, assign), dst, w);
    }
  }

  /** The first m iterations of a value-layer loop reading Z and writing W: the
      layers below m of W are permutation matrices over (row, column) and are
      the projections of Z's layers; the other layers of W are untouched. */
  function LayerPass(K: real, x: Tensor, src: Tensor, dst: Tensor, m: nat, assign: Oracle): (u: Tensor)
    requires IsTensor(x) && IsTensor(src) && IsTensor(dst) && m <= N && ValidOracle(assign)
    ensures IsTensor(u)
    ensures forall v :: 0 <= v < m ==> IsPermutationMatrix(LayerView(u, v))
    ensures forall v :: 0 <= v < m ==>
      LayerView(u, v) == HungarianProjection(K, LayerView(x, v), LayerView(src, v), assign)
    ensures forall r, c, w :: 0 <= r < N && 0 <= c < N && m <= w < N ==> u[r][c][w] == dst[r][c][w]
  {
    if m == 0 then dst
    else
      var prev := LayerPass(K, x, src, dst, m - 1, assign);
      var u := ProjectLayer(K, x, src, prev, m - 1, assign);
      LayerStepKeepsOtherLayers(K, x, src, prev, m - 1, assign);
      u
  }

  /** A full layer pass overwrites every layer, so its result does not depend
      on what W held before. */
  lemma LayerPassOverwrites(K: real, x: Tensor, src: Tensor, w1: Tensor, w2: Tensor, assign: Oracle)
    requires IsTensor(x) && IsTensor(src) && IsTensor(w1) && IsTensor(w2) && ValidOracle(assign)
    ensures LayerPass(K, x, src, w1, N, assign) == LayerPass(K, x, src, w2, N, assign)
  {
    TensorFromLayers(LayerPass(K, x, src, w1, N, assign), LayerPass(K, x, src, w2, N, assign));
  }

  /** The first m iterations of `Z[:, :, v] = Hungarian_Projection(X[:, :, v], Z[:, :, v])`,
      reading and writing the same tensor. */
  function InPlaceLayerPass(K: real, x: Tensor, z: Tensor, m: nat, assign: Oracle): (u: Tensor)
    requires IsTensor(x) && IsTensor(z) && m <= N && ValidOracle(assign)
    ensures IsTensor(u)
    ensures forall v :: 0 <= v < m ==> IsPermutationMatrix(LayerView(u, v))
    ensures forall r, c, w :: 0 <= r < N && 0 <= c < N && m <= w < N ==> u[r][c][w] == z[r][c][w]
  {
    if m == 0 then z
    else
      var prev := InPlaceLayerPass(K, x, z, m - 1, assign);
      var u := ProjectLayer(K, x, prev, prev, m - 1, assign);
      LayerStepKeepsOtherLayers(K, x, prev, prev, m - 1, assign);
      assert forall v :: 0 <= v < m - 1 ==> LayerView(u, v) == LayerView(prev, v);
      u
  }

  /** Each in-place step reads a layer no earlier step has written, so the
      in-place pass equals the pass that reads the original Z throughout. */
  lemma {:induction false} InPlaceLayerPassReadsOriginal(K: real, x: Tensor, z: Tensor, m: nat, assign: Oracle)
    requires IsTensor(x) && IsTensor(z) && m <= N && ValidOracle(assign)
    ensures InPlaceLayerPass(K, x, z, m, assign) == LayerPass(K, x, z, z, m, assign)
  {
    if m > 0 {
      InPlaceLayerPassReadsOriginal(K, x, z, m - 1, assign);
      var prev := InPlaceLayerPass(K, x, z, m - 1, assign);
      SameLayer(prev, z, m - 1);
    }
  }
}
