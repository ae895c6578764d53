/** Views of a probability tensor as N×N constraint matrices, their scatter
    back into the tensor, binarisation, and elementwise arithmetic. A row view is
    t[i] itself and its write-back is t[i := m]. */
module TensorOps {
  import opened Grid
  import opened Init

  // ---------------------------------------------------------------------
  // Column groups: Z[:, j] has one row per board row and one column per value

  function ColumnView(t: Tensor, j: int): (m: Matrix)
    requires IsTensor(t) && 0 <= j < N
    ensures IsMatrix(m)
    ensures forall r :: 0 <= r < N ==> m[r] == t[r][j]
  {
    seq(N, r requires 0 <= r < N => t[r][j])
  }

  /** Z[:, j] = m */
  function SetColumn(t: Tensor, j: int, m: Matrix): (u: Tensor)
    requires IsTensor(t) && IsMatrix(m) && 0 <= j < N
    ensures IsTensor(u)
    ensures ColumnView(u, j) == m
    ensures forall r, c :: 0 <= r < N && 0 <= c < N && c != j ==> u[r][c] == t[r][c]
  {
    var u := seq(N, r requires 0 <= r < N => t[r][j := m[r]]);
    assert forall r :: 0 <= r < N ==> ColumnView(u, j)[r] == m[r];
    u
  }

  /** Writing a column back unchanged leaves the tensor as it was. */
  lemma SetColumnOwnView(t: Tensor, j: int)
    requires IsTensor(t) && 0 <= j < N
    ensures SetColumn(t, j, ColumnView(t, j)) == t
  {
    var u := SetColumn(t, j, ColumnView(t, j));
    assert forall r :: 0 <= r < N ==> u[r] == t[r];
  }

  // ---------------------------------------------------------------------
  // Box groups: Z[(i%3)*3 : (i%3)*3+3, (i/3)*3 : (i/3)*3+3].reshape(N, N)

  /** The reshape of box i: row k of the matrix is the vector of in-box cell k. */
  function BoxView(t: Tensor, i: int): (m: Matrix)
    requires IsTensor(t) && 0 <= i < N
    ensures IsMatrix(m)
    ensures forall k :: 0 <= k < N ==> m[k] == t[BoxCell(i, k).0][BoxCell(i, k).1]
  {
    seq(N, k requires 0 <= k < N => t[BoxCell(i, k).0][BoxCell(i, k).1])
  }

  /** Z[box i] = m.reshape(n, n, N): every cell of box i takes its row of m. */
  function SetBox(t: Tensor, i: int, m: Matrix): (u: Tensor)
    requires IsTensor(t) && IsMatrix(m) && 0 <= i < N
    ensures IsTensor(u)
    ensures BoxView(u, i) == m
    ensures forall r, c :: 0 <= r < N && 0 <= c < N && BoxOf(r, c) != i ==> u[r][c] == t[r][c]
  {
    var u := seq(N, r requires 0 <= r < N => seq(N, c requires 0 <= c < N =>
      if BoxOf(r, c) == i then m[IndexInBox(r, c)] else t[r][c]));
    forall r, c | 0 <= r < N && 0 <= c < N ensures 0 <= IndexInBox(r, c) < N {
      BoxOfRoundTrip(r, c);
    }
    forall k | 0 <= k < N ensures BoxView(u, i)[k] == m[k] {
      BoxCellRoundTrip(i, k);
    }
    u
  }

  /** Writing box j leaves the view of every other box as it was. */
  lemma SetBoxKeepsOtherBoxes(t: Tensor, i: int, m: Matrix, j: int)
    requires IsTensor(t) && IsMatrix(m) && 0 <= i < N && 0 <= j < N && i != j
    ensures BoxView(SetBox(t, i, m), j) == BoxView(t, j)
  {
    BoxCellBijection();
    var u := SetBox(t, i, m);
    assert forall k :: 0 <= k < N ==> BoxView(u, j)[k] == BoxView(t, j)[k];
  }

  /** Writing a box back unchanged leaves the tensor as it was. */
  lemma SetBoxOwnView(t: Tensor, i: int)
    requires IsTensor(t) && 0 <= i < N
    ensures SetBox(t, i, BoxView(t, i)) == t
  {
    BoxCellBijection();
    var u := SetBox(t, i, BoxView(t, i));
    forall r | 0 <= r < N ensures u[r] == t[r] {
      assert forall c :: 0 <= c < N ==> u[r][c] == t[r][c];
    }
  }

  /** Every cell vector is a row of the view of the box that holds it. */
  lemma CellInBoxView(t: Tensor, r: int, c: int)
    requires IsTensor(t) && 0 <= r < N && 0 <= c < N
    ensures 0 <= BoxOf(r, c) < N && 0 <= IndexInBox(r, c) < N
    ensures t[r][c] == BoxView(t, BoxOf(r, c))[IndexInBox(r, c)]
  {
    BoxCellBijection();
  }

  // ---------------------------------------------------------------------
  // Value layers: Z[:, :, v] over (row, column)

  function LayerView(t: Tensor, v: int): (m: Matrix)
    requires IsTensor(t) && 0 <= v < N
    ensures IsMatrix(m)
    ensures forall r, c :: 0 <= r < N && 0 <= c < N ==> m[r][c] == t[r][c][v]
  {
    seq(N, r requires 0 <= r < N => seq(N, c requires 0 <= c < N => t[r][c][v]))
  }

  /** Z[:, :, v] = m */
  function SetLayer(t: Tensor, v: int, m: Matrix): (u: Tensor)
    requires IsTensor(t) && IsMatrix(m) && 0 <= v < N
    ensures IsTensor(u)
    ensures LayerView(u, v) == m
    ensures forall r, c, w :: 0 <= r < N && 0 <= c < N && 0 <= w < N && w != v ==>
      u[r][c][w] == t[r][c][w]
  {
    var u := seq(N, r requires 0 <= r < N => seq(N, c requires 0 <= c < N => t[r][c][v := m[r][c]]));
    forall r | 0 <= r < N ensures LayerView(u, v)[r] == m[r] {
      assert forall c :: 0 <= c < N ==> LayerView(u, v)[r][c] == m[r][c];
    }
    u
  }

  /** Writing a layer back unchanged leaves the tensor as it was. */
  lemma SetLayerOwnView(t: Tensor, v: int)
    requires IsTensor(t) && 0 <= v < N
    ensures SetLayer(t, v, LayerView(t, v)) == t
  {
    var u := SetLayer(t, v, LayerView(t, v));
    forall r | 0 <= r < N ensures u[r] == t[r] {
      forall c | 0 <= c < N ensures u[r][c] == t[r][c] {
        assert forall w :: 0 <= w < N ==> u[r][c][w] == t[r][c][w];
      }
    }
  }

  /** Two tensors that agree on value index v have the same layer v. */
  lemma SameLayer(t: Tensor, u: Tensor, v: int)
    requires IsTensor(t) && IsTensor(u) && 0 <= v < N
    requires forall r, c :: 0 <= r < N && 0 <= c < N ==> t[r][c][v] == u[r][c][v]
    ensures LayerView(t, v) == LayerView(u, v)
  {
    forall r | 0 <= r < N ensures LayerView(t, v)[r] == LayerView(u, v)[r] {
      assert forall c :: 0 <= c < N ==> LayerView(t, v)[r][c] == LayerView(u, v)[r][c];
    }
  }

  /** Two tensors with the same value layers are equal. */
  lemma TensorFromLayers(t: Tensor, u: Tensor)
    requires IsTensor(t) && IsTensor(u)
    requires forall v :: 0 <= v < N ==> LayerView(t, v) == LayerView(u, v)
    ensures t == u
  {
    forall r | 0 <= r < N ensures t[r] == u[r] {
      forall c | 0 <= c < N ensures t[r][c] == u[r][c] {
        forall w | 0 <= w < N ensures t[r][c][w] == u[r][c][w] {
          assert LayerView(t, w)[r][c] == LayerView(u, w)[r][c];
        }
      }
    }
  }

  // ---------------------------------------------------------------------
  // Elementwise operations

  /** np.where(X < 1, 0.0, X) */
  function Binarize(t: Tensor): (u: Tensor)
    requires IsTensor(t)
    ensures IsTensor(u)
    ensures forall r, c, v :: 0 <= r < N && 0 <= c < N && 0 <= v < N ==>
      u[r][c][v] == if t[r][c][v] < 1.0 then 0.0 else t[r][c][v]
  {
    seq(N, r requires 0 <= r < N => seq(N, c requires 0 <= c < N => seq(N, v requires 0 <= v < N =>
      if t[r][c][v] < 1.0 then 0.0 else t[r][c][v])))
  }

  /** An entry of the initial encoding reaches 1 exactly at a clue value or at
      the only open value of an unknown cell. */
  lemma InitEntryIsOne(b: Board, r: int, c: int, v: int)
    requires IsBoard(b) && InitFromBoard(b).Ok?
    requires 0 <= r < N && 0 <= c < N && 0 <= v < N
    ensures InitFromBoard(b).value[r][c][v] <= 1.0
    ensures InitFromBoard(b).value[r][c][v] >= 1.0 <==>
      b[r][c] == v + 1 || (b[r][c] == 0 && CandidateCount(b, r, c, N) == 1 && IsCandidate(b, r, c, v))
  {
    var t := InitFromBoard(b).value;
    if b[r][c] == 0 {
      InitUnknownCells(b, r, c);
      var n := CandidateCount(b, r, c, N);
      if IsCandidate(b, r, c, v) {
        Reciprocal(n);
      }
    } else {
      InitClueCells(b, r, c);
    }
  }

  /** For a positive count n, 1/n is at most 1 and reaches 1 only at n = 1. */
  lemma Reciprocal(n: int)
    requires n > 0
    ensures 1.0 / (n as real) <= 1.0
    ensures 1.0 / (n as real) >= 1.0 <==> n == 1
  {
    var x := n as real;
    assert x >= 1.0;
    if n > 1 {
      assert x * (1.0 / x) == 1.0;
      assert 1.0 / x < 1.0;
    }
  }

  /** Binarising the initial encoding leaves a 0/1 tensor whose ones are the
      clue values and the single open value of every unknown cell that has one. */
  lemma BinarizeInit(b: Board)
    requires IsBoard(b) && InitFromBoard(b).Ok?
    ensures var x := Binarize(InitFromBoard(b).value);
      forall r, c, v :: 0 <= r < N && 0 <= c < N && 0 <= v < N ==>
        (x[r][c][v] == 0.0 || x[r][c][v] == 1.0) &&
        (x[r][c][v] == 1.0 <==> InitFromBoard(b).value[r][c][v] >= 1.0) &&
        (x[r][c][v] == 1.0 <==>
          b[r][c] == v + 1 ||
          (b[r][c] == 0 && CandidateCount(b, r, c, N) == 1 && IsCandidate(b, r, c, v)))
  {
    var t := InitFromBoard(b).value;
    var x := Binarize(t);
    forall r, c, v | 0 <= r < N && 0 <= c < N && 0 <= v < N
      ensures (x[r][c][v] == 0.0 || x[r][c][v] == 1.0)
      ensures (x[r][c][v] == 1.0 <==> t[r][c][v] >= 1.0)
      ensures (x[r][c][v] == 1.0 <==>
          b[r][c] == v + 1 ||
          (b[r][c] == 0 && CandidateCount(b, r, c, N) == 1 && IsCandidate(b, r, c, v)))
    {
      InitEntryIsOne(b, r, c, v);
    }
  }

  function Sub(a: Tensor, b: Tensor): (u: Tensor)
    requires IsTensor(a) && IsTensor(b)
    ensures IsTensor(u)
    ensures forall r, c, v :: 0 <= r < N && 0 <= c < N && 0 <= v < N ==>
      u[r][c][v] == a[r][c][v] - b[r][c][v]
  {
    seq(N, r requires 0 <= r < N => seq(N, c requires 0 <= c < N => seq(N, v requires 0 <= v < N =>
      a[r][c][v] - b[r][c][v])))
  }

  function Add(a: Tensor, b: Tensor): (u: Tensor)
    requires IsTensor(a) && IsTensor(b)
    ensures IsTensor(u)
    ensures forall r, c, v :: 0 <= r < N && 0 <= c < N && 0 <= v < N ==>
      u[r][c][v] == a[r][c][v] + b[r][c][v]
  {
    seq(N, r requires 0 <= r < N => seq(N, c requires 0 <= c < N => seq(N, v requires 0 <= v < N =>
      a[r][c][v] + b[r][c][v])))
  }

  /** np.zeros_like(Z) */
  function Zeros(): (u: Tensor)
    ensures IsTensor(u)
    ensures forall r, c, v :: 0 <= r < N && 0 <= c < N && 0 <= v < N ==> u[r][c][v] == 0.0
  {
    seq(N, r => seq(N, c => seq(N, v => 0.0)))
  }
}
