/** Hungarian_Projection: the hard-assignment projection of an N×N matrix onto
    the permutation matrices. The linear assignment solver is a parameter: an
    oracle that maps a benefit matrix to the column chosen for each row. */
module Assignment {
  import opened Grid

  /** A bijection of 0..N-1, given as the column p[i] assigned to row i. */
  predicate IsPermutation(p: seq<int>) {
    |p| == N && (forall i :: 0 <= i < N ==> 0 <= p[i] < N) && Distinct(p)
  }

  /** linear_sum_assignment on a square matrix: its row indices are 0..N-1 in
      order, so the answer is the sequence of column indices. */
  type Oracle = Matrix -> seq<int>

  /** The solver answers every N×N benefit matrix with a permutation. */
  ghost predicate ValidOracle(assign: Oracle) {
    forall m :: IsMatrix(m) ==> IsPermutation(assign(m))
  }

  function MatColumn(m: Matrix, j: int): (c: seq<real>)
    requires IsMatrix(m) && 0 <= j < N
    ensures |c| == N && forall i :: 0 <= i < N ==> c[i] == m[i][j]
  {
    seq(N, i requires 0 <= i < N => m[i][j])
  }

  /** A 0/1 matrix with exactly one 1 in each row and in each column. */
  ghost predicate IsPermutationMatrix(m: Matrix) {
    && IsMatrix(m)
    && (forall i :: 0 <= i < N ==> IsOneHot(m[i]))
    && (forall j :: 0 <= j < N ==> IsOneHot(MatColumn(m, j)))
  }

  /** The 0/1 matrix with a 1 at (i, p[i]) for every row i. */
  function PermutationMatrix(p: seq<int>): (m: Matrix)
    requires IsPermutation(p)
    ensures IsPermutationMatrix(m)
    ensures forall i, j :: 0 <= i < N && 0 <= j < N ==> (m[i][j] == 1.0 <==> p[i] == j)
    ensures forall i, j :: 0 <= i < N && 0 <= j < N ==> (m[i][j] == 0.0 || m[i][j] == 1.0)
  {
    var m := seq(N, i requires 0 <= i < N => OneHot(p[i]));
    ColumnsOfPermutationMatrix(p, m);
    m
  }

  /** Each column of the matrix of a permutation has its single 1 in the row
      the permutation maps onto that column. */
  lemma ColumnsOfPermutationMatrix(p: seq<int>, m: Matrix)
    requires IsPermutation(p)
    requires IsMatrix(m) && forall i :: 0 <= i < N ==> m[i] == OneHot(p[i])
    ensures forall j :: 0 <= j < N ==> IsOneHot(MatColumn(m, j))
  {
    forall j | 0 <= j < N ensures IsOneHot(MatColumn(m, j)) {
      DistinctInRangeIsOnto(p, j);
      var i :| 0 <= i < N && p[i] == j;
      var c := MatColumn(m, j);
      forall i' | 0 <= i' < N && i' != i ensures c[i'] == 0.0 {
        assert p[i'] != p[i];
      }
      OneHotFromEntries(c, i);
    }
  }

  /** The position of the 1 of a one-hot vector. */
  ghost function HotIndex(v: seq<real>): (k: int)
    requires IsOneHot(v)
    ensures 0 <= k < N && v == OneHot(k)
  {
    var k :| 0 <= k < N && v == OneHot(k); k
  }

  /** Reading off the 1 of every row of a permutation matrix gives a permutation,
      and the matrix is that permutation's matrix. */
  lemma PermutationOfMatrix(m: Matrix)
    requires IsPermutationMatrix(m)
    ensures var p := seq(N, i requires 0 <= i < N => HotIndex(m[i]));
      IsPermutation(p) && m == PermutationMatrix(p)
  {
    var p := seq(N, i requires 0 <= i < N => HotIndex(m[i]));
    forall a, b | 0 <= a < b < N ensures p[a] != p[b] {
      var r := HotIndex(MatColumn(m, p[a]));
    }
    assert IsPermutation(p);
    assert forall i :: 0 <= i < N ==> m[i] == PermutationMatrix(p)[i];
  }

  // ---------------------------------------------------------------------
  // Benefit matrix

  /** W_2d + X_2d * K, computed on a copy: the operands are values and stay as they were. */
  function Benefit(K: real, x: Matrix, w: Matrix): (b: Matrix)
    requires IsMatrix(x) && IsMatrix(w)
    ensures IsMatrix(b)
  {
    seq(N, i requires 0 <= i < N => seq(N, j requires 0 <= j < N => w[i][j] + x[i][j] * K))
  }

  /** Total benefit of the first n rows under the row-to-column map p. */
  function Total(m: Matrix, p: seq<int>, n: nat): real
    requires IsMatrix(m) && IsPermutation(p) && n <= N
  {
    if n == 0 then 0.0 else Total(m, p, n - 1) + m[n - 1][p[n - 1]]
  }

  /** The benefit of an assignment under W + K·X is its benefit under W plus K
      times its benefit under X: K weights agreement with X against W. */
  lemma {:induction false} BenefitSplits(K: real, x: Matrix, w: Matrix, p: seq<int>, n: nat)
    requires IsMatrix(x) && IsMatrix(w) && IsPermutation(p) && n <= N
    ensures Total(Benefit(K, x, w), p, n) == Total(w, p, n) + K * Total(x, p, n)
  {
    if n > 0 {
      BenefitSplits(K, x, w, p, n - 1);
    }
  }

  /** The solver maximises total benefit over all permutations. */
  ghost predicate MaximisesBenefit(assign: Oracle) {
    ValidOracle(assign) &&
    forall m, p :: IsMatrix(m) && IsPermutation(p) ==> Total(m, p, N) <= Total(m, assign(m), N)
  }

  // ---------------------------------------------------------------------
  // The projection

  /** Hungarian_Projection with weight K: the permutation matrix of the
      assignment the solver picks for W + K·X. */
  function HungarianProjection(K: real, x: Matrix, w: Matrix, assign: Oracle): (z: Matrix)
    requires IsMatrix(x) && IsMatrix(w)
    requires IsPermutation(assign(Benefit(K, x, w)))
    ensures IsPermutationMatrix(z)
    ensures forall i, j :: 0 <= i < N && 0 <= j < N ==> (z[i][j] == 0.0 || z[i][j] == 1.0)
    ensures forall i, j :: 0 <= i < N && 0 <= j < N ==>
      (z[i][j] == 1.0 <==> assign(Benefit(K, x, w))[i] == j)
  {
    PermutationMatrix(assign(Benefit(K, x, w)))
  }

  /** With a maximising solver, the selected permutation maximises the benefit
      under W plus K times the agreement with X, among all permutations. */
  lemma ProjectionMaximisesWeightedAgreement(K: real, x: Matrix, w: Matrix, assign: Oracle, q: seq<int>)
    requires IsMatrix(x) && IsMatrix(w) && MaximisesBenefit(assign)
    requires IsPermutation(q)
    ensures var p := assign(Benefit(K, x, w));
      IsPermutation(p) &&
      Total(w, q, N) + K * Total(x, q, N) <= Total(w, p, N) + K * Total(x, p, N)
  {
    var p := assign(Benefit(K, x, w));
    BenefitSplits(K, x, w, p, N);
    BenefitSplits(K, x, w, q, N);
  }
}
