/** Shapes of boards, matrices and probability tensors of the 9×9 Sudoku grid,
    one-hot vectors, the index arithmetic of boxes, and pairwise distinctness. */
module Grid {

  /** Side of the board and length of every cell vector (to_onehot's default size). */
  const N: nat := 9
  /** Side of a box; the box arithmetic of the solver hard-codes it. */
  const BoxSide: nat := 3

  /** A board: 0 is an unknown cell, any other entry a clue. */
  type Board = seq<seq<int>>
  /** A 2-D constraint matrix, the operand of a projection. */
  type Matrix = seq<seq<real>>
  /** A probability tensor indexed by row, column and value index (value = index + 1). */
  type Tensor = seq<seq<seq<real>>>

  /** Why building a tensor from a board fails. */
  datatype Failure =
    | ValueOutOfRange   // a nonzero entry outside 1..N reaches to_onehot's assertion
    | NoCandidates      // an unknown cell has no value left, so its vector is 0/0

  datatype Result<T> = Ok(value: T) | Err(error: Failure)

  predicate IsBoard(b: Board) {
    |b| == N && forall i :: 0 <= i < N ==> |b[i]| == N
  }

  predicate IsMatrix(m: Matrix) {
    |m| == N && forall i :: 0 <= i < N ==> |m[i]| == N
  }

  predicate IsTensor(t: Tensor) {
    |t| == N && forall i :: 0 <= i < N ==> IsMatrix(t[i])
  }

  /** The vector with a single 1.0 at index k and 0.0 elsewhere. */
  function OneHot(k: int): (v: seq<real>)
    requires 0 <= k < N
    ensures |v| == N
    ensures v[k] == 1.0
    ensures forall j :: 0 <= j < N && j != k ==> v[j] == 0.0
  {
    seq(N, j => if j == k then 1.0 else 0.0)
  }

  ghost predicate IsOneHot(v: seq<real>) {
    exists k :: 0 <= k < N && v == OneHot(k)
  }

  /** A one-hot vector determines the position of its 1. */
  lemma OneHotInjective(k1: int, k2: int)
    requires 0 <= k1 < N && 0 <= k2 < N
    requires OneHot(k1) == OneHot(k2)
    ensures k1 == k2
  {
    assert OneHot(k2)[k1] == 1.0;
  }

  /** A vector of 0.0/1.0 entries with exactly one 1.0 is one-hot. */
  lemma OneHotFromEntries(v: seq<real>, k: int)
    requires |v| == N && 0 <= k < N
    requires v[k] == 1.0
    requires forall j :: 0 <= j < N && j != k ==> v[j] == 0.0
    ensures v == OneHot(k)
  {
  }

  // ---------------------------------------------------------------------
  // Box index maps

  /** block_to_coordinate: the cell holding entry k (row-major) of box `id`,
      with boxes numbered row-major. Python's // and % agree with Dafny's
      / and % for the positive divisor 3, so this holds for every integer. */
  function BlockToCoordinate(id: int, k: int): (cell: (int, int))
    ensures 0 <= id < N && 0 <= k < N ==> 0 <= cell.0 < N && 0 <= cell.1 < N
  {
    (3 * (id / 3) + k / 3, 3 * (id % 3) + k % 3)
  }

  /** The box number and in-box index of a cell. */
  function CoordinateToBlock(i: int, j: int): (int, int)
  {
    (3 * (i / 3) + j / 3, 3 * (i % 3) + j % 3)
  }

  /** Division by the box side, stated through the quotient and remainder. */
  lemma DivModBox(x: int, a: int, b: int)
    requires 0 <= b < BoxSide && x == BoxSide * a + b
    ensures x / BoxSide == a && x % BoxSide == b
  {
  }

  lemma BlockToCoordinateRoundTrip(id: int, k: int)
    requires 0 <= id < N && 0 <= k < N
    ensures CoordinateToBlock(BlockToCoordinate(id, k).0, BlockToCoordinate(id, k).1) == (id, k)
  {
    var (i, j) := BlockToCoordinate(id, k);
    DivModBox(i, id / 3, k / 3);
    DivModBox(j, id % 3, k % 3);
  }

  lemma CoordinateToBlockRoundTrip(i: int, j: int)
    requires 0 <= i < N && 0 <= j < N
    ensures var (id, k) := CoordinateToBlock(i, j);
      0 <= id < N && 0 <= k < N && BlockToCoordinate(id, k) == (i, j)
  {
    var (id, k) := CoordinateToBlock(i, j);
    DivModBox(id, i / 3, j / 3);
    DivModBox(k, i % 3, j % 3);
  }

  /** block_to_coordinate is a bijection between (box, index) pairs and cells. */
  lemma BlockToCoordinateBijection()
    ensures forall id, k :: 0 <= id < N && 0 <= k < N ==>
      CoordinateToBlock(BlockToCoordinate(id, k).0, BlockToCoordinate(id, k).1) == (id, k)
    ensures forall i, j :: 0 <= i < N && 0 <= j < N ==>
      var (id, k) := CoordinateToBlock(i, j);
      0 <= id < N && 0 <= k < N && BlockToCoordinate(id, k) == (i, j)
  {
    forall id, k | 0 <= id < N && 0 <= k < N
      ensures CoordinateToBlock(BlockToCoordinate(id, k).0, BlockToCoordinate(id, k).1) == (id, k)
    {
      BlockToCoordinateRoundTrip(id, k);
    }
    forall i, j | 0 <= i < N && 0 <= j < N
      ensures var (id, k) := CoordinateToBlock(i, j);
        0 <= id < N && 0 <= k < N && BlockToCoordinate(id, k) == (i, j)
    {
      CoordinateToBlockRoundTrip(i, j);
    }
  }

  /** Two cells share a box. */
  predicate SameBox(i: int, j: int, p: int, q: int) {
    i / BoxSide == p / BoxSide && j / BoxSide == q / BoxSide
  }

  /** Cell of entry k of box i in the solver's box loop: box i spans rows
      (i % 3)*3 .. (i % 3)*3 + 2 and columns (i / 3)*3 .. (i / 3)*3 + 2, and the
      reshape of that n×n×N slice to N×N puts in-box cell (a, b) at row a*3 + b. */
  function BoxCell(i: int, k: int): (cell: (int, int))
    ensures 0 <= i < N && 0 <= k < N ==> 0 <= cell.0 < N && 0 <= cell.1 < N
  {
    ((i % BoxSide) * BoxSide + k / BoxSide, (i / BoxSide) * BoxSide + k % BoxSide)
  }

  /** The box of the solver's loop that holds a cell. */
  function BoxOf(r: int, c: int): int {
    r / BoxSide + BoxSide * (c / BoxSide)
  }

  /** The row of the reshaped box matrix that holds a cell. */
  function IndexInBox(r: int, c: int): int {
    (r % BoxSide) * BoxSide + c % BoxSide
  }

  lemma BoxCellRoundTrip(i: int, k: int)
    requires 0 <= i < N && 0 <= k < N
    ensures BoxOf(BoxCell(i, k).0, BoxCell(i, k).1) == i
    ensures IndexInBox(BoxCell(i, k).0, BoxCell(i, k).1) == k
  {
    var (r, c) := BoxCell(i, k);
    DivModBox(r, i % 3, k / 3);
    DivModBox(c, i / 3, k % 3);
  }

  lemma BoxOfRoundTrip(r: int, c: int)
    requires 0 <= r < N && 0 <= c < N
    ensures 0 <= BoxOf(r, c) < N && 0 <= IndexInBox(r, c) < N
    ensures BoxCell(BoxOf(r, c), IndexInBox(r, c)) == (r, c)
  {
    DivModBox(BoxOf(r, c), c / 3, r / 3);
    DivModBox(IndexInBox(r, c), r % 3, c % 3);
  }

  /** The box loop's (box, index) ↦ cell map is a bijection onto the grid. */
  lemma BoxCellBijection()
    ensures forall i, k :: 0 <= i < N && 0 <= k < N ==>
      BoxOf(BoxCell(i, k).0, BoxCell(i, k).1) == i &&
      IndexInBox(BoxCell(i, k).0, BoxCell(i, k).1) == k
    ensures forall r, c :: 0 <= r < N && 0 <= c < N ==>
      0 <= BoxOf(r, c) < N && 0 <= IndexInBox(r, c) < N &&
      BoxCell(BoxOf(r, c), IndexInBox(r, c)) == (r, c)
  {
    forall i, k | 0 <= i < N && 0 <= k < N
      ensures BoxOf(BoxCell(i, k).0, BoxCell(i, k).1) == i
      ensures IndexInBox(BoxCell(i, k).0, BoxCell(i, k).1) == k
    {
      BoxCellRoundTrip(i, k);
    }
    forall r, c | 0 <= r < N && 0 <= c < N
      ensures 0 <= BoxOf(r, c) < N && 0 <= IndexInBox(r, c) < N
      ensures BoxCell(BoxOf(r, c), IndexInBox(r, c)) == (r, c)
    {
      BoxOfRoundTrip(r, c);
    }
  }

  /** The box loop visits box i as block_to_coordinate's box 3*(i%3) + i/3; this
      renumbering is a bijection of 0..N-1 onto itself (it is its own inverse),
      so every box is visited exactly once per pass. */
  function LoopBoxToBlock(i: int): int {
    3 * (i % 3) + i / 3
  }

  lemma BoxLoopVisitsEveryBlockOnce()
    ensures forall i :: 0 <= i < N ==> 0 <= LoopBoxToBlock(i) < N
    ensures forall i :: 0 <= i < N ==> LoopBoxToBlock(LoopBoxToBlock(i)) == i
    ensures forall i, k :: 0 <= i < N && 0 <= k < N ==>
      BoxCell(i, k) == BlockToCoordinate(LoopBoxToBlock(i), k)
  {
    forall i | 0 <= i < N
      ensures 0 <= LoopBoxToBlock(i) < N && LoopBoxToBlock(LoopBoxToBlock(i)) == i
    {
      DivModBox(LoopBoxToBlock(i), i % 3, i / 3);
    }
    forall i, k | 0 <= i < N && 0 <= k < N
      ensures BoxCell(i, k) == BlockToCoordinate(LoopBoxToBlock(i), k)
    {
      var id := LoopBoxToBlock(i);
      DivModBox(id, i % 3, i / 3);
      assert id / 3 == i % 3 && id % 3 == i / 3;
    }
  }

  // ---------------------------------------------------------------------
  // Distinctness

  predicate Distinct<T(==)>(s: seq<T>) {
    forall x, y :: 0 <= x < y < |s| ==> s[x] != s[y]
  }

  /** The set of entries, as np.unique computes it. */
  function Elements<T>(s: seq<T>): set<T> {
    set x | x in s
  }

  /** A sequence has pairwise-distinct entries iff it has as many distinct
      entries as positions. */
  lemma {:induction false} DistinctIffElementCount<T>(s: seq<T>)
    ensures |Elements(s)| <= |s|
    ensures Distinct(s) <==> |Elements(s)| == |s|
  {
    if |s| == 0 {
      assert Elements(s) == {};
    } else {
      var t := s[..|s| - 1];
      var last := s[|s| - 1];
      assert s == t + [last];
      DistinctIffElementCount(t);
      assert Elements(s) == Elements(t) + {last};
      if last in Elements(t) {
        assert Elements(s) == Elements(t);
        var x :| 0 <= x < |t| && t[x] == last;
        assert s[x] == s[|s| - 1];
        assert !Distinct(s);
      } else {
        assert |Elements(s)| == |Elements(t)| + 1;
        if Distinct(t) {
          forall x, y | 0 <= x < y < |s| ensures s[x] != s[y] {
            if y == |s| - 1 {
              assert t[x] in Elements(t);
            } else {
              assert s[x] == t[x] && s[y] == t[y];
            }
          }
        } else {
          var x, y :| 0 <= x < y < |t| && t[x] == t[y];
          assert s[x] == s[y];
        }
      }
    }
  }

  /** The set {0, ..., n-1}. */
  function Range(n: nat): (r: set<int>)
    ensures forall x :: x in r <==> 0 <= x < n
  {
    if n == 0 then {} else Range(n - 1) + {n - 1}
  }

  lemma {:induction false} RangeSize(n: nat)
    ensures |Range(n)| == n
  {
    if n > 0 {
      RangeSize(n - 1);
      assert n - 1 !in Range(n - 1);
    }
  }

  /** Pigeonhole: N pairwise-distinct entries drawn from 0..N-1 cover all of 0..N-1. */
  lemma DistinctInRangeIsOnto(s: seq<int>, c: int)
    requires |s| == N && Distinct(s)
    requires forall i :: 0 <= i < N ==> 0 <= s[i] < N
    requires 0 <= c < N
    ensures exists i :: 0 <= i < N && s[i] == c
  {
    DistinctIffElementCount(s);
    if c !in Elements(s) {
      ElementsAvoiding(s, N, c);
      RangeWithout(N, c);
      SubsetSize(Elements(s), Range(N) - {c});
      assert false;
    }
  }

  lemma ElementsAvoiding(s: seq<int>, n: nat, c: int)
    requires forall i :: 0 <= i < |s| ==> 0 <= s[i] < n
    requires c !in Elements(s)
    ensures Elements(s) <= Range(n) - {c}
  {
    forall x | x in Elements(s) ensures x in Range(n) - {c} {
      var i :| 0 <= i < |s| && s[i] == x;
    }
  }

  lemma RangeWithout(n: nat, c: int)
    requires 0 <= c < n
    ensures |Range(n) - {c}| == n - 1
  {
    RangeSize(n);
    assert Range(n) == (Range(n) - {c}) + {c};
  }

  lemma SubsetSize<T>(a: set<T>, b: set<T>)
    requires a <= b
    ensures |a| <= |b|
  {
    assert b == a + (b - a);
  }
}
