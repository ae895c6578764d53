/** The validators of a finished board: check_board (uniqueness in rows,
    columns and boxes) and constraints_helper (clue preservation). */
module Validate {
  import opened Grid

  function Column(b: Board, j: int): (c: seq<int>)
    requires IsBoard(b) && 0 <= j < N
    ensures |c| == N && forall r :: 0 <= r < N ==> c[r] == b[r][j]
  {
    seq(N, r requires 0 <= r < N => b[r][j])
  }

  /** The entries of box `id`, in the order block_to_coordinate visits them. */
  function Block(b: Board, id: int): (s: seq<int>)
    requires IsBoard(b) && 0 <= id < N
    ensures |s| == N
    ensures forall k :: 0 <= k < N ==>
      s[k] == b[BlockToCoordinate(id, k).0][BlockToCoordinate(id, k).1]
  {
    seq(N, k requires 0 <= k < N => b[BlockToCoordinate(id, k).0][BlockToCoordinate(id, k).1])
  }

  /** Every row, every column and every box has pairwise-distinct entries.
      Whether the entries lie in 1..N is not part of it. */
  ghost predicate IsValidBoard(b: Board)
    requires IsBoard(b)
  {
    && (forall i :: 0 <= i < N ==> Distinct(b[i]))
    && (forall j :: 0 <= j < N ==> Distinct(Column(b, j)))
    && (forall id :: 0 <= id < N ==> Distinct(Block(b, id)))
  }

  /** s holds each of 1..N exactly once. */
  ghost predicate HoldsEachValueOnce(s: seq<int>) {
    && |s| == N
    && Distinct(s)
    && (forall k :: 0 <= k < N ==> 1 <= s[k] <= N)
    && (forall v :: 1 <= v <= N ==> v in s)
  }

  /** check_board: compares the number of distinct entries (np.unique) of each
      row, column and box with its length. */
  method CheckBoard(b: Board) returns (flag: bool)
    requires IsBoard(b)
    ensures flag <==> IsValidBoard(b)
  {
    flag := true;
    for row := 0 to N
      invariant flag <==> forall i :: 0 <= i < row ==> Distinct(b[i])
    {
      DistinctIffElementCount(b[row]);
      if |Elements(b[row])| != |b[row]| {
        flag := false;
      }
    }
    for col := 0 to N
      invariant flag <==>
        (forall i :: 0 <= i < N ==> Distinct(b[i])) &&
        (forall j :: 0 <= j < col ==> Distinct(Column(b, j)))
    {
      var column := Column(b, col);
      DistinctIffElementCount(column);
      if |Elements(column)| != |column| {
        flag := false;
      }
    }
    for blockId := 0 to N
      invariant flag <==>
        (forall i :: 0 <= i < N ==> Distinct(b[i])) &&
        (forall j :: 0 <= j < N ==> Distinct(Column(b, j))) &&
        (forall id :: 0 <= id < blockId ==> Distinct(Block(b, id)))
    {
      var temp := Block(b, blockId);
      DistinctIffElementCount(temp);
      if |Elements(temp)| != |temp| {
        flag := false;
      }
    }
  }

  /** Z keeps every clue of X: wherever X is nonzero, Z holds the same entry. */
  ghost predicate PreservesClues(x: Board, z: Board)
    requires IsBoard(x) && IsBoard(z)
  {
    forall i, j :: 0 <= i < N && 0 <= j < N && x[i][j] != 0 ==> z[i][j] == x[i][j]
  }

  /** constraints_helper: 1 when Z keeps every clue of X, 0 at the first cell
      (row-major) where it does not. */
  method ConstraintsHelper(x: Board, z: Board) returns (r: int)
    requires IsBoard(x) && IsBoard(z)
    ensures r == 0 || r == 1
    ensures r == 1 <==> PreservesClues(x, z)
  {
    for i := 0 to N
      invariant forall i', j :: 0 <= i' < i && 0 <= j < N && x[i'][j] != 0 ==> z[i'][j] == x[i'][j]
    {
      for j := 0 to N
        invariant forall i', j' :: 0 <= i' < i && 0 <= j' < N && x[i'][j'] != 0 ==> z[i'][j'] == x[i'][j']
        invariant forall j' :: 0 <= j' < j && x[i][j'] != 0 ==> z[i][j'] == x[i][j']
      {
        if x[i][j] != 0 && x[i][j] != z[i][j] {
          return 0;
        }
      }
    }
    return 1;
  }
}
