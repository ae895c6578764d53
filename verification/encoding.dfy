/** Conversion between a board and its probability tensor: to_onehot,
    convert_to_3d_repr and the arg-max decoder convert_to_board. */
module Encoding {
  import opened Grid

  /** to_onehot: the probability vector of a value 1..N, with its 1 at index x - 1. */
  function ToOnehot(x: int): (v: seq<real>)
    requires 1 <= x <= N
    ensures |v| == N && IsOneHot(v)
    ensures v[x - 1] == 1.0
    ensures forall j :: 0 <= j < N && j != x - 1 ==> v[j] == 0.0
  {
    OneHot(x - 1)
  }

  /** Every entry of the board lies in 1..N. */
  predicate AllInRange(b: Board)
    requires IsBoard(b)
  {
    forall i, j :: 0 <= i < N && 0 <= j < N ==> 1 <= b[i][j] <= N
  }

  /** convert_to_3d_repr: the one-hot encoding of a board with no unknown cell;
      an entry outside 1..N fails to_onehot's assertion. */
  function ConvertTo3d(b: Board): (r: Result<Tensor>)
    requires IsBoard(b)
    ensures r.Ok? <==> AllInRange(b)
    ensures r.Ok? ==> IsTensor(r.value)
    ensures r.Ok? ==> forall i, j :: 0 <= i < N && 0 <= j < N ==>
      r.value[i][j][b[i][j] - 1] == 1.0 &&
      forall v :: 0 <= v < N && v != b[i][j] - 1 ==> r.value[i][j][v] == 0.0
  {
    if AllInRange(b) then
      Ok(seq(N, i requires 0 <= i < N => seq(N, j requires 0 <= j < N => ToOnehot(b[i][j]))))
    else
      Err(ValueOutOfRange)
  }

  /** np.argmax: the first index of a maximal entry. */
  function ArgMax(v: seq<real>): (k: nat)
    requires |v| > 0
    ensures k < |v|
    ensures forall j :: 0 <= j < |v| ==> v[j] <= v[k]
    ensures forall j :: 0 <= j < k ==> v[j] < v[k]
  {
    if |v| == 1 then 0
    else
      var k := ArgMax(v[..|v| - 1]);
      if v[k] < v[|v| - 1] then |v| - 1 else k
  }

  /** The two properties of ArgMax's contract single out one index: a maximal
      entry with every earlier entry strictly smaller. */
  lemma ArgMaxUnique(v: seq<real>, k: nat)
    requires k < |v|
    requires forall j :: 0 <= j < |v| ==> v[j] <= v[k]
    requires forall j :: 0 <= j < k ==> v[j] < v[k]
    ensures ArgMax(v) == k
  {
  }

  /** Decoding a one-hot vector returns the position of its 1. */
  lemma ArgMaxOneHot(k: int)
    requires 0 <= k < N
    ensures ArgMax(OneHot(k)) == k
  {
    ArgMaxUnique(OneHot(k), k);
  }

  /** convert_to_board: each cell becomes 1 + the first index of the maximum of its vector. */
  function ConvertToBoard(t: Tensor): (b: Board)
    requires IsTensor(t)
    ensures IsBoard(b)
    ensures forall i, j :: 0 <= i < N && 0 <= j < N ==>
      1 <= b[i][j] <= N &&
      (forall v :: 0 <= v < N ==> t[i][j][v] <= t[i][j][b[i][j] - 1]) &&
      (forall v :: 0 <= v < b[i][j] - 1 ==> t[i][j][v] < t[i][j][b[i][j] - 1])
  {
    seq(N, i requires 0 <= i < N => seq(N, j requires 0 <= j < N => ArgMax(t[i][j]) + 1))
  }

  /** A one-hot cell decodes to one more than the position of its 1. */
  lemma DecodeOneHotCell(t: Tensor, i: int, j: int, v: int)
    requires IsTensor(t) && 0 <= i < N && 0 <= j < N && 0 <= v < N
    requires t[i][j] == OneHot(v)
    ensures ConvertToBoard(t)[i][j] == v + 1
  {
    ArgMaxOneHot(v);
  }

  /** Round trip: decoding the encoding of a board with entries in 1..N gives the board back. */
  lemma DecodeEncode(b: Board)
    requires IsBoard(b) && AllInRange(b)
    ensures ConvertTo3d(b).Ok?
    ensures ConvertToBoard(ConvertTo3d(b).value) == b
  {
    var t := ConvertTo3d(b).value;
    var d := ConvertToBoard(t);
    forall i, j | 0 <= i < N && 0 <= j < N ensures d[i][j] == b[i][j] {
      DecodeOneHotCell(t, i, j, b[i][j] - 1);
    }
    assert forall i :: 0 <= i < N ==> d[i] == b[i];
  }

  /** Round trip the other way: a tensor whose every cell is one-hot is the
      encoding of its own decoding. */
  lemma EncodeDecode(t: Tensor)
    requires IsTensor(t)
    requires forall i, j :: 0 <= i < N && 0 <= j < N ==> IsOneHot(t[i][j])
    ensures ConvertTo3d(ConvertToBoard(t)) == Ok(t)
  {
    var b := ConvertToBoard(t);
    assert AllInRange(b);
    var e := ConvertTo3d(b).value;
    forall i, j | 0 <= i < N && 0 <= j < N ensures e[i][j] == t[i][j] {
      var v :| 0 <= v < N && t[i][j] == OneHot(v);
      DecodeOneHotCell(t, i, j, v);
    }
    assert forall i :: 0 <= i < N ==> e[i] == t[i];
    assert e == t;
  }
}
