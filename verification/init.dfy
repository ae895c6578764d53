/** init_from_board: the initial probability tensor of a puzzle. Clue cells are
    one-hot; an unknown cell is uniform over the values that no clue in its row,
    column or box already uses. */
module Init {
  import opened Grid
  import opened Encoding

  /** Every entry is 0 (unknown) or a value 1..N; any other entry fails
      to_onehot's assertion in the first pass. */
  predicate CluesInRange(b: Board)
    requires IsBoard(b)
  {
    forall i, j :: 0 <= i < N && 0 <= j < N ==> 0 <= b[i][j] <= N
  }

  /** Cell (p, q) lies in the row, the column or the box of cell (i, j). */
  predicate Sees(i: int, j: int, p: int, q: int) {
    p == i || q == j || SameBox(i, j, p, q)
  }

  /** Value index v is still open at cell (p, q): no clue v + 1 lies in the same
      row, column or box. */
  ghost predicate IsCandidate(b: Board, p: int, q: int, v: int)
    requires IsBoard(b)
  {
    forall i, j :: 0 <= i < N && 0 <= j < N && Sees(i, j, p, q) ==> b[i][j] != v + 1
  }

  /** The number of open value indices below k at cell (p, q). */
  ghost function CandidateCount(b: Board, p: int, q: int, k: nat): (c: nat)
    requires IsBoard(b)
    ensures c <= k
    ensures c == 0 <==> forall v :: 0 <= v < k ==> !IsCandidate(b, p, q, v)
  {
    if k == 0 then 0
    else CandidateCount(b, p, q, k - 1) + (if IsCandidate(b, p, q, k - 1) then 1 else 0)
  }

  // ---------------------------------------------------------------------
  // First pass: the elimination array temp_3d_arr

  /** The all-ones tensor temp_3d_arr starts as. */
  function Ones(): (t: Tensor)
    ensures IsTensor(t)
    ensures forall p, q, w :: 0 <= p < N && 0 <= q < N && 0 <= w < N ==> t[p][q][w] == 1.0
  {
    seq(N, p => seq(N, q => seq(N, w => 1.0)))
  }

  /** temp[p][q][v] = 0 */
  function Clear(t: Tensor, p: int, q: int, v: int): (r: Tensor)
    requires IsTensor(t) && 0 <= p < N && 0 <= q < N && 0 <= v < N
    ensures IsTensor(r)
    ensures forall p', q', w :: 0 <= p' < N && 0 <= q' < N && 0 <= w < N ==>
      r[p'][q'][w] == if p' == p && q' == q && w == v then 0.0 else t[p'][q'][w]
  {
    t[p := t[p][q := t[p][q][v := 0.0]]]
  }

  /** The first k rounds of the inner loop for a clue with value index v at
      (i, j): round k' clears v at (i, k'), at (k', j) and at the k'-th cell of
      the clue's box. */
  function ClearUpTo(t: Tensor, i: int, j: int, v: int, k: nat): (r: Tensor)
    requires IsTensor(t) && 0 <= i < N && 0 <= j < N && 0 <= v < N && k <= N
    ensures IsTensor(r)
    ensures forall p, q, w :: 0 <= p < N && 0 <= q < N && 0 <= w < N ==>
      (r[p][q][w] == 0.0 || r[p][q][w] == t[p][q][w]) &&
      (w != v ==> r[p][q][w] == t[p][q][w])
  {
    if k == 0 then t
    else
      var s := ClearUpTo(t, i, j, v, k - 1);
      var k' := k - 1;
      var s1 := Clear(s, i, k', v);
      var s2 := Clear(s1, k', j, v);
      Clear(s2, 3 * (i / 3) + k' / 3, 3 * (j / 3) + k' % 3, v)
  }

  /** Cell (p, q) is among those the first k rounds of the inner loop clear for
      a clue at (i, j). */
  predicate Reached(i: int, j: int, p: int, q: int, k: int) {
    (p == i && 0 <= q < k) ||
    (q == j && 0 <= p < k) ||
    (SameBox(i, j, p, q) && IndexInBox(p, q) < k)
  }

  /** The k'-th cell of the box of (i, j) is (p, q) iff (p, q) shares that box
      and sits at in-box index k'. */
  lemma InBoxIndex(i: int, j: int, p: int, q: int, k': int)
    requires 0 <= i < N && 0 <= j < N && 0 <= p < N && 0 <= q < N && 0 <= k' < N
    ensures (p == 3 * (i / 3) + k' / 3 && q == 3 * (j / 3) + k' % 3) <==>
            (SameBox(i, j, p, q) && IndexInBox(p, q) == k')
  {
    if p == 3 * (i / 3) + k' / 3 && q == 3 * (j / 3) + k' % 3 {
      DivModBox(p, i / 3, k' / 3);
      DivModBox(q, j / 3, k' % 3);
    }
    if SameBox(i, j, p, q) && IndexInBox(p, q) == k' {
      DivModBox(k', p % 3, q % 3);
    }
  }

  lemma {:induction false} ClearUpToEffect(t: Tensor, i: int, j: int, v: int, k: nat)
    requires IsTensor(t) && 0 <= i < N && 0 <= j < N && 0 <= v < N && k <= N
    ensures forall p, q, w :: 0 <= p < N && 0 <= q < N && 0 <= w < N ==>
      ClearUpTo(t, i, j, v, k)[p][q][w] ==
        if w == v && Reached(i, j, p, q, k) then 0.0 else t[p][q][w]
  {
    if k > 0 {
      ClearUpToEffect(t, i, j, v, k - 1);
      forall p, q, w | 0 <= p < N && 0 <= q < N && 0 <= w < N
        ensures ClearUpTo(t, i, j, v, k)[p][q][w] ==
          if w == v && Reached(i, j, p, q, k) then 0.0 else t[p][q][w]
      {
        ClearUpToStep(t, i, j, v, k, p, q, w);
      }
    }
  }

  /** Round k - 1 of the inner loop adds to the cleared cells exactly the three
      it visits. */
  lemma ClearUpToStep(t: Tensor, i: int, j: int, v: int, k: nat, p: int, q: int, w: int)
    requires IsTensor(t) && 0 <= i < N && 0 <= j < N && 0 <= v < N && 0 < k <= N
    requires 0 <= p < N && 0 <= q < N && 0 <= w < N
    requires ClearUpTo(t, i, j, v, k - 1)[p][q][w] ==
      if w == v && Reached(i, j, p, q, k - 1) then 0.0 else t[p][q][w]
    ensures ClearUpTo(t, i, j, v, k)[p][q][w] ==
      if w == v && Reached(i, j, p, q, k) then 0.0 else t[p][q][w]
  {
    ClearRound(t, i, j, v, k, p, q, w);
    ReachedStep(i, j, p, q, k);
  }

  /** One round of the inner loop clears v at (i, k - 1), (k - 1, j) and cell
      k - 1 of the clue's box. */
  lemma ClearRound(t: Tensor, i: int, j: int, v: int, k: nat, p: int, q: int, w: int)
    requires IsTensor(t) && 0 <= i < N && 0 <= j < N && 0 <= v < N && 0 < k <= N
    requires 0 <= p < N && 0 <= q < N && 0 <= w < N
    ensures ClearUpTo(t, i, j, v, k)[p][q][w] ==
      if w == v && ((p == i && q == k - 1) || (p == k - 1 && q == j) ||
                    (p == 3 * (i / 3) + (k - 1) / 3 && q == 3 * (j / 3) + (k - 1) % 3))
      then 0.0 else ClearUpTo(t, i, j, v, k - 1)[p][q][w]
  {
  }

  lemma ReachedStep(i: int, j: int, p: int, q: int, k: nat)
    requires 0 <= i < N && 0 <= j < N && 0 < k <= N && 0 <= p < N && 0 <= q < N
    ensures Reached(i, j, p, q, k) <==>
      Reached(i, j, p, q, k - 1) || (p == i && q == k - 1) || (p == k - 1 && q == j) ||
      (p == 3 * (i / 3) + (k - 1) / 3 && q == 3 * (j / 3) + (k - 1) % 3)
  {
    InBoxIndex(i, j, p, q, k - 1);
  }

  /** Cell c (row-major) holds the clue v + 1 and sees cell (p, q). */
  predicate ClueSeen(b: Board, c: int, p: int, q: int, v: int)
    requires IsBoard(b) && 0 <= c < N * N
  {
    var i, j := c / N, c % N;
    b[i][j] == v + 1 && Sees(i, j, p, q)
  }

  /** The first m iterations (row-major) of the first pass's cell loop. */
  function FirstPass(b: Board, m: nat): (t: Tensor)
    requires IsBoard(b) && CluesInRange(b) && m <= N * N
    ensures IsTensor(t)
    ensures forall p, q, w :: 0 <= p < N && 0 <= q < N && 0 <= w < N ==>
      t[p][q][w] == 0.0 || t[p][q][w] == 1.0
  {
    if m == 0 then Ones()
    else
      var t := FirstPass(b, m - 1);
      var i, j := (m - 1) / N, (m - 1) % N;
      if b[i][j] != 0 then ClearUpTo(t, i, j, b[i][j] - 1, N) else t
  }

  lemma {:induction false} FirstPassEffect(b: Board, m: nat)
    requires IsBoard(b) && CluesInRange(b) && m <= N * N
    ensures forall p, q, w :: 0 <= p < N && 0 <= q < N && 0 <= w < N ==>
      FirstPass(b, m)[p][q][w] ==
        if exists c :: 0 <= c < m && ClueSeen(b, c, p, q, w) then 0.0 else 1.0
  {
    if m > 0 {
      FirstPassEffect(b, m - 1);
      var i, j := (m - 1) / N, (m - 1) % N;
      if b[i][j] != 0 {
        ClearUpToEffect(FirstPass(b, m - 1), i, j, b[i][j] - 1, N);
      }
      forall p, q, w | 0 <= p < N && 0 <= q < N && 0 <= w < N
        ensures FirstPass(b, m)[p][q][w] ==
          if exists c :: 0 <= c < m && ClueSeen(b, c, p, q, w) then 0.0 else 1.0
      {
        FirstPassStep(b, m, p, q, w);
      }
    }
  }

  /** Iteration m - 1 of the cell loop clears exactly the entries its clue sees. */
  lemma FirstPassStep(b: Board, m: nat, p: int, q: int, w: int)
    requires IsBoard(b) && CluesInRange(b) && 0 < m <= N * N
    requires 0 <= p < N && 0 <= q < N && 0 <= w < N
    requires FirstPass(b, m - 1)[p][q][w] ==
      if exists c :: 0 <= c < m - 1 && ClueSeen(b, c, p, q, w) then 0.0 else 1.0
    requires var i, j := (m - 1) / N, (m - 1) % N;
      b[i][j] != 0 ==>
      ClearUpTo(FirstPass(b, m - 1), i, j, b[i][j] - 1, N)[p][q][w] ==
        if w == b[i][j] - 1 && Reached(i, j, p, q, N) then 0.0 else FirstPass(b, m - 1)[p][q][w]
    ensures FirstPass(b, m)[p][q][w] ==
      if exists c :: 0 <= c < m && ClueSeen(b, c, p, q, w) then 0.0 else 1.0
  {
    var i, j := (m - 1) / N, (m - 1) % N;
    if ClueSeen(b, m - 1, p, q, w) {
      assert Reached(i, j, p, q, N);
    }
  }

  /** After the first pass, temp_3d_arr holds 1.0 exactly at the open values. */
  lemma FirstPassMarksCandidates(b: Board)
    requires IsBoard(b) && CluesInRange(b)
    ensures forall p, q, w :: 0 <= p < N && 0 <= q < N && 0 <= w < N ==>
      FirstPass(b, N * N)[p][q][w] == if IsCandidate(b, p, q, w) then 1.0 else 0.0
  {
    FirstPassEffect(b, N * N);
    forall p, q, w | 0 <= p < N && 0 <= q < N && 0 <= w < N
      ensures (exists c :: 0 <= c < N * N && ClueSeen(b, c, p, q, w)) <==> !IsCandidate(b, p, q, w)
    {
      if !IsCandidate(b, p, q, w) {
        var i, j :| 0 <= i < N && 0 <= j < N && Sees(i, j, p, q) && b[i][j] == w + 1;
        assert (N * i + j) / N == i && (N * i + j) % N == j;
        assert ClueSeen(b, N * i + j, p, q, w);
      }
    }
  }

  // ---------------------------------------------------------------------
  // Second pass: normalisation of unknown cells

  /** np.sum of a vector. */
  function Sum(v: seq<real>): real {
    if |v| == 0 then 0.0 else Sum(v[..|v| - 1]) + v[|v| - 1]
  }

  /** A vector with no negative entry has a nonnegative sum. */
  lemma {:induction false} SumNonNegative(v: seq<real>)
    requires forall k :: 0 <= k < |v| ==> 0.0 <= v[k]
    ensures 0.0 <= Sum(v)
  {
    if |v| > 0 {
      SumNonNegative(v[..|v| - 1]);
    }
  }

  /** Dividing every entry by s divides the sum by s. */
  lemma {:induction false} SumScaled(u: seq<real>, v: seq<real>, s: real)
    requires s != 0.0 && |u| == |v|
    requires forall k :: 0 <= k < |u| ==> u[k] == v[k] / s
    ensures Sum(u) == Sum(v) / s
  {
    if |u| > 0 {
      var u', v' := u[..|u| - 1], v[..|v| - 1];
      SumScaled(u', v', s);
      assert Sum(u) == Sum(u') + u[|u| - 1];
      assert Sum(v) == Sum(v') + v[|v| - 1];
      assert (Sum(v') + v[|v| - 1]) / s == Sum(v') / s + v[|v| - 1] / s;
    }
  }

  /** The sum of the first k entries of the 0/1 mask of a cell counts its open values below k. */
  lemma {:induction false} MaskSum(b: Board, p: int, q: int, k: nat)
    requires IsBoard(b) && CluesInRange(b) && 0 <= p < N && 0 <= q < N && k <= N
    ensures Sum(FirstPass(b, N * N)[p][q][..k]) == CandidateCount(b, p, q, k) as real
  {
    if k > 0 {
      MaskSum(b, p, q, k - 1);
      FirstPassMarksCandidates(b);
      var v := FirstPass(b, N * N)[p][q];
      assert v[..k][..k - 1] == v[..k - 1];
    }
  }

  /** temp / np.sum(temp) */
  function Normalize(v: seq<real>): (u: seq<real>)
    requires Sum(v) != 0.0
    ensures |u| == |v| && Sum(u) == 1.0
  {
    var u := seq(|v|, k requires 0 <= k < |v| => v[k] / Sum(v));
    SumScaled(u, v, Sum(v));
    assert Sum(v) / Sum(v) == 1.0;
    u
  }

  /** init_from_board. */
  function InitFromBoard(b: Board): (r: Result<Tensor>)
    requires IsBoard(b)
    ensures r.Ok? ==> IsTensor(r.value)
    ensures r == Err(ValueOutOfRange) <==> !CluesInRange(b)
  {
    if !CluesInRange(b) then Err(ValueOutOfRange)
    else
      var temp := FirstPass(b, N * N);
      if exists p, q :: 0 <= p < N && 0 <= q < N && b[p][q] == 0 && Sum(temp[p][q]) == 0.0 then
        Err(NoCandidates)
      else
        Ok(seq(N, p requires 0 <= p < N => seq(N, q requires 0 <= q < N =>
          if b[p][q] != 0 then ToOnehot(b[p][q]) else Normalize(temp[p][q]))))
  }

  lemma MaskSumFull(b: Board, p: int, q: int)
    requires IsBoard(b) && CluesInRange(b) && 0 <= p < N && 0 <= q < N
    ensures Sum(FirstPass(b, N * N)[p][q]) == CandidateCount(b, p, q, N) as real
  {
    MaskSum(b, p, q, N);
    assert FirstPass(b, N * N)[p][q][..N] == FirstPass(b, N * N)[p][q];
  }

  /** init_from_board yields a tensor exactly when every entry is in 0..N and
      every unknown cell keeps at least one open value. */
  lemma InitSucceeds(b: Board)
    requires IsBoard(b)
    ensures InitFromBoard(b).Ok? <==>
      CluesInRange(b) &&
      forall p, q :: 0 <= p < N && 0 <= q < N && b[p][q] == 0 ==>
        exists v :: 0 <= v < N && IsCandidate(b, p, q, v)
  {
    if CluesInRange(b) {
      forall p, q | 0 <= p < N && 0 <= q < N
        ensures Sum(FirstPass(b, N * N)[p][q]) == CandidateCount(b, p, q, N) as real
      {
        MaskSumFull(b, p, q);
      }
    }
  }

  /** Every clue cell is the one-hot vector of its clue, so decoding returns the clue there. */
  lemma InitClueCells(b: Board, p: int, q: int)
    requires IsBoard(b) && InitFromBoard(b).Ok?
    requires 0 <= p < N && 0 <= q < N && b[p][q] != 0
    ensures InitFromBoard(b).value[p][q] == ToOnehot(b[p][q])
    ensures ConvertToBoard(InitFromBoard(b).value)[p][q] == b[p][q]
  {
    DecodeOneHotCell(InitFromBoard(b).value, p, q, b[p][q] - 1);
  }

  /** An unknown cell is uniform over its open values: entry v is 1/count when
      v is open and 0 otherwise, so the vector sums to 1. */
  lemma InitUnknownCells(b: Board, p: int, q: int)
    requires IsBoard(b) && InitFromBoard(b).Ok?
    requires 0 <= p < N && 0 <= q < N && b[p][q] == 0
    ensures CandidateCount(b, p, q, N) > 0
    ensures forall v :: 0 <= v < N ==>
      InitFromBoard(b).value[p][q][v] ==
        if IsCandidate(b, p, q, v) then 1.0 / CandidateCount(b, p, q, N) as real else 0.0
    ensures forall v :: 0 <= v < N ==>
      (InitFromBoard(b).value[p][q][v] != 0.0 <==> IsCandidate(b, p, q, v))
    ensures Sum(InitFromBoard(b).value[p][q]) == 1.0
  {
    InitSucceeds(b);
    MaskSumFull(b, p, q);
    var mask := FirstPass(b, N * N)[p][q];
    var cell := InitFromBoard(b).value[p][q];
    assert cell == Normalize(mask);
    forall v | 0 <= v < N
      ensures cell[v] == if IsCandidate(b, p, q, v) then 1.0 / CandidateCount(b, p, q, N) as real else 0.0
    {
      InitUnknownEntry(b, p, q, v);
    }
  }

  /** Entry v of an unknown cell is its mask entry divided by the number of open values. */
  lemma InitUnknownEntry(b: Board, p: int, q: int, v: int)
    requires IsBoard(b) && InitFromBoard(b).Ok?
    requires 0 <= p < N && 0 <= q < N && b[p][q] == 0 && 0 <= v < N
    ensures CandidateCount(b, p, q, N) > 0
    ensures InitFromBoard(b).value[p][q][v] ==
      if IsCandidate(b, p, q, v) then 1.0 / CandidateCount(b, p, q, N) as real else 0.0
  {
    var mask := FirstPass(b, N * N)[p][q];
    InitUnknownIsNormalized(b, p, q);
    MaskSumFull(b, p, q);
    var cell := InitFromBoard(b).value[p][q];
    NormalizedEntry(cell, mask, v);
    MaskEntry(b, p, q, v);
  }

  /** One entry of the mask after the first pass. */
  lemma MaskEntry(b: Board, p: int, q: int, v: int)
    requires IsBoard(b) && CluesInRange(b) && 0 <= p < N && 0 <= q < N && 0 <= v < N
    ensures FirstPass(b, N * N)[p][q][v] == if IsCandidate(b, p, q, v) then 1.0 else 0.0
  {
    FirstPassMarksCandidates(b);
  }

  lemma NormalizedEntry(cell: seq<real>, mask: seq<real>, v: int)
    requires Sum(mask) != 0.0 && cell == Normalize(mask) && 0 <= v < |mask|
    ensures cell[v] == mask[v] / Sum(mask)
  {
  }

  /** An unknown cell of a successful init is its mask divided by the mask's
      sum, and that sum is positive. */
  lemma InitUnknownIsNormalized(b: Board, p: int, q: int)
    requires IsBoard(b) && InitFromBoard(b).Ok?
    requires 0 <= p < N && 0 <= q < N && b[p][q] == 0
    ensures 0.0 < Sum(FirstPass(b, N * N)[p][q])
    ensures InitFromBoard(b).value[p][q] == Normalize(FirstPass(b, N * N)[p][q])
  {
    SumNonNegative(FirstPass(b, N * N)[p][q]);
  }

  /** 1/n lies in [0, 1] for a positive count n. */
  lemma UnitFraction(n: int)
    requires n > 0
    ensures 0.0 <= 1.0 / (n as real) <= 1.0
  {
    assert (n as real) >= 1.0;
  }

  /** Every entry of the initial tensor lies in [0, 1]. */
  lemma InitEntriesInUnitInterval(b: Board)
    requires IsBoard(b) && InitFromBoard(b).Ok?
    ensures forall p, q, v :: 0 <= p < N && 0 <= q < N && 0 <= v < N ==>
      0.0 <= InitFromBoard(b).value[p][q][v] <= 1.0
  {
    var t := InitFromBoard(b).value;
    forall p, q, v | 0 <= p < N && 0 <= q < N && 0 <= v < N
      ensures 0.0 <= t[p][q][v] <= 1.0
    {
      if b[p][q] == 0 {
        InitUnknownEntry(b, p, q, v);
        UnitFraction(CandidateCount(b, p, q, N));
      } else {
        InitClueCells(b, p, q);
      }
    }
  }
}
