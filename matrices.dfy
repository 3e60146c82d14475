/**
  Matrices, vectors and the row-major scans that the transportation and
  assignment solvers share. A numpy array becomes a sequence value here: every
  array the solvers update is local to one call and never shared, so the
  solvers reassign these values where the source writes in place.
*/
module Matrices {
  import opened Wrappers

  type Matrix = seq<seq<real>>

  /** A cell (row, column). */
  type Cell = (nat, nat)

  /** The tolerance 1e-10 that the solvers compare quantities against. */
  const Tol: real := 0.0000000001

  /** Python's `min(a, b)`: the first argument unless the second is strictly smaller. */
  function Min(a: real, b: real): real {
    if b < a then b else a
  }

  predicate IsMatrix(M: Matrix, m: nat, n: nat) {
    |M| == m && forall i :: 0 <= i < m ==> |M[i]| == n
  }

  predicate IsMask(mask: seq<seq<bool>>, m: nat, n: nat) {
    |mask| == m && forall i :: 0 <= i < m ==> |mask[i]| == n
  }

  predicate NonNegative(M: Matrix) {
    forall i, j :: 0 <= i < |M| && 0 <= j < |M[i]| ==> M[i][j] >= 0.0
  }

  predicate NonNegVector(s: seq<real>) {
    forall k :: 0 <= k < |s| ==> s[k] >= 0.0
  }

  /** (a, b) comes strictly before (c, d) in row-major order. */
  predicate Before(a: nat, b: nat, c: nat, d: nat) {
    a < c || (a == c && b < d)
  }

  /** The m x n matrix of zeros (`np.zeros((m, n))`). */
  function Zeros(m: nat, n: nat): (Z: Matrix)
    ensures IsMatrix(Z, m, n)
    ensures forall i, j :: 0 <= i < m && 0 <= j < n ==> Z[i][j] == 0.0
  {
    seq(m, i => seq(n, j => 0.0))
  }

  /** The m x n mask that holds everywhere. */
  function AllTrue(m: nat, n: nat): (mask: seq<seq<bool>>)
    ensures IsMask(mask, m, n)
    ensures forall i, j :: 0 <= i < m && 0 <= j < n ==> mask[i][j]
  {
    seq(m, i => seq(n, j => true))
  }

  /** Writes x into cell (i, j), the model of `M[i, j] = x`. */
  function SetCell(M: Matrix, i: nat, j: nat, x: real): (M': Matrix)
    requires i < |M| && j < |M[i]|
    ensures |M'| == |M| && forall a :: 0 <= a < |M| ==> |M'[a]| == |M[a]|
    ensures M'[i][j] == x
    ensures forall a, b :: 0 <= a < |M| && 0 <= b < |M[a]| && (a != i || b != j) ==> M'[a][b] == M[a][b]
  {
    M[i := M[i][j := x]]
  }

  // ---------------------------------------------------------------------------
  // Sums

  function Sum(s: seq<real>): real {
    if |s| == 0 then 0.0 else s[0] + Sum(s[1..])
  }

  /** Column j of M, as a vector. */
  function Column(M: Matrix, j: nat): (c: seq<real>)
    requires forall i :: 0 <= i < |M| ==> j < |M[i]|
    ensures |c| == |M|
    ensures forall i :: 0 <= i < |M| ==> c[i] == M[i][j]
  {
    seq(|M|, i requires 0 <= i < |M| => M[i][j])
  }

  lemma {:induction false} SumUpdate(s: seq<real>, k: nat, x: real)
    requires k < |s|
    ensures Sum(s[k := x]) == Sum(s) - s[k] + x
  {
    if k > 0 {
      assert s[k := x][1..] == s[1..][k - 1 := x];
      SumUpdate(s[1..], k - 1, x);
    } else {
      assert s[k := x][1..] == s[1..];
    }
  }

  lemma {:induction false} SumAppend(s: seq<real>, x: real)
    ensures Sum(s + [x]) == Sum(s) + x
  {
    if |s| > 0 {
      assert (s + [x])[1..] == s[1..] + [x];
      SumAppend(s[1..], x);
    } else {
      assert (s + [x])[1..] == [];
    }
  }

  lemma {:induction false} SumNonNegative(s: seq<real>)
    requires NonNegVector(s)
    ensures Sum(s) >= 0.0
  {
    if |s| > 0 {
      SumNonNegative(s[1..]);
    }
  }

  /** A vector of non-negative entries sums to zero only when every entry is zero. */
  lemma {:induction false} SumZeroMeansAllZero(s: seq<real>)
    requires NonNegVector(s) && Sum(s) == 0.0
    ensures forall k :: 0 <= k < |s| ==> s[k] == 0.0
  {
    if |s| > 0 {
      SumNonNegative(s[1..]);
      SumZeroMeansAllZero(s[1..]);
      assert forall k :: 1 <= k < |s| ==> s[k] == s[1..][k - 1];
    }
  }

  /** A vector with a positive sum has a positive entry. */
  lemma {:induction false} PositiveEntry(s: seq<real>) returns (k: nat)
    requires Sum(s) > 0.0
    ensures k < |s| && s[k] > 0.0
  {
    if s[0] > 0.0 {
      k := 0;
    } else {
      var k' := PositiveEntry(s[1..]);
      k := k' + 1;
    }
  }

  lemma {:induction false} SumOfZeros(s: seq<real>)
    requires forall k :: 0 <= k < |s| ==> s[k] == 0.0
    ensures Sum(s) == 0.0
  {
    if |s| > 0 {
      SumOfZeros(s[1..]);
    }
  }

  /** Writing x into cell (i, j) changes row i's sum and column j's sum by x - M[i][j] and no other line sum. */
  lemma SetCellSums(M: Matrix, m: nat, n: nat, i: nat, j: nat, x: real)
    requires IsMatrix(M, m, n) && i < m && j < n
    ensures IsMatrix(SetCell(M, i, j, x), m, n)
    ensures Sum(SetCell(M, i, j, x)[i]) == Sum(M[i]) - M[i][j] + x
    ensures forall a :: 0 <= a < m && a != i ==> SetCell(M, i, j, x)[a] == M[a]
    ensures Sum(Column(SetCell(M, i, j, x), j)) == Sum(Column(M, j)) - M[i][j] + x
    ensures forall b :: 0 <= b < n && b != j ==> Column(SetCell(M, i, j, x), b) == Column(M, b)
  {
    var M' := SetCell(M, i, j, x);
    assert M'[i] == M[i][j := x];
    SumUpdate(M[i], j, x);
    assert Column(M', j) == Column(M, j)[i := x];
    SumUpdate(Column(M, j), i, x);
  }

  // ---------------------------------------------------------------------------
  // Whole numbers

  predicate Whole(x: real) {
    x == x.Floor as real
  }

  predicate AllWhole(s: seq<real>) {
    forall k :: 0 <= k < |s| ==> Whole(s[k])
  }

  lemma WholeDifference(x: real, y: real)
    requires Whole(x) && Whole(y)
    ensures Whole(x - y)
  {
    var d := x.Floor - y.Floor;
    assert x - y == d as real;
  }

  lemma {:induction false} SumWhole(s: seq<real>)
    requires AllWhole(s)
    ensures Whole(Sum(s))
  {
    if |s| > 0 {
      SumWhole(s[1..]);
      var t := s[0].Floor + Sum(s[1..]).Floor;
      assert Sum(s) == t as real;
    }
  }

  /** Between 0 and the tolerance, the only whole number is 0. */
  lemma WholeBelowTol(x: real)
    requires Whole(x) && 0.0 <= x <= Tol
    ensures x == 0.0
  {
    var k := x.Floor;
    assert x == k as real;
  }

  // ---------------------------------------------------------------------------
  // Row-major scans (`np.argmin` and the scans written as nested loops)

  /**
    The cell that a row-major scan keeps after visiting every cell of `mask`
    strictly before (i, j): it replaces the cell kept so far only by a
    strictly smaller one, so it is the FIRST cell of minimal value, which is
    also what `np.argmin` returns on a flattened matrix.
  */
  function FirstMinBefore(M: Matrix, mask: seq<seq<bool>>, m: nat, n: nat, i: nat, j: nat): (r: Option<Cell>)
    requires IsMatrix(M, m, n) && IsMask(mask, m, n)
    requires (i < m && j <= n) || (i == m && j == 0)
    decreases i, j
    ensures r.Some? ==> r.value.0 < m && r.value.1 < n && mask[r.value.0][r.value.1]
    ensures r.Some? ==> Before(r.value.0, r.value.1, i, j)
    ensures r.Some? ==> forall a, b :: 0 <= a < m && 0 <= b < n && Before(a, b, i, j) && mask[a][b] ==>
                          M[r.value.0][r.value.1] <= M[a][b]
    ensures r.Some? ==> forall a, b :: 0 <= a < m && 0 <= b < n && Before(a, b, r.value.0, r.value.1) && mask[a][b] ==>
                          M[r.value.0][r.value.1] < M[a][b]
    ensures r.None? ==> forall a, b :: 0 <= a < m && 0 <= b < n && Before(a, b, i, j) ==> !mask[a][b]
  {
    if j == 0 then
      if i == 0 then None else FirstMinBefore(M, mask, m, n, i - 1, n)
    else
      var best := FirstMinBefore(M, mask, m, n, i, j - 1);
      if mask[i][j - 1] && (best.None? || M[i][j - 1] < M[best.value.0][best.value.1]) then Some((i, j - 1)) else best
  }

  /** The scan of row i taken one cell further. */
  lemma FirstMinNext(M: Matrix, mask: seq<seq<bool>>, m: nat, n: nat, i: nat, j: nat)
    requires IsMatrix(M, m, n) && IsMask(mask, m, n) && i < m && j < n
    ensures var best := FirstMinBefore(M, mask, m, n, i, j);
      FirstMinBefore(M, mask, m, n, i, j + 1)
        == if mask[i][j] && (best.None? || M[i][j] < M[best.value.0][best.value.1]) then Some((i, j)) else best
  {
  }

  /** The scan of row i, finished, is the scan up to the start of row i + 1. */
  lemma FirstMinNextRow(M: Matrix, mask: seq<seq<bool>>, m: nat, n: nat, i: nat)
    requires IsMatrix(M, m, n) && IsMask(mask, m, n) && i < m
    ensures FirstMinBefore(M, mask, m, n, i + 1, 0) == FirstMinBefore(M, mask, m, n, i, n)
  {
  }

  /** The first cell of minimal value among the cells of `mask`, scanning the whole matrix. */
  function FirstMin(M: Matrix, mask: seq<seq<bool>>, m: nat, n: nat): (r: Option<Cell>)
    requires IsMatrix(M, m, n) && IsMask(mask, m, n)
    ensures r.Some? ==> r.value.0 < m && r.value.1 < n && mask[r.value.0][r.value.1]
    ensures r.Some? ==> forall a, b :: 0 <= a < m && 0 <= b < n && mask[a][b] ==>
                          M[r.value.0][r.value.1] <= M[a][b]
    ensures r.Some? ==> forall a, b :: 0 <= a < m && 0 <= b < n && Before(a, b, r.value.0, r.value.1) && mask[a][b] ==>
                          M[r.value.0][r.value.1] < M[a][b]
    ensures r.None? <==> forall a, b :: 0 <= a < m && 0 <= b < n ==> !mask[a][b]
  {
    FirstMinBefore(M, mask, m, n, m, 0)
  }

  /** The first index below k of an entry that is minimal among the first k. */
  function MinIndexBelow(s: seq<real>, k: nat): (q: nat)
    requires 0 < k <= |s|
    ensures q < k
  {
    if k == 1 then 0
    else
      var q := MinIndexBelow(s, k - 1);
      if s[k - 1] < s[q] then k - 1 else q
  }

  /** The first index below k of an entry that is maximal among the first k. */
  function MaxIndexBelow(s: seq<real>, k: nat): (q: nat)
    requires 0 < k <= |s|
    ensures q < k
  {
    if k == 1 then 0
    else
      var q := MaxIndexBelow(s, k - 1);
      if s[k - 1] > s[q] then k - 1 else q
  }

  /** The first index of a minimal entry (`min(...)` followed by `next(... == min)`, or `list.index(min(...))`). */
  function FirstMinIndex(s: seq<real>): (k: nat)
    requires |s| > 0
    ensures k < |s|
  {
    MinIndexBelow(s, |s|)
  }

  /** The first index of a maximal entry (`list.index(max(...))`, `np.argmax`). */
  function FirstMaxIndex(s: seq<real>): (k: nat)
    requires |s| > 0
    ensures k < |s|
  {
    MaxIndexBelow(s, |s|)
  }

  lemma {:induction false} MinIndexBelowLeast(s: seq<real>, k: nat)
    requires 0 < k <= |s|
    ensures forall t :: 0 <= t < k ==> s[MinIndexBelow(s, k)] <= s[t]
    ensures forall t :: 0 <= t < MinIndexBelow(s, k) ==> s[t] > s[MinIndexBelow(s, k)]
  {
    if k > 1 {
      MinIndexBelowLeast(s, k - 1);
    }
  }

  lemma {:induction false} MaxIndexBelowGreatest(s: seq<real>, k: nat)
    requires 0 < k <= |s|
    ensures forall t :: 0 <= t < k ==> s[t] <= s[MaxIndexBelow(s, k)]
    ensures forall t :: 0 <= t < MaxIndexBelow(s, k) ==> s[t] < s[MaxIndexBelow(s, k)]
  {
    if k > 1 {
      MaxIndexBelowGreatest(s, k - 1);
    }
  }

  /** `FirstMinIndex` finds a smallest entry, and every entry before it is larger. */
  lemma FirstMinIndexLeast(s: seq<real>)
    requires |s| > 0
    ensures forall t :: 0 <= t < |s| ==> s[FirstMinIndex(s)] <= s[t]
    ensures forall t :: 0 <= t < FirstMinIndex(s) ==> s[t] > s[FirstMinIndex(s)]
  {
    MinIndexBelowLeast(s, |s|);
  }

  /** `FirstMaxIndex` finds a largest entry, and every entry before it is smaller. */
  lemma FirstMaxIndexGreatest(s: seq<real>)
    requires |s| > 0
    ensures forall t :: 0 <= t < |s| ==> s[t] <= s[FirstMaxIndex(s)]
    ensures forall t :: 0 <= t < FirstMaxIndex(s) ==> s[t] < s[FirstMaxIndex(s)]
  {
    MaxIndexBelowGreatest(s, |s|);
  }

  // ---------------------------------------------------------------------------
  // Counting the cells of a mask

  function CountTrue(r: seq<bool>): nat {
    if |r| == 0 then 0 else (if r[0] then 1 else 0) + CountTrue(r[1..])
  }

  function CountMask(mask: seq<seq<bool>>): nat {
    if |mask| == 0 then 0 else CountTrue(mask[0]) + CountMask(mask[1..])
  }

  lemma {:induction false} CountTrueClear(r: seq<bool>, k: nat)
    requires k < |r|
    ensures CountTrue(r[k := false]) == CountTrue(r) - (if r[k] then 1 else 0)
  {
    if k > 0 {
      assert r[k := false][1..] == r[1..][k - 1 := false];
      CountTrueClear(r[1..], k - 1);
    } else {
      assert r[k := false][1..] == r[1..];
    }
  }

  lemma {:induction false} CountTrueNone(r: seq<bool>)
    requires forall k :: 0 <= k < |r| ==> !r[k]
    ensures CountTrue(r) == 0
  {
    if |r| > 0 {
      CountTrueNone(r[1..]);
    }
  }

  lemma {:induction false} CountTruePositive(r: seq<bool>, k: nat)
    requires k < |r| && r[k]
    ensures CountTrue(r) > 0
  {
    if k > 0 {
      CountTruePositive(r[1..], k - 1);
    }
  }

  /** A mask whose rows each hold at most as many cells, one of them fewer, holds fewer cells. */
  lemma {:induction false} CountMaskDecreases(mask: seq<seq<bool>>, mask': seq<seq<bool>>, a: nat)
    requires |mask'| == |mask| && a < |mask|
    requires forall i :: 0 <= i < |mask| ==> CountTrue(mask'[i]) <= CountTrue(mask[i])
    requires CountTrue(mask'[a]) < CountTrue(mask[a])
    ensures CountMask(mask') < CountMask(mask)
  {
    if a == 0 {
      CountMaskMonotone(mask[1..], mask'[1..]);
    } else {
      CountMaskDecreases(mask[1..], mask'[1..], a - 1);
    }
  }

  lemma {:induction false} CountMaskMonotone(mask: seq<seq<bool>>, mask': seq<seq<bool>>)
    requires |mask'| == |mask|
    requires forall i :: 0 <= i < |mask| ==> CountTrue(mask'[i]) <= CountTrue(mask[i])
    ensures CountMask(mask') <= CountMask(mask)
  {
    if |mask| > 0 {
      CountMaskMonotone(mask[1..], mask'[1..]);
    }
  }
}
