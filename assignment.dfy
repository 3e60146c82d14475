/**
  The Hungarian assignment solver (transport/assignment.py): padding to a
  square matrix, row and column reduction, the greedy zero cover, the matrix
  adjustment, the greedy zero assignment and the mapping back to the
  original rows and columns.
*/
module Assignment {
  import opened Wrappers
  import opened Matrices
  import opened Utils

  // ---------------------------------------------------------------------------
  // Padding and reduction

  /** `max(m, n)`: the side of the padded square matrix. */
  function Size(m: nat, n: nat): nat {
    if m >= n then m else n
  }

  /** The m-by-n costs copied into the top-left corner of a zero square matrix of side max(m, n). */
  function Pad(costs: Matrix, m: nat, n: nat): (C: Matrix)
    requires IsMatrix(costs, m, n)
    ensures IsMatrix(C, Size(m, n), Size(m, n))
    ensures forall i, j :: 0 <= i < m && 0 <= j < n ==> C[i][j] == costs[i][j]
    ensures forall i, j :: 0 <= i < Size(m, n) && 0 <= j < Size(m, n) && (i >= m || j >= n) ==> C[i][j] == 0.0
  {
    var k := Size(m, n);
    seq(k, i requires 0 <= i < k => seq(k, j requires 0 <= j < k => if i < m && j < n then costs[i][j] else 0.0))
  }

  /** The least entry of a non-empty vector (`min` along an axis). */
  function Least(s: seq<real>): (r: real)
    requires |s| > 0
    ensures r in s && forall t :: 0 <= t < |s| ==> r <= s[t]
  {
    FirstMinIndexLeast(s);
    s[FirstMinIndex(s)]
  }

  /** Some entry is zero. */
  predicate HasZero(s: seq<real>) {
    exists j :: 0 <= j < |s| && s[j] == 0.0
  }

  /** Row reduction: every row minus its least entry. */
  function RowReduce(C: Matrix, k: nat): (R: Matrix)
    requires IsMatrix(C, k, k)
    ensures IsMatrix(R, k, k)
  {
    seq(k, i requires 0 <= i < k => seq(k, j requires 0 <= j < k => C[i][j] - Least(C[i])))
  }

  /** Column reduction: every column minus its least entry. */
  function ColumnReduce(C: Matrix, k: nat): (R: Matrix)
    requires IsMatrix(C, k, k)
    ensures IsMatrix(R, k, k)
  {
    seq(k, i requires 0 <= i < k => seq(k, j requires 0 <= j < k => C[i][j] - Least(Column(C, j))))
  }

  /** After row reduction no entry is negative, every row holds a zero, and the differences within a row are kept. */
  lemma RowReduceZeros(C: Matrix, k: nat)
    requires IsMatrix(C, k, k)
    ensures NonNegative(RowReduce(C, k))
    ensures forall i :: 0 <= i < k ==> HasZero(RowReduce(C, k)[i])
    ensures forall i, j, l :: 0 <= i < k && 0 <= j < k && 0 <= l < k ==>
      RowReduce(C, k)[i][j] - RowReduce(C, k)[i][l] == C[i][j] - C[i][l]
  {
    var R := RowReduce(C, k);
    forall i, j | 0 <= i < k && 0 <= j < k
      ensures R[i][j] >= 0.0
    {
      assert R[i][j] == C[i][j] - Least(C[i]);
    }
    forall i | 0 <= i < k
      ensures HasZero(R[i])
    {
      var j := FirstMinIndex(C[i]);
      assert Least(C[i]) == C[i][j];
      assert R[i][j] == C[i][j] - Least(C[i]);
    }
  }

  /**
    Column reduction of a non-negative matrix whose rows all hold a zero
    keeps it non-negative, keeps a zero in every row and puts one in every
    column; the differences within a column are kept.
  */
  lemma ColumnReduceZeros(C: Matrix, k: nat)
    requires IsMatrix(C, k, k) && NonNegative(C) && forall i :: 0 <= i < k ==> HasZero(C[i])
    ensures NonNegative(ColumnReduce(C, k))
    ensures forall i :: 0 <= i < k ==> HasZero(ColumnReduce(C, k)[i])
    ensures forall j :: 0 <= j < k ==> HasZero(Column(ColumnReduce(C, k), j))
    ensures forall i, l, j :: 0 <= i < k && 0 <= l < k && 0 <= j < k ==>
      ColumnReduce(C, k)[i][j] - ColumnReduce(C, k)[l][j] == C[i][j] - C[l][j]
  {
    var R := ColumnReduce(C, k);
    forall i | 0 <= i < k
      ensures HasZero(R[i])
    {
      var j :| 0 <= j < k && C[i][j] == 0.0;
      assert Column(C, j)[i] == 0.0;
      assert R[i][j] == 0.0;
    }
    forall j | 0 <= j < k
      ensures HasZero(Column(R, j))
    {
      assert R[FirstMinIndex(Column(C, j))][j] == 0.0;
    }
  }

  /** The padded, row-reduced and column-reduced matrix the main loop starts from. */
  function Reduced(costs: Matrix, m: nat, n: nat): (C: Matrix)
    requires IsMatrix(costs, m, n)
    ensures IsMatrix(C, Size(m, n), Size(m, n))
  {
    var k := Size(m, n);
    ColumnReduce(RowReduce(Pad(costs, m, n), k), k)
  }

  /** After both reductions no entry is negative and every row and every column holds a zero. */
  lemma ReducedZeros(costs: Matrix, m: nat, n: nat)
    requires IsMatrix(costs, m, n)
    ensures NonNegative(Reduced(costs, m, n))
    ensures forall i :: 0 <= i < Size(m, n) ==> HasZero(Reduced(costs, m, n)[i])
    ensures forall j :: 0 <= j < Size(m, n) ==> HasZero(Column(Reduced(costs, m, n), j))
  {
    var k := Size(m, n);
    RowReduceZeros(Pad(costs, m, n), k);
    ColumnReduceZeros(RowReduce(Pad(costs, m, n), k), k);
  }

  // ---------------------------------------------------------------------------
  // cover_zeros

  /** `np.where(row == 0)[0]`: the indices of the zero entries from j on, ascending. */
  function ZerosFrom(s: seq<real>, j: nat): (r: seq<nat>)
    requires j <= |s|
    ensures forall c :: c in r <==> j <= c < |s| && s[c] == 0.0
    ensures forall p, q :: 0 <= p < q < |r| ==> r[p] < r[q]
    ensures forall p :: 0 <= p < |r| ==> j <= r[p]
    decreases |s| - j
  {
    if j == |s| then []
    else (if s[j] == 0.0 then [j] else []) + ZerosFrom(s, j + 1)
  }

  /** The indices of the zero entries, ascending. */
  function ZeroIndices(s: seq<real>): seq<nat> {
    ZerosFrom(s, 0)
  }

  /** The number of zero entries. */
  function ZeroCount(s: seq<real>): nat {
    |ZeroIndices(s)|
  }

  /** A vector has zero entries exactly when it holds a zero. */
  lemma ZeroCountPositive(s: seq<real>)
    ensures ZeroCount(s) > 0 <==> HasZero(s)
  {
    if HasZero(s) {
      var j :| 0 <= j < |s| && s[j] == 0.0;
      assert j in ZeroIndices(s);
    }
    if ZeroCount(s) > 0 {
      assert ZeroIndices(s)[0] in ZeroIndices(s);
    }
  }

  /** The zero counts of the uncovered rows; a covered row counts 0 (counts are exact, held as reals). */
  function RowCounts(M: Matrix, k: nat, rowCover: seq<bool>): (r: seq<real>)
    requires IsMatrix(M, k, k) && |rowCover| == k
    ensures |r| == k && forall i :: 0 <= i < k ==> r[i] >= 0.0
  {
    seq(k, i requires 0 <= i < k => if rowCover[i] then 0.0 else ZeroCount(M[i]) as real)
  }

  /** The zero counts of the uncovered columns; a covered column counts 0. */
  function ColumnCounts(M: Matrix, k: nat, colCover: seq<bool>): (r: seq<real>)
    requires IsMatrix(M, k, k) && |colCover| == k
    ensures |r| == k && forall j :: 0 <= j < k ==> r[j] >= 0.0
  {
    seq(k, j requires 0 <= j < k => if colCover[j] then 0.0 else ZeroCount(Column(M, j)) as real)
  }

  /** `counts.max() if counts.size else 0`. */
  function MaxCount(s: seq<real>): (r: real)
    ensures |s| > 0 ==> r in s
    ensures forall t :: 0 <= t < |s| ==> s[t] <= r
    ensures |s| == 0 ==> r == 0.0
  {
    if |s| == 0 then 0.0 else FirstMaxIndexGreatest(s); s[FirstMaxIndex(s)]
  }

  lemma {:induction false} CountTrueAtMost(r: seq<bool>)
    ensures CountTrue(r) <= |r|
  {
    if |r| > 0 {
      CountTrueAtMost(r[1..]);
    }
  }

  /** Setting an unset flag adds one to the count. */
  lemma CountTrueSet(r: seq<bool>, k: nat)
    requires k < |r| && !r[k]
    ensures CountTrue(r[k := true]) == CountTrue(r) + 1
  {
    CountTrueClear(r[k := true], k);
    assert r[k := true][k := false] == r;
  }

  /**
    `cover_zeros`: repeatedly cover the uncovered line with the most zeros,
    the row when the best row count is at least the best column count, the
    lowest index among equals, until no uncovered line holds a zero. The
    counts include zeros that lie in already covered lines, so in the end
    exactly the rows and the columns holding a zero are covered.
  */
  method CoverZeros(M: Matrix, k: nat) returns (rowCover: seq<bool>, colCover: seq<bool>, numLines: nat)
    requires IsMatrix(M, k, k)
    ensures |rowCover| == k && |colCover| == k
    ensures forall i :: 0 <= i < k ==> (rowCover[i] <==> HasZero(M[i]))
    ensures forall j :: 0 <= j < k ==> (colCover[j] <==> HasZero(Column(M, j)))
    ensures numLines == CountTrue(rowCover) + CountTrue(colCover) <= 2 * k
  {
    rowCover := seq(k, i => false);
    colCover := seq(k, j => false);
    CountTrueAtMost(rowCover);
    CountTrueAtMost(colCover);
    while true
      invariant CoverSound(M, k, rowCover, colCover)
      invariant CountTrue(rowCover) <= k && CountTrue(colCover) <= k
      decreases 2 * k - CountTrue(rowCover) - CountTrue(colCover)
    {
      var rowCounts := RowCounts(M, k, rowCover);
      var colCounts := ColumnCounts(M, k, colCover);
      var maxRow := MaxCount(rowCounts);
      var maxCol := MaxCount(colCounts);
      if maxRow == 0.0 && maxCol == 0.0 {
        CoverComplete(M, k, rowCover, colCover);
        break;
      }
      rowCover, colCover := CoverLine(M, k, rowCover, colCover, rowCounts, colCounts);
    }
    numLines := CountTrue(rowCover) + CountTrue(colCover);
  }

  /** Every covered line holds a zero. */
  predicate CoverSound(M: Matrix, k: nat, rowCover: seq<bool>, colCover: seq<bool>)
    requires IsMatrix(M, k, k)
  {
    && |rowCover| == k && |colCover| == k
    && (forall i :: 0 <= i < k && rowCover[i] ==> HasZero(M[i]))
    && (forall j :: 0 <= j < k && colCover[j] ==> HasZero(Column(M, j)))
  }

  /** When no uncovered line holds a zero, the covered lines are exactly the lines with a zero. */
  lemma CoverComplete(M: Matrix, k: nat, rowCover: seq<bool>, colCover: seq<bool>)
    requires IsMatrix(M, k, k) && CoverSound(M, k, rowCover, colCover)
    requires MaxCount(RowCounts(M, k, rowCover)) == 0.0 && MaxCount(ColumnCounts(M, k, colCover)) == 0.0
    ensures forall i :: 0 <= i < k ==> (rowCover[i] <==> HasZero(M[i]))
    ensures forall j :: 0 <= j < k ==> (colCover[j] <==> HasZero(Column(M, j)))
  {
    var rowCounts := RowCounts(M, k, rowCover);
    var colCounts := ColumnCounts(M, k, colCover);
    forall i | 0 <= i < k && !rowCover[i]
      ensures !HasZero(M[i])
    {
      assert rowCounts[i] == 0.0;
      ZeroCountPositive(M[i]);
    }
    forall j | 0 <= j < k && !colCover[j]
      ensures !HasZero(Column(M, j))
    {
      assert colCounts[j] == 0.0;
      ZeroCountPositive(Column(M, j));
    }
  }

  /**
    One round of `cover_zeros`: cover the first row with the most uncovered
    zeros, or, when some column has more, the first such column.
  */
  method CoverLine(M: Matrix, k: nat, rowCover0: seq<bool>, colCover0: seq<bool>, rowCounts: seq<real>, colCounts: seq<real>)
    returns (rowCover: seq<bool>, colCover: seq<bool>)
    requires IsMatrix(M, k, k) && CoverSound(M, k, rowCover0, colCover0)
    requires CountTrue(rowCover0) <= k && CountTrue(colCover0) <= k
    requires rowCounts == RowCounts(M, k, rowCover0) && colCounts == ColumnCounts(M, k, colCover0)
    requires MaxCount(rowCounts) != 0.0 || MaxCount(colCounts) != 0.0
    ensures CoverSound(M, k, rowCover, colCover)
    ensures CountTrue(rowCover) <= k && CountTrue(colCover) <= k
    ensures CountTrue(rowCover) + CountTrue(colCover) == CountTrue(rowCover0) + CountTrue(colCover0) + 1
    ensures MaxCount(rowCounts) >= MaxCount(colCounts) ==>
      colCover == colCover0 && rowCover == rowCover0[FirstMaxIndex(rowCounts) := true]
    ensures MaxCount(rowCounts) < MaxCount(colCounts) ==>
      rowCover == rowCover0 && colCover == colCover0[FirstMaxIndex(colCounts) := true]
  {
    rowCover, colCover := rowCover0, colCover0;
    if MaxCount(rowCounts) >= MaxCount(colCounts) {
      var r := FirstMaxIndex(rowCounts);
      assert rowCounts[r] > 0.0;
      ZeroCountPositive(M[r]);
      CountTrueSet(rowCover, r);
      rowCover := rowCover[r := true];
      CountTrueAtMost(rowCover);
    } else {
      var c := FirstMaxIndex(colCounts);
      assert colCounts[c] > 0.0;
      ZeroCountPositive(Column(M, c));
      CountTrueSet(colCover, c);
      colCover := colCover[c := true];
      CountTrueAtMost(colCover);
    }
  }

  /** Every flag set: the count is the length. */
  lemma {:induction false} CountTrueAll(r: seq<bool>)
    requires forall k :: 0 <= k < |r| ==> r[k]
    ensures CountTrue(r) == |r|
  {
    if |r| > 0 {
      CountTrueAll(r[1..]);
    }
  }

  // ---------------------------------------------------------------------------
  // adjust_matrix

  /** The cells whose row and column are both uncovered. */
  function UncoveredMask(rowCover: seq<bool>, colCover: seq<bool>, k: nat): (mask: seq<seq<bool>>)
    requires |rowCover| == k && |colCover| == k
    ensures IsMask(mask, k, k)
    ensures forall i, j :: 0 <= i < k && 0 <= j < k ==> (mask[i][j] <==> !rowCover[i] && !colCover[j])
  {
    seq(k, i requires 0 <= i < k => seq(k, j requires 0 <= j < k => !rowCover[i] && !colCover[j]))
  }

  /**
    `adjust_matrix`: with no uncovered cell the matrix is returned as it is;
    otherwise the least uncovered entry is subtracted from every uncovered
    cell. The addition to the doubly covered cells lands on a copy made by
    boolean-mask indexing, so covered cells keep their value.
  */
  function Adjust(M: Matrix, k: nat, rowCover: seq<bool>, colCover: seq<bool>): (R: Matrix)
    requires IsMatrix(M, k, k) && |rowCover| == k && |colCover| == k
    ensures IsMatrix(R, k, k)
  {
    var mask := UncoveredMask(rowCover, colCover, k);
    var c := FirstMin(M, mask, k, k);
    if c.None? then M
    else
      var least := M[c.value.0][c.value.1];
      seq(k, i requires 0 <= i < k => seq(k, j requires 0 <= j < k => if mask[i][j] then M[i][j] - least else M[i][j]))
  }

  /**
    The adjustment leaves covered cells alone, lowers every uncovered cell by
    the same amount, keeps them non-negative and turns at least one of them
    into zero; with every cell covered it changes nothing.
  */
  lemma AdjustProperties(M: Matrix, k: nat, rowCover: seq<bool>, colCover: seq<bool>)
    requires IsMatrix(M, k, k) && |rowCover| == k && |colCover| == k
    ensures forall i, j :: 0 <= i < k && 0 <= j < k && (rowCover[i] || colCover[j]) ==>
      Adjust(M, k, rowCover, colCover)[i][j] == M[i][j]
    ensures forall i, j :: 0 <= i < k && 0 <= j < k && !rowCover[i] && !colCover[j] ==>
      Adjust(M, k, rowCover, colCover)[i][j] >= 0.0
    ensures forall i, j, a, b ::
      (0 <= i < k && 0 <= j < k && 0 <= a < k && 0 <= b < k
       && !rowCover[i] && !colCover[j] && !rowCover[a] && !colCover[b]) ==>
      Adjust(M, k, rowCover, colCover)[i][j] - Adjust(M, k, rowCover, colCover)[a][b] == M[i][j] - M[a][b]
    ensures (exists i, j :: 0 <= i < k && 0 <= j < k && !rowCover[i] && !colCover[j]) ==>
      exists i, j :: 0 <= i < k && 0 <= j < k && !rowCover[i] && !colCover[j] && Adjust(M, k, rowCover, colCover)[i][j] == 0.0
    ensures (forall i, j :: 0 <= i < k && 0 <= j < k ==> rowCover[i] || colCover[j]) ==>
      Adjust(M, k, rowCover, colCover) == M
  {
    var mask := UncoveredMask(rowCover, colCover, k);
    var c := FirstMin(M, mask, k, k);
    var R := Adjust(M, k, rowCover, colCover);
    if c.Some? {
      var (a, b) := c.value;
      assert R[a][b] == 0.0;
      forall i, j | 0 <= i < k && 0 <= j < k && (rowCover[i] || colCover[j])
        ensures R[i][j] == M[i][j]
      {
        assert !mask[i][j];
      }
    }
  }

  // ---------------------------------------------------------------------------
  // try_assignment

  lemma {:induction false} ZerosFromLength(s: seq<real>, j: nat)
    requires j <= |s|
    ensures |ZerosFrom(s, j)| <= |s| - j
    decreases |s| - j
  {
    if j < |s| {
      ZerosFromLength(s, j + 1);
    }
  }

  /** Rows i, i+1, ..., k-1 that hold exactly c zeros, ascending. */
  function RowsWithCount(M: Matrix, k: nat, c: nat, i: nat): (r: seq<nat>)
    requires IsMatrix(M, k, k) && i <= k
    ensures forall x: nat :: x in r <==> i <= x < k && ZeroCount(M[x]) == c
    ensures forall p, q :: 0 <= p < q < |r| ==> r[p] < r[q]
    decreases k - i
  {
    if i == k then []
    else
      var rest := RowsWithCount(M, k, c, i + 1);
      assert forall q :: 0 <= q < |rest| ==> rest[q] in rest;
      (if ZeroCount(M[i]) == c then [i] else []) + rest
  }

  /** Rows are tried by ascending zero count, equal counts by ascending index. */
  predicate TriedBefore(M: Matrix, k: nat, a: nat, b: nat)
    requires IsMatrix(M, k, k) && a < k && b < k
  {
    ZeroCount(M[a]) < ZeroCount(M[b]) || (ZeroCount(M[a]) == ZeroCount(M[b]) && a < b)
  }

  /** The rows holding at least c zeros, by count and then by index. */
  function RowOrderFrom(M: Matrix, k: nat, c: nat): (r: seq<nat>)
    requires IsMatrix(M, k, k)
    ensures forall x: nat :: x in r <==> x < k && c <= ZeroCount(M[x])
    ensures forall p, q :: 0 <= p < q < |r| ==> r[p] < k && r[q] < k && TriedBefore(M, k, r[p], r[q])
    decreases k + 1 - c
  {
    if c > k then
      assert forall x: nat :: x < k ==> ZeroCount(M[x]) <= k by {
        forall x: nat | x < k ensures ZeroCount(M[x]) <= k { ZerosFromLength(M[x], 0); }
      }
      []
    else
      var here := RowsWithCount(M, k, c, 0);
      var rest := RowOrderFrom(M, k, c + 1);
      assert forall p :: 0 <= p < |here| ==> here[p] in here;
      assert forall q :: 0 <= q < |rest| ==> rest[q] in rest;
      here + rest
  }

  /**
    The order of `zero_positions` after its stable sort on the number of
    zeros: every row exactly once, by ascending count, ties by row index.
  */
  function RowOrder(M: Matrix, k: nat): (r: seq<nat>)
    requires IsMatrix(M, k, k)
    ensures forall x: nat :: x in r <==> x < k
    ensures forall p, q :: 0 <= p < q < |r| ==> r[p] < k && r[q] < k && TriedBefore(M, k, r[p], r[q])
  {
    RowOrderFrom(M, k, 0)
  }

  /** The first candidate column not yet assigned. */
  function FirstFree(cols: seq<nat>, taken: set<nat>): (r: Option<nat>)
    ensures r.Some? ==> r.value in cols && r.value !in taken
    ensures r.None? <==> forall c :: c in cols ==> c in taken
  {
    if cols == [] then None
    else if cols[0] !in taken then Some(cols[0])
    else FirstFree(cols[1..], taken)
  }

  /** The greedy state: the column of every row (-1 while unassigned) and the set of assigned columns. */
  datatype Greedy = Greedy(assignment: seq<int>, taken: set<nat>)

  /** One row's turn: take its first zero column that is still free, if any. */
  function GreedyStep(M: Matrix, k: nat, g: Greedy, i: nat): Greedy
    requires IsMatrix(M, k, k) && |g.assignment| == k && i < k
  {
    match FirstFree(ZeroIndices(M[i]), g.taken)
    case None => g
    case Some(j) => Greedy(g.assignment[i := j], g.taken + {j})
  }

  /** The greedy state after the turns of the given rows, in order. */
  function GreedyAfter(M: Matrix, k: nat, order: seq<nat>): (g: Greedy)
    requires IsMatrix(M, k, k) && forall t :: 0 <= t < |order| ==> order[t] < k
    ensures |g.assignment| == k
    decreases |order|
  {
    if order == [] then Greedy(seq(k, i => -1), {})
    else GreedyStep(M, k, GreedyAfter(M, k, order[..|order| - 1]), order[|order| - 1])
  }

  /**
    A consistent greedy state: every assigned row sits on a zero of its own
    row, its column is recorded as taken, and no two rows share a column.
  */
  predicate Consistent(M: Matrix, k: nat, g: Greedy)
    requires IsMatrix(M, k, k)
  {
    && |g.assignment| == k
    && (forall i :: 0 <= i < k && g.assignment[i] != -1 ==>
          0 <= g.assignment[i] < k && M[i][g.assignment[i]] == 0.0 && g.assignment[i] as nat in g.taken)
    && (forall i, l :: 0 <= i < k && 0 <= l < k && i != l && g.assignment[i] != -1 ==> g.assignment[i] != g.assignment[l])
  }

  /** Every turn keeps the greedy state consistent. */
  lemma {:induction false} GreedyConsistent(M: Matrix, k: nat, order: seq<nat>)
    requires IsMatrix(M, k, k) && forall t :: 0 <= t < |order| ==> order[t] < k
    ensures Consistent(M, k, GreedyAfter(M, k, order))
    decreases |order|
  {
    if order != [] {
      var prefix := order[..|order| - 1];
      GreedyConsistent(M, k, prefix);
      var g := GreedyAfter(M, k, prefix);
      var i := order[|order| - 1];
      var f := FirstFree(ZeroIndices(M[i]), g.taken);
      if f.Some? {
        var j := f.value;
        assert j in ZeroIndices(M[i]);
        var a := g.assignment[i := j];
        forall r, l | 0 <= r < k && 0 <= l < k && r != l && a[r] != -1
          ensures a[r] != a[l]
        {
          if r != i && l != i {
          } else if r == i {
            assert a[l] == g.assignment[l];
            assert a[l] != -1 ==> a[l] as nat in g.taken;
          } else {
            assert a[r] as nat in g.taken;
          }
        }
      }
    }
  }

  /** `try_assignment` as a function: the greedy rows in order, None when some row found no free zero. */
  function GreedyAssignment(M: Matrix, k: nat): Option<seq<nat>>
    requires IsMatrix(M, k, k)
  {
    var a := GreedyAfter(M, k, RowOrder(M, k)).assignment;
    if -1 in a then None
    else
      GreedyConsistent(M, k, RowOrder(M, k));
      Some(seq(k, i requires 0 <= i < k => a[i] as nat))
  }

  /** A greedy assignment gives every row a distinct column holding a zero. */
  lemma GreedySound(M: Matrix, k: nat)
    requires IsMatrix(M, k, k) && GreedyAssignment(M, k).Some?
    ensures |GreedyAssignment(M, k).value| == k
    ensures forall i :: 0 <= i < k ==> GreedyAssignment(M, k).value[i] < k && M[i][GreedyAssignment(M, k).value[i]] == 0.0
    ensures forall i, l :: 0 <= i < l < k ==> GreedyAssignment(M, k).value[i] != GreedyAssignment(M, k).value[l]
  {
    GreedyConsistent(M, k, RowOrder(M, k));
  }

  /** One row's turn of `try_assignment`: scan its zero columns and take the first free one. */
  method Turn(M: Matrix, k: nat, assignment0: seq<int>, taken0: set<nat>, i: nat)
    returns (assignment: seq<int>, taken: set<nat>)
    requires IsMatrix(M, k, k) && |assignment0| == k && i < k
    ensures Greedy(assignment, taken) == GreedyStep(M, k, Greedy(assignment0, taken0), i)
  {
    assignment, taken := assignment0, taken0;
    var cols := ZeroIndices(M[i]);
    for idx := 0 to |cols|
      invariant assignment == assignment0 && taken == taken0
      invariant FirstFree(cols, taken) == FirstFree(cols[idx..], taken)
    {
      var j := cols[idx];
      if j !in taken {
        assignment := assignment[i := j];
        taken := taken + {j};
        return;
      }
      assert cols[idx..][1..] == cols[idx + 1..];
    }
  }

  /**
    `try_assignment`: rows take their turn in `RowOrder`; each takes its first
    zero column not assigned yet and otherwise stays at -1, and the result is
    None when some row stayed at -1.
  */
  method TryAssignment(M: Matrix, k: nat) returns (r: Option<seq<nat>>)
    requires IsMatrix(M, k, k)
    ensures r == GreedyAssignment(M, k)
    ensures r.Some? ==> |r.value| == k
    ensures r.Some? ==> forall i :: 0 <= i < k ==> r.value[i] < k && M[i][r.value[i]] == 0.0
    ensures r.Some? ==> forall i, l :: 0 <= i < l < k ==> r.value[i] != r.value[l]
  {
    var assignment, _ := Turns(M, k, RowOrder(M, k));
    if -1 in assignment {
      r := None;
    } else {
      r := GreedyAssignment(M, k);
      GreedySound(M, k);
    }
  }

  /** The turns of `try_assignment`, one row after another in the given order. */
  method Turns(M: Matrix, k: nat, order: seq<nat>) returns (assignment: seq<int>, taken: set<nat>)
    requires IsMatrix(M, k, k) && forall t :: 0 <= t < |order| ==> order[t] < k
    ensures Greedy(assignment, taken) == GreedyAfter(M, k, order)
  {
    assignment, taken := seq(k, i => -1), {};
    for t := 0 to |order|
      invariant Greedy(assignment, taken) == GreedyAfter(M, k, order[..t])
    {
      assert order[..t + 1][..t] == order[..t];
      assignment, taken := Turn(M, k, assignment, taken, order[t]);
    }
    assert order[..|order|] == order;
  }

  // ---------------------------------------------------------------------------
  // Mapping back to the original shape

  /** Every pair names a cell of the original m x n matrix. */
  predicate Placed(pairs: seq<(nat, nat)>, m: nat, n: nat) {
    forall x :: 0 <= x < |pairs| ==> pairs[x].0 < m && pairs[x].1 < n
  }

  /** The pairs (i, a[i]) kept by the final loop: those inside the original matrix, by row. */
  function PairsOf(a: seq<nat>, m: nat, n: nat): (pairs: seq<(nat, nat)>)
    ensures forall p :: p in pairs <==> p.0 < |a| && p.0 < m && p.1 < n && a[p.0] == p.1
    ensures forall x, y :: 0 <= x < y < |pairs| ==> pairs[x].0 < pairs[y].0
    ensures Placed(pairs, m, n)
    decreases |a|
  {
    if a == [] then []
    else
      var t := |a| - 1;
      var front := PairsOf(a[..t], m, n);
      assert forall x :: 0 <= x < |front| ==> front[x] in front;
      front + (if t < m && a[t] < n then [(t, a[t])] else [])
  }

  /** The original costs of the pairs, added up in order. */
  function PairCost(costs: Matrix, m: nat, n: nat, pairs: seq<(nat, nat)>): real
    requires IsMatrix(costs, m, n) && Placed(pairs, m, n)
    decreases |pairs|
  {
    if pairs == [] then 0.0
    else
      var (i, j) := pairs[|pairs| - 1];
      PairCost(costs, m, n, pairs[..|pairs| - 1]) + costs[i][j]
  }

  /** With every column below n, one pair per row up to the smaller of |a| and m. */
  lemma {:induction false} PairsOfCount(a: seq<nat>, m: nat, n: nat)
    requires forall t :: 0 <= t < |a| ==> a[t] < n
    ensures |PairsOf(a, m, n)| == if |a| <= m then |a| else m
    decreases |a|
  {
    if a != [] {
      PairsOfCount(a[..|a| - 1], m, n);
    }
  }

  /** Distinct columns in the assignment give distinct columns among the pairs. */
  lemma PairsOfDistinct(a: seq<nat>, m: nat, n: nat)
    requires forall i, l :: 0 <= i < l < |a| ==> a[i] != a[l]
    ensures forall x, y :: 0 <= x < y < |PairsOf(a, m, n)| ==> PairsOf(a, m, n)[x].1 != PairsOf(a, m, n)[y].1
  {
    var pairs := PairsOf(a, m, n);
    forall x, y | 0 <= x < y < |pairs|
      ensures pairs[x].1 != pairs[y].1
    {
      assert pairs[x] in pairs && pairs[y] in pairs;
    }
  }

  /** The final loop of `assignment_hungarian`: keep the pairs inside the original matrix and add up their costs. */
  method PairsBack(costs: Matrix, m: nat, n: nat, a: seq<nat>) returns (pairs: seq<(nat, nat)>, total: real)
    requires IsMatrix(costs, m, n)
    ensures pairs == PairsOf(a, m, n) && total == PairCost(costs, m, n, pairs)
  {
    pairs, total := [], 0.0;
    for i := 0 to |a|
      invariant pairs == PairsOf(a[..i], m, n) && total == PairCost(costs, m, n, pairs)
    {
      var j := a[i];
      PairsOfNext(a, i, m, n);
      if i < m && j < n {
        PairCostNext(costs, m, n, pairs, (i, j));
        pairs := pairs + [(i, j)];
        total := total + costs[i][j];
      }
    }
    assert a[..|a|] == a;
  }

  lemma PairsOfNext(a: seq<nat>, i: nat, m: nat, n: nat)
    requires i < |a|
    ensures PairsOf(a[..i + 1], m, n) == PairsOf(a[..i], m, n) + (if i < m && a[i] < n then [(i, a[i])] else [])
  {
    assert a[..i + 1][..i] == a[..i];
  }

  lemma PairCostNext(costs: Matrix, m: nat, n: nat, pairs: seq<(nat, nat)>, p: (nat, nat))
    requires IsMatrix(costs, m, n) && Placed(pairs, m, n) && p.0 < m && p.1 < n
    ensures Placed(pairs + [p], m, n)
    ensures PairCost(costs, m, n, pairs + [p]) == PairCost(costs, m, n, pairs) + costs[p.0][p.1]
  {
    assert (pairs + [p])[..|pairs|] == pairs;
  }

  /**
    The pairs kept from a greedy assignment of a k x k matrix, k = max(m, n):
    one per row at most, in distinct columns, each on a zero of the matrix,
    and one for every original row when there are no more rows than columns.
  */
  lemma GreedyPairs(M: Matrix, k: nat, m: nat, n: nat)
    requires IsMatrix(M, k, k) && k == Size(m, n) && GreedyAssignment(M, k).Some?
    ensures var pairs := PairsOf(GreedyAssignment(M, k).value, m, n);
      && (forall x, y :: 0 <= x < y < |pairs| ==> pairs[x].0 < pairs[y].0 && pairs[x].1 != pairs[y].1)
      && (forall x :: 0 <= x < |pairs| ==> M[pairs[x].0][pairs[x].1] == 0.0)
      && (m <= n ==> |pairs| == m)
  {
    var a := GreedyAssignment(M, k).value;
    GreedySound(M, k);
    var pairs := PairsOf(a, m, n);
    PairsOfDistinct(a, m, n);
    if m <= n {
      PairsOfCount(a, m, n);
    }
    forall x | 0 <= x < |pairs|
      ensures M[pairs[x].0][pairs[x].1] == 0.0
    {
      assert pairs[x] in pairs;
    }
  }

  // ---------------------------------------------------------------------------
  // assignment_hungarian

  /** The result: the kept pairs, their total original cost and the trace. */
  datatype Hungarian = Hungarian(pairs: seq<(nat, nat)>, totalCost: real, steps: seq<Step>)

  /** Every row and every column holds a zero, as after both reductions. */
  predicate Zeroed(M: Matrix, k: nat)
    requires IsMatrix(M, k, k)
  {
    && (forall i :: 0 <= i < k ==> HasZero(M[i]))
    && (forall j :: 0 <= j < k ==> HasZero(Column(M, j)))
  }

  /**
    On a matrix with a zero in every line, `cover_zeros` covers all rows and
    all columns, the line count reaches the size and `adjust_matrix` has no
    uncovered cell to work on: every round of the main loop sees the same
    matrix and makes the same greedy attempt.
  */
  lemma RoundsRepeat(M: Matrix, k: nat, rowCover: seq<bool>, colCover: seq<bool>)
    requires IsMatrix(M, k, k) && Zeroed(M, k)
    requires |rowCover| == k && |colCover| == k
    requires forall i :: 0 <= i < k ==> (rowCover[i] <==> HasZero(M[i]))
    requires forall j :: 0 <= j < k ==> (colCover[j] <==> HasZero(Column(M, j)))
    ensures CountTrue(rowCover) + CountTrue(colCover) >= k
    ensures Adjust(M, k, rowCover, colCover) == M
  {
    CountTrueAll(rowCover);
    AdjustProperties(M, k, rowCover, colCover);
  }

  /**
    One round of the main loop of `assignment_hungarian`: cover the zeros and
    log, try the greedy assignment when the lines reach the size and stop on
    success, otherwise adjust and log. On a matrix with a zero in every line
    the lines always reach the size and the adjusted matrix is the same one.
  */
  method CoverRound(C: Matrix, k: nat, steps0: seq<Step>) returns (steps: seq<Step>, assign: Option<seq<nat>>, next: Matrix)
    requires IsMatrix(C, k, k) && Zeroed(C, k) && Numbered(steps0)
    ensures steps0 < steps && Numbered(steps) && steps[|steps0|].matrix == C
    ensures assign == GreedyAssignment(C, k)
    ensures assign.Some? ==> |steps| == |steps0| + 1
    ensures next == C
  {
    var rowCover, colCover, numLines := CoverZeros(C, k);
    RoundsRepeat(C, k, rowCover, colCover);
    NumberedAppend(steps0, Step(|steps0|, C, [], []));
    steps := steps0 + [Step(|steps0|, C, [], [])];
    next := C;
    assign := None;
    if numLines >= k {
      assign := TryAssignment(C, k);
      if assign.Some? {
        return;
      }
    }
    next := Adjust(C, k, rowCover, colCover);
    NumberedAppend(steps, Step(|steps|, next, [], []));
    steps := steps + [Step(|steps|, next, [], [])];
  }

  /** The main loop of `assignment_hungarian`, at most `fuel` rounds. */
  method CoverRounds(M: Matrix, k: nat, fuel: nat, steps0: seq<Step>)
    returns (steps: seq<Step>, assign: Option<seq<nat>>)
    requires IsMatrix(M, k, k) && Zeroed(M, k) && Numbered(steps0)
    ensures steps0 <= steps && Numbered(steps)
    ensures assign.Some? <==> fuel >= 1 && GreedyAssignment(M, k).Some?
    ensures assign.Some? ==> assign == GreedyAssignment(M, k)
    ensures assign.Some? ==> |steps| == |steps0| + 1 && steps[|steps0|].matrix == M
  {
    var C := M;
    steps := steps0;
    var rounds := 0;
    assign := None;
    while rounds < fuel
      invariant C == M && steps0 <= steps && Numbered(steps)
      invariant rounds == 0 ==> steps == steps0
      invariant assign.None? && (rounds > 0 ==> GreedyAssignment(M, k).None?)
      decreases fuel - rounds
    {
      steps, assign, C := CoverRound(C, k, steps);
      if assign.Some? {
        return;
      }
      rounds := rounds + 1;
    }
  }

  /**
    `assignment_hungarian`. The source repeats its cover/adjust round until
    the greedy attempt succeeds; here at most `fuel` rounds are run and None
    stands for running out of them. Since the rounds repeat, the attempt
    succeeds in the first round or never.
  */
  method AssignmentHungarian(costs: Matrix, m: nat, n: nat, fuel: nat) returns (r: Option<Hungarian>)
    requires IsMatrix(costs, m, n)
    ensures r.Some? <==> fuel >= 1 && GreedyAssignment(Reduced(costs, m, n), Size(m, n)).Some?
    ensures r.Some? ==> r.value.pairs == PairsOf(GreedyAssignment(Reduced(costs, m, n), Size(m, n)).value, m, n)
    ensures r.Some? ==> Placed(r.value.pairs, m, n) && r.value.totalCost == PairCost(costs, m, n, r.value.pairs)
    ensures r.Some? ==> forall x, y :: 0 <= x < y < |r.value.pairs| ==>
      r.value.pairs[x].0 < r.value.pairs[y].0 && r.value.pairs[x].1 != r.value.pairs[y].1
    ensures r.Some? ==> forall x :: 0 <= x < |r.value.pairs| ==>
      Reduced(costs, m, n)[r.value.pairs[x].0][r.value.pairs[x].1] == 0.0
    ensures r.Some? && m <= n ==> |r.value.pairs| == m
    ensures r.Some? ==> Numbered(r.value.steps) && |r.value.steps| == 4
    ensures r.Some? ==>
      (&& r.value.steps[0].matrix == Pad(costs, m, n)
       && r.value.steps[1].matrix == RowReduce(Pad(costs, m, n), Size(m, n))
       && r.value.steps[2].matrix == Reduced(costs, m, n)
       && r.value.steps[3].matrix == Reduced(costs, m, n))
  {
    var k := Size(m, n);
    var padded := Pad(costs, m, n);
    var rowReduced := RowReduce(padded, k);
    var C := ColumnReduce(rowReduced, k);
    assert C == Reduced(costs, m, n);
    ReducedZeros(costs, m, n);
    var steps0 := [Step(0, padded, [], []), Step(1, rowReduced, [], []), Step(2, C, [], [])];
    var steps, assign := CoverRounds(C, k, fuel, steps0);
    if assign.None? {
      return None;
    }
    assert steps[..3] == steps0;
    assert steps[0] == steps0[0] && steps[1] == steps0[1] && steps[2] == steps0[2];
    var pairs, total := PairsBack(costs, m, n, assign.value);
    GreedyPairs(C, k, m, n);
    r := Some(Hungarian(pairs, total, steps));
  }
}
