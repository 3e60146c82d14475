/**
  Input checking, balancing and the small helpers on allocation matrices that
  the transportation solvers share (backend/transport/utils.py and its copy
  api/transport/utils.py).
*/
module Utils {
  import opened Wrappers
  import opened Matrices

  /** A transportation problem: costs (m x n), supply (m) and demand (n). */
  datatype Problem = Problem(costs: Matrix, supply: seq<real>, demand: seq<real>)

  predicate Shaped(p: Problem) {
    IsMatrix(p.costs, |p.supply|, |p.demand|)
  }

  /** What the solvers start from: a well-shaped problem with non-negative data. */
  predicate Valid(p: Problem) {
    Shaped(p) && |p.supply| >= 1 && NonNegative(p.costs) && NonNegVector(p.supply) && NonNegVector(p.demand)
  }

  predicate Balanced(p: Problem) {
    Valid(p) && Sum(p.supply) == Sum(p.demand)
  }

  /** Why the input is rejected; every case is a ValueError in the source except `MissingColumnAxis`, an IndexError. */
  datatype InputError =
    | RaggedCosts                                    // np.array cannot build a matrix from rows of unequal length
    | RowsMismatch(rows: nat, supplyLength: nat)
    | MissingColumnAxis                              // an empty cost list converts to a 1-D array with no shape[1]
    | ColumnsMismatch(columns: nat, demandLength: nat)
    | NegativeCost
    | NegativeSupply
    | NegativeDemand

  predicate Rectangular(costs: Matrix) {
    forall i :: 0 <= i < |costs| ==> |costs[i]| == |costs[0]|
  }

  /**
    `validate_input`: the checks in the source's order; a problem that passes
    is returned unchanged.
  */
  function ValidateInput(costs: Matrix, supply: seq<real>, demand: seq<real>): (r: Result<Problem, InputError>)
    ensures r.Success? <==> Valid(Problem(costs, supply, demand))
    ensures r.Success? ==> r.value == Problem(costs, supply, demand)
    ensures r.Failure? && r.error.NegativeCost? ==> exists i, j :: 0 <= i < |costs| && 0 <= j < |costs[i]| && costs[i][j] < 0.0
    ensures r.Failure? && r.error.RowsMismatch? ==> |costs| != |supply|
    ensures r.Failure? && r.error.ColumnsMismatch? ==> exists i :: 0 <= i < |costs| && |costs[i]| != |demand|
  {
    if !Rectangular(costs) then Failure(RaggedCosts)
    else if |costs| != |supply| then Failure(RowsMismatch(|costs|, |supply|))
    else if |costs| == 0 then Failure(MissingColumnAxis)
    else if |costs[0]| != |demand| then Failure(ColumnsMismatch(|costs[0]|, |demand|))
    else if exists i, j | 0 <= i < |costs| && 0 <= j < |costs[i]| :: costs[i][j] < 0.0 then Failure(NegativeCost)
    else if exists i | 0 <= i < |supply| :: supply[i] < 0.0 then Failure(NegativeSupply)
    else if exists j | 0 <= j < |demand| :: demand[j] < 0.0 then Failure(NegativeDemand)
    else Success(Problem(costs, supply, demand))
  }

  /** `dummy_added`: False, ("destination", excess) or ("source", excess). */
  datatype Dummy = NoDummy | DummyDestination(amount: real) | DummySource(amount: real)

  /**
    `balance_problem`: when supply exceeds demand, one destination whose
    demand is the excess is appended with a zero cost in every row; when
    demand exceeds supply, one source is appended likewise; a balanced problem
    is returned as it is.
  */
  function BalanceProblem(p: Problem): (r: (Problem, Dummy))
    requires Shaped(p)
    ensures Shaped(r.0)
    ensures Sum(r.0.supply) == Sum(r.0.demand)
    ensures r.1.NoDummy? <==> Sum(p.supply) == Sum(p.demand)
    ensures r.1.NoDummy? ==> r.0 == p
    ensures r.1.DummyDestination? ==>
      && r.1.amount == Sum(p.supply) - Sum(p.demand) > 0.0
      && r.0.supply == p.supply
      && r.0.demand == p.demand + [r.1.amount]
      && forall i :: 0 <= i < |p.supply| ==> r.0.costs[i] == p.costs[i] + [0.0]
    ensures r.1.DummySource? ==>
      && r.1.amount == Sum(p.demand) - Sum(p.supply) > 0.0
      && r.0.demand == p.demand
      && r.0.supply == p.supply + [r.1.amount]
      && r.0.costs[..|p.supply|] == p.costs
      && r.0.costs[|p.supply|] == seq(|p.demand|, j => 0.0)
  {
    var totalSupply := Sum(p.supply);
    var totalDemand := Sum(p.demand);
    if totalSupply > totalDemand then
      var excess := totalSupply - totalDemand;
      SumAppend(p.demand, excess);
      (Problem(seq(|p.costs|, i requires 0 <= i < |p.costs| => p.costs[i] + [0.0]), p.supply, p.demand + [excess]),
       DummyDestination(excess))
    else if totalDemand > totalSupply then
      var excess := totalDemand - totalSupply;
      SumAppend(p.supply, excess);
      (Problem(p.costs + [seq(|p.demand|, j => 0.0)], p.supply + [excess], p.demand), DummySource(excess))
    else
      (p, NoDummy)
  }

  /** Balancing a balanced problem changes nothing, so balancing twice is balancing once. */
  lemma BalanceIdempotent(p: Problem)
    requires Shaped(p)
    ensures BalanceProblem(BalanceProblem(p).0) == (BalanceProblem(p).0, NoDummy)
  {
  }

  /** Balancing keeps the data valid. */
  lemma BalanceKeepsValid(p: Problem)
    requires Valid(p)
    ensures Balanced(BalanceProblem(p).0)
  {
    var r := BalanceProblem(p);
    if r.1.DummyDestination? {
      forall i, j | 0 <= i < |r.0.costs| && 0 <= j < |r.0.costs[i]|
        ensures r.0.costs[i][j] >= 0.0
      {
        if j < |p.demand| {
          assert r.0.costs[i][j] == p.costs[i][j];
        }
      }
    } else if r.1.DummySource? {
      forall i, j | 0 <= i < |r.0.costs| && 0 <= j < |r.0.costs[i]|
        ensures r.0.costs[i][j] >= 0.0
      {
        if i < |p.supply| {
          assert r.0.costs[i] == p.costs[i];
        }
      }
    }
  }

  /** Balancing whole-number data gives whole-number data. */
  lemma BalanceKeepsWhole(p: Problem)
    requires Shaped(p) && AllWhole(p.supply) && AllWhole(p.demand)
    ensures AllWhole(BalanceProblem(p).0.supply) && AllWhole(BalanceProblem(p).0.demand)
  {
    SumWhole(p.supply);
    SumWhole(p.demand);
    WholeDifference(Sum(p.supply), Sum(p.demand));
    WholeDifference(Sum(p.demand), Sum(p.supply));
  }

  // ---------------------------------------------------------------------------
  // Total cost

  function Dot(a: seq<real>, c: seq<real>): real
    requires |a| == |c|
  {
    if |a| == 0 then 0.0 else a[0] * c[0] + Dot(a[1..], c[1..])
  }

  /** `calculate_total_cost`: the sum over all cells of allocation times cost. */
  function TotalCost(A: Matrix, C: Matrix): real
    requires |A| == |C| && forall i :: 0 <= i < |A| ==> |A[i]| == |C[i]|
  {
    if |A| == 0 then 0.0 else Dot(A[0], C[0]) + TotalCost(A[1..], C[1..])
  }

  lemma {:induction false} DotUpdate(a: seq<real>, c: seq<real>, k: nat, d: real)
    requires |a| == |c| && k < |a|
    ensures Dot(a[k := a[k] + d], c) == Dot(a, c) + d * c[k]
  {
    if k == 0 {
      assert a[k := a[k] + d][1..] == a[1..];
    } else {
      assert a[k := a[k] + d][1..] == a[1..][k - 1 := a[1..][k - 1] + d];
      DotUpdate(a[1..], c[1..], k - 1, d);
    }
  }

  /** Changing one cell by d changes the total cost by d times that cell's cost. */
  lemma {:induction false} TotalCostSetCell(A: Matrix, C: Matrix, i: nat, j: nat, d: real)
    requires |A| == |C| && forall a :: 0 <= a < |A| ==> |A[a]| == |C[a]|
    requires i < |A| && j < |A[i]|
    ensures TotalCost(SetCell(A, i, j, A[i][j] + d), C) == TotalCost(A, C) + d * C[i][j]
  {
    var A' := SetCell(A, i, j, A[i][j] + d);
    if i == 0 {
      assert A'[1..] == A[1..];
      assert A'[0] == A[0][j := A[0][j] + d];
      DotUpdate(A[0], C[0], j, d);
      assert TotalCost(A', C) == Dot(A'[0], C[0]) + TotalCost(A[1..], C[1..]);
      assert TotalCost(A, C) == Dot(A[0], C[0]) + TotalCost(A[1..], C[1..]);
      assert d * C[i][j] == d * C[0][j];
    } else {
      assert A'[0] == A[0] && A[1..][i - 1] == A[i] && C[1..][i - 1] == C[i];
      assert A'[1..] == SetCell(A[1..], i - 1, j, A[i][j] + d);
      TotalCostSetCell(A[1..], C[1..], i - 1, j, d);
    }
  }

  lemma {:induction false} DotNonNegative(a: seq<real>, c: seq<real>)
    requires |a| == |c| && NonNegVector(a) && NonNegVector(c)
    ensures Dot(a, c) >= 0.0
  {
    if |a| > 0 {
      DotNonNegative(a[1..], c[1..]);
    }
  }

  /** Non-negative allocations at non-negative costs cost a non-negative total. */
  lemma {:induction false} TotalCostNonNegative(A: Matrix, C: Matrix)
    requires |A| == |C| && forall i :: 0 <= i < |A| ==> |A[i]| == |C[i]|
    requires NonNegative(A) && NonNegative(C)
    ensures TotalCost(A, C) >= 0.0
  {
    if |A| > 0 {
      DotNonNegative(A[0], C[0]);
      TotalCostNonNegative(A[1..], C[1..]);
    }
  }

  // ---------------------------------------------------------------------------
  // Basic cells and degeneracy

  /** The positive cells at or after (i, j), in row-major order. */
  function BasicFrom(A: Matrix, m: nat, n: nat, i: nat, j: nat): seq<Cell>
    requires IsMatrix(A, m, n) && i <= m && j <= n
    decreases m - i, n - j
  {
    if i == m then []
    else if j == n then BasicFrom(A, m, n, i + 1, 0)
    else if A[i][j] > 0.0 then [(i, j)] + BasicFrom(A, m, n, i, j + 1)
    else BasicFrom(A, m, n, i, j + 1)
  }

  /** BasicFrom lists only positive cells at or after (i, j). */
  lemma {:induction false} BasicFromCells(A: Matrix, m: nat, n: nat, i: nat, j: nat)
    requires IsMatrix(A, m, n) && i <= m && j <= n
    decreases m - i, n - j
    ensures forall k :: 0 <= k < |BasicFrom(A, m, n, i, j)| ==>
      && BasicFrom(A, m, n, i, j)[k].0 < m && BasicFrom(A, m, n, i, j)[k].1 < n
      && A[BasicFrom(A, m, n, i, j)[k].0][BasicFrom(A, m, n, i, j)[k].1] > 0.0
      && !Before(BasicFrom(A, m, n, i, j)[k].0, BasicFrom(A, m, n, i, j)[k].1, i, j)
  {
    if i == m {
    } else if j == n {
      BasicFromCells(A, m, n, i + 1, 0);
    } else {
      BasicFromCells(A, m, n, i, j + 1);
      var rest := BasicFrom(A, m, n, i, j + 1);
      if A[i][j] > 0.0 {
        var r := [(i, j)] + rest;
        assert forall k :: 1 <= k < |r| ==> r[k] == rest[k - 1];
      }
    }
  }

  /** BasicFrom lists every positive cell at or after (i, j). */
  lemma {:induction false} BasicFromComplete(A: Matrix, m: nat, n: nat, i: nat, j: nat)
    requires IsMatrix(A, m, n) && i <= m && j <= n
    decreases m - i, n - j
    ensures forall a, b :: 0 <= a < m && 0 <= b < n && !Before(a, b, i, j) && A[a][b] > 0.0 ==> (a, b) in BasicFrom(A, m, n, i, j)
  {
    if i == m {
    } else if j == n {
      BasicFromComplete(A, m, n, i + 1, 0);
    } else {
      BasicFromComplete(A, m, n, i, j + 1);
    }
  }

  /** BasicFrom lists its cells in strictly increasing row-major order. */
  lemma {:induction false} BasicFromSorted(A: Matrix, m: nat, n: nat, i: nat, j: nat)
    requires IsMatrix(A, m, n) && i <= m && j <= n
    decreases m - i, n - j
    ensures forall k, l :: 0 <= k < l < |BasicFrom(A, m, n, i, j)| ==>
      Before(BasicFrom(A, m, n, i, j)[k].0, BasicFrom(A, m, n, i, j)[k].1, BasicFrom(A, m, n, i, j)[l].0, BasicFrom(A, m, n, i, j)[l].1)
  {
    if i == m {
    } else if j == n {
      BasicFromSorted(A, m, n, i + 1, 0);
    } else {
      BasicFromSorted(A, m, n, i, j + 1);
      BasicFromCells(A, m, n, i, j + 1);
      var rest := BasicFrom(A, m, n, i, j + 1);
      if A[i][j] > 0.0 {
        var r := [(i, j)] + rest;
        assert forall k :: 1 <= k < |r| ==> r[k] == rest[k - 1];
      }
    }
  }

  /**
    `get_basic_variables`: exactly the cells holding a positive amount, each
    once, in row-major order.
  */
  function BasicVariables(A: Matrix, m: nat, n: nat): (r: seq<Cell>)
    requires IsMatrix(A, m, n)
    ensures forall k :: 0 <= k < |r| ==> r[k].0 < m && r[k].1 < n && A[r[k].0][r[k].1] > 0.0
    ensures forall a, b :: 0 <= a < m && 0 <= b < n && A[a][b] > 0.0 ==> (a, b) in r
    ensures forall k, l :: 0 <= k < l < |r| ==> Before(r[k].0, r[k].1, r[l].0, r[l].1)
  {
    BasicFromCells(A, m, n, 0, 0);
    BasicFromComplete(A, m, n, 0, 0);
    BasicFromSorted(A, m, n, 0, 0);
    BasicFrom(A, m, n, 0, 0)
  }

  /** `is_degenerate`: fewer basic cells than m + n - 1. */
  predicate IsDegenerate(A: Matrix, m: nat, n: nat)
    requires IsMatrix(A, m, n)
  {
    |BasicVariables(A, m, n)| < m + n - 1
  }

  /** The set of cells holding a positive amount. */
  function PositiveCells(A: Matrix, m: nat, n: nat): set<Cell>
    requires IsMatrix(A, m, n)
  {
    set a: nat, b: nat | a < m && b < n && A[a][b] > 0.0 :: (a, b)
  }

  /** The cells listed in s. */
  function CellsOf(s: seq<Cell>): set<Cell> {
    set k | 0 <= k < |s| :: s[k]
  }

  /** The cells of a non-empty list are its head and the cells of its tail. */
  lemma CellsOfCons(s: seq<Cell>)
    requires |s| > 0
    ensures CellsOf(s) == {s[0]} + CellsOf(s[1..])
  {
    var rest := s[1..];
    forall x | x in CellsOf(s) ensures x in {s[0]} + CellsOf(rest) {
      var k :| 0 <= k < |s| && s[k] == x;
      if k > 0 { assert rest[k - 1] == x; }
    }
    forall x | x in CellsOf(rest) ensures x in CellsOf(s) {
      var k :| 0 <= k < |rest| && rest[k] == x;
      assert s[k + 1] == x;
    }
  }

  /** In a list in row-major order the head does not come again. */
  lemma HeadNotRepeated(s: seq<Cell>)
    requires |s| > 0
    requires forall k, l :: 0 <= k < l < |s| ==> Before(s[k].0, s[k].1, s[l].0, s[l].1)
    ensures s[0] !in CellsOf(s[1..])
  {
    var rest := s[1..];
    forall k | 0 <= k < |rest| ensures rest[k] != s[0] {
      assert Before(s[0].0, s[0].1, s[k + 1].0, s[k + 1].1);
    }
  }

  /** A list in row-major order lists |s| distinct cells. */
  lemma {:induction false} SortedCellsCount(s: seq<Cell>)
    requires forall k, l :: 0 <= k < l < |s| ==> Before(s[k].0, s[k].1, s[l].0, s[l].1)
    ensures |CellsOf(s)| == |s|
  {
    if |s| > 0 {
      var rest := s[1..];
      assert forall k, l :: 0 <= k < l < |rest| ==> rest[k] == s[k + 1] && rest[l] == s[l + 1];
      SortedCellsCount(rest);
      CellsOfCons(s);
      HeadNotRepeated(s);
    }
  }

  /** The degeneracy test counts the positive cells: degenerate iff fewer than m + n - 1 of them. */
  lemma IsDegenerateCountsPositiveCells(A: Matrix, m: nat, n: nat)
    requires IsMatrix(A, m, n)
    ensures |BasicVariables(A, m, n)| == |PositiveCells(A, m, n)|
    ensures IsDegenerate(A, m, n) <==> |PositiveCells(A, m, n)| < m + n - 1
  {
    var r := BasicVariables(A, m, n);
    SortedCellsCount(r);
    var S := CellsOf(r);
    assert S == PositiveCells(A, m, n) by {
      forall c | c in PositiveCells(A, m, n) ensures c in S {
        assert c in r;
        var k :| 0 <= k < |r| && r[k] == c;
      }
    }
  }

  // ---------------------------------------------------------------------------
  // Degeneracy repair

  /** The epsilon that `add_epsilon_allocation` writes. */
  const Epsilon: real := 0.0000000001

  function ZeroMask(A: Matrix, m: nat, n: nat): (mask: seq<seq<bool>>)
    requires IsMatrix(A, m, n)
    ensures IsMask(mask, m, n)
    ensures forall i, j :: 0 <= i < m && 0 <= j < n ==> mask[i][j] == (A[i][j] == 0.0)
  {
    seq(m, i requires 0 <= i < m => seq(n, j requires 0 <= j < n => A[i][j] == 0.0))
  }

  /**
    `add_epsilon_allocation`: on a copy, the first zero cell in row-major
    order among those of least cost receives epsilon; without a zero cell the
    copy equals the input.
  */
  method AddEpsilonAllocation(A: Matrix, costs: Matrix, m: nat, n: nat) returns (r: Matrix)
    requires IsMatrix(A, m, n) && IsMatrix(costs, m, n)
    ensures IsMatrix(r, m, n)
    ensures var c := FirstMin(costs, ZeroMask(A, m, n), m, n);
      r == if c.None? then A else SetCell(A, c.value.0, c.value.1, Epsilon)
  {
    r := A;
    var minCost: real := 0.0;               // meaningful only once minPos is set (the source starts at +infinity)
    var minPos: Option<Cell> := None;
    for i := 0 to m
      invariant minPos == FirstMinBefore(costs, ZeroMask(A, m, n), m, n, i, 0)
      invariant minPos.Some? ==> minCost == costs[minPos.value.0][minPos.value.1]
    {
      minPos, minCost := ScanZeroRow(A, costs, m, n, i, minPos, minCost);
    }
    if minPos.Some? {
      r := SetCell(r, minPos.value.0, minPos.value.1, Epsilon);
    }
  }

  /** The inner loop of `add_epsilon_allocation`: carry the cheapest zero cell so far through row i. */
  method ScanZeroRow(A: Matrix, costs: Matrix, m: nat, n: nat, i: nat, minPos0: Option<Cell>, minCost0: real)
    returns (minPos: Option<Cell>, minCost: real)
    requires IsMatrix(A, m, n) && IsMatrix(costs, m, n) && i < m
    requires minPos0 == FirstMinBefore(costs, ZeroMask(A, m, n), m, n, i, 0)
    requires minPos0.Some? ==> minCost0 == costs[minPos0.value.0][minPos0.value.1]
    ensures minPos == FirstMinBefore(costs, ZeroMask(A, m, n), m, n, i + 1, 0)
    ensures minPos.Some? ==> minCost == costs[minPos.value.0][minPos.value.1]
  {
    minPos, minCost := minPos0, minCost0;
    for j := 0 to n
      invariant minPos == FirstMinBefore(costs, ZeroMask(A, m, n), m, n, i, j)
      invariant minPos.Some? ==> minCost == costs[minPos.value.0][minPos.value.1]
    {
      minPos, minCost := ScanZeroCell(A, costs, m, n, i, j, minPos, minCost);
    }
    FirstMinNextRow(costs, ZeroMask(A, m, n), m, n, i);
  }

  /** One cell of the scan: a zero cell strictly cheaper than the best so far becomes the best. */
  method ScanZeroCell(A: Matrix, costs: Matrix, m: nat, n: nat, i: nat, j: nat, minPos0: Option<Cell>, minCost0: real)
    returns (minPos: Option<Cell>, minCost: real)
    requires IsMatrix(A, m, n) && IsMatrix(costs, m, n) && i < m && j < n
    requires minPos0 == FirstMinBefore(costs, ZeroMask(A, m, n), m, n, i, j)
    requires minPos0.Some? ==> minCost0 == costs[minPos0.value.0][minPos0.value.1]
    ensures minPos == FirstMinBefore(costs, ZeroMask(A, m, n), m, n, i, j + 1)
    ensures minPos.Some? ==> minCost == costs[minPos.value.0][minPos.value.1]
  {
    FirstMinNext(costs, ZeroMask(A, m, n), m, n, i, j);
    minPos, minCost := minPos0, minCost0;
    if A[i][j] == 0.0 && (minPos.None? || costs[i][j] < minCost) {
      minCost := costs[i][j];
      minPos := Some((i, j));
    }
  }

  /** The cell that `add_epsilon_allocation` changes was zero, is the cheapest zero cell, and no other cell changes. */
  lemma EpsilonChangesOneZeroCell(A: Matrix, costs: Matrix, m: nat, n: nat, i: nat, j: nat)
    requires IsMatrix(A, m, n) && IsMatrix(costs, m, n)
    requires FirstMin(costs, ZeroMask(A, m, n), m, n) == Some((i, j))
    ensures A[i][j] == 0.0
    ensures forall a, b :: 0 <= a < m && 0 <= b < n && A[a][b] == 0.0 ==> costs[i][j] <= costs[a][b]
    ensures forall a, b :: 0 <= a < m && 0 <= b < n && A[a][b] == 0.0 && Before(a, b, i, j) ==> costs[i][j] < costs[a][b]
    ensures SetCell(A, i, j, Epsilon)[i][j] == Epsilon
  {
  }

  // ---------------------------------------------------------------------------
  // Trace

  /**
    A trace entry of `create_step_log`: its number and copies of the
    matrices it records (the allocation, or the reduced cost matrix for the
    assignment solver) and of the remaining supply and demand, which are
    empty when the caller does not pass them; the description text is left out.
  */
  datatype Step = Step(number: int, matrix: Matrix, remainingSupply: seq<real>, remainingDemand: seq<real>)

  /** Steps are numbered 0, 1, 2, ... in the order they were recorded. */
  predicate Numbered(steps: seq<Step>) {
    forall t :: 0 <= t < |steps| ==> steps[t].number == t
  }

  /** Logging a step under the next number keeps the log numbered. */
  lemma NumberedAppend(steps: seq<Step>, s: Step)
    requires Numbered(steps) && s.number == |steps|
    ensures Numbered(steps + [s])
  {
    forall t | 0 <= t < |steps| + 1 ensures (steps + [s])[t].number == t {
      if t < |steps| {
        assert (steps + [s])[t] == steps[t];
      }
    }
  }
}
