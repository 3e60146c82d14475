/**
  The four initial-solution heuristics (backend/transport/methods.py and its
  copy api/transport/methods.py). Each fills an allocation matrix cell by cell
  while it decrements the remaining supply and demand, and records one trace
  step per allocation after the initial step 0.
*/
module Methods {
  import opened Wrappers
  import opened Matrices
  import opened Utils

  // ---------------------------------------------------------------------------
  // The state every heuristic keeps

  /** Each row's allocated amount plus what its source still holds is its supply; likewise for columns. */
  predicate Conserves(A: Matrix, rs: seq<real>, rd: seq<real>, p: Problem)
    requires Shaped(p)
  {
    && IsMatrix(A, |p.supply|, |p.demand|) && |rs| == |p.supply| && |rd| == |p.demand|
    && (forall i :: 0 <= i < |p.supply| ==> Sum(A[i]) + rs[i] == p.supply[i])
    && (forall j :: 0 <= j < |p.demand| ==> Sum(Column(A, j)) + rd[j] == p.demand[j])
  }

  /** A partial solution: conserved amounts, nothing negative, and as much supply left as demand. */
  predicate Partial(A: Matrix, rs: seq<real>, rd: seq<real>, p: Problem)
    requires Shaped(p)
  {
    Conserves(A, rs, rd, p) && NonNegative(A) && NonNegVector(rs) && NonNegVector(rd) && Sum(rs) == Sum(rd)
  }

  /** A feasible allocation: rows sum to the supply, columns to the demand, no cell negative. */
  predicate Feasible(A: Matrix, p: Problem)
    requires Shaped(p)
  {
    && IsMatrix(A, |p.supply|, |p.demand|) && NonNegative(A)
    && (forall i :: 0 <= i < |p.supply| ==> Sum(A[i]) == p.supply[i])
    && (forall j :: 0 <= j < |p.demand| ==> Sum(Column(A, j)) == p.demand[j])
  }

  /** A recorded trace step of a heuristic holds a partial solution. */
  predicate Recorded(s: Step, p: Problem)
    requires Shaped(p)
  {
    Partial(s.matrix, s.remainingSupply, s.remainingDemand, p)
  }

  /**
    A heuristic's trace so far: numbered steps, step 0 the initial problem,
    every step a partial solution, the last one the current state.
  */
  predicate Trace(steps: seq<Step>, p: Problem, A: Matrix, rs: seq<real>, rd: seq<real>)
    requires Shaped(p)
  {
    && |steps| >= 1 && Numbered(steps)
    && steps[0] == Step(0, Zeros(|p.supply|, |p.demand|), p.supply, p.demand)
    && (forall t :: 0 <= t < |steps| ==> Recorded(steps[t], p))
    && steps[|steps| - 1] == Step(|steps| - 1, A, rs, rd)
  }

  /** Logging the state after an allocation extends the trace. */
  lemma TraceExtend(steps: seq<Step>, p: Problem, A: Matrix, rs: seq<real>, rd: seq<real>,
                    A': Matrix, rs': seq<real>, rd': seq<real>)
    requires Shaped(p) && Trace(steps, p, A, rs, rd) && Partial(A', rs', rd', p)
    ensures Trace(steps + [Step(|steps|, A', rs', rd')], p, A', rs', rd')
  {
  }

  /** The state every heuristic starts from: nothing allocated, everything remaining. */
  lemma StartIsPartial(p: Problem)
    requires Balanced(p)
    ensures Partial(Zeros(|p.supply|, |p.demand|), p.supply, p.demand, p)
  {
    var Z := Zeros(|p.supply|, |p.demand|);
    forall i | 0 <= i < |p.supply| ensures Sum(Z[i]) == 0.0 {
      SumOfZeros(Z[i]);
    }
    forall j | 0 <= j < |p.demand| ensures Sum(Column(Z, j)) == 0.0 {
      SumOfZeros(Column(Z, j));
    }
  }

  /**
    One allocation step: writing min(remaining supply, remaining demand) into
    a cell that still holds 0 and decrementing both remainders keeps a partial
    solution, and exhausts the row or the column.
  */
  lemma AllocateKeepsPartial(A: Matrix, rs: seq<real>, rd: seq<real>, p: Problem, i: nat, j: nat, x: real)
    requires Shaped(p) && Partial(A, rs, rd, p)
    requires i < |p.supply| && j < |p.demand| && A[i][j] == 0.0
    requires x == Min(rs[i], rd[j])
    ensures Partial(SetCell(A, i, j, x), rs[i := rs[i] - x], rd[j := rd[j] - x], p)
    ensures rs[i] - x == 0.0 || rd[j] - x == 0.0
  {
    var m, n := |p.supply|, |p.demand|;
    var A' := SetCell(A, i, j, x);
    SetCellSums(A, m, n, i, j, x);
    SumUpdate(rs, i, rs[i] - x);
    SumUpdate(rd, j, rd[j] - x);
    forall a, b | 0 <= a < |A'| && 0 <= b < |A'[a]| ensures A'[a][b] >= 0.0 {
      if a != i || b != j {
        assert A'[a][b] == A[a][b];
      }
    }
  }

  /** A partial solution in which one side has nothing left is feasible. */
  lemma ExhaustedIsFeasible(A: Matrix, rs: seq<real>, rd: seq<real>, p: Problem)
    requires Shaped(p) && Partial(A, rs, rd, p)
    requires (forall a :: 0 <= a < |rs| ==> rs[a] == 0.0) || (forall b :: 0 <= b < |rd| ==> rd[b] == 0.0)
    ensures Feasible(A, p)
  {
    if forall a :: 0 <= a < |rs| ==> rs[a] == 0.0 {
      SumOfZeros(rs);
      SumZeroMeansAllZero(rd);
    } else {
      SumOfZeros(rd);
      SumZeroMeansAllZero(rs);
    }
  }

  /** With whole-number data, a side whose remaining total is at most 1e-10 has nothing left, nor has the other. */
  lemma WholeRemainderExhausted(A: Matrix, rs: seq<real>, rd: seq<real>, p: Problem)
    requires Shaped(p) && Partial(A, rs, rd, p) && AllWhole(rs) && AllWhole(rd)
    requires Sum(rs) <= Tol || Sum(rd) <= Tol
    ensures Feasible(A, p)
  {
    SumWhole(rs);
    SumNonNegative(rs);
    WholeBelowTol(Sum(rs));
    SumZeroMeansAllZero(rs);
    ExhaustedIsFeasible(A, rs, rd, p);
  }

  /** An allocation of min(supply, demand) at (i, j), logged as the next step, keeps a partial solution and its trace. */
  lemma AllocateKeepsTrace(p: Problem, A: Matrix, rs: seq<real>, rd: seq<real>, steps: seq<Step>, i: nat, j: nat, x: real)
    requires Shaped(p) && Partial(A, rs, rd, p) && Trace(steps, p, A, rs, rd)
    requires i < |p.supply| && j < |p.demand| && A[i][j] == 0.0 && x == Min(rs[i], rd[j])
    ensures Partial(SetCell(A, i, j, x), rs[i := rs[i] - x], rd[j := rd[j] - x], p)
    ensures Trace(steps + [Step(|steps|, SetCell(A, i, j, x), rs[i := rs[i] - x], rd[j := rd[j] - x])],
                  p, SetCell(A, i, j, x), rs[i := rs[i] - x], rd[j := rd[j] - x])
  {
    AllocateKeepsPartial(A, rs, rd, p, i, j, x);
    TraceExtend(steps, p, A, rs, rd, SetCell(A, i, j, x), rs[i := rs[i] - x], rd[j := rd[j] - x]);
  }

  lemma WholeAfterAllocate(rs: seq<real>, rd: seq<real>, i: nat, j: nat, x: real)
    requires AllWhole(rs) && AllWhole(rd) && i < |rs| && j < |rd| && x == Min(rs[i], rd[j])
    ensures AllWhole(rs[i := rs[i] - x]) && AllWhole(rd[j := rd[j] - x])
  {
    WholeDifference(rs[i], x);
    WholeDifference(rd[j], x);
  }

  // ---------------------------------------------------------------------------
  // North-West Corner Rule

  /**
    The NWCR loop from position (i, j), as a function: allocate
    min(remaining supply, remaining demand) to (i, j), then move down if the
    row is exhausted and right if the column is (both when both are).
  */
  function NwcrFrom(p: Problem, i: nat, j: nat, A: Matrix, rs: seq<real>, rd: seq<real>, steps: seq<Step>): (Matrix, seq<Step>)
    requires Shaped(p) && IsMatrix(A, |p.supply|, |p.demand|) && |rs| == |p.supply| && |rd| == |p.demand|
    requires i <= |p.supply| && j <= |p.demand|
    decreases |p.supply| - i + |p.demand| - j
  {
    if i < |p.supply| && j < |p.demand| then
      var x := Min(rs[i], rd[j]);
      var A' := SetCell(A, i, j, x);
      var rs' := rs[i := rs[i] - x];
      var rd' := rd[j := rd[j] - x];
      NwcrFrom(p, if rs'[i] == 0.0 then i + 1 else i, if rd'[j] == 0.0 then j + 1 else j,
               A', rs', rd', steps + [Step(|steps|, A', rs', rd')])
    else
      (A, steps)
  }

  /** One unfolding of `NwcrFrom` at a position inside the matrix. */
  lemma NwcrFromUnfold(p: Problem, i: nat, j: nat, A: Matrix, rs: seq<real>, rd: seq<real>, steps: seq<Step>, x: real)
    requires Shaped(p) && IsMatrix(A, |p.supply|, |p.demand|) && |rs| == |p.supply| && |rd| == |p.demand|
    requires i < |p.supply| && j < |p.demand| && x == Min(rs[i], rd[j])
    ensures NwcrFrom(p, i, j, A, rs, rd, steps)
         == NwcrFrom(p, if rs[i] - x == 0.0 then i + 1 else i, if rd[j] - x == 0.0 then j + 1 else j,
                     SetCell(A, i, j, x), rs[i := rs[i] - x], rd[j := rd[j] - x],
                     steps + [Step(|steps|, SetCell(A, i, j, x), rs[i := rs[i] - x], rd[j := rd[j] - x])])
  {
  }

  /** Everything `nwcr` computes after the initial step. */
  function NwcrRun(p: Problem): (Matrix, seq<Step>)
    requires Shaped(p)
  {
    var Z := Zeros(|p.supply|, |p.demand|);
    NwcrFrom(p, 0, 0, Z, p.supply, p.demand, [Step(0, Z, p.supply, p.demand)])
  }

  /** What holds between iterations of the NWCR loop. */
  predicate NwcrInv(p: Problem, i: nat, j: nat, A: Matrix, rs: seq<real>, rd: seq<real>, steps: seq<Step>)
    requires Balanced(p)
  {
    && i <= |p.supply| && j <= |p.demand| && Partial(A, rs, rd, p)
    && (forall a, b :: i <= a < |p.supply| && j <= b < |p.demand| ==> A[a][b] == 0.0)
    && (forall a :: 0 <= a < i ==> rs[a] == 0.0)
    && (forall b :: 0 <= b < j ==> rd[b] == 0.0)
    && Trace(steps, p, A, rs, rd)
    && |steps| <= i + j + 1 && (i == |p.supply| && j == |p.demand| ==> |steps| <= i + j)
  }

  /** One iteration of the NWCR loop keeps its invariant. */
  lemma NwcrStep(p: Problem, i: nat, j: nat, A: Matrix, rs: seq<real>, rd: seq<real>, steps: seq<Step>, x: real)
    requires Balanced(p) && NwcrInv(p, i, j, A, rs, rd, steps)
    requires i < |p.supply| && j < |p.demand| && x == Min(rs[i], rd[j])
    ensures NwcrInv(p, if rs[i] - x == 0.0 then i + 1 else i, if rd[j] - x == 0.0 then j + 1 else j,
                    SetCell(A, i, j, x), rs[i := rs[i] - x], rd[j := rd[j] - x],
                    steps + [Step(|steps|, SetCell(A, i, j, x), rs[i := rs[i] - x], rd[j := rd[j] - x])])
  {
    AllocateKeepsPartial(A, rs, rd, p, i, j, x);
    TraceExtend(steps, p, A, rs, rd, SetCell(A, i, j, x), rs[i := rs[i] - x], rd[j := rd[j] - x]);
  }

  /**
    One pass of the NWCR loop body: allocate min(supply, demand) at (i, j),
    log the step, and move down when the row is exhausted and right when
    the column is.
  */
  method NwcrAllocate(p: Problem, i0: nat, j0: nat, A0: Matrix, rs0: seq<real>, rd0: seq<real>, steps0: seq<Step>)
    returns (i: nat, j: nat, A: Matrix, rs: seq<real>, rd: seq<real>, steps: seq<Step>)
    requires Balanced(p) && NwcrInv(p, i0, j0, A0, rs0, rd0, steps0)
    requires i0 < |p.supply| && j0 < |p.demand|
    ensures NwcrInv(p, i, j, A, rs, rd, steps)
    ensures NwcrFrom(p, i, j, A, rs, rd, steps) == NwcrFrom(p, i0, j0, A0, rs0, rd0, steps0)
    ensures |p.supply| - i + |p.demand| - j < |p.supply| - i0 + |p.demand| - j0
  {
    var x := Min(rs0[i0], rd0[j0]);
    NwcrStep(p, i0, j0, A0, rs0, rd0, steps0, x);
    NwcrFromUnfold(p, i0, j0, A0, rs0, rd0, steps0, x);
    A := SetCell(A0, i0, j0, x);
    rs := rs0[i0 := rs0[i0] - x];
    rd := rd0[j0 := rd0[j0] - x];
    steps := steps0 + [Step(|steps0|, A, rs, rd)];
    i, j := i0, j0;
    if rs[i0] == 0.0 {
      i := i0 + 1;
    }
    if rd[j0] == 0.0 {
      j := j0 + 1;
    }
  }

  /**
    `nwcr` (allocation loop): the result is feasible; at most m + n - 1
    allocation steps follow step 0, each recording a partial solution.
  */
  method Nwcr(p: Problem) returns (A: Matrix, steps: seq<Step>)
    requires Balanced(p)
    ensures Feasible(A, p)
    ensures |steps| >= 1 && Trace(steps, p, A, steps[|steps| - 1].remainingSupply, steps[|steps| - 1].remainingDemand)
    ensures |steps| <= |p.supply| + |p.demand|
    ensures (A, steps) == NwcrRun(p)
  {
    var m, n := |p.supply|, |p.demand|;
    A := Zeros(m, n);
    var rs, rd := p.supply, p.demand;
    steps := [Step(0, A, rs, rd)];
    StartIsPartial(p);
    var i: nat, j: nat := 0, 0;
    while i < m && j < n
      invariant NwcrInv(p, i, j, A, rs, rd, steps)
      invariant NwcrFrom(p, i, j, A, rs, rd, steps) == NwcrRun(p)
      decreases m - i + n - j
    {
      i, j, A, rs, rd, steps := NwcrAllocate(p, i, j, A, rs, rd, steps);
    }
    ExhaustedIsFeasible(A, rs, rd, p);
  }

  // ---------------------------------------------------------------------------
  // Least Cost Method

  /** The mask with row i switched off: `available[i, :] = False`. */
  function ClearRow(mask: seq<seq<bool>>, i: nat): (mask': seq<seq<bool>>)
    requires i < |mask|
    ensures |mask'| == |mask| && |mask'[i]| == |mask[i]|
    ensures forall b :: 0 <= b < |mask[i]| ==> !mask'[i][b]
    ensures forall a :: 0 <= a < |mask| && a != i ==> mask'[a] == mask[a]
  {
    mask[i := seq(|mask[i]|, b => false)]
  }

  /** The mask with column j switched off: `available[:, j] = False`. */
  function ClearColumn(mask: seq<seq<bool>>, m: nat, n: nat, j: nat): (mask': seq<seq<bool>>)
    requires IsMask(mask, m, n) && j < n
    ensures IsMask(mask', m, n)
    ensures forall a, b :: 0 <= a < m && 0 <= b < n ==> mask'[a][b] == (mask[a][b] && b != j)
  {
    seq(m, a requires 0 <= a < m => mask[a][j := false])
  }

  /** The availability update after an allocation at (i, j): the row goes if exhausted, then the column. */
  function Retire(mask: seq<seq<bool>>, m: nat, n: nat, i: nat, j: nat, rowDone: bool, colDone: bool): (mask': seq<seq<bool>>)
    requires IsMask(mask, m, n) && i < m && j < n
    ensures IsMask(mask', m, n)
    ensures forall a, b :: 0 <= a < m && 0 <= b < n ==>
      mask'[a][b] == (mask[a][b] && !(rowDone && a == i) && !(colDone && b == j))
  {
    var afterRow := if rowDone then ClearRow(mask, i) else mask;
    if colDone then ClearColumn(afterRow, m, n, j) else afterRow
  }

  /** Switching off an available cell's row or column leaves fewer available cells. */
  lemma RetireDecreases(mask: seq<seq<bool>>, m: nat, n: nat, i: nat, j: nat, rowDone: bool, colDone: bool)
    requires IsMask(mask, m, n) && i < m && j < n && mask[i][j] && (rowDone || colDone)
    ensures CountMask(Retire(mask, m, n, i, j, rowDone, colDone)) < CountMask(mask)
  {
    var mask' := Retire(mask, m, n, i, j, rowDone, colDone);
    forall a | 0 <= a < m ensures CountTrue(mask'[a]) <= CountTrue(mask[a]) {
      CountRowShrinks(mask[a], mask'[a]);
    }
    CountTruePositive(mask[i], j);
    if rowDone {
      CountTrueNone(mask'[i]);
    } else {
      assert mask'[i] == mask[i][j := false];
      CountTrueClear(mask[i], j);
    }
    CountMaskDecreases(mask, mask', i);
  }

  /** A row of a mask whose entries only switch off holds no more true entries. */
  lemma {:induction false} CountRowShrinks(r: seq<bool>, r': seq<bool>)
    requires |r'| == |r| && forall k :: 0 <= k < |r| && r'[k] ==> r[k]
    ensures CountTrue(r') <= CountTrue(r)
    decreases |r|
  {
    if |r| > 0 {
      CountRowShrinks(r[1..], r'[1..]);
    }
  }

  /** What holds between iterations of the Least Cost loop. */
  predicate LeastCostInv(p: Problem, A: Matrix, rs: seq<real>, rd: seq<real>, mask: seq<seq<bool>>)
    requires Shaped(p)
  {
    && Partial(A, rs, rd, p) && IsMask(mask, |p.supply|, |p.demand|)
    && (forall a, b :: 0 <= a < |p.supply| && 0 <= b < |p.demand| && mask[a][b] ==> A[a][b] == 0.0)
    && (forall a, b :: 0 <= a < |p.supply| && 0 <= b < |p.demand| && !mask[a][b] ==> rs[a] == 0.0 || rd[b] == 0.0)
    && (AllWhole(p.supply) && AllWhole(p.demand) ==> AllWhole(rs) && AllWhole(rd))
  }

  /** While both sides have something left, some cell is still available. */
  lemma AvailableWhileRemaining(p: Problem, A: Matrix, rs: seq<real>, rd: seq<real>, mask: seq<seq<bool>>)
    requires Shaped(p) && LeastCostInv(p, A, rs, rd, mask) && Sum(rs) > Tol && Sum(rd) > Tol
    ensures FirstMin(p.costs, mask, |p.supply|, |p.demand|).Some?
  {
    var a := PositiveEntry(rs);
    var b := PositiveEntry(rd);
    assert mask[a][b];
  }

  /** One iteration of the Least Cost loop keeps its invariant and retires at least one cell. */
  lemma LeastCostStep(p: Problem, A: Matrix, rs: seq<real>, rd: seq<real>, mask: seq<seq<bool>>, i: nat, j: nat, x: real)
    requires Shaped(p) && LeastCostInv(p, A, rs, rd, mask)
    requires i < |p.supply| && j < |p.demand| && mask[i][j] && x == Min(rs[i], rd[j])
    ensures LeastCostInv(p, SetCell(A, i, j, x), rs[i := rs[i] - x], rd[j := rd[j] - x],
                         Retire(mask, |p.supply|, |p.demand|, i, j, rs[i] - x == 0.0, rd[j] - x == 0.0))
    ensures CountMask(Retire(mask, |p.supply|, |p.demand|, i, j, rs[i] - x == 0.0, rd[j] - x == 0.0)) < CountMask(mask)
  {
    var m, n := |p.supply|, |p.demand|;
    AllocateKeepsPartial(A, rs, rd, p, i, j, x);
    RetireDecreases(mask, m, n, i, j, rs[i] - x == 0.0, rd[j] - x == 0.0);
    RetireKeepsMask(A, rs, rd, mask, m, n, i, j, x);
    if AllWhole(p.supply) && AllWhole(p.demand) {
      WholeAfterAllocate(rs, rd, i, j, x);
    }
  }

  /**
    After an allocation at an available cell, the cells still available hold
    nothing and every retired cell has an exhausted row or column.
  */
  lemma RetireKeepsMask(A: Matrix, rs: seq<real>, rd: seq<real>, mask: seq<seq<bool>>, m: nat, n: nat, i: nat, j: nat, x: real)
    requires IsMatrix(A, m, n) && IsMask(mask, m, n) && |rs| == m && |rd| == n
    requires i < m && j < n && mask[i][j] && x == Min(rs[i], rd[j]) && rs[i] >= 0.0 && rd[j] >= 0.0
    requires forall a, b :: 0 <= a < m && 0 <= b < n && mask[a][b] ==> A[a][b] == 0.0
    requires forall a, b :: 0 <= a < m && 0 <= b < n && !mask[a][b] ==> rs[a] == 0.0 || rd[b] == 0.0
    ensures var A', rs', rd' := SetCell(A, i, j, x), rs[i := rs[i] - x], rd[j := rd[j] - x];
      var mask' := Retire(mask, m, n, i, j, rs'[i] == 0.0, rd'[j] == 0.0);
      && (forall a, b :: 0 <= a < m && 0 <= b < n && mask'[a][b] ==> A'[a][b] == 0.0)
      && (forall a, b :: 0 <= a < m && 0 <= b < n && !mask'[a][b] ==> rs'[a] == 0.0 || rd'[b] == 0.0)
  {
  }

  /**
    Everything the Least Cost loop computes from a state on: while both
    remainders total more than 1e-10, allocate min(supply, demand) at the
    cheapest available cell (`FirstMin`), log the step, and switch off the
    row and the column whose remainder reached 0. Under the loop invariant
    some cell is always available then (`AvailableWhileRemaining`), so the
    `None` branch is never taken from a reachable state.
  */
  function LeastCostFrom(p: Problem, A: Matrix, rs: seq<real>, rd: seq<real>, mask: seq<seq<bool>>, steps: seq<Step>): (Matrix, seq<Step>)
    requires Shaped(p) && IsMatrix(A, |p.supply|, |p.demand|) && |rs| == |p.supply| && |rd| == |p.demand|
    requires IsMask(mask, |p.supply|, |p.demand|)
    decreases CountMask(mask)
  {
    if Sum(rs) > Tol && Sum(rd) > Tol then
      match FirstMinBefore(p.costs, mask, |p.supply|, |p.demand|, |p.supply|, 0)
      case None => (A, steps)
      case Some(c) =>
        var s := LeastCostPass(p, A, rs, rd, mask, steps, c.0, c.1);
        RetireDecreases(mask, |p.supply|, |p.demand|, c.0, c.1, s.remainingSupply[c.0] == 0.0, s.remainingDemand[c.1] == 0.0);
        LeastCostFrom(p, s.matrix, s.remainingSupply, s.remainingDemand, s.available, s.steps)
    else
      (A, steps)
  }

  /** The state the Least Cost loop carries from one pass to the next. */
  datatype LeastCostState = LeastCostState(matrix: Matrix, remainingSupply: seq<real>, remainingDemand: seq<real>,
                                           available: seq<seq<bool>>, steps: seq<Step>)

  /**
    A pass of the Least Cost loop at cell (i, j): allocate min(supply,
    demand) there, log the step, and switch off the row and the column whose
    remainder reached 0.
  */
  function LeastCostPass(p: Problem, A: Matrix, rs: seq<real>, rd: seq<real>, mask: seq<seq<bool>>, steps: seq<Step>, i: nat, j: nat): (s: LeastCostState)
    requires Shaped(p) && IsMatrix(A, |p.supply|, |p.demand|) && |rs| == |p.supply| && |rd| == |p.demand|
    requires IsMask(mask, |p.supply|, |p.demand|) && i < |p.supply| && j < |p.demand|
    ensures IsMatrix(s.matrix, |p.supply|, |p.demand|) && |s.remainingSupply| == |p.supply| && |s.remainingDemand| == |p.demand|
    ensures IsMask(s.available, |p.supply|, |p.demand|)
  {
    var x := Min(rs[i], rd[j]);
    var A', rs', rd' := SetCell(A, i, j, x), rs[i := rs[i] - x], rd[j := rd[j] - x];
    LeastCostState(A', rs', rd', Retire(mask, |p.supply|, |p.demand|, i, j, rs'[i] == 0.0, rd'[j] == 0.0),
                   steps + [Step(|steps|, A', rs', rd')])
  }

  /** One unfolding of `LeastCostFrom` at the cell `FirstMin` picks. */
  lemma LeastCostFromUnfold(p: Problem, A: Matrix, rs: seq<real>, rd: seq<real>, mask: seq<seq<bool>>, steps: seq<Step>, i: nat, j: nat)
    requires Shaped(p) && IsMatrix(A, |p.supply|, |p.demand|) && |rs| == |p.supply| && |rd| == |p.demand|
    requires IsMask(mask, |p.supply|, |p.demand|) && Sum(rs) > Tol && Sum(rd) > Tol
    requires FirstMin(p.costs, mask, |p.supply|, |p.demand|) == Some((i, j))
    ensures var s := LeastCostPass(p, A, rs, rd, mask, steps, i, j);
      LeastCostFrom(p, A, rs, rd, mask, steps) == LeastCostFrom(p, s.matrix, s.remainingSupply, s.remainingDemand, s.available, s.steps)
  {
  }

  /** Everything `least_cost` computes after the initial step. */
  function LeastCostRun(p: Problem): (Matrix, seq<Step>)
    requires Shaped(p)
  {
    var Z := Zeros(|p.supply|, |p.demand|);
    LeastCostFrom(p, Z, p.supply, p.demand, AllTrue(|p.supply|, |p.demand|), [Step(0, Z, p.supply, p.demand)])
  }

  /**
    One pass of the Least Cost loop body: allocate min(supply, demand) at the
    cheapest available cell, log the step, and switch off the exhausted row
    and column.
  */
  method LeastCostAllocate(p: Problem, A0: Matrix, rs0: seq<real>, rd0: seq<real>, steps0: seq<Step>, available0: seq<seq<bool>>)
    returns (A: Matrix, rs: seq<real>, rd: seq<real>, steps: seq<Step>, available: seq<seq<bool>>)
    requires Balanced(p) && LeastCostInv(p, A0, rs0, rd0, available0) && Trace(steps0, p, A0, rs0, rd0)
    requires Sum(rs0) > Tol && Sum(rd0) > Tol
    ensures LeastCostInv(p, A, rs, rd, available) && Trace(steps, p, A, rs, rd)
    ensures CountMask(available) < CountMask(available0)
    ensures FirstMin(p.costs, available0, |p.supply|, |p.demand|).Some? &&
      var c := FirstMin(p.costs, available0, |p.supply|, |p.demand|).value;
      var x := Min(rs0[c.0], rd0[c.1]);
      && A == SetCell(A0, c.0, c.1, x) && rs == rs0[c.0 := rs0[c.0] - x] && rd == rd0[c.1 := rd0[c.1] - x]
      && available == Retire(available0, |p.supply|, |p.demand|, c.0, c.1, rs[c.0] == 0.0, rd[c.1] == 0.0)
      && steps == steps0 + [Step(|steps0|, A, rs, rd)]
    ensures LeastCostFrom(p, A, rs, rd, available, steps) == LeastCostFrom(p, A0, rs0, rd0, available0, steps0)
  {
    var m, n := |p.supply|, |p.demand|;
    AvailableWhileRemaining(p, A0, rs0, rd0, available0);
    var c := FirstMin(p.costs, available0, m, n).value;
    var i, j := c.0, c.1;
    var x := Min(rs0[i], rd0[j]);
    A := SetCell(A0, i, j, x);
    rs := rs0[i := rs0[i] - x];
    rd := rd0[j := rd0[j] - x];
    steps := steps0 + [Step(|steps0|, A, rs, rd)];
    available := Retire(available0, m, n, i, j, rs[i] == 0.0, rd[j] == 0.0);
    assert LeastCostPass(p, A0, rs0, rd0, available0, steps0, i, j) == LeastCostState(A, rs, rd, available, steps);
    LeastCostFromUnfold(p, A0, rs0, rd0, available0, steps0, i, j);
    LeastCostStep(p, A0, rs0, rd0, available0, i, j, x);
    TraceExtend(steps0, p, A0, rs0, rd0, A, rs, rd);
  }


  /**
    Where the Least Cost loop stops: what is left over totals at most 1e-10
    on both sides, nothing at all for whole-number data, and the run ends
    in the current state.
  */
  lemma LeastCostStops(p: Problem, A: Matrix, rs: seq<real>, rd: seq<real>, mask: seq<seq<bool>>, steps: seq<Step>)
    requires Balanced(p) && LeastCostInv(p, A, rs, rd, mask) && Trace(steps, p, A, rs, rd)
    requires !(Sum(rs) > Tol && Sum(rd) > Tol)
    ensures |steps| >= 1 && Trace(steps, p, A, steps[|steps| - 1].remainingSupply, steps[|steps| - 1].remainingDemand)
    ensures Sum(steps[|steps| - 1].remainingSupply) <= Tol && Sum(steps[|steps| - 1].remainingDemand) <= Tol
    ensures AllWhole(p.supply) && AllWhole(p.demand) ==> Feasible(A, p)
    ensures LeastCostFrom(p, A, rs, rd, mask, steps) == (A, steps)
  {
    if AllWhole(p.supply) && AllWhole(p.demand) {
      WholeRemainderExhausted(A, rs, rd, p);
    }
  }

  /** The Least Cost loop run from a state on, until either remainder totals at most 1e-10. */
  method LeastCostLoop(p: Problem, A0: Matrix, rs0: seq<real>, rd0: seq<real>, steps0: seq<Step>, available0: seq<seq<bool>>)
    returns (A: Matrix, rs: seq<real>, rd: seq<real>, steps: seq<Step>, available: seq<seq<bool>>)
    requires Balanced(p) && LeastCostInv(p, A0, rs0, rd0, available0) && Trace(steps0, p, A0, rs0, rd0)
    ensures LeastCostInv(p, A, rs, rd, available) && Trace(steps, p, A, rs, rd)
    ensures !(Sum(rs) > Tol && Sum(rd) > Tol)
    ensures (A, steps) == LeastCostFrom(p, A0, rs0, rd0, available0, steps0)
  {
    A, rs, rd, steps, available := A0, rs0, rd0, steps0, available0;
    while Sum(rs) > Tol && Sum(rd) > Tol
      invariant LeastCostInv(p, A, rs, rd, available)
      invariant Trace(steps, p, A, rs, rd)
      invariant LeastCostFrom(p, A, rs, rd, available, steps) == LeastCostFrom(p, A0, rs0, rd0, available0, steps0)
      decreases CountMask(available)
    {
      A, rs, rd, steps, available := LeastCostAllocate(p, A, rs, rd, steps, available);
    }
    LeastCostStops(p, A, rs, rd, available, steps);
  }

  /**
    `least_cost` (allocation loop): repeatedly allocate to the cheapest
    available cell (first in row-major order among equal costs) until the
    remaining supply or demand totals at most 1e-10. What is left over totals
    at most 1e-10 in any case, and nothing at all for whole-number data.
  */
  method LeastCost(p: Problem) returns (A: Matrix, steps: seq<Step>)
    requires Balanced(p)
    ensures |steps| >= 1 && Trace(steps, p, A, steps[|steps| - 1].remainingSupply, steps[|steps| - 1].remainingDemand)
    ensures Sum(steps[|steps| - 1].remainingSupply) <= Tol && Sum(steps[|steps| - 1].remainingDemand) <= Tol
    ensures AllWhole(p.supply) && AllWhole(p.demand) ==> Feasible(A, p)
    ensures (A, steps) == LeastCostRun(p)
  {
    var m, n := |p.supply|, |p.demand|;
    StartIsPartial(p);
    var Z := Zeros(m, n);
    var rs, rd, available;
    A, rs, rd, steps, available := LeastCostLoop(p, Z, p.supply, p.demand, [Step(0, Z, p.supply, p.demand)], AllTrue(m, n));
    LeastCostStops(p, A, rs, rd, available, steps);
  }

  // ---------------------------------------------------------------------------
  // Vogel's Approximation Method

  /** `list(range(k))`. */
  function Range(k: nat): (r: seq<nat>)
    ensures |r| == k && forall t :: 0 <= t < k ==> r[t] == t
    ensures Increasing(r)
  {
    var r := seq(k, t => t);
    IncreasingOrdered(r);
    r
  }

  /** Strictly increasing indices, as the active-line lists always are. */
  predicate Increasing(s: seq<nat>) {
    |s| < 2 || (s[|s| - 2] < s[|s| - 1] && Increasing(s[..|s| - 1]))
  }

  /** A list is increasing exactly when every entry is below every later one. */
  lemma {:induction false} IncreasingOrdered(s: seq<nat>)
    ensures Increasing(s) <==> forall t, u :: 0 <= t < u < |s| ==> s[t] < s[u]
  {
    if |s| >= 2 {
      var init := s[..|s| - 1];
      IncreasingOrdered(init);
      if Increasing(s) {
        forall t, u | 0 <= t < u < |s| ensures s[t] < s[u] {
          if u < |s| - 1 {
            assert init[t] < init[u];
          } else if t < |s| - 2 {
            assert init[t] < init[|s| - 2];
          }
        }
      }
      if forall t, u :: 0 <= t < u < |s| ==> s[t] < s[u] {
        forall t, u | 0 <= t < u < |init| ensures init[t] < init[u] {
          assert init[t] == s[t] && init[u] == s[u];
        }
      }
    }
  }

  /** Putting a smaller entry in front of an increasing list keeps it increasing. */
  lemma {:induction false} IncreasingCons(x: nat, s: seq<nat>)
    requires Increasing(s) && forall t :: 0 <= t < |s| ==> x < s[t]
    ensures Increasing([x] + s)
    decreases |s|
  {
    if |s| >= 2 {
      assert ([x] + s)[..|s|] == [x] + s[..|s| - 1];
      IncreasingCons(x, s[..|s| - 1]);
    }
  }

  /** Python's `list.remove(x)`: drop the first occurrence of x. */
  function RemoveFirst(s: seq<nat>, x: nat): (r: seq<nat>)
    requires x in s
    ensures |r| == |s| - 1
  {
    var init := s[..|s| - 1];
    if x in init then RemoveFirst(init, x) + [s[|s| - 1]] else init
  }

  /** Removing the first occurrence of x, found at position k, splices position k out. */
  lemma {:induction false} RemoveFirstAt(s: seq<nat>, x: nat, k: nat)
    requires k < |s| && s[k] == x && x !in s[..k]
    ensures RemoveFirst(s, x) == s[..k] + s[k + 1..]
  {
    var init := s[..|s| - 1];
    if k < |s| - 1 {
      assert init[k] == x && init[..k] == s[..k];
      RemoveFirstAt(init, x, k);
      assert init[k + 1..] + [s[|s| - 1]] == s[k + 1..];
    } else {
      assert init == s[..k];
    }
  }

  /** In an increasing list, x occurs first at its only position. */
  lemma FirstOccurrence(s: seq<nat>, x: nat) returns (k: nat)
    requires x in s && Increasing(s)
    ensures k < |s| && s[k] == x && x !in s[..k]
    ensures RemoveFirst(s, x) == s[..k] + s[k + 1..]
  {
    k :| 0 <= k < |s| && s[k] == x;
    IncreasingOrdered(s);
    var head := s[..k];
    forall t | 0 <= t < k ensures head[t] != x {
      assert head[t] == s[t];
    }
    RemoveFirstAt(s, x, k);
  }

  /** Position k spliced out of s: later entries move one place down. */
  lemma Spliced<T>(s: seq<T>, k: nat, r: seq<T>)
    requires k < |s| && r == s[..k] + s[k + 1..]
    ensures |r| == |s| - 1
    ensures forall u :: 0 <= u < |r| ==> r[u] == s[if u < k then u else u + 1]
  {
  }

  /** Dropping x from an increasing list removes exactly x. */
  lemma RemoveFirstMembers(s: seq<nat>, x: nat)
    requires x in s && Increasing(s)
    ensures |RemoveFirst(s, x)| == |s| - 1
    ensures forall y :: y in RemoveFirst(s, x) <==> y in s && y != x
  {
    var k := FirstOccurrence(s, x);
    var r := s[..k] + s[k + 1..];
    Spliced(s, k, r);
    IncreasingOrdered(s);
    forall y | y in r ensures y in s && y != x {
      var u :| 0 <= u < |r| && r[u] == y;
      var t := if u < k then u else u + 1;
      assert s[t] == y;
      if t < k {
        assert s[t] < s[k];
      } else {
        assert s[k] < s[t];
      }
    }
    forall y | y in s && y != x ensures y in r {
      var t :| 0 <= t < |s| && s[t] == y;
      var u := if t < k then t else t - 1;
      assert r[u] == y;
    }
  }

  /** Dropping x from an increasing list keeps it increasing. */
  lemma RemoveFirstIncreasing(s: seq<nat>, x: nat)
    requires x in s && Increasing(s)
    ensures Increasing(RemoveFirst(s, x))
  {
    var k := FirstOccurrence(s, x);
    SplicedIncreasing(s, k);
  }

  /** Splicing one position out of an increasing list leaves it increasing. */
  lemma SplicedIncreasing(s: seq<nat>, k: nat)
    requires k < |s| && Increasing(s)
    ensures Increasing(s[..k] + s[k + 1..])
  {
    var r := s[..k] + s[k + 1..];
    Spliced(s, k, r);
    IncreasingOrdered(s);
    IncreasingOrdered(r);
    forall t, u | 0 <= t < u < |r| ensures r[t] < r[u] {
      if u < k {
        assert r[t] == s[t] && r[u] == s[u];
      } else if t < k {
        assert r[t] == s[t] && r[u] == s[u + 1];
      } else {
        assert r[t] == s[t + 1] && r[u] == s[u + 1];
      }
    }
  }

  /** The costs of row i over the given columns, in their order. */
  function RowCosts(costs: Matrix, i: nat, cols: seq<nat>): (r: seq<real>)
    requires i < |costs| && forall t :: 0 <= t < |cols| ==> cols[t] < |costs[i]|
    ensures |r| == |cols| && forall t {:trigger r[t]} :: 0 <= t < |cols| ==> r[t] == costs[i][cols[t]]
  {
    seq(|cols|, t requires 0 <= t < |cols| => costs[i][cols[t]])
  }

  /** The costs of column j over the given rows, in their order. */
  function ColumnCosts(costs: Matrix, j: nat, rows: seq<nat>): (r: seq<real>)
    requires forall t :: 0 <= t < |rows| ==> rows[t] < |costs| && j < |costs[rows[t]]|
    ensures |r| == |rows| && forall t {:trigger r[t]} :: 0 <= t < |rows| ==> r[t] == costs[rows[t]][j]
  {
    seq(|rows|, t requires 0 <= t < |rows| => costs[rows[t]][j])
  }

  /**
    The position of a smallest entry of s other than position k: the first
    smallest once entry k is raised above every entry.
  */
  function OtherMinIndex(s: seq<real>, k: nat): (q: nat)
    requires |s| >= 2 && k < |s|
    ensures q < |s| && q != k
  {
    var raised := s[k := s[FirstMaxIndex(s)] + 1.0];
    var o := if k == 0 then 1 else 0;
    FirstMaxIndexGreatest(s);
    FirstMinIndexLeast(raised);
    assert raised[o] == s[o] <= s[FirstMaxIndex(s)] < raised[k];
    FirstMinIndex(raised)
  }

  /** `OtherMinIndex` finds a smallest entry among the positions other than k. */
  lemma OtherMinIndexLeast(s: seq<real>, k: nat)
    requires |s| >= 2 && k < |s|
    ensures forall t :: 0 <= t < |s| && t != k ==> s[OtherMinIndex(s, k)] <= s[t]
  {
    var raised := s[k := s[FirstMaxIndex(s)] + 1.0];
    var q := OtherMinIndex(s, k);
    FirstMinIndexLeast(raised);
    assert q == FirstMinIndex(raised) && raised[q] == s[q];
    forall t | 0 <= t < |s| && t != k ensures s[q] <= s[t] {
      assert raised[t] == s[t];
    }
  }

  /**
    The VAM penalty of a line: its second smallest cost minus its smallest
    (the first two entries once sorted), or 0 when it has fewer than two.
  */
  function Penalty(s: seq<real>): real {
    if |s| >= 2 then
      var k := FirstMinIndex(s);
      s[OtherMinIndex(s, k)] - s[k]
    else 0.0
  }

  /**
    The penalty is the gap between a smallest cost and the smallest cost at
    any other position, whichever positions hold them; it is never negative.
  */
  lemma PenaltyIsGap(s: seq<real>, k: nat, q: nat)
    requires k < |s| && q < |s| && k != q
    requires forall t :: 0 <= t < |s| ==> s[k] <= s[t]
    requires forall t :: 0 <= t < |s| && t != k ==> s[q] <= s[t]
    ensures Penalty(s) == s[q] - s[k] >= 0.0
  {
    var k' := FirstMinIndex(s);
    var q' := OtherMinIndex(s, k');
    FirstMinIndexLeast(s);
    OtherMinIndexLeast(s, k');
    if q' == k {
      assert s[k'] == s[k];
    }
    if q == k' {
      assert s[k'] == s[k];
    }
  }

  function RowPenalty(costs: Matrix, i: nat, cols: seq<nat>): real
    requires i < |costs| && forall t :: 0 <= t < |cols| ==> cols[t] < |costs[i]|
  {
    Penalty(RowCosts(costs, i, cols))
  }

  function ColumnPenalty(costs: Matrix, j: nat, rows: seq<nat>): real
    requires forall t :: 0 <= t < |rows| ==> rows[t] < |costs| && j < |costs[rows[t]]|
  {
    Penalty(ColumnCosts(costs, j, rows))
  }

  /** `row_penalties`: the penalty of each active row over the active columns. */
  function RowPenalties(costs: Matrix, rows: seq<nat>, cols: seq<nat>): (r: seq<real>)
    requires forall t :: 0 <= t < |rows| ==> rows[t] < |costs| && forall u :: 0 <= u < |cols| ==> cols[u] < |costs[rows[t]]|
    ensures |r| == |rows|
  {
    seq(|rows|, t requires 0 <= t < |rows| => RowPenalty(costs, rows[t], cols))
  }

  /** `col_penalties`: the penalty of each active column over the active rows. */
  function ColumnPenalties(costs: Matrix, cols: seq<nat>, rows: seq<nat>): (r: seq<real>)
    requires forall t :: 0 <= t < |rows| ==> rows[t] < |costs| && forall u :: 0 <= u < |cols| ==> cols[u] < |costs[rows[t]]|
    ensures |r| == |cols|
  {
    seq(|cols|, t requires 0 <= t < |cols| => ColumnPenalty(costs, cols[t], rows))
  }

  /** Active row and column lists: increasing and inside the matrix. */
  predicate ActiveLines(rows: seq<nat>, cols: seq<nat>, m: nat, n: nat) {
    && Increasing(rows) && Increasing(cols)
    && (forall t :: 0 <= t < |rows| ==> rows[t] < m)
    && (forall t :: 0 <= t < |cols| ==> cols[t] < n)
  }

  /**
    One VAM selection: the line of largest penalty (rows win ties against
    columns, and the earliest line wins among equals), then the cheapest
    active cell on it (the earliest among equals). The flag says whether a
    row was chosen.
  */
  function VamSelect(costs: Matrix, m: nat, n: nat, rows: seq<nat>, cols: seq<nat>): (v: (nat, nat, bool))
    requires IsMatrix(costs, m, n) && ActiveLines(rows, cols, m, n) && |rows| > 0 && |cols| > 0
    ensures v.0 < m && v.1 < n
  {
    var rowPens := RowPenalties(costs, rows, cols);
    var colPens := ColumnPenalties(costs, cols, rows);
    var r := FirstMaxIndex(rowPens);
    var c := FirstMaxIndex(colPens);
    if rowPens[r] >= colPens[c] then
      var i := rows[r];
      var k := FirstMinIndex(RowCosts(costs, i, cols));
      (i, cols[k], true)
    else
      var j := cols[c];
      var k := FirstMinIndex(ColumnCosts(costs, j, rows));
      (rows[k], j, false)
  }

  /** The cell VamSelect picks lies on an active row and an active column. */
  lemma VamSelectActive(costs: Matrix, m: nat, n: nat, rows: seq<nat>, cols: seq<nat>)
    requires IsMatrix(costs, m, n) && ActiveLines(rows, cols, m, n) && |rows| > 0 && |cols| > 0
    ensures var v := VamSelect(costs, m, n, rows, cols);
      v.0 < m && v.1 < n && v.0 in rows && v.1 in cols
  {
    var rowPens := RowPenalties(costs, rows, cols);
    var colPens := ColumnPenalties(costs, cols, rows);
    var r := FirstMaxIndex(rowPens);
    var c := FirstMaxIndex(colPens);
    if rowPens[r] >= colPens[c] {
      assert VamSelect(costs, m, n, rows, cols) == (rows[r], cols[FirstMinIndex(RowCosts(costs, rows[r], cols))], true);
    } else {
      assert VamSelect(costs, m, n, rows, cols) == (rows[FirstMinIndex(ColumnCosts(costs, cols[c], rows))], cols[c], false);
    }
  }

  /** In an increasing list a smaller entry sits at an earlier position. */
  lemma EarlierPosition(s: seq<nat>, t: nat, u: nat)
    requires Increasing(s) && t < |s| && u < |s| && s[t] < s[u]
    ensures t < u
  {
    IncreasingOrdered(s);
    if u < t {
      assert false;
    }
  }

  /** The first largest value along increasing lines beats every line before it. */
  lemma LargestFirst(values: seq<real>, lines: seq<nat>)
    requires |values| == |lines| > 0 && Increasing(lines)
    ensures forall t :: 0 <= t < |lines| ==> values[t] <= values[FirstMaxIndex(values)]
    ensures forall t :: 0 <= t < |lines| && lines[t] < lines[FirstMaxIndex(values)] ==> values[t] < values[FirstMaxIndex(values)]
  {
    var r := FirstMaxIndex(values);
    FirstMaxIndexGreatest(values);
    forall t | 0 <= t < |lines| && lines[t] < lines[r]
      ensures values[t] < values[r]
    {
      EarlierPosition(lines, t, r);
    }
  }

  /** The first smallest value along increasing lines is below every line before it. */
  lemma SmallestFirst(values: seq<real>, lines: seq<nat>)
    requires |values| == |lines| > 0 && Increasing(lines)
    ensures forall t :: 0 <= t < |lines| ==> values[FirstMinIndex(values)] <= values[t]
    ensures forall t :: 0 <= t < |lines| && lines[t] < lines[FirstMinIndex(values)] ==> values[FirstMinIndex(values)] < values[t]
  {
    var k := FirstMinIndex(values);
    FirstMinIndexLeast(values);
    forall t | 0 <= t < |lines| && lines[t] < lines[k]
      ensures values[k] < values[t]
    {
      EarlierPosition(lines, t, k);
    }
  }

  /** When VamSelect picks a row, no line has a larger penalty and no earlier row an equal one. */
  lemma VamSelectRow(costs: Matrix, m: nat, n: nat, rows: seq<nat>, cols: seq<nat>)
    requires IsMatrix(costs, m, n) && ActiveLines(rows, cols, m, n) && |rows| > 0 && |cols| > 0
    requires VamSelect(costs, m, n, rows, cols).2
    ensures var i := VamSelect(costs, m, n, rows, cols).0;
      && (forall t :: 0 <= t < |rows| ==> RowPenalty(costs, rows[t], cols) <= RowPenalty(costs, i, cols))
      && (forall t :: 0 <= t < |rows| && rows[t] < i ==> RowPenalty(costs, rows[t], cols) < RowPenalty(costs, i, cols))
      && (forall t :: 0 <= t < |cols| ==> ColumnPenalty(costs, cols[t], rows) <= RowPenalty(costs, i, cols))
  {
    var rowPens := RowPenalties(costs, rows, cols);
    var colPens := ColumnPenalties(costs, cols, rows);
    var r := FirstMaxIndex(rowPens);
    var c := FirstMaxIndex(colPens);
    var i := rows[r];
    assert rowPens[r] >= colPens[c] && VamSelect(costs, m, n, rows, cols).0 == i;
    assert rowPens[r] == RowPenalty(costs, i, cols);
    LargestFirst(rowPens, rows);
    FirstMaxIndexGreatest(colPens);
    forall t | 0 <= t < |rows|
      ensures RowPenalty(costs, rows[t], cols) <= RowPenalty(costs, i, cols)
      ensures rows[t] < i ==> RowPenalty(costs, rows[t], cols) < RowPenalty(costs, i, cols)
    {
      assert rowPens[t] == RowPenalty(costs, rows[t], cols);
    }
    forall t | 0 <= t < |cols| ensures ColumnPenalty(costs, cols[t], rows) <= RowPenalty(costs, i, cols) {
      assert colPens[t] == ColumnPenalty(costs, cols[t], rows);
    }
  }

  /** When VamSelect picks a row, the cell is the row's cheapest active cell, the earliest among equals. */
  lemma VamSelectRowCell(costs: Matrix, m: nat, n: nat, rows: seq<nat>, cols: seq<nat>)
    requires IsMatrix(costs, m, n) && ActiveLines(rows, cols, m, n) && |rows| > 0 && |cols| > 0
    requires VamSelect(costs, m, n, rows, cols).2
    ensures var (i, j, _) := VamSelect(costs, m, n, rows, cols);
      && (forall t :: 0 <= t < |cols| ==> costs[i][j] <= costs[i][cols[t]])
      && (forall t :: 0 <= t < |cols| && cols[t] < j ==> costs[i][j] < costs[i][cols[t]])
  {
    var r := FirstMaxIndex(RowPenalties(costs, rows, cols));
    var line := RowCosts(costs, rows[r], cols);
    assert VamSelect(costs, m, n, rows, cols) == (rows[r], cols[FirstMinIndex(line)], true);
    SmallestFirst(line, cols);
  }

  /** When VamSelect picks a column, no column has a larger penalty, no earlier one an equal one, and every row a smaller one. */
  lemma VamSelectColumn(costs: Matrix, m: nat, n: nat, rows: seq<nat>, cols: seq<nat>)
    requires IsMatrix(costs, m, n) && ActiveLines(rows, cols, m, n) && |rows| > 0 && |cols| > 0
    requires !VamSelect(costs, m, n, rows, cols).2
    ensures var j := VamSelect(costs, m, n, rows, cols).1;
      && (forall t :: 0 <= t < |cols| ==> ColumnPenalty(costs, cols[t], rows) <= ColumnPenalty(costs, j, rows))
      && (forall t :: 0 <= t < |cols| && cols[t] < j ==> ColumnPenalty(costs, cols[t], rows) < ColumnPenalty(costs, j, rows))
      && (forall t :: 0 <= t < |rows| ==> RowPenalty(costs, rows[t], cols) < ColumnPenalty(costs, j, rows))
  {
    var rowPens := RowPenalties(costs, rows, cols);
    var colPens := ColumnPenalties(costs, cols, rows);
    var r := FirstMaxIndex(rowPens);
    var c := FirstMaxIndex(colPens);
    assert rowPens[r] < colPens[c] && VamSelect(costs, m, n, rows, cols).1 == cols[c];
    ColumnPenaltyLargest(costs, m, n, rows, cols);
  }

  /** When the largest column penalty beats every row penalty, its column beats every line, and strictly every earlier column. */
  lemma ColumnPenaltyLargest(costs: Matrix, m: nat, n: nat, rows: seq<nat>, cols: seq<nat>)
    requires IsMatrix(costs, m, n) && ActiveLines(rows, cols, m, n) && |rows| > 0 && |cols| > 0
    requires var rowPens, colPens := RowPenalties(costs, rows, cols), ColumnPenalties(costs, cols, rows);
      rowPens[FirstMaxIndex(rowPens)] < colPens[FirstMaxIndex(colPens)]
    ensures var j := cols[FirstMaxIndex(ColumnPenalties(costs, cols, rows))];
      && (forall t :: 0 <= t < |cols| ==> ColumnPenalty(costs, cols[t], rows) <= ColumnPenalty(costs, j, rows))
      && (forall t :: 0 <= t < |cols| && cols[t] < j ==> ColumnPenalty(costs, cols[t], rows) < ColumnPenalty(costs, j, rows))
      && (forall t :: 0 <= t < |rows| ==> RowPenalty(costs, rows[t], cols) < ColumnPenalty(costs, j, rows))
  {
    var rowPens := RowPenalties(costs, rows, cols);
    var colPens := ColumnPenalties(costs, cols, rows);
    var c := FirstMaxIndex(colPens);
    var j := cols[c];
    assert colPens[c] == ColumnPenalty(costs, j, rows);
    LargestFirst(colPens, cols);
    FirstMaxIndexGreatest(rowPens);
    forall t | 0 <= t < |cols|
      ensures ColumnPenalty(costs, cols[t], rows) <= ColumnPenalty(costs, j, rows)
      ensures cols[t] < j ==> ColumnPenalty(costs, cols[t], rows) < ColumnPenalty(costs, j, rows)
    {
      assert colPens[t] == ColumnPenalty(costs, cols[t], rows);
    }
    forall t | 0 <= t < |rows| ensures RowPenalty(costs, rows[t], cols) < ColumnPenalty(costs, j, rows) {
      assert rowPens[t] == RowPenalty(costs, rows[t], cols);
    }
  }

  /** When VamSelect picks a column, the cell is the column's cheapest active cell, the earliest among equals. */
  lemma VamSelectColumnCell(costs: Matrix, m: nat, n: nat, rows: seq<nat>, cols: seq<nat>)
    requires IsMatrix(costs, m, n) && ActiveLines(rows, cols, m, n) && |rows| > 0 && |cols| > 0
    requires !VamSelect(costs, m, n, rows, cols).2
    ensures var (i, j, _) := VamSelect(costs, m, n, rows, cols);
      && (forall t :: 0 <= t < |rows| ==> costs[i][j] <= costs[rows[t]][j])
      && (forall t :: 0 <= t < |rows| && rows[t] < i ==> costs[i][j] < costs[rows[t]][j])
  {
    var c := FirstMaxIndex(ColumnPenalties(costs, cols, rows));
    var line := ColumnCosts(costs, cols[c], rows);
    assert VamSelect(costs, m, n, rows, cols) == (rows[FirstMinIndex(line)], cols[c], false);
    SmallestFirst(line, rows);
  }

  /**
    What the VAM loop keeps about its active lists: a cell in an active row
    and an active column is still unallocated, and a retired line has
    nothing left.
  */
  predicate VamLines(A: Matrix, rs: seq<real>, rd: seq<real>, rows: seq<nat>, cols: seq<nat>, m: nat, n: nat)
    requires IsMatrix(A, m, n) && |rs| == m && |rd| == n
  {
    && ActiveLines(rows, cols, m, n)
    && (forall a, b :: 0 <= a < m && 0 <= b < n && a in rows && b in cols ==> A[a][b] == 0.0)
    && (forall a :: 0 <= a < m && a !in rows ==> rs[a] == 0.0)
    && (forall b :: 0 <= b < n && b !in cols ==> rd[b] == 0.0)
  }

  /** An active list after its line x is retired, or kept when it is not. */
  lemma RetireLine(s: seq<nat>, bound: nat, x: nat, done: bool, s': seq<nat>)
    requires Increasing(s) && (forall t :: 0 <= t < |s| ==> s[t] < bound) && x in s
    requires s' == if done then RemoveFirst(s, x) else s
    ensures Increasing(s') && (forall t :: 0 <= t < |s'| ==> s'[t] < bound)
    ensures |s'| == if done then |s| - 1 else |s|
    ensures forall y :: y in s' <==> y in s && !(done && y == x)
  {
    if done {
      RemoveFirstMembers(s, x);
      RemoveFirstIncreasing(s, x);
      assert forall t :: 0 <= t < |s'| ==> s'[t] in s;
    }
  }

  /** The active lists after an allocation at (i, j) that exhausted the row or the column. */
  lemma VamRetire(rows: seq<nat>, cols: seq<nat>, m: nat, n: nat, i: nat, j: nat, rowDone: bool, colDone: bool)
    requires ActiveLines(rows, cols, m, n) && i in rows && j in cols && (rowDone || colDone)
    ensures ActiveLines(if rowDone then RemoveFirst(rows, i) else rows, if colDone then RemoveFirst(cols, j) else cols, m, n)
    ensures |if rowDone then RemoveFirst(rows, i) else rows| + |if colDone then RemoveFirst(cols, j) else cols| < |rows| + |cols|
  {
    RetireLine(rows, m, i, rowDone, if rowDone then RemoveFirst(rows, i) else rows);
    RetireLine(cols, n, j, colDone, if colDone then RemoveFirst(cols, j) else cols);
  }

  /** Allocating at (i, j) after retiring row i or column j leaves every active cell unallocated. */
  lemma ActiveCellsEmpty(A: Matrix, A': Matrix, m: nat, n: nat, rows: seq<nat>, cols: seq<nat>, rows': seq<nat>, cols': seq<nat>, i: nat, j: nat, x: real)
    requires IsMatrix(A, m, n) && i < m && j < n && A' == SetCell(A, i, j, x)
    requires forall a, b :: 0 <= a < m && 0 <= b < n && a in rows && b in cols ==> A[a][b] == 0.0
    requires (forall a :: a in rows' ==> a in rows) && (forall b :: b in cols' ==> b in cols)
    requires i !in rows' || j !in cols'
    ensures forall a, b :: 0 <= a < m && 0 <= b < n && a in rows' && b in cols' ==> A'[a][b] == 0.0
  {
    forall a, b | 0 <= a < m && 0 <= b < n && a in rows' && b in cols' ensures A'[a][b] == 0.0 {
      assert a in rows && b in cols;
    }
  }

  /** A line is retired only once its remainder is 0, so every retired line has nothing left. */
  lemma RetiredEmpty(r: seq<real>, r': seq<real>, lines: seq<nat>, lines': seq<nat>, k: nat, x: real)
    requires k < |r| && r' == r[k := r[k] - x]
    requires forall a :: 0 <= a < |r| && a !in lines ==> r[a] == 0.0
    requires forall a :: a in lines ==> a in lines' || a == k
    requires k !in lines' ==> r[k] - x == 0.0
    ensures forall a :: 0 <= a < |r'| && a !in lines' ==> r'[a] == 0.0
  {
    forall a | 0 <= a < |r'| && a !in lines' ensures r'[a] == 0.0 {
      if a != k {
        assert a !in lines;
      }
    }
  }

  /** One iteration of the VAM loop keeps what it knows about its active lists. */
  lemma VamStep(A: Matrix, rs: seq<real>, rd: seq<real>, rows: seq<nat>, cols: seq<nat>, m: nat, n: nat, i: nat, j: nat, x: real)
    requires IsMatrix(A, m, n) && |rs| == m && |rd| == n && VamLines(A, rs, rd, rows, cols, m, n)
    requires i in rows && j in cols && (rs[i] - x == 0.0 || rd[j] - x == 0.0)
    ensures VamLines(SetCell(A, i, j, x), rs[i := rs[i] - x], rd[j := rd[j] - x],
                     if rs[i] - x == 0.0 then RemoveFirst(rows, i) else rows,
                     if rd[j] - x == 0.0 then RemoveFirst(cols, j) else cols, m, n)
  {
    var A', rs', rd' := SetCell(A, i, j, x), rs[i := rs[i] - x], rd[j := rd[j] - x];
    var rows' := if rs[i] - x == 0.0 then RemoveFirst(rows, i) else rows;
    var cols' := if rd[j] - x == 0.0 then RemoveFirst(cols, j) else cols;
    RetireLine(rows, m, i, rs[i] - x == 0.0, rows');
    RetireLine(cols, n, j, rd[j] - x == 0.0, cols');
    ActiveCellsEmpty(A, A', m, n, rows, cols, rows', cols', i, j, x);
    RetiredEmpty(rs, rs', rows, rows', i, x);
    RetiredEmpty(rd, rd', cols, cols', j, x);
  }

  /** The state the VAM loop carries from one pass to the next. */
  datatype VamState = VamState(matrix: Matrix, remainingSupply: seq<real>, remainingDemand: seq<real>,
                               rows: seq<nat>, cols: seq<nat>, steps: seq<Step>)

  /**
    A pass of the VAM loop at cell (i, j): allocate min(supply, demand)
    there, log the step, and retire the row and/or column left with nothing.
  */
  function VamPass(p: Problem, A: Matrix, rs: seq<real>, rd: seq<real>, rows: seq<nat>, cols: seq<nat>, steps: seq<Step>, i: nat, j: nat): (s: VamState)
    requires Shaped(p) && IsMatrix(A, |p.supply|, |p.demand|) && |rs| == |p.supply| && |rd| == |p.demand|
    requires ActiveLines(rows, cols, |p.supply|, |p.demand|) && i < |p.supply| && j < |p.demand| && i in rows && j in cols
    ensures IsMatrix(s.matrix, |p.supply|, |p.demand|) && |s.remainingSupply| == |p.supply| && |s.remainingDemand| == |p.demand|
    ensures ActiveLines(s.rows, s.cols, |p.supply|, |p.demand|) && |s.rows| + |s.cols| < |rows| + |cols|
  {
    var x := Min(rs[i], rd[j]);
    var A', rs', rd' := SetCell(A, i, j, x), rs[i := rs[i] - x], rd[j := rd[j] - x];
    VamRetire(rows, cols, |p.supply|, |p.demand|, i, j, rs'[i] == 0.0, rd'[j] == 0.0);
    VamState(A', rs', rd', if rs'[i] == 0.0 then RemoveFirst(rows, i) else rows,
             if rd'[j] == 0.0 then RemoveFirst(cols, j) else cols, steps + [Step(|steps|, A', rs', rd')])
  }

  /** One pass of the VAM loop: the pass at the cell VamSelect picks. */
  function VamNext(p: Problem, A: Matrix, rs: seq<real>, rd: seq<real>, rows: seq<nat>, cols: seq<nat>, steps: seq<Step>): (s: VamState)
    requires Shaped(p) && IsMatrix(A, |p.supply|, |p.demand|) && |rs| == |p.supply| && |rd| == |p.demand|
    requires ActiveLines(rows, cols, |p.supply|, |p.demand|) && |rows| > 0 && |cols| > 0
    ensures IsMatrix(s.matrix, |p.supply|, |p.demand|) && |s.remainingSupply| == |p.supply| && |s.remainingDemand| == |p.demand|
    ensures ActiveLines(s.rows, s.cols, |p.supply|, |p.demand|) && |s.rows| + |s.cols| < |rows| + |cols|
  {
    VamSelectActive(p.costs, |p.supply|, |p.demand|, rows, cols);
    var v := VamSelect(p.costs, |p.supply|, |p.demand|, rows, cols);
    VamPass(p, A, rs, rd, rows, cols, steps, v.0, v.1)
  }

  /** Everything the VAM loop computes from a state on: one `VamNext` pass while a row and a column are active. */
  function VamFrom(p: Problem, A: Matrix, rs: seq<real>, rd: seq<real>, rows: seq<nat>, cols: seq<nat>, steps: seq<Step>): (Matrix, seq<Step>)
    requires Shaped(p) && IsMatrix(A, |p.supply|, |p.demand|) && |rs| == |p.supply| && |rd| == |p.demand|
    requires ActiveLines(rows, cols, |p.supply|, |p.demand|)
    decreases |rows| + |cols|
  {
    if |rows| > 0 && |cols| > 0 then
      var s := VamNext(p, A, rs, rd, rows, cols, steps);
      VamFrom(p, s.matrix, s.remainingSupply, s.remainingDemand, s.rows, s.cols, s.steps)
    else
      (A, steps)
  }

  /** Everything the allocation loop of `vam` computes after the initial step. */
  function VamRun(p: Problem): (Matrix, seq<Step>)
    requires Shaped(p)
  {
    var Z := Zeros(|p.supply|, |p.demand|);
    VamFrom(p, Z, p.supply, p.demand, Range(|p.supply|), Range(|p.demand|), [Step(0, Z, p.supply, p.demand)])
  }

  /** One pass of the VAM loop: allocate on the cell (i, j) VamSelect picks and retire the exhausted line(s). */
  method VamAllocate(p: Problem, A0: Matrix, rs0: seq<real>, rd0: seq<real>, rows0: seq<nat>, cols0: seq<nat>, steps0: seq<Step>)
    returns (i: nat, j: nat, A: Matrix, rs: seq<real>, rd: seq<real>, rows: seq<nat>, cols: seq<nat>, steps: seq<Step>)
    requires Shaped(p) && IsMatrix(A0, |p.supply|, |p.demand|) && |rs0| == |p.supply| && |rd0| == |p.demand|
    requires ActiveLines(rows0, cols0, |p.supply|, |p.demand|) && |rows0| > 0 && |cols0| > 0
    ensures i == VamSelect(p.costs, |p.supply|, |p.demand|, rows0, cols0).0 < |p.supply|
    ensures j == VamSelect(p.costs, |p.supply|, |p.demand|, rows0, cols0).1 < |p.demand|
    ensures i in rows0 && j in cols0
    ensures var x := Min(rs0[i], rd0[j]);
      && A == SetCell(A0, i, j, x) && rs == rs0[i := rs0[i] - x] && rd == rd0[j := rd0[j] - x]
      && rows == (if rs[i] == 0.0 then RemoveFirst(rows0, i) else rows0)
      && cols == (if rd[j] == 0.0 then RemoveFirst(cols0, j) else cols0)
      && steps == steps0 + [Step(|steps0|, A, rs, rd)]
    ensures IsMatrix(A, |p.supply|, |p.demand|) && ActiveLines(rows, cols, |p.supply|, |p.demand|)
    ensures |rows| + |cols| < |rows0| + |cols0|
    ensures VamFrom(p, A, rs, rd, rows, cols, steps) == VamFrom(p, A0, rs0, rd0, rows0, cols0, steps0)
  {
    var m, n := |p.supply|, |p.demand|;
    VamSelectActive(p.costs, m, n, rows0, cols0);
    var v := VamSelect(p.costs, m, n, rows0, cols0);
    i, j := v.0, v.1;
    A, rs, rd, rows, cols, steps := VamApply(p, A0, rs0, rd0, rows0, cols0, steps0, i, j);
  }

  /** The allocation step of a VAM pass at a chosen active cell (i, j). */
  method VamApply(p: Problem, A0: Matrix, rs0: seq<real>, rd0: seq<real>, rows0: seq<nat>, cols0: seq<nat>, steps0: seq<Step>, i: nat, j: nat)
    returns (A: Matrix, rs: seq<real>, rd: seq<real>, rows: seq<nat>, cols: seq<nat>, steps: seq<Step>)
    requires Shaped(p) && IsMatrix(A0, |p.supply|, |p.demand|) && |rs0| == |p.supply| && |rd0| == |p.demand|
    requires ActiveLines(rows0, cols0, |p.supply|, |p.demand|) && i < |p.supply| && j < |p.demand| && i in rows0 && j in cols0
    ensures var x := Min(rs0[i], rd0[j]);
      && A == SetCell(A0, i, j, x) && rs == rs0[i := rs0[i] - x] && rd == rd0[j := rd0[j] - x]
      && rows == (if rs[i] == 0.0 then RemoveFirst(rows0, i) else rows0)
      && cols == (if rd[j] == 0.0 then RemoveFirst(cols0, j) else cols0)
      && steps == steps0 + [Step(|steps0|, A, rs, rd)]
    ensures VamState(A, rs, rd, rows, cols, steps) == VamPass(p, A0, rs0, rd0, rows0, cols0, steps0, i, j)
  {
    var x := Min(rs0[i], rd0[j]);
    A, rs, rd := SetCell(A0, i, j, x), rs0[i := rs0[i] - x], rd0[j := rd0[j] - x];
    steps := steps0 + [Step(|steps0|, A, rs, rd)];
    rows := if rs[i] == 0.0 then RemoveFirst(rows0, i) else rows0;
    cols := if rd[j] == 0.0 then RemoveFirst(cols0, j) else cols0;
  }

  /** A pass of the VAM loop keeps a partial solution and what the loop knows about its active lists. */
  lemma VamKeeps(p: Problem, A: Matrix, rs: seq<real>, rd: seq<real>, rows: seq<nat>, cols: seq<nat>, steps: seq<Step>, i: nat, j: nat)
    requires Shaped(p) && Partial(A, rs, rd, p)
    requires VamLines(A, rs, rd, rows, cols, |p.supply|, |p.demand|)
    requires i < |p.supply| && j < |p.demand| && i in rows && j in cols
    ensures A[i][j] == 0.0
    ensures var s := VamPass(p, A, rs, rd, rows, cols, steps, i, j);
      && Partial(s.matrix, s.remainingSupply, s.remainingDemand, p)
      && VamLines(s.matrix, s.remainingSupply, s.remainingDemand, s.rows, s.cols, |p.supply|, |p.demand|)
  {
    var x := Min(rs[i], rd[j]);
    var s := VamPass(p, A, rs, rd, rows, cols, steps, i, j);
    assert s.matrix == SetCell(A, i, j, x) && s.remainingSupply == rs[i := rs[i] - x] && s.remainingDemand == rd[j := rd[j] - x];
    assert s.rows == (if rs[i] - x == 0.0 then RemoveFirst(rows, i) else rows);
    assert s.cols == (if rd[j] - x == 0.0 then RemoveFirst(cols, j) else cols);
    AllocateKeepsPartial(A, rs, rd, p, i, j, x);
    VamStep(A, rs, rd, rows, cols, |p.supply|, |p.demand|, i, j, x);
  }


  /**
    The VAM run keeps the log's first step, numbers every step it adds,
    logs its final allocation last, and adds at most one step fewer than
    there are active lines.
  */
  lemma {:induction false} VamFromSteps(p: Problem, A: Matrix, rs: seq<real>, rd: seq<real>, rows: seq<nat>, cols: seq<nat>, steps: seq<Step>,
                                    r: (Matrix, seq<Step>))
    requires Shaped(p) && IsMatrix(A, |p.supply|, |p.demand|) && |rs| == |p.supply| && |rd| == |p.demand|
    requires ActiveLines(rows, cols, |p.supply|, |p.demand|)
    requires |steps| >= 1 && Numbered(steps) && steps[|steps| - 1].matrix == A
    requires r == VamFrom(p, A, rs, rd, rows, cols, steps)
    ensures && |steps| <= |r.1| <= |steps| + (if |rows| + |cols| > 0 then |rows| + |cols| - 1 else 0)
      && r.1[0] == steps[0] && Numbered(r.1) && r.1[|r.1| - 1].matrix == r.0
    decreases |rows| + |cols|
  {
    if |rows| > 0 && |cols| > 0 {
      var s := VamNext(p, A, rs, rd, rows, cols, steps);
      NumberedAppend(steps, Step(|steps|, s.matrix, s.remainingSupply, s.remainingDemand));
      VamFromSteps(p, s.matrix, s.remainingSupply, s.remainingDemand, s.rows, s.cols, s.steps, r);
    } else {
      VamStops(p, A, rs, rd, rows, cols, steps);
    }
  }

  /** From a partial solution whose active lists the VAM loop keeps, every step the run logs holds a partial solution. */
  lemma {:induction false} VamFromRecorded(p: Problem, A: Matrix, rs: seq<real>, rd: seq<real>, rows: seq<nat>, cols: seq<nat>, steps: seq<Step>,
                                    r: (Matrix, seq<Step>))
    requires Shaped(p) && Partial(A, rs, rd, p)
    requires VamLines(A, rs, rd, rows, cols, |p.supply|, |p.demand|)
    requires forall t :: 0 <= t < |steps| ==> Recorded(steps[t], p)
    requires r == VamFrom(p, A, rs, rd, rows, cols, steps)
    ensures forall t :: 0 <= t < |r.1| ==> Recorded(r.1[t], p)
    decreases |rows| + |cols|
  {
    if |rows| > 0 && |cols| > 0 {
      VamSelectActive(p.costs, |p.supply|, |p.demand|, rows, cols);
      var v := VamSelect(p.costs, |p.supply|, |p.demand|, rows, cols);
      VamKeeps(p, A, rs, rd, rows, cols, steps, v.0, v.1);
      var s := VamPass(p, A, rs, rd, rows, cols, steps, v.0, v.1);
      forall t | 0 <= t < |s.steps| ensures Recorded(s.steps[t], p) {
        if t < |steps| {
          assert s.steps[t] == steps[t];
        }
      }
      VamFromRecorded(p, s.matrix, s.remainingSupply, s.remainingDemand, s.rows, s.cols, s.steps, r);
    } else {
      VamStops(p, A, rs, rd, rows, cols, steps);
    }
  }

  /** From a partial solution whose active lists the VAM loop keeps, the run ends in a feasible allocation. */
  lemma {:induction false} VamFromFeasible(p: Problem, A: Matrix, rs: seq<real>, rd: seq<real>, rows: seq<nat>, cols: seq<nat>, steps: seq<Step>,
                                    r: (Matrix, seq<Step>))
    requires Shaped(p) && Partial(A, rs, rd, p)
    requires VamLines(A, rs, rd, rows, cols, |p.supply|, |p.demand|)
    requires r == VamFrom(p, A, rs, rd, rows, cols, steps)
    ensures Feasible(r.0, p)
    decreases |rows| + |cols|
  {
    if |rows| > 0 && |cols| > 0 {
      VamSelectActive(p.costs, |p.supply|, |p.demand|, rows, cols);
      var v := VamSelect(p.costs, |p.supply|, |p.demand|, rows, cols);
      VamKeeps(p, A, rs, rd, rows, cols, steps, v.0, v.1);
      var s := VamPass(p, A, rs, rd, rows, cols, steps, v.0, v.1);
      VamFromFeasible(p, s.matrix, s.remainingSupply, s.remainingDemand, s.rows, s.cols, s.steps, r);
    } else {
      VamStops(p, A, rs, rd, rows, cols, steps);
      ExhaustedIsFeasible(A, rs, rd, p);
    }
  }

  /** When no row or no column is active, the VAM run has nothing left to do. */
  lemma VamStops(p: Problem, A: Matrix, rs: seq<real>, rd: seq<real>, rows: seq<nat>, cols: seq<nat>, steps: seq<Step>)
    requires Shaped(p) && IsMatrix(A, |p.supply|, |p.demand|) && |rs| == |p.supply| && |rd| == |p.demand|
    requires ActiveLines(rows, cols, |p.supply|, |p.demand|) && (|rows| == 0 || |cols| == 0)
    ensures VamFrom(p, A, rs, rd, rows, cols, steps) == (A, steps)
  {
  }

  /** The VAM loop run from a state on, until no row or no column is active. */
  method VamLoop(p: Problem, A0: Matrix, rs0: seq<real>, rd0: seq<real>, rows0: seq<nat>, cols0: seq<nat>, steps0: seq<Step>)
    returns (A: Matrix, steps: seq<Step>)
    requires Shaped(p) && IsMatrix(A0, |p.supply|, |p.demand|) && |rs0| == |p.supply| && |rd0| == |p.demand|
    requires ActiveLines(rows0, cols0, |p.supply|, |p.demand|)
    ensures (A, steps) == VamFrom(p, A0, rs0, rd0, rows0, cols0, steps0)
  {
    var rs, rd, rows, cols;
    A, rs, rd, rows, cols, steps := A0, rs0, rd0, rows0, cols0, steps0;
    while |rows| > 0 && |cols| > 0
      invariant IsMatrix(A, |p.supply|, |p.demand|) && |rs| == |p.supply| && |rd| == |p.demand|
      invariant ActiveLines(rows, cols, |p.supply|, |p.demand|)
      invariant VamFrom(p, A, rs, rd, rows, cols, steps) == VamFrom(p, A0, rs0, rd0, rows0, cols0, steps0)
      decreases |rows| + |cols|
    {
      var i, j;
      i, j, A, rs, rd, rows, cols, steps := VamAllocate(p, A, rs, rd, rows, cols, steps);
    }
    VamStops(p, A, rs, rd, rows, cols, steps);
  }

  /**
    `vam` (allocation loop): allocate on the cell VamSelect picks until no
    row or no column is active. The result is feasible, after at most
    m + n - 1 allocation steps.
  */
  method Vam(p: Problem) returns (A: Matrix, steps: seq<Step>)
    requires Balanced(p)
    ensures Feasible(A, p)
    ensures |steps| >= 1 && Trace(steps, p, A, steps[|steps| - 1].remainingSupply, steps[|steps| - 1].remainingDemand)
    ensures |steps| <= |p.supply| + |p.demand|
    ensures (A, steps) == VamRun(p)
  {
    var m, n := |p.supply|, |p.demand|;
    var Z := Zeros(m, n);
    A, steps := VamLoop(p, Z, p.supply, p.demand, Range(m), Range(n), [Step(0, Z, p.supply, p.demand)]);
    VamRunProperties(p, (A, steps));
  }

  /** VAM starts from a partial solution with every row and every column active. */
  lemma VamStart(p: Problem)
    requires Balanced(p)
    ensures var Z := Zeros(|p.supply|, |p.demand|);
      && Partial(Z, p.supply, p.demand, p)
      && VamLines(Z, p.supply, p.demand, Range(|p.supply|), Range(|p.demand|), |p.supply|, |p.demand|)
  {
    var m, n := |p.supply|, |p.demand|;
    var rows0, cols0 := Range(m), Range(n);
    StartIsPartial(p);
    forall a | 0 <= a < m ensures a in rows0 {
      assert rows0[a] == a;
    }
    forall b | 0 <= b < n ensures b in cols0 {
      assert cols0[b] == b;
    }
  }

  /** What the whole VAM run r from the empty allocation gives: a feasible allocation, a trace, at most m + n steps. */
  lemma VamRunProperties(p: Problem, r: (Matrix, seq<Step>))
    requires Balanced(p) && r == VamRun(p)
    ensures Feasible(r.0, p)
    ensures |r.1| >= 1 && Trace(r.1, p, r.0, r.1[|r.1| - 1].remainingSupply, r.1[|r.1| - 1].remainingDemand)
    ensures |r.1| <= |p.supply| + |p.demand|
  {
    var m, n := |p.supply|, |p.demand|;
    var Z := Zeros(m, n);
    var rows0, cols0 := Range(m), Range(n);
    var start := [Step(0, Z, p.supply, p.demand)];
    VamStart(p);
    VamFromSteps(p, Z, p.supply, p.demand, rows0, cols0, start, r);
    VamFromRecorded(p, Z, p.supply, p.demand, rows0, cols0, start, r);
    VamFromFeasible(p, Z, p.supply, p.demand, rows0, cols0, start, r);
  }

  // ---------------------------------------------------------------------------
  // Row Minima

  /** The columns from k on whose remaining demand exceeds 1e-10, in order. */
  function AvailableFrom(rd: seq<real>, k: nat): (cols: seq<nat>)
    requires k <= |rd|
    ensures forall t :: 0 <= t < |cols| ==> k <= cols[t] < |rd| && rd[cols[t]] > Tol
    ensures forall b :: k <= b < |rd| && rd[b] > Tol ==> b in cols
    ensures Increasing(cols)
    decreases |rd| - k
  {
    if k == |rd| then []
    else if rd[k] > Tol then
      var rest := AvailableFrom(rd, k + 1);
      IncreasingCons(k, rest);
      [k] + rest
    else AvailableFrom(rd, k + 1)
  }

  /** `available_cols`: the columns whose remaining demand exceeds 1e-10, in order. */
  function AvailableColumns(rd: seq<real>): (cols: seq<nat>)
    ensures forall t :: 0 <= t < |cols| ==> cols[t] < |rd| && rd[cols[t]] > Tol
    ensures forall b :: 0 <= b < |rd| && rd[b] > Tol ==> b in cols
    ensures Increasing(cols)
  {
    AvailableFrom(rd, 0)
  }

  /** The number of columns from k on whose remaining demand exceeds 1e-10. */
  function CountAbove(rd: seq<real>, k: nat): nat
    requires k <= |rd|
    decreases |rd| - k
  {
    if k == |rd| then 0 else (if rd[k] > Tol then 1 else 0) + CountAbove(rd, k + 1)
  }

  /** Lowering one remaining demand never adds an available column, and lowering it to at most 1e-10 from above removes one. */
  lemma {:induction false} CountAboveLower(rd: seq<real>, k: nat, j: nat, y: real)
    requires k <= |rd| && j < |rd| && y <= rd[j]
    ensures CountAbove(rd[j := y], k) <= CountAbove(rd, k)
    ensures k <= j && rd[j] > Tol >= y ==> CountAbove(rd[j := y], k) < CountAbove(rd, k)
    decreases |rd| - k
  {
    if k < |rd| {
      CountAboveLower(rd, k + 1, j, y);
    }
  }

  /** Every entry is at most 1e-10. */
  predicate Settled(s: seq<real>) {
    forall k :: 0 <= k < |s| ==> s[k] <= Tol
  }

  /** The column the inner Row Minima loop allocates row i to: the cheapest available one, the first among equals. */
  function RowMinimaColumn(costs: Matrix, i: nat, rd: seq<real>): (j: nat)
    requires i < |costs| && |costs[i]| == |rd| && |AvailableColumns(rd)| > 0
    ensures j < |rd| && rd[j] > Tol
  {
    var cols := AvailableColumns(rd);
    cols[FirstMinIndex(RowCosts(costs, i, cols))]
  }

  /** RowMinimaColumn costs least in row i among the columns with demand above 1e-10. */
  lemma RowMinimaColumnLeast(costs: Matrix, i: nat, rd: seq<real>)
    requires i < |costs| && |costs[i]| == |rd| && |AvailableColumns(rd)| > 0
    ensures forall b :: 0 <= b < |rd| && rd[b] > Tol ==> costs[i][RowMinimaColumn(costs, i, rd)] <= costs[i][b]
  {
    var cols := AvailableColumns(rd);
    var line := RowCosts(costs, i, cols);
    var k := FirstMinIndex(line);
    assert cols[k] == RowMinimaColumn(costs, i, rd);
    FirstMinIndexLeast(line);
    forall b | 0 <= b < |rd| && rd[b] > Tol ensures line[k] <= costs[i][b] {
      var t :| 0 <= t < |cols| && cols[t] == b;
      assert line[t] == costs[i][b];
    }
  }

  /** Every column before RowMinimaColumn with demand above 1e-10 costs more in row i. */
  lemma RowMinimaColumnFirst(costs: Matrix, i: nat, rd: seq<real>)
    requires i < |costs| && |costs[i]| == |rd| && |AvailableColumns(rd)| > 0
    ensures forall b :: 0 <= b < RowMinimaColumn(costs, i, rd) && rd[b] > Tol ==> costs[i][b] > costs[i][RowMinimaColumn(costs, i, rd)]
  {
    var cols := AvailableColumns(rd);
    var line := RowCosts(costs, i, cols);
    var k := FirstMinIndex(line);
    assert cols[k] == RowMinimaColumn(costs, i, rd);
    FirstMinIndexLeast(line);
    IncreasingOrdered(cols);
    forall b | 0 <= b < cols[k] && rd[b] > Tol ensures costs[i][b] > line[k] {
      var t :| 0 <= t < |cols| && cols[t] == b;
      if k < t {
        assert false;
      }
      assert t < k && line[t] == costs[i][b];
    }
  }

  /** A pass of the inner Row Minima loop settles row i or takes a column out of the available ones. */
  lemma RowMinimaProgress(rs: seq<real>, rd: seq<real>, i: nat, j: nat, x: real)
    requires i < |rs| && j < |rd| && rs[i] > Tol && rd[j] > Tol && x == Min(rs[i], rd[j])
    ensures CountAbove(rd[j := rd[j] - x], 0) + (if rs[i] - x > Tol then 1 else 0) < CountAbove(rd, 0) + 1
  {
    CountAboveLower(rd, 0, j, rd[j] - x);
  }

  /** The state the Row Minima loops carry from one pass to the next. */
  datatype RowMinimaState = RowMinimaState(matrix: Matrix, remainingSupply: seq<real>, remainingDemand: seq<real>, steps: seq<Step>)

  /** One pass of the inner Row Minima loop: allocate min(supply, demand) at row i's RowMinimaColumn and log the step. */
  function RowMinimaPass(p: Problem, i: nat, A: Matrix, rs: seq<real>, rd: seq<real>, steps: seq<Step>): (s: RowMinimaState)
    requires Shaped(p) && i < |p.supply| && IsMatrix(A, |p.supply|, |p.demand|) && |rs| == |p.supply| && |rd| == |p.demand|
    requires |AvailableColumns(rd)| > 0
    ensures IsMatrix(s.matrix, |p.supply|, |p.demand|) && |s.remainingSupply| == |p.supply| && |s.remainingDemand| == |p.demand|
  {
    var j := RowMinimaColumn(p.costs, i, rd);
    var x := Min(rs[i], rd[j]);
    var A', rs', rd' := SetCell(A, i, j, x), rs[i := rs[i] - x], rd[j := rd[j] - x];
    RowMinimaState(A', rs', rd', steps + [Step(|steps|, A', rs', rd')])
  }

  /** Everything the inner Row Minima loop computes on row i: passes while the row has supply above 1e-10 and a column is available. */
  function RowMinimaRowFrom(p: Problem, i: nat, A: Matrix, rs: seq<real>, rd: seq<real>, steps: seq<Step>): (s: RowMinimaState)
    requires Shaped(p) && i < |p.supply| && IsMatrix(A, |p.supply|, |p.demand|) && |rs| == |p.supply| && |rd| == |p.demand|
    ensures IsMatrix(s.matrix, |p.supply|, |p.demand|) && |s.remainingSupply| == |p.supply| && |s.remainingDemand| == |p.demand|
    decreases CountAbove(rd, 0) + (if rs[i] > Tol then 1 else 0)
  {
    if rs[i] > Tol && |AvailableColumns(rd)| > 0 then
      var j := RowMinimaColumn(p.costs, i, rd);
      RowMinimaProgress(rs, rd, i, j, Min(rs[i], rd[j]));
      var s := RowMinimaPass(p, i, A, rs, rd, steps);
      RowMinimaRowFrom(p, i, s.matrix, s.remainingSupply, s.remainingDemand, s.steps)
    else
      RowMinimaState(A, rs, rd, steps)
  }

  /** Everything the outer Row Minima loop computes from row i on. */
  function RowMinimaFrom(p: Problem, i: nat, s: RowMinimaState): (r: RowMinimaState)
    requires Shaped(p) && i <= |p.supply|
    requires IsMatrix(s.matrix, |p.supply|, |p.demand|) && |s.remainingSupply| == |p.supply| && |s.remainingDemand| == |p.demand|
    decreases |p.supply| - i
  {
    if i == |p.supply| then s
    else RowMinimaFrom(p, i + 1, RowMinimaRowFrom(p, i, s.matrix, s.remainingSupply, s.remainingDemand, s.steps))
  }

  /** Everything the allocation loops of `row_minima` compute after the initial step. */
  function RowMinimaRun(p: Problem): (Matrix, seq<Step>)
    requires Shaped(p)
  {
    var Z := Zeros(|p.supply|, |p.demand|);
    var r := RowMinimaFrom(p, 0, RowMinimaState(Z, p.supply, p.demand, [Step(0, Z, p.supply, p.demand)]));
    (r.matrix, r.steps)
  }

  /**
    The inner Row Minima loop on row i allocates only in row i, and only to
    columns whose demand was above 1e-10 when the row began.
  */
  lemma {:induction false} RowMinimaRowCells(p: Problem, i: nat, A: Matrix, rs: seq<real>, rd: seq<real>, steps: seq<Step>,
                                             r: RowMinimaState, a: nat, b: nat)
    requires Shaped(p) && i < |p.supply| && IsMatrix(A, |p.supply|, |p.demand|) && |rs| == |p.supply| && |rd| == |p.demand|
    requires r == RowMinimaRowFrom(p, i, A, rs, rd, steps)
    requires a < |p.supply| && b < |p.demand| && (a != i || rd[b] <= Tol)
    ensures r.matrix[a][b] == A[a][b]
    decreases CountAbove(rd, 0) + (if rs[i] > Tol then 1 else 0)
  {
    if rs[i] > Tol && |AvailableColumns(rd)| > 0 {
      var j := RowMinimaColumn(p.costs, i, rd);
      var x := Min(rs[i], rd[j]);
      RowMinimaProgress(rs, rd, i, j, x);
      var s := RowMinimaPass(p, i, A, rs, rd, steps);
      assert s.matrix == SetCell(A, i, j, x) && s.remainingDemand == rd[j := rd[j] - x];
      assert s.remainingDemand[b] <= rd[b] && (a != i || b != j);
      RowMinimaRowCells(p, i, s.matrix, s.remainingSupply, s.remainingDemand, s.steps, r, a, b);
    }
  }



  /** What holds between iterations of the inner Row Minima loop on row i. */
  predicate RowMinimaInv(p: Problem, i: nat, A: Matrix, rs: seq<real>, rd: seq<real>)
    requires Shaped(p) && i < |p.supply|
  {
    && Partial(A, rs, rd, p)
    && (AllWhole(p.supply) && AllWhole(p.demand) ==> AllWhole(rs) && AllWhole(rd))
    && (forall a, b :: i < a < |p.supply| && 0 <= b < |p.demand| ==> A[a][b] == 0.0)
    && (forall b :: 0 <= b < |p.demand| && rs[i] > Tol && rd[b] > Tol ==> A[i][b] == 0.0)
    && ((forall a :: 0 <= a < i ==> rs[a] <= Tol) || (forall b :: 0 <= b < |p.demand| ==> rd[b] <= Tol))
  }

  /** One iteration of the inner Row Minima loop keeps its invariant and makes progress. */
  lemma RowMinimaStep(p: Problem, i: nat, A: Matrix, rs: seq<real>, rd: seq<real>, j: nat, x: real)
    requires Shaped(p) && i < |p.supply| && RowMinimaInv(p, i, A, rs, rd)
    requires j < |p.demand| && rs[i] > Tol && rd[j] > Tol && x == Min(rs[i], rd[j])
    ensures RowMinimaInv(p, i, SetCell(A, i, j, x), rs[i := rs[i] - x], rd[j := rd[j] - x])
    ensures CountAbove(rd[j := rd[j] - x], 0) + (if rs[i] - x > Tol then 1 else 0) < CountAbove(rd, 0) + 1
  {
    var m, n := |p.supply|, |p.demand|;
    AllocateKeepsPartial(A, rs, rd, p, i, j, x);
    CountAboveLower(rd, 0, j, rd[j] - x);
    if AllWhole(p.supply) && AllWhole(p.demand) {
      WholeAfterAllocate(rs, rd, i, j, x);
    }
    var A', rs', rd' := SetCell(A, i, j, x), rs[i := rs[i] - x], rd[j := rd[j] - x];
    forall a, b | i < a < m && 0 <= b < n ensures A'[a][b] == 0.0 {
      assert A'[a][b] == A[a][b];
    }
    forall b | 0 <= b < n && rs'[i] > Tol && rd'[b] > Tol ensures A'[i][b] == 0.0 {
      assert b != j;
      assert A'[i][b] == A[i][b];
    }
    assert RowMinimaInv(p, i, A', rs', rd');
  }

  /** One pass of the inner Row Minima loop: allocate row i to its cheapest available column. */
  method RowMinimaAllocate(p: Problem, i: nat, A0: Matrix, rs0: seq<real>, rd0: seq<real>, steps0: seq<Step>)
    returns (A: Matrix, rs: seq<real>, rd: seq<real>, steps: seq<Step>)
    requires Balanced(p) && i < |p.supply| && RowMinimaInv(p, i, A0, rs0, rd0) && Trace(steps0, p, A0, rs0, rd0)
    requires rs0[i] > Tol && |AvailableColumns(rd0)| > 0
    ensures var j := RowMinimaColumn(p.costs, i, rd0); var x := Min(rs0[i], rd0[j]);
      && A == SetCell(A0, i, j, x) && rs == rs0[i := rs0[i] - x] && rd == rd0[j := rd0[j] - x]
      && steps == steps0 + [Step(|steps0|, A, rs, rd)]
    ensures RowMinimaInv(p, i, A, rs, rd) && Trace(steps, p, A, rs, rd)
    ensures CountAbove(rd, 0) + (if rs[i] > Tol then 1 else 0) < CountAbove(rd0, 0) + 1
    ensures RowMinimaRowFrom(p, i, A, rs, rd, steps) == RowMinimaRowFrom(p, i, A0, rs0, rd0, steps0)
  {
    var j := RowMinimaColumn(p.costs, i, rd0);
    var x := Min(rs0[i], rd0[j]);
    A, rs, rd := SetCell(A0, i, j, x), rs0[i := rs0[i] - x], rd0[j := rd0[j] - x];
    steps := steps0 + [Step(|steps0|, A, rs, rd)];
    assert RowMinimaPass(p, i, A0, rs0, rd0, steps0) == RowMinimaState(A, rs, rd, steps);
    RowMinimaStep(p, i, A0, rs0, rd0, j, x);
    TraceExtend(steps0, p, A0, rs0, rd0, A, rs, rd);
  }

  /** What holds before the outer Row Minima loop reaches row i. */
  predicate RowMinimaBefore(p: Problem, i: nat, A: Matrix, rs: seq<real>, rd: seq<real>)
    requires Shaped(p) && i <= |p.supply|
  {
    && Partial(A, rs, rd, p)
    && (AllWhole(p.supply) && AllWhole(p.demand) ==> AllWhole(rs) && AllWhole(rd))
    && (forall a, b :: i <= a < |p.supply| && 0 <= b < |p.demand| ==> A[a][b] == 0.0)
    && ((forall a :: 0 <= a < i ==> rs[a] <= Tol) || (forall b :: 0 <= b < |p.demand| ==> rd[b] <= Tol))
  }

  /** One pass of the outer Row Minima loop: serve row i until it or the columns run out. */
  method RowMinimaRow(p: Problem, i: nat, A0: Matrix, rs0: seq<real>, rd0: seq<real>, steps0: seq<Step>)
    returns (A: Matrix, rs: seq<real>, rd: seq<real>, steps: seq<Step>)
    requires Balanced(p) && i < |p.supply| && RowMinimaBefore(p, i, A0, rs0, rd0) && Trace(steps0, p, A0, rs0, rd0)
    ensures RowMinimaBefore(p, i + 1, A, rs, rd) && Trace(steps, p, A, rs, rd)
    ensures RowMinimaState(A, rs, rd, steps) == RowMinimaRowFrom(p, i, A0, rs0, rd0, steps0)
  {
    A, rs, rd, steps := A0, rs0, rd0, steps0;
    RowMinimaRowBegin(p, i, A, rs, rd);
    while rs[i] > Tol
      invariant RowMinimaInv(p, i, A, rs, rd) && Trace(steps, p, A, rs, rd)
      invariant RowMinimaRowFrom(p, i, A, rs, rd, steps) == RowMinimaRowFrom(p, i, A0, rs0, rd0, steps0)
      decreases CountAbove(rd, 0) + (if rs[i] > Tol then 1 else 0)
    {
      if |AvailableColumns(rd)| == 0 {
        break;
      }
      A, rs, rd, steps := RowMinimaAllocate(p, i, A, rs, rd, steps);
    }
    RowMinimaRowEnd(p, i, A, rs, rd, steps);
  }

  /** Before row i is served, the inner loop's invariant holds. */
  lemma RowMinimaRowBegin(p: Problem, i: nat, A: Matrix, rs: seq<real>, rd: seq<real>)
    requires Shaped(p) && i < |p.supply| && RowMinimaBefore(p, i, A, rs, rd)
    ensures RowMinimaInv(p, i, A, rs, rd)
  {
  }

  /** When the inner loop stops, row i is served and the rest of `RowMinimaRowFrom` is the state itself. */
  lemma RowMinimaRowEnd(p: Problem, i: nat, A: Matrix, rs: seq<real>, rd: seq<real>, steps: seq<Step>)
    requires Shaped(p) && i < |p.supply| && RowMinimaInv(p, i, A, rs, rd)
    requires rs[i] <= Tol || |AvailableColumns(rd)| == 0
    ensures RowMinimaBefore(p, i + 1, A, rs, rd)
    ensures RowMinimaRowFrom(p, i, A, rs, rd, steps) == RowMinimaState(A, rs, rd, steps)
  {
  }

  /**
    `row_minima` (allocation loop): row by row, allocate to the cheapest
    column that still has demand above 1e-10 (the first among equals) until
    the row's remaining supply is at most 1e-10 or no column is left. At the
    end either every source or every destination has at most 1e-10 left;
    with whole-number data the result is feasible.
  */
  method RowMinima(p: Problem) returns (A: Matrix, steps: seq<Step>)
    requires Balanced(p)
    ensures |steps| >= 1 && Trace(steps, p, A, steps[|steps| - 1].remainingSupply, steps[|steps| - 1].remainingDemand)
    ensures Settled(steps[|steps| - 1].remainingSupply) || Settled(steps[|steps| - 1].remainingDemand)
    ensures AllWhole(p.supply) && AllWhole(p.demand) ==> Feasible(A, p)
    ensures (A, steps) == RowMinimaRun(p)
  {
    var m, n := |p.supply|, |p.demand|;
    A := Zeros(m, n);
    var rs, rd := p.supply, p.demand;
    steps := [Step(0, A, rs, rd)];
    ghost var start := RowMinimaState(A, rs, rd, steps);
    RowMinimaBegin(p);
    for i := 0 to m
      invariant RowMinimaServed(p, i, RowMinimaState(A, rs, rd, steps), start)
    {
      A, rs, rd, steps := RowMinimaServe(p, i, A, rs, rd, steps, start);
    }
    RowMinimaEnd(p, A, rs, rd, steps);
  }

  /**
    What holds between passes of the outer Row Minima loop: the rows before i
    are served, the log is a trace, and the rows from i on lead to the same
    end as the whole run from `start`.
  */
  predicate RowMinimaServed(p: Problem, i: nat, s: RowMinimaState, start: RowMinimaState)
    requires Shaped(p) && i <= |p.supply|
  {
    && RowMinimaBefore(p, i, s.matrix, s.remainingSupply, s.remainingDemand)
    && Trace(s.steps, p, s.matrix, s.remainingSupply, s.remainingDemand)
    && IsMatrix(start.matrix, |p.supply|, |p.demand|) && |start.remainingSupply| == |p.supply| && |start.remainingDemand| == |p.demand|
    && RowMinimaFrom(p, i, s) == RowMinimaFrom(p, 0, start)
  }

  /** The state before the first row is served. */
  lemma RowMinimaBegin(p: Problem)
    requires Balanced(p)
    ensures var Z := Zeros(|p.supply|, |p.demand|);
      var start := RowMinimaState(Z, p.supply, p.demand, [Step(0, Z, p.supply, p.demand)]);
      RowMinimaServed(p, 0, start, start)
  {
    StartIsPartial(p);
  }

  /** One pass of the outer Row Minima loop keeps `RowMinimaServed`, one row further on. */
  method RowMinimaServe(p: Problem, i: nat, A0: Matrix, rs0: seq<real>, rd0: seq<real>, steps0: seq<Step>, ghost start: RowMinimaState)
    returns (A: Matrix, rs: seq<real>, rd: seq<real>, steps: seq<Step>)
    requires Balanced(p) && i < |p.supply| && RowMinimaServed(p, i, RowMinimaState(A0, rs0, rd0, steps0), start)
    ensures RowMinimaServed(p, i + 1, RowMinimaState(A, rs, rd, steps), start)
  {
    A, rs, rd, steps := RowMinimaRow(p, i, A0, rs0, rd0, steps0);
  }

  /** What the Row Minima loops leave once every row has been served. */
  lemma RowMinimaEnd(p: Problem, A: Matrix, rs: seq<real>, rd: seq<real>, steps: seq<Step>)
    requires Balanced(p)
    requires var Z := Zeros(|p.supply|, |p.demand|);
      RowMinimaServed(p, |p.supply|, RowMinimaState(A, rs, rd, steps), RowMinimaState(Z, p.supply, p.demand, [Step(0, Z, p.supply, p.demand)]))
    ensures |steps| >= 1 && Trace(steps, p, A, steps[|steps| - 1].remainingSupply, steps[|steps| - 1].remainingDemand)
    ensures Settled(steps[|steps| - 1].remainingSupply) || Settled(steps[|steps| - 1].remainingDemand)
    ensures AllWhole(p.supply) && AllWhole(p.demand) ==> Feasible(A, p)
    ensures (A, steps) == RowMinimaRun(p)
  {
    assert steps[|steps| - 1].remainingSupply == rs && steps[|steps| - 1].remainingDemand == rd;
    if AllWhole(p.supply) && AllWhole(p.demand) {
      RowMinimaExhausted(A, rs, rd, p);
    }
  }

  /** With whole-number data, the state Row Minima ends in is feasible. */
  lemma RowMinimaExhausted(A: Matrix, rs: seq<real>, rd: seq<real>, p: Problem)
    requires Shaped(p) && Partial(A, rs, rd, p) && AllWhole(rs) && AllWhole(rd)
    requires Settled(rs) || Settled(rd)
    ensures Feasible(A, p)
  {
    if Settled(rs) {
      forall a | 0 <= a < |rs| ensures rs[a] == 0.0 {
        WholeBelowTol(rs[a]);
      }
    } else {
      forall b | 0 <= b < |rd| ensures rd[b] == 0.0 {
        WholeBelowTol(rd[b]);
      }
    }
    ExhaustedIsFeasible(A, rs, rd, p);
  }

  // ---------------------------------------------------------------------------
  // The four entry points

  /** Which initial-solution heuristic to run. */
  datatype Heuristic = NorthWestCorner | LeastCostMethod | VogelApproximation | RowMinimaMethod

  /** What every heuristic returns besides its display name. */
  datatype Solution = Solution(allocation: Matrix, totalCost: real, steps: seq<Step>, problem: Problem, dummy: Dummy)

  /** The allocation and log the chosen heuristic's loops compute on a balanced problem. */
  function Run(h: Heuristic, p: Problem): (Matrix, seq<Step>)
    requires Shaped(p)
  {
    match h
    case NorthWestCorner => NwcrRun(p)
    case LeastCostMethod => LeastCostRun(p)
    case VogelApproximation => VamRun(p)
    case RowMinimaMethod => RowMinimaRun(p)
  }

  /**
    `nwcr`, `least_cost`, `vam` and `row_minima`: validate the input, balance
    it, run the heuristic's allocation loop and price the allocation.
    Rejected input comes back as the validation error. NWCR and VAM always
    produce a feasible allocation of the balanced problem; Least Cost and Row
    Minima do so for whole-number supplies and demands.
  */
  method Solve(h: Heuristic, costs: Matrix, supply: seq<real>, demand: seq<real>) returns (r: Result<Solution, InputError>)
    ensures r.Failure? <==> !Valid(Problem(costs, supply, demand))
    ensures r.Failure? ==> ValidateInput(costs, supply, demand) == Failure(r.error)
    ensures r.Success? ==> (r.value.problem, r.value.dummy) == BalanceProblem(Problem(costs, supply, demand))
    ensures r.Success? ==> Balanced(r.value.problem)
    ensures r.Success? ==> IsMatrix(r.value.allocation, |r.value.problem.supply|, |r.value.problem.demand|)
    ensures r.Success? ==> r.value.totalCost == TotalCost(r.value.allocation, r.value.problem.costs) >= 0.0
    ensures r.Success? && (h.NorthWestCorner? || h.VogelApproximation? || (AllWhole(supply) && AllWhole(demand))) ==>
      Feasible(r.value.allocation, r.value.problem)
    ensures r.Success? ==> |r.value.steps| >= 1 && Numbered(r.value.steps)
    ensures r.Success? ==> (r.value.allocation, r.value.steps) == Run(h, r.value.problem)
  {
    var checked := ValidateInput(costs, supply, demand);
    if checked.Failure? {
      return Failure(checked.error);
    }
    BalanceKeepsValid(checked.value);
    if AllWhole(supply) && AllWhole(demand) {
      BalanceKeepsWhole(checked.value);
    }
    var (q, dummy) := BalanceProblem(checked.value);
    var A, steps;
    match h {
      case NorthWestCorner =>
        A, steps := Nwcr(q);
      case LeastCostMethod =>
        A, steps := LeastCost(q);
      case VogelApproximation =>
        A, steps := Vam(q);
      case RowMinimaMethod =>
        A, steps := RowMinima(q);
    }
    TotalCostNonNegative(A, q.costs);
    return Success(Solution(A, TotalCost(A, q.costs), steps, q, dummy));
  }
}
