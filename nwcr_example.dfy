/**
  The transportation problem of test_quick.py worked through the North-West
  Corner Rule: four allocations down the staircase (0,0), (1,0), (1,1), (2,2),
  and the total cost of the result.
*/
module NwcrExample {
  import opened Matrices
  import opened Utils
  import opened Methods

  /** The problem of test_quick.py: three sources, three destinations, 375 units each side. */
  function QuickProblem(): Problem {
    Problem([[8.0, 6.0, 10.0], [9.0, 12.0, 13.0], [14.0, 7.0, 16.0]], [100.0, 150.0, 125.0], [130.0, 120.0, 125.0])
  }

  /** The problem is shaped: a 3 x 3 cost matrix for three sources and three destinations. */
  lemma QuickShaped()
    ensures Shaped(QuickProblem())
  {
    var C := QuickProblem().costs;
    assert |C[0]| == 3 && |C[1]| == 3 && |C[2]| == 3;
  }

  /** A vector of three entries is the display of those entries. */
  lemma Three(s: seq<real>, a: real, b: real, c: real)
    requires |s| == 3 && s[0] == a && s[1] == b && s[2] == c
    ensures s == [a, b, c]
  {
  }

  /** A matrix of three rows is the display of those rows. */
  lemma ThreeRows(M: Matrix, r0: seq<real>, r1: seq<real>, r2: seq<real>)
    requires |M| == 3 && M[0] == r0 && M[1] == r1 && M[2] == r2
    ensures M == [r0, r1, r2]
  {
  }

  /** The empty 3 x 3 allocation. */
  lemma ZerosThree()
    ensures Zeros(3, 3) == [[0.0, 0.0, 0.0], [0.0, 0.0, 0.0], [0.0, 0.0, 0.0]]
  {
    var Z := Zeros(3, 3);
    assert Z[0] == [0.0, 0.0, 0.0] && Z[1] == [0.0, 0.0, 0.0] && Z[2] == [0.0, 0.0, 0.0];
  }

  /**
    One NWCR allocation, with the state after it named: allocating x at (i, j)
    leads to (i', j'), one row down when the row is exhausted and one column
    right when the column is.
  */
  lemma NwcrFromStep(p: Problem, i: nat, j: nat, A: Matrix, rs: seq<real>, rd: seq<real>, steps: seq<Step>,
                     x: real, i': nat, j': nat, A': Matrix, rs': seq<real>, rd': seq<real>)
    requires Shaped(p) && IsMatrix(A, |p.supply|, |p.demand|) && |rs| == |p.supply| && |rd| == |p.demand|
    requires i < |p.supply| && j < |p.demand| && x == Min(rs[i], rd[j])
    requires A' == SetCell(A, i, j, x) && rs' == rs[i := rs[i] - x] && rd' == rd[j := rd[j] - x]
    requires i' == (if rs'[i] == 0.0 then i + 1 else i) && j' == (if rd'[j] == 0.0 then j + 1 else j)
    ensures i' <= |p.supply| && j' <= |p.demand| && IsMatrix(A', |p.supply|, |p.demand|)
    ensures |rs'| == |p.supply| && |rd'| == |p.demand|
    ensures NwcrFrom(p, i, j, A, rs, rd, steps) == NwcrFrom(p, i', j', A', rs', rd', steps + [Step(|steps|, A', rs', rd')])
  {
    NwcrFromUnfold(p, i, j, A, rs, rd, steps, x);
  }

  /** First step: 100 to (0,0) exhausts row 0 and the walk moves down. */
  lemma QuickStep1(steps: seq<Step>)
    ensures var p := QuickProblem();
      var A := [[100.0, 0.0, 0.0], [0.0, 0.0, 0.0], [0.0, 0.0, 0.0]];
      var rs, rd := [0.0, 150.0, 125.0], [30.0, 120.0, 125.0];
      NwcrFrom(p, 0, 0, Zeros(3, 3), p.supply, p.demand, steps) == NwcrFrom(p, 1, 0, A, rs, rd, steps + [Step(|steps|, A, rs, rd)])
  {
    var p := QuickProblem();
    QuickShaped();
    Step1Facts();
    NwcrFromStep(p, 0, 0, Zeros(3, 3), p.supply, p.demand, steps, 100.0, 1, 0,
                 [[100.0, 0.0, 0.0], [0.0, 0.0, 0.0], [0.0, 0.0, 0.0]], [0.0, 150.0, 125.0], [30.0, 120.0, 125.0]);
  }

  /** The arithmetic of the first step. */
  lemma Step1Facts()
    ensures var Z, rs, rd := Zeros(3, 3), QuickProblem().supply, QuickProblem().demand;
      100.0 == Min(rs[0], rd[0]) && IsMatrix(Z, 3, 3)
      && SetCell(Z, 0, 0, 100.0) == [[100.0, 0.0, 0.0], [0.0, 0.0, 0.0], [0.0, 0.0, 0.0]]
      && rs[0 := rs[0] - 100.0] == [0.0, 150.0, 125.0] && rd[0 := rd[0] - 100.0] == [30.0, 120.0, 125.0]
  {
    var Z, rs, rd := Zeros(3, 3), QuickProblem().supply, QuickProblem().demand;
    ZerosThree();
    var B := SetCell(Z, 0, 0, 100.0);
    Three(B[0], 100.0, 0.0, 0.0);
    ThreeRows(B, [100.0, 0.0, 0.0], [0.0, 0.0, 0.0], [0.0, 0.0, 0.0]);
    Three(rs[0 := rs[0] - 100.0], 0.0, 150.0, 125.0);
    Three(rd[0 := rd[0] - 100.0], 30.0, 120.0, 125.0);
  }

  /** Second step: 30 to (1,0) exhausts column 0 and the walk moves right. */
  lemma QuickStep2(steps: seq<Step>)
    ensures var p := QuickProblem();
      var A := [[100.0, 0.0, 0.0], [0.0, 0.0, 0.0], [0.0, 0.0, 0.0]];
      var A' := [[100.0, 0.0, 0.0], [30.0, 0.0, 0.0], [0.0, 0.0, 0.0]];
      var rs, rd := [0.0, 150.0, 125.0], [30.0, 120.0, 125.0];
      var rs', rd' := [0.0, 120.0, 125.0], [0.0, 120.0, 125.0];
      NwcrFrom(p, 1, 0, A, rs, rd, steps) == NwcrFrom(p, 1, 1, A', rs', rd', steps + [Step(|steps|, A', rs', rd')])
  {
    QuickShaped();
    Step2Facts();
    NwcrFromStep(QuickProblem(), 1, 0, [[100.0, 0.0, 0.0], [0.0, 0.0, 0.0], [0.0, 0.0, 0.0]],
                 [0.0, 150.0, 125.0], [30.0, 120.0, 125.0], steps, 30.0, 1, 1,
                 [[100.0, 0.0, 0.0], [30.0, 0.0, 0.0], [0.0, 0.0, 0.0]], [0.0, 120.0, 125.0], [0.0, 120.0, 125.0]);
  }

  /** The arithmetic of the second step. */
  lemma Step2Facts()
    ensures var A, rs, rd := [[100.0, 0.0, 0.0], [0.0, 0.0, 0.0], [0.0, 0.0, 0.0]], [0.0, 150.0, 125.0], [30.0, 120.0, 125.0];
      30.0 == Min(rs[1], rd[0]) && IsMatrix(A, 3, 3)
      && SetCell(A, 1, 0, 30.0) == [[100.0, 0.0, 0.0], [30.0, 0.0, 0.0], [0.0, 0.0, 0.0]]
      && rs[1 := rs[1] - 30.0] == [0.0, 120.0, 125.0] && rd[0 := rd[0] - 30.0] == [0.0, 120.0, 125.0]
  {
    var A, rs, rd := [[100.0, 0.0, 0.0], [0.0, 0.0, 0.0], [0.0, 0.0, 0.0]], [0.0, 150.0, 125.0], [30.0, 120.0, 125.0];
    var B := SetCell(A, 1, 0, 30.0);
    Three(B[1], 30.0, 0.0, 0.0);
    ThreeRows(B, [100.0, 0.0, 0.0], [30.0, 0.0, 0.0], [0.0, 0.0, 0.0]);
    Three(rs[1 := rs[1] - 30.0], 0.0, 120.0, 125.0);
    Three(rd[0 := rd[0] - 30.0], 0.0, 120.0, 125.0);
  }

  /** Third step: 120 to (1,1) exhausts row 1 and column 1 at once, and the walk moves diagonally. */
  lemma QuickStep3(steps: seq<Step>)
    ensures var p := QuickProblem();
      var A := [[100.0, 0.0, 0.0], [30.0, 0.0, 0.0], [0.0, 0.0, 0.0]];
      var A' := [[100.0, 0.0, 0.0], [30.0, 120.0, 0.0], [0.0, 0.0, 0.0]];
      var rs, rd := [0.0, 120.0, 125.0], [0.0, 120.0, 125.0];
      var rs', rd' := [0.0, 0.0, 125.0], [0.0, 0.0, 125.0];
      NwcrFrom(p, 1, 1, A, rs, rd, steps) == NwcrFrom(p, 2, 2, A', rs', rd', steps + [Step(|steps|, A', rs', rd')])
  {
    QuickShaped();
    Step3Facts();
    NwcrFromStep(QuickProblem(), 1, 1, [[100.0, 0.0, 0.0], [30.0, 0.0, 0.0], [0.0, 0.0, 0.0]],
                 [0.0, 120.0, 125.0], [0.0, 120.0, 125.0], steps, 120.0, 2, 2,
                 [[100.0, 0.0, 0.0], [30.0, 120.0, 0.0], [0.0, 0.0, 0.0]], [0.0, 0.0, 125.0], [0.0, 0.0, 125.0]);
  }

  /** The arithmetic of the third step. */
  lemma Step3Facts()
    ensures var A, rs, rd := [[100.0, 0.0, 0.0], [30.0, 0.0, 0.0], [0.0, 0.0, 0.0]], [0.0, 120.0, 125.0], [0.0, 120.0, 125.0];
      120.0 == Min(rs[1], rd[1]) && IsMatrix(A, 3, 3)
      && SetCell(A, 1, 1, 120.0) == [[100.0, 0.0, 0.0], [30.0, 120.0, 0.0], [0.0, 0.0, 0.0]]
      && rs[1 := rs[1] - 120.0] == [0.0, 0.0, 125.0] && rd[1 := rd[1] - 120.0] == [0.0, 0.0, 125.0]
  {
    var A, rs, rd := [[100.0, 0.0, 0.0], [30.0, 0.0, 0.0], [0.0, 0.0, 0.0]], [0.0, 120.0, 125.0], [0.0, 120.0, 125.0];
    var B := SetCell(A, 1, 1, 120.0);
    Three(B[1], 30.0, 120.0, 0.0);
    ThreeRows(B, [100.0, 0.0, 0.0], [30.0, 120.0, 0.0], [0.0, 0.0, 0.0]);
    Three(rs[1 := rs[1] - 120.0], 0.0, 0.0, 125.0);
    Three(rd[1 := rd[1] - 120.0], 0.0, 0.0, 125.0);
  }

  /** Last step: 125 to (2,2) exhausts both sides and the walk leaves the matrix. */
  lemma QuickStep4(steps: seq<Step>)
    ensures var p := QuickProblem();
      var A := [[100.0, 0.0, 0.0], [30.0, 120.0, 0.0], [0.0, 0.0, 0.0]];
      var A' := [[100.0, 0.0, 0.0], [30.0, 120.0, 0.0], [0.0, 0.0, 125.0]];
      var rs, rd := [0.0, 0.0, 125.0], [0.0, 0.0, 125.0];
      var rs', rd' := [0.0, 0.0, 0.0], [0.0, 0.0, 0.0];
      NwcrFrom(p, 2, 2, A, rs, rd, steps) == (A', steps + [Step(|steps|, A', rs', rd')])
  {
    QuickShaped();
    Step4Facts();
    NwcrFromStep(QuickProblem(), 2, 2, [[100.0, 0.0, 0.0], [30.0, 120.0, 0.0], [0.0, 0.0, 0.0]],
                 [0.0, 0.0, 125.0], [0.0, 0.0, 125.0], steps, 125.0, 3, 3,
                 [[100.0, 0.0, 0.0], [30.0, 120.0, 0.0], [0.0, 0.0, 125.0]], [0.0, 0.0, 0.0], [0.0, 0.0, 0.0]);
  }

  /** The arithmetic of the last step. */
  lemma Step4Facts()
    ensures var A, rs, rd := [[100.0, 0.0, 0.0], [30.0, 120.0, 0.0], [0.0, 0.0, 0.0]], [0.0, 0.0, 125.0], [0.0, 0.0, 125.0];
      125.0 == Min(rs[2], rd[2]) && IsMatrix(A, 3, 3)
      && SetCell(A, 2, 2, 125.0) == [[100.0, 0.0, 0.0], [30.0, 120.0, 0.0], [0.0, 0.0, 125.0]]
      && rs[2 := rs[2] - 125.0] == [0.0, 0.0, 0.0] && rd[2 := rd[2] - 125.0] == [0.0, 0.0, 0.0]
  {
    var A, rs, rd := [[100.0, 0.0, 0.0], [30.0, 120.0, 0.0], [0.0, 0.0, 0.0]], [0.0, 0.0, 125.0], [0.0, 0.0, 125.0];
    var B := SetCell(A, 2, 2, 125.0);
    Three(B[2], 0.0, 0.0, 125.0);
    ThreeRows(B, [100.0, 0.0, 0.0], [30.0, 120.0, 0.0], [0.0, 0.0, 125.0]);
    Three(rs[2 := rs[2] - 125.0], 0.0, 0.0, 0.0);
    Three(rd[2 := rd[2] - 125.0], 0.0, 0.0, 0.0);
  }

  /** 100 * 8 + 30 * 9 + 120 * 12 + 125 * 16 = 4510. */
  lemma QuickCost()
    ensures TotalCost([[100.0, 0.0, 0.0], [30.0, 120.0, 0.0], [0.0, 0.0, 125.0]], QuickProblem().costs) == 4510.0
  {
    var A := [[100.0, 0.0, 0.0], [30.0, 120.0, 0.0], [0.0, 0.0, 125.0]];
    var C := QuickProblem().costs;
    assert Dot(A[0], C[0]) == 800.0;
    assert Dot(A[1], C[1]) == 1710.0;
    assert Dot(A[2], C[2]) == 2000.0;
    assert TotalCost(A[2..], C[2..]) == 2000.0;
    assert TotalCost(A[1..], C[1..]) == 3710.0;
  }

  /**
    NWCR on the problem of test_quick.py: supply 100 fills (0,0) and moves
    down, 30 finishes column 0 at (1,0), 120 finishes row 1 and column 1 at
    once at (1,1), and 125 fills (2,2). The result is
    [[100,0,0],[30,120,0],[0,0,125]], reached in four allocation steps after
    the initial one, at total cost 4510.
  */
  lemma QuickNwcr()
    ensures NwcrRun(QuickProblem()).0 == [[100.0, 0.0, 0.0], [30.0, 120.0, 0.0], [0.0, 0.0, 125.0]]
    ensures |NwcrRun(QuickProblem()).1| == 5
    ensures TotalCost(NwcrRun(QuickProblem()).0, QuickProblem().costs) == 4510.0
  {
    var p := QuickProblem();
    var s0 := [Step(0, Zeros(3, 3), p.supply, p.demand)];
    QuickStep1(s0);
    var s1 := s0 + [Step(1, [[100.0, 0.0, 0.0], [0.0, 0.0, 0.0], [0.0, 0.0, 0.0]], [0.0, 150.0, 125.0], [30.0, 120.0, 125.0])];
    QuickStep2(s1);
    var s2 := s1 + [Step(2, [[100.0, 0.0, 0.0], [30.0, 0.0, 0.0], [0.0, 0.0, 0.0]], [0.0, 120.0, 125.0], [0.0, 120.0, 125.0])];
    QuickStep3(s2);
    var s3 := s2 + [Step(3, [[100.0, 0.0, 0.0], [30.0, 120.0, 0.0], [0.0, 0.0, 0.0]], [0.0, 0.0, 125.0], [0.0, 0.0, 125.0])];
    QuickStep4(s3);
    QuickCost();
  }
}
