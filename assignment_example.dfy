/**
  The assignment problem of test_quick.py worked through the model: the
  reductions, the zero columns, the row order, the greedy turns and the pairs
  with their cost.
*/
module AssignmentExample {
  import opened Wrappers
  import opened Matrices
  import opened Assignment

  /** Two m x n matrices with the same entries are the same matrix. */
  lemma SameMatrix(A: Matrix, B: Matrix, m: nat, n: nat)
    requires IsMatrix(A, m, n) && IsMatrix(B, m, n)
    requires forall i, j :: 0 <= i < m && 0 <= j < n ==> A[i][j] == B[i][j]
    ensures A == B
  {
    forall i | 0 <= i < m ensures A[i] == B[i] {}
  }

  /** Row minima 2, 3 and 1. */
  lemma ExampleRowReduce(E: Matrix)
    requires E == [[9.0, 2.0, 7.0], [6.0, 4.0, 3.0], [5.0, 8.0, 1.0]]
    ensures RowReduce(E, 3) == [[7.0, 0.0, 5.0], [3.0, 1.0, 0.0], [4.0, 7.0, 0.0]]
  {
    assert Least(E[0]) == 2.0 by { assert Least(E[0]) in [9.0, 2.0, 7.0]; }
    assert Least(E[1]) == 3.0 by { assert Least(E[1]) in [6.0, 4.0, 3.0]; }
    assert Least(E[2]) == 1.0 by { assert Least(E[2]) in [5.0, 8.0, 1.0]; }
    SameMatrix(RowReduce(E, 3), [[7.0, 0.0, 5.0], [3.0, 1.0, 0.0], [4.0, 7.0, 0.0]], 3, 3);
  }

  /** The least entry of a vector is one that is no larger than any other. */
  lemma LeastIs(s: seq<real>, t: nat)
    requires t < |s| && forall u :: 0 <= u < |s| ==> s[t] <= s[u]
    ensures Least(s) == s[t]
  {
  }

  /** Column reduction by known column minima. */
  lemma ReducedBy(C: Matrix, k: nat, mins: seq<real>, E: Matrix)
    requires IsMatrix(C, k, k) && IsMatrix(E, k, k) && |mins| == k
    requires forall j :: 0 <= j < k ==> Least(Column(C, j)) == mins[j]
    requires forall i, j :: 0 <= i < k && 0 <= j < k ==> E[i][j] == C[i][j] - mins[j]
    ensures ColumnReduce(C, k) == E
  {
    SameMatrix(ColumnReduce(C, k), E, k, k);
  }

  /** Column minima 3, 0 and 0. */
  lemma ExampleColumnReduce(R: Matrix)
    requires R == [[7.0, 0.0, 5.0], [3.0, 1.0, 0.0], [4.0, 7.0, 0.0]]
    ensures ColumnReduce(R, 3) == [[4.0, 0.0, 5.0], [0.0, 1.0, 0.0], [1.0, 7.0, 0.0]]
  {
    LeastIs(Column(R, 0), 1);
    LeastIs(Column(R, 1), 0);
    LeastIs(Column(R, 2), 1);
    ReducedBy(R, 3, [3.0, 0.0, 0.0], [[4.0, 0.0, 5.0], [0.0, 1.0, 0.0], [1.0, 7.0, 0.0]]);
  }

  /** No padding for a square matrix; both reductions. */
  lemma ExampleReduced()
    ensures Reduced([[9.0, 2.0, 7.0], [6.0, 4.0, 3.0], [5.0, 8.0, 1.0]], 3, 3) == [[4.0, 0.0, 5.0], [0.0, 1.0, 0.0], [1.0, 7.0, 0.0]]
  {
    var E := [[9.0, 2.0, 7.0], [6.0, 4.0, 3.0], [5.0, 8.0, 1.0]];
    SameMatrix(Pad(E, 3, 3), E, 3, 3);
    ExampleRowReduce(E);
    ExampleColumnReduce(RowReduce(E, 3));
  }

  /** An ascending list whose only member is v is [v]. */
  lemma OnlyMember(r: seq<nat>, v: nat)
    requires forall p, q :: 0 <= p < q < |r| ==> r[p] < r[q]
    requires forall c: nat :: c in r <==> c == v
    ensures r == [v]
  {
    assert |r| >= 2 ==> r[0] < r[1];
    forall p | 0 <= p < |r| ensures r[p] == v {
      assert r[p] in r;
    }
    assert v in r;
  }

  /** An ascending list whose members are v < w is [v, w]. */
  lemma OnlyMembers(r: seq<nat>, v: nat, w: nat)
    requires v < w && forall p, q :: 0 <= p < q < |r| ==> r[p] < r[q]
    requires forall c: nat :: c in r <==> c == v || c == w
    ensures r == [v, w]
  {
    assert |r| >= 3 ==> r[0] < r[1] < r[2];
    forall p | 0 <= p < |r| ensures r[p] == v || r[p] == w {
      assert r[p] in r;
    }
    assert v in r && w in r;
  }

  /** A vector whose only zero sits at v. */
  lemma ZeroOnlyAt(s: seq<real>, v: nat)
    requires v < |s| && s[v] == 0.0 && forall c :: 0 <= c < |s| && c != v ==> s[c] != 0.0
    ensures ZeroIndices(s) == [v]
  {
    forall c: nat ensures c in ZeroIndices(s) <==> c == v {
    }
    OnlyMember(ZeroIndices(s), v);
  }

  /** A vector whose only zeros sit at v < w. */
  lemma ZerosOnlyAt(s: seq<real>, v: nat, w: nat)
    requires v < w < |s| && s[v] == 0.0 && s[w] == 0.0
    requires forall c :: 0 <= c < |s| && c != v && c != w ==> s[c] != 0.0
    ensures ZeroIndices(s) == [v, w]
  {
    forall c: nat ensures c in ZeroIndices(s) <==> c == v || c == w {
    }
    OnlyMembers(ZeroIndices(s), v, w);
  }

  /** The zero columns of the reduced rows. */
  lemma ExampleZeros(M: Matrix)
    requires M == [[4.0, 0.0, 5.0], [0.0, 1.0, 0.0], [1.0, 7.0, 0.0]]
    ensures ZeroIndices(M[0]) == [1] && ZeroIndices(M[1]) == [0, 2] && ZeroIndices(M[2]) == [2]
  {
    ZeroOnlyAt(M[0], 1);
    ZerosOnlyAt(M[1], 0, 2);
    ZeroOnlyAt(M[2], 2);
  }

  /** A list with strictly ascending keys in [0, K) has at most K entries. */
  lemma {:induction false} AscendingKeys(keys: seq<int>, K: nat)
    requires forall p, q :: 0 <= p < q < |keys| ==> keys[p] < keys[q]
    requires forall p :: 0 <= p < |keys| ==> 0 <= keys[p] < K
    ensures |keys| <= K
  {
    if |keys| > 0 {
      var init := keys[..|keys| - 1];
      forall p | 0 <= p < |init| ensures 0 <= init[p] < keys[|keys| - 1] {
        assert init[p] == keys[p];
      }
      AscendingKeys(init, keys[|keys| - 1]);
    }
  }

  /** The place of row x in the order of a matrix whose rows hold 1, 2 and 1 zeros. */
  function Place(x: nat): nat {
    if x == 0 then 0 else if x == 2 then 1 else 2
  }

  /**
    A list of the rows 0, 1, 2 of a matrix whose rows hold 1, 2 and 1 zeros,
    each present and ordered by TriedBefore, is [0, 2, 1].
  */
  lemma TriedOneTwoOne(M: Matrix, r: seq<nat>)
    requires IsMatrix(M, 3, 3) && ZeroCount(M[0]) == 1 && ZeroCount(M[1]) == 2 && ZeroCount(M[2]) == 1
    requires forall x: nat :: x in r <==> x < 3
    requires forall p, q :: 0 <= p < q < |r| ==> r[p] < 3 && r[q] < 3 && TriedBefore(M, 3, r[p], r[q])
    ensures r == [0, 2, 1]
  {
    var keys := seq(|r|, p requires 0 <= p < |r| => Place(r[p]) as int);
    forall p, q | 0 <= p < q < |r| ensures keys[p] < keys[q] {
      assert TriedBefore(M, 3, r[p], r[q]);
    }
    forall p | 0 <= p < |r| ensures 0 <= keys[p] < 3 {
      assert r[p] in r;
    }
    AscendingKeys(keys, 3);
    assert 0 in r && 1 in r && 2 in r;
    var i0 :| 0 <= i0 < |r| && r[i0] == 0;
    var i1 :| 0 <= i1 < |r| && r[i1] == 1;
    var i2 :| 0 <= i2 < |r| && r[i2] == 2;
    assert |r| == 3;
    assert keys[0] < keys[1] < keys[2];
  }

  /** The greedy turns of rows 0, 2, 1 on a 3 x 3 matrix with zero columns [1], [0, 2] and [2]. */
  lemma TurnsOneTwoOne(M: Matrix)
    requires IsMatrix(M, 3, 3) && ZeroIndices(M[0]) == [1] && ZeroIndices(M[1]) == [0, 2] && ZeroIndices(M[2]) == [2]
    ensures GreedyAfter(M, 3, [0, 2, 1]).assignment == [1, 0, 2]
  {
    var p0: seq<nat> := [];
    var p1: seq<nat> := [0];
    var p2: seq<nat> := [0, 2];
    var p3: seq<nat> := [0, 2, 1];
    assert p1[..0] == p0;
    assert p2[..1] == p1;
    assert p3[..2] == p2;
    var none: seq<int> := seq(3, i => -1);
    assert none == [-1, -1, -1];
    assert GreedyAfter(M, 3, p0) == Greedy([-1, -1, -1], {});
    assert FirstFree([1], {}) == Some(1);
    assert GreedyAfter(M, 3, p1) == Greedy([1, -1, -1], {1});
    assert FirstFree([2], {1}) == Some(2);
    assert GreedyAfter(M, 3, p2) == Greedy([1, -1, 2], {1, 2});
    assert FirstFree([0, 2], {1, 2}) == Some(0);
    assert GreedyAfter(M, 3, p3).assignment == [1, -1, 2][1 := 0];
  }

  /** No row left at -1 after the turns: the greedy result is the turns' assignment. */
  lemma GreedyFromTurns(M: Matrix, k: nat, a: seq<int>)
    requires IsMatrix(M, k, k) && GreedyAfter(M, k, RowOrder(M, k)).assignment == a && -1 !in a
    ensures GreedyAssignment(M, k).Some? && |GreedyAssignment(M, k).value| == k
    ensures forall i :: 0 <= i < k ==> GreedyAssignment(M, k).value[i] == a[i]
  {
  }

  /** The turns of rows 0, 2, 1 leave no row at -1. */
  lemma AllAssigned(a: seq<int>)
    requires a == [1, 0, 2]
    ensures -1 !in a
  {
  }

  /** A list of three entries 1, 0, 2. */
  lemma OneZeroTwo(r: seq<nat>)
    requires |r| == 3 && r[0] == 1 && r[1] == 0 && r[2] == 2
    ensures r == [1, 0, 2]
  {
  }

  /** The greedy assignment of such a matrix whose rows hold 1, 2 and 1 zeros. */
  lemma GreedyOneTwoOne(M: Matrix)
    requires IsMatrix(M, 3, 3) && ZeroIndices(M[0]) == [1] && ZeroIndices(M[1]) == [0, 2] && ZeroIndices(M[2]) == [2]
    ensures GreedyAssignment(M, 3) == Some([1, 0, 2])
  {
    TriedOneTwoOne(M, RowOrder(M, 3));
    TurnsOneTwoOne(M);
    var a := GreedyAfter(M, 3, RowOrder(M, 3)).assignment;
    AllAssigned(a);
    GreedyFromTurns(M, 3, a);
    OneZeroTwo(GreedyAssignment(M, 3).value);
  }

  /** All three pairs lie inside the original matrix. */
  lemma ExamplePairs()
    ensures PairsOf([1, 0, 2], 3, 3) == [(0, 1), (1, 0), (2, 2)]
  {
    var a: seq<nat> := [1, 0, 2];
    var a2: seq<nat> := [1, 0];
    var a1: seq<nat> := [1];
    var a0: seq<nat> := [];
    assert a[..2] == a2 && a2[..1] == a1 && a1[..0] == a0;
    assert PairsOf(a1, 3, 3) == [(0, 1)];
    assert PairsOf(a2, 3, 3) == [(0, 1), (1, 0)];
  }

  /** Costs 2 + 6 + 1. */
  lemma ExampleCost()
    ensures PairCost([[9.0, 2.0, 7.0], [6.0, 4.0, 3.0], [5.0, 8.0, 1.0]], 3, 3, [(0, 1), (1, 0), (2, 2)]) == 9.0
  {
    var ps: seq<(nat, nat)> := [(0, 1), (1, 0), (2, 2)];
    var ps2: seq<(nat, nat)> := [(0, 1), (1, 0)];
    var ps1: seq<(nat, nat)> := [(0, 1)];
    var ps0: seq<(nat, nat)> := [];
    assert ps[..2] == ps2 && ps2[..1] == ps1 && ps1[..0] == ps0;
  }

  /**
    The assignment problem of the quick test: the reduced matrix is
    [[4, 0, 5], [0, 1, 0], [1, 7, 0]], rows take their turn in the order
    0, 2, 1 and the pairs are (0, 1), (1, 0), (2, 2) at a total cost of 9.
  */
  lemma QuickTest()
    ensures var costs := [[9.0, 2.0, 7.0], [6.0, 4.0, 3.0], [5.0, 8.0, 1.0]];
      && GreedyAssignment(Reduced(costs, 3, 3), Size(3, 3)) == Some([1, 0, 2])
      && PairsOf([1, 0, 2], 3, 3) == [(0, 1), (1, 0), (2, 2)]
      && PairCost(costs, 3, 3, [(0, 1), (1, 0), (2, 2)]) == 9.0
  {
    var R := Reduced([[9.0, 2.0, 7.0], [6.0, 4.0, 3.0], [5.0, 8.0, 1.0]], 3, 3);
    ExampleReduced();
    ExampleZeros(R);
    GreedyOneTwoOne(R);
    ExamplePairs();
    ExampleCost();
  }
}
