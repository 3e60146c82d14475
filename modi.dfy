/**
  The MODI (modified distribution) improvement of a basic feasible solution
  (transport/modi.py and its copy backend/transport/modi.py): potentials u, v
  with u[i] + v[j] = cost on basic cells, opportunity costs, the search for a
  closed loop through the entering cell, and the shift of theta around it.
*/
module Modi {
  import opened Wrappers
  import opened Matrices
  import opened Utils

  // ---------------------------------------------------------------------------
  // find_loop

  /** `row_cols[i]`: the columns of the basic cells in row i, in list order. */
  function RowCols(B: seq<Cell>, i: nat): (cols: seq<nat>)
    ensures forall c :: c in cols <==> (i, c) in B
  {
    if B == [] then []
    else (if B[0].0 == i then [B[0].1] else []) + RowCols(B[1..], i)
  }

  /** `col_rows[j]`: the rows of the basic cells in column j, in list order. */
  function ColRows(B: seq<Cell>, j: nat): (rows: seq<nat>)
    ensures forall r :: r in rows <==> (r, j) in B
  {
    if B == [] then []
    else (if B[0].1 == j then [B[0].0] else []) + ColRows(B[1..], j)
  }

  /** Whether a path of four or more cells can return to its first cell. */
  predicate Closes(path: seq<Cell>)
    requires |path| >= 1
  {
    var (si, sj) := path[0];
    var (ci, cj) := path[|path| - 1];
    if |path| % 2 == 0 then sj == cj && si != ci else si == ci && sj != cj
  }

  /**
    `dfs_loop`: below four cells, extend the path along its row (odd length)
    or its column (even length) through unvisited basic cells, depth first;
    at four cells, succeed when the path closes.
  */
  function Dfs(B: seq<Cell>, path: seq<Cell>, visited: set<Cell>): Option<seq<Cell>>
    requires 1 <= |path| <= 4
    decreases 4 - |path|, 1, 0
  {
    if |path| < 4 then
      if |path| % 2 == 1 then TryColumns(B, path, visited, RowCols(B, path[|path| - 1].0))
      else TryRows(B, path, visited, ColRows(B, path[|path| - 1].1))
    else if Closes(path) then Some(path)
    else None
  }

  /** The horizontal branch of `dfs_loop`: try each candidate column in turn. */
  function TryColumns(B: seq<Cell>, path: seq<Cell>, visited: set<Cell>, cands: seq<nat>): Option<seq<Cell>>
    requires 1 <= |path| < 4
    decreases 4 - |path|, 0, |cands|
  {
    if cands == [] then None
    else
      var next := (path[|path| - 1].0, cands[0]);
      var r := if next !in visited then Dfs(B, path + [next], visited + {next}) else None;
      if r.Some? then r else TryColumns(B, path, visited, cands[1..])
  }

  /** The vertical branch of `dfs_loop`: try each candidate row in turn. */
  function TryRows(B: seq<Cell>, path: seq<Cell>, visited: set<Cell>, cands: seq<nat>): Option<seq<Cell>>
    requires 1 <= |path| < 4
    decreases 4 - |path|, 0, |cands|
  {
    if cands == [] then None
    else
      var next := (cands[0], path[|path| - 1].1);
      var r := if next !in visited then Dfs(B, path + [next], visited + {next}) else None;
      if r.Some? then r else TryRows(B, path, visited, cands[1..])
  }

  /** The horizontal search succeeds exactly when some unvisited candidate's branch does. */
  lemma {:induction false} TryColumnsSome(B: seq<Cell>, path: seq<Cell>, visited: set<Cell>, cands: seq<nat>)
    requires 1 <= |path| < 4
    ensures TryColumns(B, path, visited, cands).Some? <==>
      exists k :: 0 <= k < |cands| && (path[|path| - 1].0, cands[k]) !in visited
        && Dfs(B, path + [(path[|path| - 1].0, cands[k])], visited + {(path[|path| - 1].0, cands[k])}).Some?
    decreases |cands|
  {
    if cands != [] {
      TryColumnsSome(B, path, visited, cands[1..]);
      var i := path[|path| - 1].0;
      if exists k :: 0 <= k < |cands[1..]| && (i, cands[1..][k]) !in visited
          && Dfs(B, path + [(i, cands[1..][k])], visited + {(i, cands[1..][k])}).Some? {
        var k :| 0 <= k < |cands[1..]| && (i, cands[1..][k]) !in visited
          && Dfs(B, path + [(i, cands[1..][k])], visited + {(i, cands[1..][k])}).Some?;
        assert cands[k + 1] == cands[1..][k];
      }
      if exists k :: 0 <= k < |cands| && (i, cands[k]) !in visited
          && Dfs(B, path + [(i, cands[k])], visited + {(i, cands[k])}).Some? {
        var k :| 0 <= k < |cands| && (i, cands[k]) !in visited
          && Dfs(B, path + [(i, cands[k])], visited + {(i, cands[k])}).Some?;
        if k > 0 {
          assert cands[1..][k - 1] == cands[k];
        }
      }
    }
  }

  /** The vertical search succeeds exactly when some unvisited candidate's branch does. */
  lemma {:induction false} TryRowsSome(B: seq<Cell>, path: seq<Cell>, visited: set<Cell>, cands: seq<nat>)
    requires 1 <= |path| < 4
    ensures TryRows(B, path, visited, cands).Some? <==>
      exists k :: 0 <= k < |cands| && (cands[k], path[|path| - 1].1) !in visited
        && Dfs(B, path + [(cands[k], path[|path| - 1].1)], visited + {(cands[k], path[|path| - 1].1)}).Some?
    decreases |cands|
  {
    if cands != [] {
      TryRowsSome(B, path, visited, cands[1..]);
      var j := path[|path| - 1].1;
      if exists k :: 0 <= k < |cands[1..]| && (cands[1..][k], j) !in visited
          && Dfs(B, path + [(cands[1..][k], j)], visited + {(cands[1..][k], j)}).Some? {
        var k :| 0 <= k < |cands[1..]| && (cands[1..][k], j) !in visited
          && Dfs(B, path + [(cands[1..][k], j)], visited + {(cands[1..][k], j)}).Some?;
        assert cands[k + 1] == cands[1..][k];
      }
      if exists k :: 0 <= k < |cands| && (cands[k], j) !in visited
          && Dfs(B, path + [(cands[k], j)], visited + {(cands[k], j)}).Some? {
        var k :| 0 <= k < |cands| && (cands[k], j) !in visited
          && Dfs(B, path + [(cands[k], j)], visited + {(cands[k], j)}).Some?;
        if k > 0 {
          assert cands[1..][k - 1] == cands[k];
        }
      }
    }
  }

  /** The candidate whose branch the horizontal search returns. */
  lemma {:induction false} TryColumnsWitness(B: seq<Cell>, path: seq<Cell>, visited: set<Cell>, cands: seq<nat>) returns (k: nat)
    requires 1 <= |path| < 4 && TryColumns(B, path, visited, cands).Some?
    ensures k < |cands| && (path[|path| - 1].0, cands[k]) !in visited
    ensures TryColumns(B, path, visited, cands)
         == Dfs(B, path + [(path[|path| - 1].0, cands[k])], visited + {(path[|path| - 1].0, cands[k])})
    decreases |cands|
  {
    var next := (path[|path| - 1].0, cands[0]);
    if next !in visited && Dfs(B, path + [next], visited + {next}).Some? {
      k := 0;
    } else {
      k := TryColumnsWitness(B, path, visited, cands[1..]);
      k := k + 1;
    }
  }

  /** The candidate whose branch the vertical search returns. */
  lemma {:induction false} TryRowsWitness(B: seq<Cell>, path: seq<Cell>, visited: set<Cell>, cands: seq<nat>) returns (k: nat)
    requires 1 <= |path| < 4 && TryRows(B, path, visited, cands).Some?
    ensures k < |cands| && (cands[k], path[|path| - 1].1) !in visited
    ensures TryRows(B, path, visited, cands)
         == Dfs(B, path + [(cands[k], path[|path| - 1].1)], visited + {(cands[k], path[|path| - 1].1)})
    decreases |cands|
  {
    var next := (cands[0], path[|path| - 1].1);
    if next !in visited && Dfs(B, path + [next], visited + {next}).Some? {
      k := 0;
    } else {
      k := TryRowsWitness(B, path, visited, cands[1..]);
      k := k + 1;
    }
  }

  /**
    Three cells in: the search succeeds exactly when the row of the third
    cell offers the first cell's column, the rows differ and that cell is
    unvisited, and then it returns the path closed by that cell.
  */
  lemma SearchFromThree(B: seq<Cell>, p: seq<Cell>, vis: set<Cell>, cands: seq<nat>)
    requires |p| == 3
    ensures TryColumns(B, p, vis, cands).Some? <==>
      p[0].1 in cands && p[2].0 != p[0].0 && (p[2].0, p[0].1) !in vis
    ensures TryColumns(B, p, vis, cands).Some? ==> TryColumns(B, p, vis, cands).value == p + [(p[2].0, p[0].1)]
  {
    if TryColumns(B, p, vis, cands).Some? {
      var k := TryColumnsWitness(B, p, vis, cands);
    }
    if p[0].1 in cands && p[2].0 != p[0].0 && (p[2].0, p[0].1) !in vis {
      var k :| 0 <= k < |cands| && cands[k] == p[0].1;
      TryColumnsSome(B, p, vis, cands);
      assert Dfs(B, p + [(p[2].0, cands[k])], vis + {(p[2].0, cands[k])}).Some?;
    }
  }

  /** Row b closes a path (ei, ej), (ei, a), (b, a) back to column ej through basic cells. */
  predicate Closer(B: seq<Cell>, ei: nat, ej: nat, a: nat, b: nat) {
    b != ei && (b, a) in B && (b, ej) in B
  }

  /** The corners of a rectangle through the entering cell (ei, ej) whose other three corners are basic. */
  predicate Rectangle(B: seq<Cell>, ei: nat, ej: nat, a: nat, b: nat) {
    a != ej && (ei, a) in B && Closer(B, ei, ej, a, b)
  }

  /**
    Two cells in: a successful vertical search from the second cell has gone
    down to a candidate row b and closed the path along row b, back to the
    first cell's column.
  */
  lemma SearchFromTwo(B: seq<Cell>, p: seq<Cell>, vis: set<Cell>, cands: seq<nat>) returns (b: nat)
    requires |p| == 2 && TryRows(B, p, vis, cands).Some?
    ensures b in cands && (b, p[1].1) !in vis && b != p[0].0 && (b, p[0].1) in B
    ensures TryRows(B, p, vis, cands).value == p + [(b, p[1].1), (b, p[0].1)]
  {
    var k := TryRowsWitness(B, p, vis, cands);
    b := cands[k];
    var p3 := p + [(b, p[1].1)];
    var vis3 := vis + {(b, p[1].1)};
    assert Dfs(B, p3, vis3) == TryColumns(B, p3, vis3, RowCols(B, b));
    SearchFromThree(B, p3, vis3, RowCols(B, b));
    assert p3 + [(b, p[0].1)] == p + [(b, p[1].1), (b, p[0].1)];
  }

  /** Two cells in along a row: what the search returns is a rectangle closed by a basic row. */
  lemma SearchFromTwoSound(B: seq<Cell>, ei: nat, ej: nat, a: nat) returns (b: nat)
    requires a != ej && TryRows(B, [(ei, ej), (ei, a)], {(ei, ej), (ei, a)}, ColRows(B, a)).Some?
    ensures TryRows(B, [(ei, ej), (ei, a)], {(ei, ej), (ei, a)}, ColRows(B, a)).value == [(ei, ej), (ei, a), (b, a), (b, ej)]
    ensures Closer(B, ei, ej, a, b)
  {
    var p := [(ei, ej), (ei, a)];
    var vis := {(ei, ej), (ei, a)};
    var cands := ColRows(B, a);
    b := SearchFromTwo(B, p, vis, cands);
    assert p + [(b, a), (b, ej)] == [(ei, ej), (ei, a), (b, a), (b, ej)];
  }

  /** Two cells in along a row: the search succeeds whenever some basic row closes the rectangle. */
  lemma SearchFromTwoComplete(B: seq<Cell>, ei: nat, ej: nat, a: nat, b: nat)
    requires a != ej && Closer(B, ei, ej, a, b)
    ensures TryRows(B, [(ei, ej), (ei, a)], {(ei, ej), (ei, a)}, ColRows(B, a)).Some?
  {
    var p := [(ei, ej), (ei, a)];
    var vis := {(ei, ej), (ei, a)};
    var cands := ColRows(B, a);
    var k :| 0 <= k < |cands| && cands[k] == b;
    SearchFromThree(B, p + [(b, a)], vis + {(b, a)}, RowCols(B, b));
    assert Dfs(B, p + [(cands[k], a)], vis + {(cands[k], a)}).Some?;
    TryRowsSome(B, p, vis, cands);
  }

  /** The horizontal-first search of `find_loop`: from the entering cell along its row. */
  function Horizontal(B: seq<Cell>, ei: nat, ej: nat): Option<seq<Cell>> {
    TryColumns(B, [(ei, ej)], {(ei, ej)}, RowCols(B, ei))
  }

  /** The vertical-first search of `find_loop`: from the entering cell along its column. */
  function Vertical(B: seq<Cell>, ei: nat, ej: nat): Option<seq<Cell>> {
    TryRows(B, [(ei, ej)], {(ei, ej)}, ColRows(B, ej))
  }

  /** A loop found along the row is the rectangle (ei, ej), (ei, a), (b, a), (b, ej) with three basic corners. */
  lemma HorizontalSound(B: seq<Cell>, ei: nat, ej: nat) returns (a: nat, b: nat)
    requires Horizontal(B, ei, ej).Some?
    ensures Horizontal(B, ei, ej).value == [(ei, ej), (ei, a), (b, a), (b, ej)]
    ensures Rectangle(B, ei, ej, a, b)
  {
    var s := [(ei, ej)];
    var cands := RowCols(B, ei);
    var k := TryColumnsWitness(B, s, {(ei, ej)}, cands);
    a := cands[k];
    assert a in cands && a != ej;
    var p2 := [(ei, ej), (ei, a)];
    var v2 := {(ei, ej), (ei, a)};
    assert p2 == s + [(ei, a)] && v2 == {(ei, ej)} + {(ei, a)};
    assert Dfs(B, p2, v2) == TryRows(B, p2, v2, ColRows(B, a));
    b := SearchFromTwoSound(B, ei, ej, a);
  }

  /** Every rectangle through the entering cell with three basic corners makes the row search succeed. */
  lemma HorizontalComplete(B: seq<Cell>, ei: nat, ej: nat, a: nat, b: nat)
    requires Rectangle(B, ei, ej, a, b)
    ensures Horizontal(B, ei, ej).Some?
  {
    var s := [(ei, ej)];
    var cands := RowCols(B, ei);
    var k :| 0 <= k < |cands| && cands[k] == a;
    var p2 := [(ei, ej), (ei, a)];
    var v2 := {(ei, ej), (ei, a)};
    SearchFromTwoComplete(B, ei, ej, a, b);
    assert p2 == s + [(ei, a)] && v2 == {(ei, ej)} + {(ei, a)};
    assert Dfs(B, p2, v2) == TryRows(B, p2, v2, ColRows(B, a));
    TryColumnsPick(B, s, {(ei, ej)}, cands, k);
  }

  /** The horizontal search succeeds when the branch of one unvisited candidate does. */
  lemma TryColumnsPick(B: seq<Cell>, path: seq<Cell>, visited: set<Cell>, cands: seq<nat>, k: nat)
    requires 1 <= |path| < 4 && k < |cands| && (path[|path| - 1].0, cands[k]) !in visited
    requires Dfs(B, path + [(path[|path| - 1].0, cands[k])], visited + {(path[|path| - 1].0, cands[k])}).Some?
    ensures TryColumns(B, path, visited, cands).Some?
  {
    TryColumnsSome(B, path, visited, cands);
  }

  /**
    The search that starts along the column never closes: its second move is
    again vertical, so the only way back to the entering column is through
    the cell it has just visited.
  */
  lemma VerticalNever(B: seq<Cell>, ei: nat, ej: nat)
    ensures Vertical(B, ei, ej).None?
  {
    var s := [(ei, ej)];
    var cands := ColRows(B, ej);
    forall k | 0 <= k < |cands| && (cands[k], ej) !in {(ei, ej)}
      ensures Dfs(B, s + [(cands[k], ej)], {(ei, ej)} + {(cands[k], ej)}).None?
    {
      var p2 := s + [(cands[k], ej)];
      var v2 := {(ei, ej)} + {(cands[k], ej)};
      forall l | 0 <= l < |cands| && (cands[l], ej) !in v2
        ensures Dfs(B, p2 + [(cands[l], ej)], v2 + {(cands[l], ej)}).None?
      {
        var p3 := p2 + [(cands[l], ej)];
        SearchFromThree(B, p3, v2 + {(cands[l], ej)}, RowCols(B, cands[l]));
      }
      TryRowsSome(B, p2, v2, cands);
    }
    TryRowsSome(B, s, {(ei, ej)}, cands);
  }

  /** A finished search result: four cells that begin with the path and continue through basic cells. */
  predicate Grows(B: seq<Cell>, path: seq<Cell>, r: seq<Cell>) {
    |path| <= |r| == 4 && r[..|path|] == path && forall k :: |path| <= k < 4 ==> r[k] in B
  }

  /** Whatever `dfs_loop` returns extends its path to four cells, every added cell basic. */
  lemma DfsGrows(B: seq<Cell>, path: seq<Cell>, visited: set<Cell>)
    requires 1 <= |path| <= 4 && Dfs(B, path, visited).Some?
    ensures Grows(B, path, Dfs(B, path, visited).value)
    decreases 4 - |path|, 1, 0
  {
    if |path| < 4 {
      if |path| % 2 == 1 {
        ColumnsGrow(B, path, visited, RowCols(B, path[|path| - 1].0));
      } else {
        RowsGrow(B, path, visited, ColRows(B, path[|path| - 1].1));
      }
    }
  }

  /** The horizontal branch adds basic cells of the current row. */
  lemma ColumnsGrow(B: seq<Cell>, path: seq<Cell>, visited: set<Cell>, cands: seq<nat>)
    requires 1 <= |path| < 4 && TryColumns(B, path, visited, cands).Some?
    requires forall c :: c in cands ==> (path[|path| - 1].0, c) in B
    ensures Grows(B, path, TryColumns(B, path, visited, cands).value)
    decreases 4 - |path|, 0, |cands|
  {
    var next := (path[|path| - 1].0, cands[0]);
    if next !in visited && Dfs(B, path + [next], visited + {next}).Some? {
      DfsGrows(B, path + [next], visited + {next});
      var r := Dfs(B, path + [next], visited + {next}).value;
      assert r[..|path|] == r[..|path| + 1][..|path|];
      assert cands[0] in cands;
    } else {
      assert forall c :: c in cands[1..] ==> c in cands;
      ColumnsGrow(B, path, visited, cands[1..]);
    }
  }

  /** The vertical branch adds basic cells of the current column. */
  lemma RowsGrow(B: seq<Cell>, path: seq<Cell>, visited: set<Cell>, cands: seq<nat>)
    requires 1 <= |path| < 4 && TryRows(B, path, visited, cands).Some?
    requires forall c :: c in cands ==> (c, path[|path| - 1].1) in B
    ensures Grows(B, path, TryRows(B, path, visited, cands).value)
    decreases 4 - |path|, 0, |cands|
  {
    var next := (cands[0], path[|path| - 1].1);
    if next !in visited && Dfs(B, path + [next], visited + {next}).Some? {
      DfsGrows(B, path + [next], visited + {next});
      var r := Dfs(B, path + [next], visited + {next}).value;
      assert r[..|path|] == r[..|path| + 1][..|path|];
      assert cands[0] in cands;
    } else {
      assert forall c :: c in cands[1..] ==> c in cands;
      RowsGrow(B, path, visited, cands[1..]);
    }
  }

  /** Every odd position of the loop is a cell of the matrix. */
  predicate OddCellsIn(A: Matrix, loop: seq<Cell>) {
    forall k :: 0 <= k < |loop| && k % 2 == 1 ==> loop[k].0 < |A| && loop[k].1 < |A[loop[k].0]|
  }

  /**
    theta: the least allocation at the odd positions of the loop, folded with
    `min` from the first odd position on (the source starts from +infinity,
    which the first odd entry replaces).
  */
  function Theta(A: Matrix, loop: seq<Cell>): real
    requires |loop| >= 2 && OddCellsIn(A, loop)
  {
    ThetaFrom(A, loop, 3, A[loop[1].0][loop[1].1])
  }

  function ThetaFrom(A: Matrix, loop: seq<Cell>, idx: nat, acc: real): real
    requires OddCellsIn(A, loop) && idx % 2 == 1
    decreases |loop| - idx
  {
    if idx >= |loop| then acc
    else ThetaFrom(A, loop, idx + 2, Min(acc, A[loop[idx].0][loop[idx].1]))
  }

  /** The theta of a four-cell loop is the smaller of its two odd-position entries. */
  lemma ThetaOfFour(A: Matrix, loop: seq<Cell>)
    requires |loop| == 4 && OddCellsIn(A, loop)
    ensures Theta(A, loop) == Min(A[loop[1].0][loop[1].1], A[loop[3].0][loop[3].1])
  {
    var first := A[loop[1].0][loop[1].1];
    assert ThetaFrom(A, loop, 3, first) == ThetaFrom(A, loop, 5, Min(first, A[loop[3].0][loop[3].1]));
  }

  /** The search result starts at the entering cell and its other cells are basic, hence inside the matrix. */
  lemma SearchInside(A: Matrix, m: nat, n: nat, B: seq<Cell>, ei: nat, ej: nat, r: seq<Cell>)
    requires IsMatrix(A, m, n) && B == BasicVariables(A, m, n)
    requires Grows(B, [(ei, ej)], r)
    ensures |r| == 4 && OddCellsIn(A, r)
  {
    forall k | 0 <= k < 4 && k % 2 == 1
      ensures r[k].0 < |A| && r[k].1 < |A[r[k].0]|
    {
      var t :| 0 <= t < |B| && B[t] == r[k];
    }
  }

  /**
    `find_loop`: the row-first search, then the column-first one, over the
    basic cells of the allocation; a found loop comes with its theta.
  */
  function FindLoop(A: Matrix, m: nat, n: nat, ei: nat, ej: nat): Option<(seq<Cell>, real)>
    requires IsMatrix(A, m, n)
  {
    var B := BasicVariables(A, m, n);
    var h := Horizontal(B, ei, ej);
    if h.Some? then
      ColumnsGrow(B, [(ei, ej)], {(ei, ej)}, RowCols(B, ei));
      SearchInside(A, m, n, B, ei, ej, h.value);
      Some((h.value, Theta(A, h.value)))
    else
      var v := Vertical(B, ei, ej);
      if v.Some? then
        RowsGrow(B, [(ei, ej)], {(ei, ej)}, ColRows(B, ej));
        SearchInside(A, m, n, B, ei, ej, v.value);
        Some((v.value, Theta(A, v.value)))
      else None
  }

  /** Three corners of a rectangle through the entering cell hold positive allocations. */
  predicate Corners(A: Matrix, m: nat, n: nat, ei: nat, ej: nat, a: nat, b: nat)
    requires IsMatrix(A, m, n)
  {
    ei < m && ej < n && a < n && b < m && a != ej && b != ei
    && A[ei][a] > 0.0 && A[b][a] > 0.0 && A[b][ej] > 0.0
  }

  /** A loop that `find_loop` returns comes from the row-first search: a rectangle with three basic corners, and its theta. */
  lemma FindLoopHorizontal(A: Matrix, m: nat, n: nat, ei: nat, ej: nat) returns (a: nat, b: nat)
    requires IsMatrix(A, m, n) && FindLoop(A, m, n, ei, ej).Some?
    ensures FindLoop(A, m, n, ei, ej).value.0 == RectangleLoop(ei, ej, a, b)
    ensures Rectangle(BasicVariables(A, m, n), ei, ej, a, b)
    ensures OddCellsIn(A, RectangleLoop(ei, ej, a, b))
    ensures FindLoop(A, m, n, ei, ej).value.1 == Theta(A, RectangleLoop(ei, ej, a, b))
  {
    var B := BasicVariables(A, m, n);
    VerticalNever(B, ei, ej);
    a, b := HorizontalSound(B, ei, ej);
    ColumnsGrow(B, [(ei, ej)], {(ei, ej)}, RowCols(B, ei));
    SearchInside(A, m, n, B, ei, ej, RectangleLoop(ei, ej, a, b));
  }

  /**
    A loop that `find_loop` returns is the rectangle (ei, ej), (ei, a),
    (b, a), (b, ej) whose other three corners hold positive allocations, and
    its theta is the smaller of the two corners that lose.
  */
  lemma FindLoopRectangle(A: Matrix, m: nat, n: nat, ei: nat, ej: nat) returns (a: nat, b: nat)
    requires IsMatrix(A, m, n) && FindLoop(A, m, n, ei, ej).Some?
    ensures FindLoop(A, m, n, ei, ej).value.0 == [(ei, ej), (ei, a), (b, a), (b, ej)]
    ensures Corners(A, m, n, ei, ej, a, b)
    ensures FindLoop(A, m, n, ei, ej).value.1 == Min(A[ei][a], A[b][ej]) > 0.0
  {
    var B := BasicVariables(A, m, n);
    a, b := FindLoopHorizontal(A, m, n, ei, ej);
    ThetaOfFour(A, RectangleLoop(ei, ej, a, b));
    var t1 :| 0 <= t1 < |B| && B[t1] == (ei, a);
    var t2 :| 0 <= t2 < |B| && B[t2] == (b, a);
    var t3 :| 0 <= t3 < |B| && B[t3] == (b, ej);
  }

  /** Every cell of a loop that `find_loop` returns lies inside the matrix. */
  lemma FindLoopInside(A: Matrix, m: nat, n: nat, ei: nat, ej: nat)
    requires IsMatrix(A, m, n) && FindLoop(A, m, n, ei, ej).Some?
    ensures CellsInside(FindLoop(A, m, n, ei, ej).value.0, m, n)
  {
    var a, b := FindLoopRectangle(A, m, n, ei, ej);
    CornersInside(A, m, n, ei, ej, a, b);
  }

  /** The four corners of a rectangle with three positive corners lie inside the matrix. */
  lemma CornersInside(A: Matrix, m: nat, n: nat, ei: nat, ej: nat, a: nat, b: nat)
    requires IsMatrix(A, m, n) && Corners(A, m, n, ei, ej, a, b)
    ensures CellsInside([(ei, ej), (ei, a), (b, a), (b, ej)], m, n)
  {
  }

  /** `find_loop` finds nothing exactly when no such rectangle exists. */
  lemma FindLoopNone(A: Matrix, m: nat, n: nat, ei: nat, ej: nat)
    requires IsMatrix(A, m, n)
    ensures FindLoop(A, m, n, ei, ej).None? <==> forall a: nat, b: nat :: !Corners(A, m, n, ei, ej, a, b)
  {
    var B := BasicVariables(A, m, n);
    VerticalNever(B, ei, ej);
    if FindLoop(A, m, n, ei, ej).Some? {
      var a, b := FindLoopRectangle(A, m, n, ei, ej);
    }
    forall a: nat, b: nat | Corners(A, m, n, ei, ej, a, b)
      ensures FindLoop(A, m, n, ei, ej).Some?
    {
      HorizontalComplete(B, ei, ej, a, b);
    }
  }

  // ---------------------------------------------------------------------------
  // The update along the loop and the cleanup

  /** Every cell of the loop lies inside an m-by-n matrix. */
  predicate CellsInside(loop: seq<Cell>, m: nat, n: nat) {
    forall k :: 0 <= k < |loop| ==> loop[k].0 < m && loop[k].1 < n
  }

  /** The allocation after theta has been added at the even positions of the loop and taken at the odd ones, in order. */
  function Shifted(A: Matrix, loop: seq<Cell>, theta: real, m: nat, n: nat): (R: Matrix)
    requires IsMatrix(A, m, n) && CellsInside(loop, m, n)
    ensures IsMatrix(R, m, n)
    decreases |loop|
  {
    if loop == [] then A
    else
      var R' := Shifted(A, loop[..|loop| - 1], theta, m, n);
      var (i, j) := loop[|loop| - 1];
      SetCell(R', i, j, R'[i][j] + (if (|loop| - 1) % 2 == 0 then theta else -theta))
  }

  /** The in-place update of `modi_improvement`, one loop cell at a time. */
  method ShiftAlongLoop(A: Matrix, loop: seq<Cell>, theta: real, m: nat, n: nat) returns (R: Matrix)
    requires IsMatrix(A, m, n) && CellsInside(loop, m, n)
    ensures R == Shifted(A, loop, theta, m, n)
  {
    R := A;
    for idx := 0 to |loop|
      invariant R == Shifted(A, loop[..idx], theta, m, n)
    {
      var (i, j) := loop[idx];
      assert loop[..idx + 1][..idx] == loop[..idx];
      if idx % 2 == 0 {
        R := SetCell(R, i, j, R[i][j] + theta);
      } else {
        R := SetCell(R, i, j, R[i][j] - theta);
      }
    }
    assert loop[..|loop|] == loop;
  }

  /** Theta added at (i, j1) and taken at (i, j2) of the same row. */
  function RowPair(M: Matrix, m: nat, n: nat, i: nat, j1: nat, j2: nat, t: real): Matrix
    requires IsMatrix(M, m, n) && i < m && j1 < n && j2 < n
  {
    var M1 := SetCell(M, i, j1, M[i][j1] + t);
    SetCell(M1, i, j2, M1[i][j2] - t)
  }

  /** A row pair keeps every row sum, raises column j1 by t, lowers column j2 by t and leaves other columns alone. */
  lemma RowPairSums(M: Matrix, m: nat, n: nat, i: nat, j1: nat, j2: nat, t: real)
    requires IsMatrix(M, m, n) && i < m && j1 < n && j2 < n && j1 != j2
    ensures IsMatrix(RowPair(M, m, n, i, j1, j2, t), m, n)
    ensures forall r :: 0 <= r < m ==> Sum(RowPair(M, m, n, i, j1, j2, t)[r]) == Sum(M[r])
    ensures Sum(Column(RowPair(M, m, n, i, j1, j2, t), j1)) == Sum(Column(M, j1)) + t
    ensures Sum(Column(RowPair(M, m, n, i, j1, j2, t), j2)) == Sum(Column(M, j2)) - t
    ensures forall c :: 0 <= c < n && c != j1 && c != j2 ==> Column(RowPair(M, m, n, i, j1, j2, t), c) == Column(M, c)
  {
    var M1 := SetCell(M, i, j1, M[i][j1] + t);
    SetCellSums(M, m, n, i, j1, M[i][j1] + t);
    SetCellSums(M1, m, n, i, j2, M1[i][j2] - t);
  }

  /** The rectangle (ei, ej), (ei, a), (b, a), (b, ej). */
  function RectangleLoop(ei: nat, ej: nat, a: nat, b: nat): seq<Cell> {
    [(ei, ej), (ei, a), (b, a), (b, ej)]
  }

  /** The update along the first two cells of a row is a row pair. */
  lemma ShiftedRowPair(A: Matrix, m: nat, n: nat, i: nat, j1: nat, j2: nat, theta: real)
    requires IsMatrix(A, m, n) && i < m && j1 < n && j2 < n
    ensures CellsInside([(i, j1), (i, j2)], m, n)
    ensures Shifted(A, [(i, j1), (i, j2)], theta, m, n) == RowPair(A, m, n, i, j1, j2, theta)
  {
    var L1: seq<Cell> := [(i, j1)];
    var L2: seq<Cell> := [(i, j1), (i, j2)];
    assert L1[..0] == [] && L2[..1] == L1;
    assert Shifted(A, L1, theta, m, n) == SetCell(A, i, j1, A[i][j1] + theta);
  }

  /** On a rectangle the update is two row pairs: +theta, -theta in row ei, then +theta, -theta in row b. */
  lemma ShiftedRectangle(A: Matrix, m: nat, n: nat, ei: nat, ej: nat, a: nat, b: nat, theta: real)
    requires IsMatrix(A, m, n) && ei < m && b < m && ej < n && a < n && ei != b && a != ej
    ensures CellsInside(RectangleLoop(ei, ej, a, b), m, n)
    ensures Shifted(A, RectangleLoop(ei, ej, a, b), theta, m, n)
         == RowPair(RowPair(A, m, n, ei, ej, a, theta), m, n, b, a, ej, theta)
  {
    var L2: seq<Cell> := [(ei, ej), (ei, a)];
    var L3: seq<Cell> := [(ei, ej), (ei, a), (b, a)];
    var L: seq<Cell> := RectangleLoop(ei, ej, a, b);
    assert L3[..2] == L2 && L[..3] == L3;
    ShiftedRowPair(A, m, n, ei, ej, a, theta);
    var R2 := RowPair(A, m, n, ei, ej, a, theta);
    assert IsMatrix(R2, m, n);
    var R3 := SetCell(R2, b, a, R2[b][a] + theta);
    assert Shifted(A, L3, theta, m, n) == R3;
    assert Shifted(A, L, theta, m, n) == SetCell(R3, b, ej, R3[b][ej] - theta);
  }

  /**
    The update along a rectangle keeps every row sum and every column sum
    (each row and each column it touches gains theta once and loses it once).
  */
  lemma ShiftKeepsSums(A: Matrix, m: nat, n: nat, ei: nat, ej: nat, a: nat, b: nat, theta: real)
    requires IsMatrix(A, m, n) && ei < m && b < m && ej < n && a < n && ei != b && a != ej
    ensures CellsInside(RectangleLoop(ei, ej, a, b), m, n)
    ensures forall r :: 0 <= r < m ==> Sum(Shifted(A, RectangleLoop(ei, ej, a, b), theta, m, n)[r]) == Sum(A[r])
    ensures forall c :: 0 <= c < n ==> Sum(Column(Shifted(A, RectangleLoop(ei, ej, a, b), theta, m, n), c)) == Sum(Column(A, c))
  {
    ShiftedRectangle(A, m, n, ei, ej, a, b, theta);
    var R2 := RowPair(A, m, n, ei, ej, a, theta);
    RowPairSums(A, m, n, ei, ej, a, theta);
    RowPairSums(R2, m, n, b, a, ej, theta);
  }

  /**
    With theta the smaller of the two losing corners, the update keeps every
    cell non-negative and empties at least one losing corner.
  */
  lemma ShiftKeepsNonNegative(A: Matrix, m: nat, n: nat, ei: nat, ej: nat, a: nat, b: nat)
    requires IsMatrix(A, m, n) && NonNegative(A) && ei < m && b < m && ej < n && a < n && ei != b && a != ej
    ensures CellsInside(RectangleLoop(ei, ej, a, b), m, n)
    ensures NonNegative(Shifted(A, RectangleLoop(ei, ej, a, b), Min(A[ei][a], A[b][ej]), m, n))
    ensures Shifted(A, RectangleLoop(ei, ej, a, b), Min(A[ei][a], A[b][ej]), m, n)[ei][a] == 0.0
         || Shifted(A, RectangleLoop(ei, ej, a, b), Min(A[ei][a], A[b][ej]), m, n)[b][ej] == 0.0
  {
    var theta := Min(A[ei][a], A[b][ej]);
    ShiftedRectangle(A, m, n, ei, ej, a, b, theta);
  }

  /**
    The update along a rectangle changes the total cost by theta times
    c(ei, ej) - c(ei, a) + c(b, a) - c(b, ej); when the potentials fit the
    three basic corners, that is theta times the entering cell's opportunity cost.
  */
  lemma ShiftCost(A: Matrix, C: Matrix, m: nat, n: nat, ei: nat, ej: nat, a: nat, b: nat, theta: real)
    requires IsMatrix(A, m, n) && IsMatrix(C, m, n) && ei < m && b < m && ej < n && a < n && ei != b && a != ej
    ensures CellsInside(RectangleLoop(ei, ej, a, b), m, n)
    ensures TotalCost(Shifted(A, RectangleLoop(ei, ej, a, b), theta, m, n), C)
         == TotalCost(A, C) + theta * (C[ei][ej] - C[ei][a] + C[b][a] - C[b][ej])
  {
    ShiftedRectangle(A, m, n, ei, ej, a, b, theta);
    var R2 := RowPair(A, m, n, ei, ej, a, theta);
    RowPairCost(A, C, m, n, ei, ej, a, theta);
    RowPairCost(R2, C, m, n, b, a, ej, theta);
  }

  /** A row pair changes the total cost by t times the cost difference of its two cells. */
  lemma RowPairCost(M: Matrix, C: Matrix, m: nat, n: nat, i: nat, j1: nat, j2: nat, t: real)
    requires IsMatrix(M, m, n) && IsMatrix(C, m, n) && i < m && j1 < n && j2 < n && j1 != j2
    ensures TotalCost(RowPair(M, m, n, i, j1, j2, t), C) == TotalCost(M, C) + t * (C[i][j1] - C[i][j2])
  {
    var M1 := SetCell(M, i, j1, M[i][j1] + t);
    var M2 := SetCell(M1, i, j2, M1[i][j2] + -t);
    assert M2 == RowPair(M, m, n, i, j1, j2, t) by {
      assert M1[i][j2] + -t == M1[i][j2] - t;
    }
    TotalCostSetCell(M, C, i, j1, t);
    TotalCostSetCell(M1, C, i, j2, -t);
    Distribute(t, C[i][j1], C[i][j2]);
  }

  lemma Distribute(t: real, a: real, b: real)
    ensures t * a + (-t) * b == t * (a - b)
  {
  }

  /** When u + v = c on the three basic corners, the rectangle's cost change per unit is the opportunity cost. */
  lemma RectangleGainIsOpportunity(C: Matrix, u: seq<real>, v: seq<real>, ei: nat, ej: nat, a: nat, b: nat)
    requires ei < |C| && b < |C| && ej < |C[ei]| && a < |C[ei]| && a < |C[b]| && ej < |C[b]|
    requires ei < |u| && b < |u| && ej < |v| && a < |v|
    requires u[ei] + v[a] == C[ei][a] && u[b] + v[a] == C[b][a] && u[b] + v[ej] == C[b][ej]
    ensures C[ei][ej] - C[ei][a] + C[b][a] - C[b][ej] == C[ei][ej] - u[ei] - v[ej]
  {
  }

  /** `allocation[allocation < 1e-10] = 0`. */
  function Cleanup(A: Matrix, m: nat, n: nat): (R: Matrix)
    requires IsMatrix(A, m, n)
    ensures IsMatrix(R, m, n) && NonNegative(R)
    ensures forall i, j :: 0 <= i < m && 0 <= j < n ==> R[i][j] == (if A[i][j] < Tol then 0.0 else A[i][j])
  {
    seq(m, i requires 0 <= i < m => seq(n, j requires 0 <= j < n => if A[i][j] < Tol then 0.0 else A[i][j]))
  }

  /** Lowering amounts at non-negative costs does not raise their cost. */
  lemma {:induction false} DotMonotone(a': seq<real>, a: seq<real>, c: seq<real>)
    requires |a'| == |a| == |c| && NonNegVector(c)
    requires forall k :: 0 <= k < |a| ==> a'[k] <= a[k]
    ensures Dot(a', c) <= Dot(a, c)
  {
    if |a| > 0 {
      assert (a[0] - a'[0]) * c[0] >= 0.0;
      DotMonotone(a'[1..], a[1..], c[1..]);
    }
  }

  /** Lowering cells at non-negative costs does not raise the total cost. */
  lemma {:induction false} TotalCostMonotone(A': Matrix, A: Matrix, C: Matrix)
    requires |A'| == |A| == |C| && forall i :: 0 <= i < |A| ==> |A'[i]| == |A[i]| == |C[i]|
    requires NonNegative(C)
    requires forall i, j :: 0 <= i < |A| && 0 <= j < |A[i]| ==> A'[i][j] <= A[i][j]
    ensures TotalCost(A', C) <= TotalCost(A, C)
  {
    if |A| > 0 {
      DotMonotone(A'[0], A[0], C[0]);
      TotalCostMonotone(A'[1..], A[1..], C[1..]);
    }
  }

  /** On a non-negative allocation at non-negative costs the cleanup never raises the total cost. */
  lemma CleanupLowersCost(A: Matrix, C: Matrix, m: nat, n: nat)
    requires IsMatrix(A, m, n) && IsMatrix(C, m, n) && NonNegative(A) && NonNegative(C)
    ensures TotalCost(Cleanup(A, m, n), C) <= TotalCost(A, C)
  {
    TotalCostMonotone(Cleanup(A, m, n), A, C);
  }

  /** Lowering each of k entries by less than Tol lowers their sum by less than k times Tol. */
  lemma {:induction false} SumDrift(s': seq<real>, s: seq<real>)
    requires |s'| == |s| && forall k :: 0 <= k < |s| ==> s'[k] <= s[k] < s'[k] + Tol
    ensures Sum(s') <= Sum(s) && (|s| > 0 ==> Sum(s) < Sum(s') + (|s| as real) * Tol)
  {
    if |s| > 0 {
      SumDrift(s'[1..], s[1..]);
    }
  }

  /**
    On a non-negative allocation the cleanup lowers each row sum by less than
    n times 1e-10 and each column sum by less than m times 1e-10; an entry of
    exactly epsilon survives it.
  */
  lemma CleanupDrift(A: Matrix, m: nat, n: nat)
    requires IsMatrix(A, m, n) && NonNegative(A)
    ensures forall i :: 0 <= i < m ==> Sum(Cleanup(A, m, n)[i]) <= Sum(A[i]) < Sum(Cleanup(A, m, n)[i]) + (n as real) * Tol || n == 0
    ensures forall j :: 0 <= j < n ==>
      Sum(Column(Cleanup(A, m, n), j)) <= Sum(Column(A, j)) < Sum(Column(Cleanup(A, m, n), j)) + (m as real) * Tol || m == 0
    ensures forall i, j :: 0 <= i < m && 0 <= j < n && A[i][j] == Epsilon ==> Cleanup(A, m, n)[i][j] == Epsilon
  {
    var R := Cleanup(A, m, n);
    forall i | 0 <= i < m
      ensures Sum(R[i]) <= Sum(A[i]) < Sum(R[i]) + (n as real) * Tol || n == 0
    {
      SumDrift(R[i], A[i]);
    }
    forall j | 0 <= j < n
      ensures Sum(Column(R, j)) <= Sum(Column(A, j)) < Sum(Column(R, j)) + (m as real) * Tol || m == 0
    {
      SumDrift(Column(R, j), Column(A, j));
    }
  }

  // ---------------------------------------------------------------------------
  // Potentials

  /** How many entries are still unknown (numpy's nan). */
  function Unknown(s: seq<Option<real>>): nat {
    if s == [] then 0 else (if s[0].None? then 1 else 0) + Unknown(s[1..])
  }

  /** Filling in an unknown entry leaves one fewer unknown. */
  lemma {:induction false} UnknownFill(s: seq<Option<real>>, k: nat, x: real)
    requires k < |s| && s[k].None?
    ensures Unknown(s[k := Some(x)]) == Unknown(s) - 1
  {
    if k == 0 {
      assert s[k := Some(x)][1..] == s[1..];
    } else {
      assert s[k := Some(x)][1..] == s[1..][k - 1 := Some(x)];
      UnknownFill(s[1..], k - 1, x);
    }
  }

  /** Each known potential other than u[0] fits the cost of a basic cell whose other potential is known. */
  predicate Fitted(A: Matrix, costs: Matrix, m: nat, n: nat, u: seq<Option<real>>, v: seq<Option<real>>)
    requires IsMatrix(A, m, n) && IsMatrix(costs, m, n) && |u| == m && |v| == n
  {
    && (forall i :: 0 < i < m && u[i].Some? ==>
          exists j :: 0 <= j < n && A[i][j] > 0.0 && v[j].Some? && u[i].value + v[j].value == costs[i][j])
    && (forall j :: 0 <= j < n && v[j].Some? ==>
          exists i :: 0 <= i < m && A[i][j] > 0.0 && u[i].Some? && u[i].value + v[j].value == costs[i][j])
  }

  /**
    Every known potential other than u[0] came from a basic cell: uFrom[i] is
    the column whose v filled u[i] and vFrom[j] the row whose u filled v[j],
    and the two fit that cell's cost.
  */
  predicate Derived(A: Matrix, costs: Matrix, m: nat, n: nat, u: seq<Option<real>>, v: seq<Option<real>>,
                    uFrom: seq<nat>, vFrom: seq<nat>)
    requires IsMatrix(A, m, n) && IsMatrix(costs, m, n)
  {
    && |u| == m && |v| == n && |uFrom| == m && |vFrom| == n
    && (forall i :: 0 < i < m && u[i].Some? ==>
          uFrom[i] < n && A[i][uFrom[i]] > 0.0 && v[uFrom[i]].Some?
          && u[i].value + v[uFrom[i]].value == costs[i][uFrom[i]])
    && (forall j :: 0 <= j < n && v[j].Some? ==>
          vFrom[j] < m && A[vFrom[j]][j] > 0.0 && u[vFrom[j]].Some?
          && u[vFrom[j]].value + v[j].value == costs[vFrom[j]][j])
  }

  /** Filling v[j] from a known u[i] across a basic cell keeps every potential derived. */
  lemma FillColumn(A: Matrix, costs: Matrix, m: nat, n: nat, u: seq<Option<real>>, v: seq<Option<real>>,
                   uFrom: seq<nat>, vFrom: seq<nat>, i: nat, j: nat)
    requires IsMatrix(A, m, n) && IsMatrix(costs, m, n) && Derived(A, costs, m, n, u, v, uFrom, vFrom)
    requires i < m && j < n && A[i][j] > 0.0 && u[i].Some? && v[j].None?
    ensures Derived(A, costs, m, n, u, v[j := Some(costs[i][j] - u[i].value)], uFrom, vFrom[j := i])
  {
    var v' := v[j := Some(costs[i][j] - u[i].value)];
    forall r | 0 < r < m && u[r].Some?
      ensures uFrom[r] < n && A[r][uFrom[r]] > 0.0 && v'[uFrom[r]].Some?
          && u[r].value + v'[uFrom[r]].value == costs[r][uFrom[r]]
    {
      assert uFrom[r] != j;
    }
  }

  /** Filling u[i] from a known v[j] across a basic cell keeps every potential derived. */
  lemma FillRow(A: Matrix, costs: Matrix, m: nat, n: nat, u: seq<Option<real>>, v: seq<Option<real>>,
                uFrom: seq<nat>, vFrom: seq<nat>, i: nat, j: nat)
    requires IsMatrix(A, m, n) && IsMatrix(costs, m, n) && Derived(A, costs, m, n, u, v, uFrom, vFrom)
    requires i < m && j < n && A[i][j] > 0.0 && u[i].None? && v[j].Some?
    ensures Derived(A, costs, m, n, u[i := Some(costs[i][j] - v[j].value)], v, uFrom[i := j], vFrom)
  {
    var u' := u[i := Some(costs[i][j] - v[j].value)];
    forall c | 0 <= c < n && v[c].Some?
      ensures vFrom[c] < m && A[vFrom[c]][c] > 0.0 && u'[vFrom[c]].Some?
          && u'[vFrom[c]].value + v[c].value == costs[vFrom[c]][c]
    {
      assert vFrom[c] != i;
    }
  }

  /** The witnesses of derived potentials, stated without the bookkeeping. */
  lemma DerivedWitnesses(A: Matrix, costs: Matrix, m: nat, n: nat, u: seq<Option<real>>, v: seq<Option<real>>,
                         uFrom: seq<nat>, vFrom: seq<nat>)
    requires IsMatrix(A, m, n) && IsMatrix(costs, m, n) && Derived(A, costs, m, n, u, v, uFrom, vFrom)
    ensures Fitted(A, costs, m, n, u, v)
  {
    forall i | 0 < i < m && u[i].Some?
      ensures exists j :: 0 <= j < n && A[i][j] > 0.0 && v[j].Some? && u[i].value + v[j].value == costs[i][j]
    {
      var j := uFrom[i];
    }
    forall j | 0 <= j < n && v[j].Some?
      ensures exists i :: 0 <= i < m && A[i][j] > 0.0 && u[i].Some? && u[i].value + v[j].value == costs[i][j]
    {
      var i := vFrom[j];
    }
  }

  /** A pass that filled nothing leaves every positive cell with both potentials known or neither. */
  lemma BasicClosure(A: Matrix, m: nat, n: nat, basic: seq<Cell>, u: seq<Option<real>>, v: seq<Option<real>>)
    requires IsMatrix(A, m, n) && basic == BasicVariables(A, m, n) && |u| == m && |v| == n
    requires forall t :: 0 <= t < |basic| ==> (u[basic[t].0].Some? <==> v[basic[t].1].Some?)
    ensures forall i, j :: 0 <= i < m && 0 <= j < n && A[i][j] > 0.0 ==> (u[i].Some? <==> v[j].Some?)
  {
    forall i, j | 0 <= i < m && 0 <= j < n && A[i][j] > 0.0
      ensures u[i].Some? <==> v[j].Some?
    {
      var t :| 0 <= t < |basic| && basic[t] == (i, j);
    }
  }

  /** Every listed cell lies inside the matrix and holds a positive allocation. */
  predicate PositiveList(A: Matrix, m: nat, n: nat, basic: seq<Cell>)
    requires IsMatrix(A, m, n)
  {
    forall t :: 0 <= t < |basic| ==> basic[t].0 < m && basic[t].1 < n && A[basic[t].0][basic[t].1] > 0.0
  }

  /** The first k listed cells have both or neither of their potentials known. */
  predicate Matched(basic: seq<Cell>, u: seq<Option<real>>, v: seq<Option<real>>, k: nat) {
    forall t :: 0 <= t < k && t < |basic| && basic[t].0 < |u| && basic[t].1 < |v| ==>
      (u[basic[t].0].Some? <==> v[basic[t].1].Some?)
  }

  /** A matched prefix extends over one more cell with both or neither potential known. */
  lemma MatchedNext(basic: seq<Cell>, u: seq<Option<real>>, v: seq<Option<real>>, k: nat)
    requires Matched(basic, u, v, k) && k < |basic| && basic[k].0 < |u| && basic[k].1 < |v|
    requires u[basic[k].0].Some? <==> v[basic[k].1].Some?
    ensures Matched(basic, u, v, k + 1)
  {
  }

  /** Known entries stay known with their values. */
  predicate KeepsKnown(s: seq<Option<real>>, r: seq<Option<real>>) {
    |r| == |s| && forall k :: 0 <= k < |s| && s[k].Some? ==> r[k] == s[k]
  }

  /**
    One basic cell (i, j) of a pass, as a value: v[j] from a known u[i], or
    u[i] from a known v[j]; otherwise nothing changes. The flag says whether
    an entry was filled. Afterwards the cell has both or neither of its
    potentials known, known entries keep their values, and a fill leaves one
    fewer unknown.
  */
  function FillStep(costs: Matrix, i: nat, j: nat, u: seq<Option<real>>, v: seq<Option<real>>)
    : (r: (seq<Option<real>>, seq<Option<real>>, bool))
    requires i < |u| && j < |v| && i < |costs| && j < |costs[i]|
    ensures KeepsKnown(u, r.0) && KeepsKnown(v, r.1)
    ensures r.0[i].Some? <==> r.1[j].Some?
    ensures Unknown(r.0) + Unknown(r.1) + (if r.2 then 1 else 0) <= Unknown(u) + Unknown(v)
    ensures !r.2 ==> r.0 == u && r.1 == v
  {
    if u[i].Some? && v[j].None? then
      UnknownFill(v, j, costs[i][j] - u[i].value);
      (u, v[j := Some(costs[i][j] - u[i].value)], true)
    else if u[i].None? && v[j].Some? then
      UnknownFill(u, i, costs[i][j] - v[j].value);
      (u[i := Some(costs[i][j] - v[j].value)], v, true)
    else
      (u, v, false)
  }

  /**
    The first k cells of one pass over the basic cells, in list order, as a
    value, with the flag `changed`. Known entries keep their values, a pass
    that changed something leaves fewer unknowns, and one that changed
    nothing has seen each of those cells with both or neither potential known.
  */
  function FillSweep(costs: Matrix, m: nat, n: nat, basic: seq<Cell>, u: seq<Option<real>>, v: seq<Option<real>>, k: nat)
    : (r: (seq<Option<real>>, seq<Option<real>>, bool))
    requires IsMatrix(costs, m, n) && |u| == m && |v| == n && k <= |basic| && CellsInside(basic, m, n)
    ensures KeepsKnown(u, r.0) && KeepsKnown(v, r.1)
    ensures Unknown(r.0) + Unknown(r.1) + (if r.2 then 1 else 0) <= Unknown(u) + Unknown(v)
    ensures !r.2 ==> r.0 == u && r.1 == v && Matched(basic, u, v, k)
    decreases k
  {
    if k == 0 then (u, v, false)
    else
      var p := FillSweep(costs, m, n, basic, u, v, k - 1);
      var s := FillStep(costs, basic[k - 1].0, basic[k - 1].1, p.0, p.1);
      (s.0, s.1, p.2 || s.2)
  }

  /**
    The fixpoint loop of `modi_improvement` from given potentials: passes
    until one changes nothing. Known entries keep their values, and at the
    end every basic cell has both or neither of its potentials known.
  */
  function PotentialsFrom(costs: Matrix, m: nat, n: nat, basic: seq<Cell>, u: seq<Option<real>>, v: seq<Option<real>>)
    : (r: (seq<Option<real>>, seq<Option<real>>))
    requires IsMatrix(costs, m, n) && |u| == m && |v| == n && CellsInside(basic, m, n)
    ensures KeepsKnown(u, r.0) && KeepsKnown(v, r.1)
    ensures Matched(basic, r.0, r.1, |basic|)
    decreases Unknown(u) + Unknown(v)
  {
    var s := FillSweep(costs, m, n, basic, u, v, |basic|);
    if s.2 then PotentialsFrom(costs, m, n, basic, s.0, s.1) else (s.0, s.1)
  }

  /** The potentials `modi_improvement` computes for an allocation: u[0] = 0 and the fixpoint from there. */
  function Potentials(A: Matrix, costs: Matrix, m: nat, n: nat): (r: (seq<Option<real>>, seq<Option<real>>))
    requires IsMatrix(A, m, n) && IsMatrix(costs, m, n) && m >= 1
    ensures |r.0| == m && |r.1| == n && r.0[0] == Some(0.0)
  {
    PotentialsFrom(costs, m, n, BasicVariables(A, m, n), seq(m, i => None)[0 := Some(0.0)], seq(n, j => None))
  }

  /**
    One pass of the fixpoint loop over the basic cells in row-major order:
    fill v[j] from a known u[i], or u[i] from a known v[j], in place. The
    result is `FillSweep` over every basic cell, and each potential stays
    derived from a basic cell.
  */
  method FillPass(A: Matrix, costs: Matrix, m: nat, n: nat, basic: seq<Cell>, u0: seq<Option<real>>, v0: seq<Option<real>>,
                  ghost uFrom0: seq<nat>, ghost vFrom0: seq<nat>)
    returns (u: seq<Option<real>>, v: seq<Option<real>>, changed: bool, ghost uFrom: seq<nat>, ghost vFrom: seq<nat>)
    requires IsMatrix(A, m, n) && IsMatrix(costs, m, n) && PositiveList(A, m, n, basic)
    requires m >= 1 && Derived(A, costs, m, n, u0, v0, uFrom0, vFrom0) && u0[0] == Some(0.0)
    ensures Derived(A, costs, m, n, u, v, uFrom, vFrom) && u[0] == Some(0.0)
    ensures CellsInside(basic, m, n) && (u, v, changed) == FillSweep(costs, m, n, basic, u0, v0, |basic|)
    ensures !changed ==> u == u0 && v == v0
  {
    u, v, uFrom, vFrom := u0, v0, uFrom0, vFrom0;
    changed := false;
    for k := 0 to |basic|
      invariant Derived(A, costs, m, n, u, v, uFrom, vFrom) && u[0] == Some(0.0)
      invariant (u, v, changed) == FillSweep(costs, m, n, basic, u0, v0, k)
    {
      ghost var step := FillStep(costs, basic[k].0, basic[k].1, u, v);
      assert FillSweep(costs, m, n, basic, u0, v0, k + 1) == (step.0, step.1, changed || step.2);
      var filled;
      u, v, filled, uFrom, vFrom := FillCell(A, costs, m, n, basic[k].0, basic[k].1, u, v, uFrom, vFrom);
      changed := changed || filled;
    }
  }

  /**
    One cell of a pass: fill v[j] from a known u[i], or u[i] from a known
    v[j]; otherwise change nothing. The potentials stay derived.
  */
  method FillCell(A: Matrix, costs: Matrix, m: nat, n: nat, i: nat, j: nat, u0: seq<Option<real>>, v0: seq<Option<real>>,
                  ghost uFrom0: seq<nat>, ghost vFrom0: seq<nat>)
    returns (u: seq<Option<real>>, v: seq<Option<real>>, filled: bool, ghost uFrom: seq<nat>, ghost vFrom: seq<nat>)
    requires IsMatrix(A, m, n) && IsMatrix(costs, m, n) && i < m && j < n && A[i][j] > 0.0
    requires m >= 1 && Derived(A, costs, m, n, u0, v0, uFrom0, vFrom0) && u0[0] == Some(0.0)
    ensures Derived(A, costs, m, n, u, v, uFrom, vFrom) && u[0] == Some(0.0)
    ensures u0[i].Some? && v0[j].None? ==> filled && u == u0 && v == v0[j := Some(costs[i][j] - u0[i].value)]
    ensures u0[i].None? && v0[j].Some? ==> filled && v == v0 && u == u0[i := Some(costs[i][j] - v0[j].value)]
    ensures (u0[i].Some? <==> v0[j].Some?) ==> !filled && u == u0 && v == v0
    ensures (u, v, filled) == FillStep(costs, i, j, u0, v0)
  {
    if u0[i].Some? && v0[j].None? {
      u, uFrom := u0, uFrom0;
      v, vFrom := FillFromRow(A, costs, m, n, i, j, u0, v0, uFrom0, vFrom0);
      filled := true;
    } else if u0[i].None? && v0[j].Some? {
      v, vFrom := v0, vFrom0;
      u, uFrom := FillFromColumn(A, costs, m, n, i, j, u0, v0, uFrom0, vFrom0);
      filled := true;
    } else {
      u, v, uFrom, vFrom, filled := u0, v0, uFrom0, vFrom0, false;
    }
  }

  /** Fill v[j] from the known u[i] across the basic cell (i, j): v[j] = c[i][j] - u[i], still derived. */
  method FillFromRow(A: Matrix, costs: Matrix, m: nat, n: nat, i: nat, j: nat, u0: seq<Option<real>>, v0: seq<Option<real>>,
                     ghost uFrom0: seq<nat>, ghost vFrom0: seq<nat>)
    returns (v: seq<Option<real>>, ghost vFrom: seq<nat>)
    requires IsMatrix(A, m, n) && IsMatrix(costs, m, n) && i < m && j < n && A[i][j] > 0.0
    requires Derived(A, costs, m, n, u0, v0, uFrom0, vFrom0) && u0[i].Some? && v0[j].None?
    ensures v == v0[j := Some(costs[i][j] - u0[i].value)]
    ensures Derived(A, costs, m, n, u0, v, uFrom0, vFrom) && Unknown(v) < Unknown(v0)
  {
    v, vFrom := v0[j := Some(costs[i][j] - u0[i].value)], vFrom0[j := i];
    FillColumn(A, costs, m, n, u0, v0, uFrom0, vFrom0, i, j);
    UnknownFill(v0, j, costs[i][j] - u0[i].value);
  }

  /** Fill u[i] from the known v[j] across the basic cell (i, j): u[i] = c[i][j] - v[j], still derived. */
  method FillFromColumn(A: Matrix, costs: Matrix, m: nat, n: nat, i: nat, j: nat, u0: seq<Option<real>>, v0: seq<Option<real>>,
                        ghost uFrom0: seq<nat>, ghost vFrom0: seq<nat>)
    returns (u: seq<Option<real>>, ghost uFrom: seq<nat>)
    requires IsMatrix(A, m, n) && IsMatrix(costs, m, n) && i < m && j < n && A[i][j] > 0.0
    requires Derived(A, costs, m, n, u0, v0, uFrom0, vFrom0) && u0[i].None? && v0[j].Some?
    ensures u == u0[i := Some(costs[i][j] - v0[j].value)]
    ensures Derived(A, costs, m, n, u, v0, uFrom, vFrom0) && Unknown(u) < Unknown(u0)
  {
    u, uFrom := u0[i := Some(costs[i][j] - v0[j].value)], uFrom0[i := j];
    FillRow(A, costs, m, n, u0, v0, uFrom0, vFrom0, i, j);
    UnknownFill(u0, i, costs[i][j] - v0[j].value);
  }

  /**
    The potentials of `modi_improvement`: u[0] = 0, then passes over the basic
    cells until a pass fills nothing. The result is `Potentials`; each known
    value fits the cost of the basic cell it came from, and at the end every
    basic cell has both or neither of its potentials.
  */
  method ComputePotentials(A: Matrix, costs: Matrix, m: nat, n: nat) returns (u: seq<Option<real>>, v: seq<Option<real>>)
    requires IsMatrix(A, m, n) && IsMatrix(costs, m, n) && m >= 1
    ensures (u, v) == Potentials(A, costs, m, n)
    ensures |u| == m && |v| == n && u[0] == Some(0.0)
    ensures Fitted(A, costs, m, n, u, v)
    ensures forall i, j :: 0 <= i < m && 0 <= j < n && A[i][j] > 0.0 ==> (u[i].Some? <==> v[j].Some?)
  {
    var basic := BasicVariables(A, m, n);
    u := seq(m, i => None);
    v := seq(n, j => None);
    u := u[0 := Some(0.0)];
    ghost var u0, v0 := u, v;
    ghost var uFrom: seq<nat> := seq(m, i => 0);
    ghost var vFrom: seq<nat> := seq(n, j => 0);
    var changed := true;
    while changed
      invariant Derived(A, costs, m, n, u, v, uFrom, vFrom) && u[0] == Some(0.0)
      invariant CellsInside(basic, m, n)
      invariant changed ==> PotentialsFrom(costs, m, n, basic, u, v) == PotentialsFrom(costs, m, n, basic, u0, v0)
      invariant !changed ==> (u, v) == PotentialsFrom(costs, m, n, basic, u0, v0)
      decreases Unknown(u) + Unknown(v) + (if changed then 1 else 0)
    {
      u, v, changed, uFrom, vFrom := FillPass(A, costs, m, n, basic, u, v, uFrom, vFrom);
    }
    DerivedWitnesses(A, costs, m, n, u, v, uFrom, vFrom);
    BasicClosure(A, m, n, basic, u, v);
  }

  // ---------------------------------------------------------------------------
  // modi_improvement

  /** No entry is unknown. */
  predicate AllKnown(s: seq<Option<real>>) {
    forall k :: 0 <= k < |s| ==> s[k].Some?
  }

  /** The known values, in order. */
  function Values(s: seq<Option<real>>): (r: seq<real>)
    requires AllKnown(s)
    ensures |r| == |s| && forall k :: 0 <= k < |s| ==> s[k] == Some(r[k])
  {
    seq(|s|, k requires 0 <= k < |s| => s[k].value)
  }

  /** The opportunity costs d[i][j] = c[i][j] - u[i] - v[j]. */
  function Opportunity(costs: Matrix, u: seq<real>, v: seq<real>, m: nat, n: nat): (D: Matrix)
    requires IsMatrix(costs, m, n) && |u| == m && |v| == n
    ensures IsMatrix(D, m, n)
    ensures forall i, j :: 0 <= i < m && 0 <= j < n ==> D[i][j] == costs[i][j] - u[i] - v[j]
  {
    seq(m, i requires 0 <= i < m => seq(n, j requires 0 <= j < n => costs[i][j] - u[i] - v[j]))
  }

  /**
    What the optimality test certifies: every potential is known, u[0] = 0,
    every other potential fits the cost of a basic cell, and every
    opportunity cost is at least -1e-10.
  */
  predicate Certified(A: Matrix, costs: Matrix, m: nat, n: nat, u: seq<Option<real>>, v: seq<Option<real>>)
    requires IsMatrix(A, m, n) && IsMatrix(costs, m, n)
  {
    && |u| == m && |v| == n && m >= 1 && AllKnown(u) && AllKnown(v) && u[0] == Some(0.0)
    && Fitted(A, costs, m, n, u, v)
    && (forall i, j :: 0 <= i < m && 0 <= j < n ==> costs[i][j] - u[i].value - v[j].value >= -Tol)
  }

  /** The potentials of a round whose least opportunity cost passes the test certify the allocation. */
  lemma OptimalIsCertified(A: Matrix, costs: Matrix, m: nat, n: nat, u: seq<Option<real>>, v: seq<Option<real>>, ei: nat, ej: nat)
    requires IsMatrix(A, m, n) && IsMatrix(costs, m, n) && m >= 1
    requires |u| == m && |v| == n && AllKnown(u) && AllKnown(v) && u[0] == Some(0.0)
    requires Fitted(A, costs, m, n, u, v)
    requires FirstMin(Opportunity(costs, Values(u), Values(v), m, n), AllTrue(m, n), m, n) == Some((ei, ej))
    requires Opportunity(costs, Values(u), Values(v), m, n)[ei][ej] >= -Tol
    ensures Certified(A, costs, m, n, u, v)
  {
    var U, V := Values(u), Values(v);
    var D := Opportunity(costs, U, V, m, n);
    forall i, j | 0 <= i < m && 0 <= j < n
      ensures costs[i][j] - u[i].value - v[j].value >= -Tol
    {
      assert AllTrue(m, n)[i][j];
      assert D[ei][ej] <= D[i][j] == costs[i][j] - U[i] - V[j];
      assert U[i] == u[i].value && V[j] == v[j].value;
    }
  }

  /** The trace `later` begins with the trace `earlier`. */
  predicate Prefix(earlier: seq<Step>, later: seq<Step>) {
    |earlier| <= |later| && later[..|earlier|] == earlier
  }

  /** Appending the next numbered step keeps the numbering and every earlier trace a prefix. */
  lemma PrefixAppend(steps0: seq<Step>, steps: seq<Step>, s: Step)
    requires Numbered(steps) && s.number == |steps| && Prefix(steps0, steps)
    ensures Numbered(steps + [s]) && Prefix(steps0, steps + [s]) && |steps + [s]| > |steps0|
  {
    assert (steps + [s])[..|steps0|] == steps[..|steps0|];
  }

  /** Why the iteration loop ended: which of its exits was taken (the text of the last trace step). */
  datatype Stop = Optimal | NoPotentials | NoLoop | IterationLimit

  /** The allocation after the degeneracy check that opens a round: `add_epsilon_allocation` when degenerate. */
  function Repaired(A: Matrix, costs: Matrix, m: nat, n: nat): (R: Matrix)
    requires IsMatrix(A, m, n) && IsMatrix(costs, m, n)
    ensures IsMatrix(R, m, n)
  {
    if !IsDegenerate(A, m, n) then A
    else
      var c := FirstMin(costs, ZeroMask(A, m, n), m, n);
      if c.None? then A else SetCell(A, c.value.0, c.value.1, Epsilon)
  }

  /** A repaired allocation differs from the input at most in one zero cell of least cost, which holds epsilon. */
  lemma RepairedCell(A: Matrix, costs: Matrix, m: nat, n: nat)
    requires IsMatrix(A, m, n) && IsMatrix(costs, m, n)
    ensures var R := Repaired(A, costs, m, n);
      R == A || exists i, j :: (0 <= i < m && 0 <= j < n && A[i][j] == 0.0 && R == SetCell(A, i, j, Epsilon)
        && forall a, b :: 0 <= a < m && 0 <= b < n && A[a][b] == 0.0 ==> costs[i][j] <= costs[a][b])
  {
    if IsDegenerate(A, m, n) {
      var c := FirstMin(costs, ZeroMask(A, m, n), m, n);
      if c.Some? {
        var i, j := c.value.0, c.value.1;
        forall a, b | 0 <= a < m && 0 <= b < n && A[a][b] == 0.0
          ensures costs[i][j] <= costs[a][b]
        {
          assert ZeroMask(A, m, n)[a][b];
        }
      }
    }
  }

  /** The repair keeps a non-negative allocation non-negative. */
  lemma RepairedNonNegative(A: Matrix, costs: Matrix, m: nat, n: nat)
    requires IsMatrix(A, m, n) && IsMatrix(costs, m, n) && NonNegative(A)
    ensures NonNegative(Repaired(A, costs, m, n))
  {
  }

  /** The degeneracy repair that opens a round: add epsilon and log it when the allocation is degenerate. */
  method Repair(A0: Matrix, costs: Matrix, m: nat, n: nat, steps0: seq<Step>) returns (A: Matrix, steps: seq<Step>)
    requires IsMatrix(A0, m, n) && IsMatrix(costs, m, n) && Numbered(steps0)
    ensures IsMatrix(A, m, n) && Numbered(steps) && Prefix(steps0, steps)
    ensures A == Repaired(A0, costs, m, n)
    ensures steps == if IsDegenerate(A0, m, n) then steps0 + [Step(|steps0|, A, [], [])] else steps0
  {
    A, steps := A0, steps0;
    assert steps[..|steps0|] == steps0;
    if IsDegenerate(A, m, n) {
      A := AddEpsilonAllocation(A, costs, m, n);
      PrefixAppend(steps0, steps, Step(|steps0|, A, [], []));
      steps := steps + [Step(|steps0|, A, [], [])];
    }
  }

  /**
    One round of the iteration loop of `modi_improvement`: epsilon repair when
    degenerate, the pricing of the repaired allocation, and the pivot when an
    opportunity cost is negative. `entering` is the cell `np.argmin` picks,
    `least` its opportunity cost, and `ended` names the exit the round took,
    if any; the allocation is the repaired one on every exit and the cleaned
    shift along the loop through the entering cell otherwise.
  */
  method ModiRound(A0: Matrix, costs: Matrix, m: nat, n: nat, steps0: seq<Step>)
    returns (A: Matrix, steps: seq<Step>, least: Option<real>, entering: Option<Cell>, ended: Option<Stop>,
             ghost u: seq<Option<real>>, ghost v: seq<Option<real>>)
    requires IsMatrix(A0, m, n) && IsMatrix(costs, m, n) && m >= 1 && n >= 1 && Numbered(steps0)
    ensures IsMatrix(A, m, n) && Numbered(steps) && |steps| > |steps0| && Prefix(steps0, steps)
    ensures NonNegative(A0) ==> NonNegative(A)
    ensures |u| == m && |v| == n && u[0] == Some(0.0) && Fitted(Repaired(A0, costs, m, n), costs, m, n, u, v)
    ensures least.Some? <==> AllKnown(u) && AllKnown(v)
    ensures least.Some? ==> AllKnown(u) && AllKnown(v) && Entering(costs, m, n, u, v, entering, least)
    ensures ended != Some(IterationLimit)
    ensures ended == Some(NoPotentials) <==> least.None?
    ensures ended == Some(Optimal) <==> least.Some? && least.value >= -Tol
    ensures ended == Some(Optimal) ==> Certified(A, costs, m, n, u, v)
    ensures ended.Some? ==> A == Repaired(A0, costs, m, n)
    ensures ended == Some(NoLoop) ==>
      entering.Some? && FindLoop(Repaired(A0, costs, m, n), m, n, entering.value.0, entering.value.1).None?
    ensures ended.None? ==>
      entering.Some? && Pivoted(Repaired(A0, costs, m, n), m, n, entering.value.0, entering.value.1, A)
    ensures RoundEnd(A, least, entering, ended) == Round(A0, costs, m, n)
  {
    var R;
    R, steps := Repair(A0, costs, m, n, steps0);
    if NonNegative(A0) {
      RepairedNonNegative(A0, costs, m, n);
    }
    steps, least, entering, ended, u, v := Price(R, costs, m, n, steps0, steps);
    A := R;
    if ended.None? {
      A, steps, ended := Pivot(R, costs, m, n, entering.value.0, entering.value.1, steps0, steps);
    }
  }

  /**
    The entering cell of a complete set of potentials: the first cell in
    row-major order of least opportunity cost, and that cost.
  */
  predicate Entering(costs: Matrix, m: nat, n: nat, u: seq<Option<real>>, v: seq<Option<real>>,
                     entering: Option<Cell>, least: Option<real>)
    requires IsMatrix(costs, m, n) && |u| == m && |v| == n && AllKnown(u) && AllKnown(v)
  {
    var D := Opportunity(costs, Values(u), Values(v), m, n);
    && entering == FirstMin(D, AllTrue(m, n), m, n)
    && entering.Some? && least == Some(D[entering.value.0][entering.value.1])
  }

  /** A pivot's result: the loop through (ei, ej) exists, and the result is the cleaned shift of theta along it. */
  predicate Pivoted(A0: Matrix, m: nat, n: nat, ei: nat, ej: nat, A: Matrix)
    requires IsMatrix(A0, m, n)
  {
    var found := FindLoop(A0, m, n, ei, ej);
    && found.Some? && CellsInside(found.value.0, m, n)
    && A == Cleanup(Shifted(A0, found.value.0, found.value.1, m, n), m, n)
  }

  /**
    The pricing half of a round on an allocation that is not changed: the
    potentials, and when they are complete their log step, the opportunity
    costs, the optimality test on the least of them and the entering cell.
  */
  method Price(A: Matrix, costs: Matrix, m: nat, n: nat, ghost steps0: seq<Step>, steps1: seq<Step>)
    returns (steps: seq<Step>, least: Option<real>, entering: Option<Cell>, ended: Option<Stop>,
             ghost u: seq<Option<real>>, ghost v: seq<Option<real>>)
    requires IsMatrix(A, m, n) && IsMatrix(costs, m, n) && m >= 1 && n >= 1 && Numbered(steps1) && Prefix(steps0, steps1)
    ensures Numbered(steps) && |steps| > |steps0| && Prefix(steps0, steps)
    ensures (u, v) == Potentials(A, costs, m, n)
    ensures |u| == m && |v| == n && u[0] == Some(0.0) && Fitted(A, costs, m, n, u, v)
    ensures least.Some? <==> AllKnown(u) && AllKnown(v)
    ensures least.Some? ==> AllKnown(u) && AllKnown(v) && Entering(costs, m, n, u, v, entering, least)
    ensures least.None? ==> entering.None? && ended == Some(NoPotentials)
    ensures least.Some? ==> (ended == Some(Optimal) <==> least.value >= -Tol)
    ensures least.Some? ==> (ended.None? <==> least.value < -Tol)
    ensures ended == Some(Optimal) ==> Certified(A, costs, m, n, u, v)
  {
    var stepNum := |steps1|;
    var uk, vk := ComputePotentials(A, costs, m, n);
    u, v := uk, vk;
    PrefixAppend(steps0, steps1, Step(stepNum, A, [], []));
    steps := steps1 + [Step(stepNum, A, [], [])];
    if !AllKnown(uk) || !AllKnown(vk) {
      return steps, None, None, Some(NoPotentials), u, v;
    }
    stepNum := stepNum + 1;
    var D := Opportunity(costs, Values(uk), Values(vk), m, n);
    assert AllTrue(m, n)[0][0];
    entering := FirstMin(D, AllTrue(m, n), m, n);
    var (ei, ej) := entering.value;
    least := Some(D[ei][ej]);
    if D[ei][ej] >= -Tol {
      PrefixAppend(steps0, steps, Step(stepNum, A, [], []));
      steps := steps + [Step(stepNum, A, [], [])];
      OptimalIsCertified(A, costs, m, n, uk, vk, ei, ej);
      ended := Some(Optimal);
    } else {
      ended := None;
    }
  }

  /**
    The second half of a round that found a negative opportunity cost: log
    the entering cell, search the loop (the round ends with the allocation
    unchanged when there is none), update along it, log, and clean up.
  */
  method Pivot(A0: Matrix, costs: Matrix, m: nat, n: nat, ei: nat, ej: nat, ghost steps0: seq<Step>, steps1: seq<Step>)
    returns (A: Matrix, steps: seq<Step>, ended: Option<Stop>)
    requires IsMatrix(A0, m, n) && IsMatrix(costs, m, n) && Numbered(steps1) && Prefix(steps0, steps1)
    ensures IsMatrix(A, m, n) && Numbered(steps) && |steps| > |steps0| && Prefix(steps0, steps)
    ensures NonNegative(A0) ==> NonNegative(A)
    ensures ended == Some(NoLoop) <==> FindLoop(A0, m, n, ei, ej).None?
    ensures ended.None? || ended == Some(NoLoop)
    ensures ended == Some(NoLoop) ==> A == A0
    ensures ended.None? ==> Pivoted(A0, m, n, ei, ej, A)
  {
    A, steps := A0, steps1;
    var stepNum := |steps1|;
    PrefixAppend(steps0, steps, Step(stepNum, A, [], []));
    steps := steps + [Step(stepNum, A, [], [])];
    stepNum := stepNum + 1;
    var found := FindLoop(A, m, n, ei, ej);
    if found.None? {
      PrefixAppend(steps0, steps, Step(stepNum, A, [], []));
      steps := steps + [Step(stepNum, A, [], [])];
      return A, steps, Some(NoLoop);
    }
    PrefixAppend(steps0, steps, Step(stepNum, A, [], []));
    steps := steps + [Step(stepNum, A, [], [])];
    stepNum := stepNum + 1;
    var a, b := FindLoopRectangle(A, m, n, ei, ej);
    ShiftedRectangle(A, m, n, ei, ej, a, b, found.value.1);
    if NonNegative(A) {
      ShiftKeepsNonNegative(A, m, n, ei, ej, a, b);
    }
    A := ShiftAlongLoop(A, found.value.0, found.value.1, m, n);
    PrefixAppend(steps0, steps, Step(stepNum, A, [], []));
    steps := steps + [Step(stepNum, A, [], [])];
    A := Cleanup(A, m, n);
    ended := None;
  }

  /** What a round leaves: the allocation, the least opportunity cost, the entering cell and the exit taken, if any. */
  datatype RoundEnd = RoundEnd(allocation: Matrix, least: Option<real>, entering: Option<Cell>, ended: Option<Stop>)

  /**
    One round of `modi_improvement` as a value: repair, potentials, the
    optimality test at the first cell of least opportunity cost, the loop
    search and the cleaned shift along the loop.
  */
  function Round(A0: Matrix, costs: Matrix, m: nat, n: nat): (r: RoundEnd)
    requires IsMatrix(A0, m, n) && IsMatrix(costs, m, n) && m >= 1 && n >= 1
    ensures IsMatrix(r.allocation, m, n) && r.ended != Some(IterationLimit)
    ensures r.ended.Some? ==> r.allocation == Repaired(A0, costs, m, n)
  {
    var R := Repaired(A0, costs, m, n);
    var P := Potentials(R, costs, m, n);
    if !AllKnown(P.0) || !AllKnown(P.1) then RoundEnd(R, None, None, Some(NoPotentials))
    else
      var D := Opportunity(costs, Values(P.0), Values(P.1), m, n);
      assert AllTrue(m, n)[0][0];
      var e := FirstMin(D, AllTrue(m, n), m, n).value;
      var least := Some(D[e.0][e.1]);
      if D[e.0][e.1] >= -Tol then RoundEnd(R, least, Some(e), Some(Optimal))
      else if FindLoop(R, m, n, e.0, e.1).None? then RoundEnd(R, least, Some(e), Some(NoLoop))
      else
        var found := FindLoop(R, m, n, e.0, e.1).value;
        FindLoopInside(R, m, n, e.0, e.1);
        RoundEnd(Cleanup(Shifted(R, found.0, found.1, m, n), m, n), least, Some(e), None)
  }

  /** The allocation the rounds leave: the last round's, or A0 before any round. */
  function LastAllocation(A0: Matrix, rounds: seq<RoundEnd>): Matrix {
    if rounds == [] then A0 else rounds[|rounds| - 1].allocation
  }

  /** Round t starts from the allocation round t - 1 left (A0 for the first), and round t - 1 took no exit. */
  predicate Follows(A0: Matrix, costs: Matrix, m: nat, n: nat, rounds: seq<RoundEnd>, t: nat)
    requires IsMatrix(A0, m, n) && IsMatrix(costs, m, n) && m >= 1 && n >= 1 && t < |rounds|
  {
    && IsMatrix(LastAllocation(A0, rounds[..t]), m, n)
    && rounds[t] == Round(LastAllocation(A0, rounds[..t]), costs, m, n)
    && (t > 0 ==> rounds[t - 1].ended.None?)
  }

  /**
    The rounds `modi_improvement` runs from A0, in order: each starts from the
    allocation the previous one left, and only the last may take an exit.
  */
  predicate Rounds(A0: Matrix, costs: Matrix, m: nat, n: nat, rounds: seq<RoundEnd>)
    requires IsMatrix(A0, m, n) && IsMatrix(costs, m, n) && m >= 1 && n >= 1
  {
    forall t {:trigger Follows(A0, costs, m, n, rounds, t)} :: 0 <= t < |rounds| ==> Follows(A0, costs, m, n, rounds, t)
  }

  /** A round from where the rounds left off, after none took an exit, extends them. */
  lemma RoundsAppend(A0: Matrix, costs: Matrix, m: nat, n: nat, rounds: seq<RoundEnd>, e: RoundEnd)
    requires IsMatrix(A0, m, n) && IsMatrix(costs, m, n) && m >= 1 && n >= 1
    requires Rounds(A0, costs, m, n, rounds) && (rounds != [] ==> rounds[|rounds| - 1].ended.None?)
    requires IsMatrix(LastAllocation(A0, rounds), m, n) && e == Round(LastAllocation(A0, rounds), costs, m, n)
    ensures Rounds(A0, costs, m, n, rounds + [e]) && LastAllocation(A0, rounds + [e]) == e.allocation
    ensures |rounds + [e]| == |rounds| + 1 && (rounds + [e])[..|rounds|] == rounds && (rounds + [e])[|rounds|] == e
  {
    var r := rounds + [e];
    forall t | 0 <= t < |r|
      ensures Follows(A0, costs, m, n, r, t)
    {
      assert r[..t] == rounds[..t];
      if t < |rounds| {
        assert Follows(A0, costs, m, n, rounds, t);
      } else {
        assert r[..t] == rounds;
      }
    }
  }

  /** One pass of the iteration loop: a round from where the rounds left off, recorded as the next round. */
  method Iterate(A0: Matrix, costs: Matrix, m: nat, n: nat, steps0: seq<Step>, ghost start: Matrix, ghost rounds0: seq<RoundEnd>)
    returns (A: Matrix, steps: seq<Step>, least: Option<real>, ended: Option<Stop>,
             ghost u: seq<Option<real>>, ghost v: seq<Option<real>>, ghost rounds: seq<RoundEnd>)
    requires IsMatrix(start, m, n) && IsMatrix(A0, m, n) && IsMatrix(costs, m, n) && m >= 1 && n >= 1 && Numbered(steps0)
    requires Rounds(start, costs, m, n, rounds0) && A0 == LastAllocation(start, rounds0)
    requires rounds0 != [] ==> rounds0[|rounds0| - 1].ended.None?
    ensures IsMatrix(A, m, n) && Numbered(steps) && |steps| > |steps0| && Prefix(steps0, steps)
    ensures NonNegative(A0) ==> NonNegative(A)
    ensures ended != Some(IterationLimit)
    ensures ended == Some(Optimal) <==> least.Some? && least.value >= -Tol
    ensures ended == Some(Optimal) ==> Certified(A, costs, m, n, u, v)
    ensures |rounds| == |rounds0| + 1 && rounds[..|rounds0|] == rounds0 && rounds[|rounds0|].ended == ended
    ensures Rounds(start, costs, m, n, rounds) && A == LastAllocation(start, rounds)
  {
    var entering;
    A, steps, least, entering, ended, u, v := ModiRound(A0, costs, m, n, steps0);
    ghost var e := RoundEnd(A, least, entering, ended);
    RoundsAppend(start, costs, m, n, rounds0, e);
    rounds := rounds0 + [e];
  }

  /**
    `modi_improvement`: up to maxIterations rounds on a copy of the
    allocation. `converged` holds exactly when the run ended at the
    optimality test, and then the potentials of that round certify the
    returned allocation.
  */
  method ModiImprovement(A0: Matrix, costs: Matrix, m: nat, n: nat, maxIterations: nat)
    returns (A: Matrix, totalCost: real, steps: seq<Step>, iterations: nat, converged: bool,
             ghost stop: Stop, ghost u: seq<Option<real>>, ghost v: seq<Option<real>>, ghost rounds: seq<RoundEnd>)
    requires IsMatrix(A0, m, n) && IsMatrix(costs, m, n) && m >= 1 && n >= 1
    ensures IsMatrix(A, m, n) && totalCost == TotalCost(A, costs)
    ensures iterations <= maxIterations
    ensures |steps| >= 1 && steps[0] == Step(0, A0, [], []) && Numbered(steps)
    ensures NonNegative(A0) ==> NonNegative(A)
    ensures converged <==> stop == Optimal
    ensures converged ==> Certified(A, costs, m, n, u, v)
    ensures stop == IterationLimit ==> iterations == maxIterations
    ensures maxIterations == 0 ==> !converged && A == A0 && |steps| == 1
    ensures Rounds(A0, costs, m, n, rounds) && |rounds| == iterations && A == LastAllocation(A0, rounds)
    ensures stop == if rounds != [] && rounds[|rounds| - 1].ended.Some? then rounds[|rounds| - 1].ended.value else IterationLimit
  {
    A := A0;
    steps := [Step(0, A0, [], [])];
    iterations := 0;
    var minOpp: Option<real> := None;
    stop, u, v, rounds := IterationLimit, [], [], [];
    while iterations < maxIterations
      invariant IsMatrix(A, m, n) && iterations <= maxIterations
      invariant |steps| >= 1 && steps[0] == Step(0, A0, [], []) && Numbered(steps)
      invariant NonNegative(A0) ==> NonNegative(A)
      invariant minOpp.Some? ==> minOpp.value < -Tol
      invariant iterations == 0 ==> A == A0 && |steps| == 1 && minOpp.None?
      invariant Rounds(A0, costs, m, n, rounds) && |rounds| == iterations && A == LastAllocation(A0, rounds)
      invariant rounds != [] ==> rounds[|rounds| - 1].ended.None?
      decreases maxIterations - iterations
    {
      iterations := iterations + 1;
      var steps' := steps;
      var least, ended;
      ghost var uu, vv;
      A, steps', least, ended, uu, vv, rounds := Iterate(A, costs, m, n, steps, A0, rounds);
      assert steps'[0] == steps'[..|steps|][0];
      steps := steps';
      if least.Some? {
        minOpp := least;
      }
      if ended.Some? {
        stop, u, v := ended.value, uu, vv;
        assert rounds != [] && rounds[|rounds| - 1].ended == Some(stop);
        break;
      }
    }
    converged := minOpp.Some? && minOpp.value >= -Tol;
    totalCost := TotalCost(A, costs);
  }
}
