# Transportation and assignment solvers, modelled in Dafny

This project models the solving core of a transportation-problem solver and
its Hungarian assignment solver, and proves what these algorithms guarantee.

**Input handling and shared helpers** (`utils.dfy`). A problem is an m x n
cost matrix with m supplies and n demands. `validate_input` rejects
mismatched shapes and negative data. `balance_problem` appends a dummy
destination or a dummy source with zero costs so that total supply equals
total demand. The module also holds:
- the total cost;
- the list of basic cells (the positive allocations) and the degeneracy test;
- the epsilon repair of a degenerate allocation;
- the numbered trace entries that every solver records.

**The four initial-solution heuristics** (`methods.dfy`): North-West Corner
Rule, Least Cost, Vogel's Approximation Method and Row Minima.
- Each allocation loop is an imperative method with loop invariants.
- Each method is proved to keep a partial solution: amounts are conserved,
  nothing is negative, and supply left equals demand left.
- NWCR and VAM always end feasible.
- Least Cost and Row Minima stop once what remains is at most 1e-10. They
  end feasible for whole-number supplies and demands.
- Each heuristic is also proved equal to a functional definition of its
  loop: which cell each step fills, and with how much.
- `Solve` chains validation, balancing, one heuristic and the cost, as each
  of the four entry points does.

**MODI improvement** (`modi.dfy`). The method computes potentials u, v from
the basic cells by repeated passes. It takes opportunity costs and picks the
most negative one, searches a closed loop through the entering cell, shifts
theta around it and cleans up amounts below 1e-10. Properties proved:
- The loop search is characterised exactly. It returns a loop precisely when
  a rectangle through the entering cell has three positive corners. The
  search that starts along the column never succeeds.
- A shift along a rectangle keeps every row and column sum and keeps the
  allocation non-negative. It changes the cost by theta times the sum of the
  corner costs taken with alternating signs. When u + v fits the cost at the
  three basic corners, that sum is the entering cell's opportunity cost.
- A round picks the first cell of least opportunity cost, and its result is
  stated exit by exit: the repaired allocation on every exit, otherwise
  the cleaned shift along the loop that `find_loop` returns.
- When a round stops at the optimality test, the potentials of that round
  certify the allocation it returns.

**The Hungarian assignment solver** (`assignment.dfy`). The steps are:
1. pad the matrix to a square;
2. reduce the rows, then the columns;
3. cover the zeros with `cover_zeros`;
4. adjust the matrix with `adjust_matrix`;
5. make the greedy zero assignment `try_assignment`;
6. map the pairs back to the original matrix.

The cover counts the zeros of covered columns when it ranks the rows, and the
reverse for the columns. So it always ends with exactly the lines that hold a
zero covered. On a reduced matrix that is every line, and the adjustment then
has nothing to do. The main loop therefore succeeds in its first round or
repeats the same round forever. `assignment_example.dfy` works the
three-by-three example of `test_quick.py` through the model, and
`nwcr_example.dfy` works that file's North-West Corner example.

**Copies of the same code.** `api/transport/utils.py` and
`api/transport/methods.py` are identical copies of the `backend/` files cited
below. `backend/transport/modi.py` is a copy of `transport/modi.py`.

**Arrays and floating point.** Numpy arrays are sequence values of reals.
Every array the source updates in place is local to one call, so the model
reassigns values where the source writes. Arithmetic is exact, and the
source's 1e-10 tolerances appear as the constant `Tol`.

## Model

| member | source | states |
|---|---|---|
| Matrices.Zeros | backend/transport/methods.py:16 | `np.zeros((m, n))`: an m x n matrix, every entry 0 (a definition) |
| Matrices.SetCell | backend/transport/methods.py:32 | writing one cell changes that cell to the new value and no other cell |
| Matrices.SetCellSums | backend/transport/methods.py:32-35 | writing x into (i, j) changes row i's sum and column j's sum by x minus the old value and leaves every other row and column alone |
| Matrices.FirstMin | backend/transport/methods.py:89-90 | `np.argmin` over the available cells: None exactly when no cell is available, else an available cell of least value with every available cell before it in row-major order strictly dearer |
| Matrices.FirstMinBefore | backend/transport/utils.py:136-140 | the cell a row-major scan keeps after the cells before (i, j), when it replaces its candidate only on a strictly smaller value: the first least cell among those scanned, or None when none was eligible |
| Matrices.FirstMinIndex | backend/transport/methods.py:190-191 | `min` then `next(... == min)`: an index of a least entry with every earlier entry strictly larger |
| Matrices.FirstMaxIndex | transport/assignment.py:63 | `np.argmax` and `list.index(max(...))`: an index of a greatest entry with every earlier entry strictly smaller |
| Utils.ValidateInput | backend/transport/utils.py:5-26 | succeeds exactly on well-shaped, non-negative data and then returns it unchanged; a negative-cost error means some cost is negative, a row mismatch that the row count differs from the supply length, a column mismatch that some row's length differs from the demand length |
| Utils.BalanceProblem | backend/transport/utils.py:29-60 | the result is well shaped with equal totals. No dummy exactly when the totals were already equal, and then the problem is unchanged. Otherwise the excess becomes one appended destination (zero-cost column) or one appended source (zero-cost row), and everything else is kept |
| Utils.BalanceIdempotent | backend/transport/utils.py:29-60 | balancing a balanced problem adds nothing, so balancing twice equals balancing once |
| Utils.BalanceKeepsValid | backend/transport/utils.py:42-58 | the dummy amount is positive, so a valid problem stays valid (and balanced) |
| Utils.BalanceKeepsWhole | backend/transport/utils.py:44-54 | whole-number supplies and demands stay whole after balancing |
| Utils.TotalCostSetCell | backend/transport/utils.py:63-65 | changing one cell's amount by d changes the total cost by d times that cell's cost |
| Utils.TotalCostNonNegative | backend/transport/utils.py:63-65 | a non-negative allocation at non-negative costs has a non-negative total cost |
| Utils.BasicVariables | backend/transport/utils.py:112-116 | lists exactly the cells holding a positive amount, each once, in strictly increasing row-major order |
| Utils.IsDegenerateCountsPositiveCells | backend/transport/utils.py:119-124 | the basic list has as many entries as there are positive cells, and the allocation is degenerate exactly when fewer than m + n - 1 cells are positive |
| Utils.SortedCellsCount | backend/transport/utils.py:114-116 | a list in strictly increasing row-major order names as many distinct cells as it has entries |
| Utils.ZeroMask | backend/transport/utils.py:138 | marks exactly the cells whose allocation is 0 (a definition) |
| Utils.AddEpsilonAllocation | backend/transport/utils.py:127-145 | the result is the input when no cell is zero; otherwise it is the input with 1e-10 written into the first zero cell of least cost in row-major order |
| Utils.ScanZeroRow | backend/transport/utils.py:136-140 | after scanning row i the candidate is the first cheapest zero cell of rows 0..i, and the kept cost is that cell's cost |
| Utils.ScanZeroCell | backend/transport/utils.py:137-140 | one cell of the scan: a zero cell strictly cheaper than the candidate replaces it, so the candidate stays the first cheapest zero cell so far |
| Utils.EpsilonChangesOneZeroCell | backend/transport/utils.py:127-145 | the repaired cell held 0, costs no more than any zero cell and strictly less than every zero cell before it, and now holds epsilon |
| Utils.NumberedAppend | backend/transport/utils.py:68-84 | logging a step under the next number keeps the trace numbered 0, 1, 2, ... |
| Methods.TraceExtend | backend/transport/methods.py:38-40 | logging the state after an allocation extends the trace: numbered steps, step 0 the initial problem, every step a partial solution |
| Methods.StartIsPartial | backend/transport/methods.py:16-25 | the zero allocation with all supply and demand remaining is a partial solution of a balanced problem |
| Methods.AllocateKeepsPartial | backend/transport/methods.py:31-35 | allocating min(remaining supply, remaining demand) to an empty cell keeps amounts conserved and non-negative and exhausts the row or the column |
| Methods.ExhaustedIsFeasible | backend/transport/methods.py:29-48 | a partial solution with nothing left on one side is feasible: rows sum to the supplies and columns to the demands |
| Methods.WholeRemainderExhausted | backend/transport/methods.py:87 | with whole-number remainders, a side whose remaining total is at most 1e-10 is empty, so the allocation is feasible |
| Methods.WholeAfterAllocate | backend/transport/methods.py:94-98 | an allocation step keeps whole-number remainders whole |
| Methods.NwcrFromUnfold | backend/transport/methods.py:29-46 | one pass of the walk: allocate at (i, j), log, move down if the row is exhausted and right if the column is (both on a tie) |
| Methods.NwcrStep | backend/transport/methods.py:29-46 | one pass keeps the loop invariant: a partial solution, the trace, rows above i and columns left of j exhausted, the walk's cell empty |
| Methods.NwcrAllocate | backend/transport/methods.py:30-46 | the loop body keeps the invariant, leaves the rest of the walk's result unchanged and moves down or right (or both) |
| Methods.Nwcr | backend/transport/methods.py:27-48 | the allocation is feasible, at most m + n - 1 allocation steps follow step 0, every step records a partial solution, and the result equals the functional walk |
| Methods.ClearRow | backend/transport/methods.py:106-107 | switches off every cell of row i and nothing else |
| Methods.ClearColumn | backend/transport/methods.py:108-109 | switches off every cell of column j and nothing else |
| Methods.Retire | backend/transport/methods.py:105-109 | a cell stays available exactly when it was and neither its row was exhausted at i nor its column at j |
| Methods.RetireDecreases | backend/transport/methods.py:105-109 | retiring the row or the column of an available cell leaves strictly fewer available cells |
| Methods.AvailableWhileRemaining | backend/transport/methods.py:87-91 | while both remaining totals exceed 1e-10 some cell is still available, so `argmin` never lands on an unavailable cell |
| Methods.RetireKeepsMask | backend/transport/methods.py:94-109 | after the allocation and the mask update, available cells are still empty and every unavailable cell has an exhausted row or column |
| Methods.LeastCostStep | backend/transport/methods.py:87-109 | one pass keeps the Least Cost invariant and retires at least one cell |
| Methods.LeastCostPass | backend/transport/methods.py:94-109 | a pass at (i, j) keeps the shapes of the allocation, the remainders and the availability mask |
| Methods.LeastCostFromUnfold | backend/transport/methods.py:87-109 | while both remaining totals exceed 1e-10, the rest of the run is the rest of the run after one pass at the cell `FirstMin` picks |
| Methods.LeastCostAllocate | backend/transport/methods.py:88-109 | the loop body: `FirstMin` finds an available cell (the first cheapest in row-major order), min(remaining supply, remaining demand) is written there, both remainders drop by it, the step is logged under the next number, and the availability mask becomes `Retire` of the row and the column whose remainder hit exactly 0. The invariant and the trace are kept, fewer cells stay available, and the rest of the run (`LeastCostFrom`) is unchanged |
| Methods.LeastCostStops | backend/transport/methods.py:87 | when the loop guard fails, both remaining totals are at most 1e-10, nothing is left for whole-number data, and the rest of the run is the current state |
| Methods.LeastCostLoop | backend/transport/methods.py:87-109 | the loop run from any invariant state ends with the guard false, keeps the invariant and the trace, and returns exactly what `LeastCostFrom` computes from that state |
| Methods.LeastCost | backend/transport/methods.py:85-109 | the loop ends with both remaining totals at most 1e-10, every step records a partial solution, with whole-number data the allocation is feasible, and allocation and trace equal `LeastCostRun`, the functional form of the loop |
| Methods.Range | backend/transport/methods.py:148-149 | `list(range(k))`: the indices 0..k-1 in order (a definition) |
| Methods.RemoveFirstAt | backend/transport/methods.py:219 | `list.remove(x)` splices out the first position holding x |
| Methods.RemoveFirstMembers | backend/transport/methods.py:218-221 | removing x from an active list of distinct lines drops exactly x and shortens the list by one |
| Methods.RemoveFirstIncreasing | backend/transport/methods.py:218-221 | the active lists stay increasing after a removal |
| Methods.RemoveFirst | backend/transport/methods.py:219 | `list.remove(x)` on a list holding x leaves one entry fewer |
| Methods.FirstOccurrence | backend/transport/methods.py:218-221 | in an increasing list x sits at exactly one position, and `list.remove(x)` splices that position out |
| Methods.SplicedIncreasing | backend/transport/methods.py:218-221 | splicing one position out of an increasing list keeps it increasing |
| Methods.RowCosts | backend/transport/methods.py:157 | `[costs[i, j] for j in active_cols]`: row i's costs over the active columns, in their order |
| Methods.ColumnCosts | backend/transport/methods.py:170 | `[costs[i, j] for i in active_rows]`: column j's costs over the active rows, in their order |
| Methods.OtherMinIndex | backend/transport/methods.py:157-159 | the position of the entry a sort puts second, after removing a smallest one: a position other than the smallest's |
| Methods.OtherMinIndexLeast | backend/transport/methods.py:157-159 | that entry is no larger than any entry at another position, so it is the second-smallest value of the sorted list |
| Methods.PenaltyIsGap | backend/transport/methods.py:155-176 | for any position k of a smallest cost and any other position q of a smallest cost among the rest, the penalty is cost q minus cost k (the sorted list's second minus first entry), and is never negative |
| Methods.RowPenalties | backend/transport/methods.py:153-163 | one penalty per active row, in the order of the active rows |
| Methods.ColumnPenalties | backend/transport/methods.py:166-176 | one penalty per active column, in the order of the active columns |
| Methods.VamSelect | backend/transport/methods.py:178-203 | the selected cell lies in an active row and an active column |
| Methods.VamSelectActive | backend/transport/methods.py:184-201 | the cell `VamSelect` picks lies inside the matrix, on an active row and an active column |
| Methods.VamSelectRow | backend/transport/methods.py:184-187 | a selected row has the largest penalty among the rows, no earlier row ties it, and no column's penalty exceeds it |
| Methods.VamSelectRowCell | backend/transport/methods.py:189-191 | in a selected row the cell is the cheapest active cell, the first among equals |
| Methods.VamSelectColumn | backend/transport/methods.py:194-197 | a selected column has the largest penalty among the columns, no earlier column ties it, and every row's penalty is strictly smaller |
| Methods.ColumnPenaltyLargest | backend/transport/methods.py:180-197 | when the largest column penalty exceeds the largest row penalty, the first column of largest penalty beats every column, strictly every earlier one, and strictly every row |
| Methods.LargestFirst | backend/transport/methods.py:184-197 | `list.index(max(...))` along increasing lines: the value there is the largest, and every earlier line's value is strictly smaller |
| Methods.SmallestFirst | backend/transport/methods.py:189-201 | `next(... == min)` along increasing lines: the value there is the smallest, and every earlier line's value is strictly larger |
| Methods.VamSelectColumnCell | backend/transport/methods.py:199-201 | in a selected column the cell is the cheapest active cell, the first among equals |
| Methods.VamRetire | backend/transport/methods.py:217-221 | removing the exhausted line(s) keeps the active lists increasing and inside the matrix, drops exactly the exhausted lines and shortens the lists |
| Methods.VamStep | backend/transport/methods.py:205-221 | one pass keeps the VAM invariant: active cells are empty, retired lines have nothing left |
| Methods.VamPass | backend/transport/methods.py:205-221 | a pass at an active cell keeps the shapes and the active lists inside the matrix, and removes at least one active line |
| Methods.VamNext | backend/transport/methods.py:151-221 | a pass at the cell `VamSelect` picks keeps the shapes and removes at least one active line |
| Methods.VamKeeps | backend/transport/methods.py:205-221 | at an active cell the allocation is still 0, and a pass there keeps a partial solution with active cells empty and retired lines exhausted |
| Methods.VamApply | backend/transport/methods.py:205-221 | the allocation at a chosen active cell (i, j): min(remaining supply, remaining demand) written at (i, j), both remainders lowered by it, `list.remove` of row i when its remainder hit 0 and of column j when its remainder hit 0, one step logged; the result is `VamPass` at (i, j) |
| Methods.VamAllocate | backend/transport/methods.py:151-221 | the loop body allocates at the cell `VamSelect` picks, an active cell: min(remaining supply, remaining demand) is written there, both remainders drop by it, the row and/or column whose remainder hit exactly 0 is removed from its active list, and the step is logged under the next number. At least one active line goes, and the rest of the run (`VamFrom`) is unchanged |
| Methods.VamFromSteps | backend/transport/methods.py:151-221 | the run from a state keeps the log's first step, numbers every step and logs its final allocation last, adding at most one step fewer than there are active lines |
| Methods.VamFromRecorded | backend/transport/methods.py:205-215 | from a partial solution whose active lists the loop keeps, every step the run logs records a partial solution |
| Methods.VamFromFeasible | backend/transport/methods.py:151-221 | from such a state the run ends in a feasible allocation |
| Methods.VamStops | backend/transport/methods.py:151 | with no active row or no active column the run is the current state |
| Methods.VamLoop | backend/transport/methods.py:151-221 | the loop run from any state returns exactly what `VamFrom` computes from it |
| Methods.VamStart | backend/transport/methods.py:147-149 | the start, the zero allocation with every row and column active, is a partial solution whose active lists the loop keeps |
| Methods.VamRunProperties | backend/transport/methods.py:147-221 | the whole run from the start ends feasible, with a trace of partial solutions of at most m + n steps |
| Methods.Vam | backend/transport/methods.py:147-221 | the allocation is feasible, every step records a partial solution, at most m + n - 1 allocation steps follow step 0, and allocation and trace equal `VamRun`, the functional form of the loop |
| Methods.AvailableColumns | backend/transport/methods.py:263 | the columns whose remaining demand exceeds 1e-10, each once, in increasing order |
| Methods.CountAboveLower | backend/transport/methods.py:261-277 | lowering a remaining demand never adds an available column, and lowering it from above 1e-10 to at most 1e-10 removes one |
| Methods.RowMinimaColumn | backend/transport/methods.py:269-270 | the column row i allocates to: one whose remaining demand exceeds 1e-10 |
| Methods.RowMinimaColumnLeast | backend/transport/methods.py:269-270 | it costs no more in row i than any column whose remaining demand exceeds 1e-10 |
| Methods.RowMinimaColumnFirst | backend/transport/methods.py:270 | every earlier column with remaining demand above 1e-10 costs strictly more in row i, so it is the first cheapest |
| Methods.RowMinimaProgress | backend/transport/methods.py:273-277 | a pass settles row i or takes one column out of the available ones |
| Methods.RowMinimaPass | backend/transport/methods.py:269-282 | a pass keeps the shapes of the allocation and the remainders |
| Methods.RowMinimaRowFrom | backend/transport/methods.py:261-282 | the inner loop's functional run keeps the shapes |
| Methods.RowMinimaRowCells | backend/transport/methods.py:261-282 | the inner loop on row i writes only cells of row i, and only in columns whose remaining demand exceeded 1e-10 when the row began |
| Methods.RowMinimaStep | backend/transport/methods.py:268-277 | one pass keeps the Row Minima invariant and exhausts the row or makes a column unavailable |
| Methods.RowMinimaAllocate | backend/transport/methods.py:269-282 | the loop body allocates at `RowMinimaColumn`, the first cheapest column with remaining demand above 1e-10: min(remaining supply, remaining demand) is written at (i, j), both remainders drop by it, and the step is logged under the next number. The invariant and the trace are kept, progress is made, and the rest of the row's run (`RowMinimaRowFrom`) is unchanged |
| Methods.RowMinimaRow | backend/transport/methods.py:261-282 | serving row i keeps the invariant and leaves row i at most 1e-10 or every column at most 1e-10; the new state is exactly `RowMinimaRowFrom`, whose cells are stated by RowMinimaRowCells |
| Methods.RowMinimaRowEnd | backend/transport/methods.py:261-266 | when the inner loop stops, row i is served and the rest of the row's run is the current state |
| Methods.RowMinimaServe | backend/transport/methods.py:260-282 | one pass of the outer loop keeps the outer invariant, including that the rest of the run from row i + 1 equals the whole run |
| Methods.RowMinimaEnd | backend/transport/methods.py:260-282 | once every row is served: a trace of partial solutions, every remaining supply or every remaining demand at most 1e-10, feasible for whole-number data, and allocation and trace equal `RowMinimaRun` |
| Methods.RowMinima | backend/transport/methods.py:260-282 | at the end every remaining supply or every remaining demand is at most 1e-10, every step records a partial solution, with whole-number data the allocation is feasible, and allocation and trace equal `RowMinimaRun`, the functional form of the loops |
| Methods.RowMinimaExhausted | backend/transport/methods.py:260-282 | with whole-number data, the state Row Minima ends in is feasible |
| Methods.Solve | backend/transport/methods.py:5-59 | fails exactly on invalid input, with `validate_input`'s error. Otherwise it returns the balanced problem and its dummy as `balance_problem` gives them, an m x n allocation priced by `calculate_total_cost` (never negative) and a numbered trace, and allocation and trace are the chosen heuristic's functional run (`NwcrRun`, `LeastCostRun`, `VamRun` or `RowMinimaRun`). The allocation is feasible for NWCR and VAM, and for Least Cost and Row Minima on whole-number data |
| Modi.RowCols | transport/modi.py:147-149 | the columns of row i's basic cells are exactly those listed for it |
| Modi.ColRows | transport/modi.py:152-154 | the rows of column j's basic cells are exactly those listed for it |
| Modi.TryColumnsSome | transport/modi.py:161-169 | the row move succeeds exactly when some unvisited candidate column's branch succeeds |
| Modi.TryRowsSome | transport/modi.py:170-178 | the column move succeeds exactly when some unvisited candidate row's branch succeeds |
| Modi.TryColumnsWitness | transport/modi.py:163-169 | a successful row move returns the result of the branch of one unvisited candidate |
| Modi.TryRowsWitness | transport/modi.py:172-178 | a successful column move returns the result of the branch of one unvisited candidate |
| Modi.SearchFromThree | transport/modi.py:158-192 | from three cells, the search succeeds exactly when the third cell's row offers the first cell's column through an unvisited cell in a different row, and returns the path closed by that cell |
| Modi.SearchFromTwo | transport/modi.py:170-192 | from two cells, a successful search went down to an unvisited row b different from the start row, and row b's basic cell in the start column closes the path |
| Modi.SearchFromTwoSound | transport/modi.py:156-192 | from the entering cell and a cell of its row, what the search returns is a rectangle closed through basic cells |
| Modi.SearchFromTwoComplete | transport/modi.py:156-192 | from the entering cell and a cell of its row, the search succeeds whenever a basic row closes the rectangle |
| Modi.TryColumnsPick | transport/modi.py:163-169 | the row move succeeds whenever one unvisited candidate's branch does |
| Modi.HorizontalSound | transport/modi.py:198-210 | a loop found by the row-first search is (ei, ej), (ei, a), (b, a), (b, ej) with its three other corners basic |
| Modi.HorizontalComplete | transport/modi.py:198-210 | every rectangle through the entering cell whose other three corners are basic makes the row-first search succeed |
| Modi.VerticalNever | transport/modi.py:212-224 | the column-first search never finds a loop: its second move is again along the column, and the way back passes through a visited cell |
| Modi.DfsGrows | transport/modi.py:156-192 | a path returned by `dfs_loop` has four cells, begins with the given path and adds only basic cells |
| Modi.ColumnsGrow | transport/modi.py:161-169 | the row move adds basic cells of the current row |
| Modi.RowsGrow | transport/modi.py:170-178 | the column move adds basic cells of the current column |
| Modi.SearchInside | transport/modi.py:143-210 | a search result has four cells, and its odd positions lie inside the allocation |
| Modi.FindLoopRectangle | transport/modi.py:137-226 | a found loop is the rectangle (ei, ej), (ei, a), (b, a), (b, ej) whose other three corners hold positive amounts, and theta is the smaller of the two losing corners (positive) |
| Modi.FindLoopNone | transport/modi.py:137-226 | `find_loop` returns None exactly when no rectangle through the entering cell has three positive corners |
| Modi.FindLoopHorizontal | transport/modi.py:198-210 | a loop `find_loop` returns comes from the row-first search: the rectangle (ei, ej), (ei, a), (b, a), (b, ej) with three basic corners, and theta is computed over its odd positions |
| Modi.FindLoopInside | transport/modi.py:137-226 | every cell of a returned loop lies inside the allocation |
| Modi.ThetaOfFour | transport/modi.py:205-209 | on a four-cell loop, theta is the smaller of the entries at positions 1 and 3 |
| Modi.ShiftAlongLoop | transport/modi.py:108-113 | the in-place update of the loop cells, one at a time, adding theta at even positions and taking it at odd ones, yields `Shifted` |
| Modi.RowPairSums | transport/modi.py:109-113 | adding t at one cell of a row and taking it at another keeps every row sum and moves t between the two columns |
| Modi.ShiftedRectangle | transport/modi.py:108-113 | on a rectangle, the update is the two row pairs of rows ei and b |
| Modi.ShiftedRowPair | transport/modi.py:108-113 | the update along two cells of one row is the row pair that adds theta at the first and takes it at the second |
| Modi.ShiftKeepsSums | transport/modi.py:108-113 | the update along a rectangle keeps every row sum and every column sum |
| Modi.ShiftKeepsNonNegative | transport/modi.py:205-209 | with theta the smaller losing corner, the update keeps the allocation non-negative and empties a losing corner |
| Modi.ShiftCost | transport/modi.py:108-119 | the update changes the total cost by theta times c(ei, ej) - c(ei, a) + c(b, a) - c(b, ej) |
| Modi.RowPairCost | transport/modi.py:109-115 | a row pair changes the total cost by t times the difference of its two cells' costs |
| Modi.RectangleGainIsOpportunity | transport/modi.py:75 | when u + v fits the three basic corners, the cost change per unit along the rectangle is the entering cell's opportunity cost |
| Modi.Cleanup | transport/modi.py:122 | every entry below 1e-10 becomes 0 and the others are kept, so the result is non-negative |
| Modi.CleanupLowersCost | transport/modi.py:122-124 | on a non-negative allocation at non-negative costs the cleanup never raises the total cost |
| Modi.CleanupDrift | transport/modi.py:121-122 | on a non-negative allocation the cleanup lowers each row sum by less than n times 1e-10 and each column sum by less than m times 1e-10, and an epsilon entry survives it |
| Modi.UnknownFill | transport/modi.py:55-60 | filling an unknown potential leaves one fewer unknown |
| Modi.FillColumn | transport/modi.py:55-57 | setting v[j] from a known u[i] across a basic cell keeps every known potential derived from a basic cell |
| Modi.FillRow | transport/modi.py:58-60 | setting u[i] from a known v[j] across a basic cell keeps every known potential derived from a basic cell |
| Modi.DerivedWitnesses | transport/modi.py:50-60 | every derived potential other than u[0] fits the cost of a basic cell whose other potential is known |
| Modi.BasicClosure | transport/modi.py:52-60 | after a pass that changed nothing, every positive cell has both or neither of its potentials known |
| Modi.MatchedNext | transport/modi.py:54-60 | a cell seen with both or neither potential known extends the matched prefix |
| Modi.FillPass | transport/modi.py:53-60 | one sweep over the basic list keeps the potentials derived and u[0] = 0 and equals the functional sweep `FillSweep`. A sweep that fills nothing leaves u and v unchanged |
| Modi.FillCell | transport/modi.py:55-60 | for one basic cell: with u[i] known and v[j] unknown, v[j] becomes c[i][j] - u[i]; with v[j] known and u[i] unknown, u[i] becomes c[i][j] - v[j]; either way `changed` is set and nothing else moves. With both or neither known nothing changes. The result equals `FillStep`, and the potentials stay derived |
| Modi.FillFromRow | transport/modi.py:55-57 | v becomes v with v[j] = c[i][j] - u[i] and every other entry unchanged; the potentials stay derived and fewer are unknown |
| Modi.FillFromColumn | transport/modi.py:58-60 | u becomes u with u[i] = c[i][j] - v[j] and every other entry unchanged; the potentials stay derived and fewer are unknown |
| Modi.FillStep | transport/modi.py:55-60 | one cell of the sweep keeps every known potential, leaves the cell's two potentials both known or both unknown, lowers the unknowns when it fills, and changes nothing when it does not |
| Modi.FillSweep | transport/modi.py:54-60 | a sweep keeps every known potential and lowers the unknowns when it fills; a sweep that fills nothing changed nothing and saw every basic cell with both or neither potential known |
| Modi.PotentialsFrom | transport/modi.py:51-60 | the `while changed` loop as a function: it keeps every known potential and stops with every basic cell holding both or neither of its potentials |
| Modi.Potentials | transport/modi.py:44-60 | the potentials of an allocation: u[0] = 0 and the fixpoint of the sweeps from there |
| Modi.ComputePotentials | transport/modi.py:43-60 | the potentials the loop computes are `Potentials`: u[0] = 0, every other known potential fits the cost of a basic cell whose other potential is known, and every positive cell ends with both or neither of its potentials known |
| Modi.Opportunity | transport/modi.py:75 | every opportunity cost is c[i][j] - u[i] - v[j] (a definition) |
| Modi.OptimalIsCertified | transport/modi.py:78-83 | when the least opportunity cost passes the test at -1e-10, all potentials are known, u[0] = 0, every other one fits a basic cell, and every opportunity cost is at least -1e-10 |
| Modi.PrefixAppend | transport/modi.py:36-38 | appending the next numbered step keeps the trace numbered and every earlier trace a prefix |
| Modi.Repaired | transport/modi.py:33-35 | the allocation after the degeneracy check keeps its shape |
| Modi.RepairedCell | transport/modi.py:33-35 | it is the input, or the input with epsilon written into a zero cell that costs no more than any zero cell |
| Modi.RepairedNonNegative | transport/modi.py:33-35 | the repair keeps a non-negative allocation non-negative |
| Modi.Repair | transport/modi.py:33-38 | the allocation becomes `Repaired`: `add_epsilon_allocation` of the input when it is degenerate, else the input; exactly then one numbered step is logged, else the trace is unchanged |
| Modi.Price | transport/modi.py:43-91 | the potentials are `Potentials` and fit the allocation; least is known exactly when every potential is; the entering cell is then the first cell of least opportunity cost in row-major order (`np.argmin`) and least is its opportunity cost; missing potentials stop the round, and it stops as optimal exactly when least is at least -1e-10, with the potentials certifying the allocation |
| Modi.ModiRound | transport/modi.py:30-122 | one round: the allocation is first `Repaired`; least is known exactly when every potential is, and then the entering cell is the first cell of least opportunity cost and least its opportunity cost. The round stops for missing potentials exactly when least is unknown, and as optimal exactly when least is at least -1e-10, with certifying potentials. Every exit leaves the repaired allocation; the missing-loop exit means `find_loop` finds no loop through the entering cell; with no exit the allocation is the cleaned shift of theta along the loop `find_loop` returns (`Pivoted`). The outcome equals the functional `Round` |
| Modi.Pivot | transport/modi.py:93-122 | stops for a missing loop exactly when `find_loop` finds none, and then leaves the allocation unchanged; otherwise the new allocation is the cleanup of the shift of theta along the loop and theta that `find_loop` returns. Shape and non-negativity are kept and the trace grows |
| Modi.Round | transport/modi.py:30-122 | one round as a value: the allocation it leaves keeps its shape, a round never takes the iteration-limit exit, and a round that takes an exit leaves the repaired allocation |
| Modi.Iterate | transport/modi.py:30-122 | one pass of the iteration loop: a round from where the previous rounds left off, recorded as the next round; the trace grows, non-negativity is kept, and an optimal exit is certified |
| Modi.ModiImprovement | transport/modi.py:5-134 | at most maxIterations rounds. The rounds are those `Round` computes, each from the allocation the previous one left, one per iteration, and the result is the last one's allocation. The stop is the last round's exit, or the iteration limit when no round took one (then iterations = maxIterations). The cost is the final allocation's total cost, step 0 records the input and non-negativity is kept. `converged` holds exactly when the run stopped at the optimality test, and then the allocation is certified. With maxIterations = 0 the input is returned unconverged |
| Assignment.Pad | transport/assignment.py:27-30 | a square of side max(m, n) holding the costs in its top-left corner and 0 elsewhere |
| Assignment.Least | transport/assignment.py:36 | the least entry of a vector, one of its entries |
| Assignment.RowReduceZeros | transport/assignment.py:35-37 | after row reduction nothing is negative, every row holds a zero and differences within a row are kept |
| Assignment.ColumnReduceZeros | transport/assignment.py:41-43 | column reduction keeps a non-negative matrix with a zero in every row non-negative, keeps those zeros, puts a zero in every column and keeps differences within a column |
| Assignment.ReducedZeros | transport/assignment.py:27-43 | the padded, reduced matrix is non-negative with a zero in every row and every column |
| Assignment.ZerosFrom | transport/assignment.py:88 | `np.where(row == 0)`: exactly the zero positions, ascending |
| Assignment.ZeroCountPositive | transport/assignment.py:88-89 | a row has zero entries exactly when it holds a zero |
| Assignment.MaxCount | transport/assignment.py:58-59 | `counts.max() if counts.size else 0`: an entry no smaller than any, or 0 for no entries |
| Assignment.CoverZeros | transport/assignment.py:47-69 | covers a row exactly when it holds a zero and a column exactly when it holds a zero; the line count is the number of covered lines, at most 2k |
| Assignment.CoverComplete | transport/assignment.py:60-61 | when no uncovered line holds a zero, the covered lines are exactly those holding a zero |
| Assignment.CoverLine | transport/assignment.py:56-67 | one round covers the first row of the largest count when it is at least the largest column count, else the first column of the largest count; exactly one more line is covered and every covered line holds a zero |
| Assignment.CountTrueSet | transport/assignment.py:64-67 | covering an uncovered line adds one to the line count |
| Assignment.UncoveredMask | transport/assignment.py:73 | marks exactly the cells whose row and column are both uncovered (a definition) |
| Assignment.AdjustProperties | transport/assignment.py:71-80 | covered cells keep their value. Uncovered cells all drop by the same amount and stay non-negative, and one of them becomes zero when there is one. With every cell covered the matrix is unchanged |
| Assignment.RowsWithCount | transport/assignment.py:88-89 | the rows from i on with exactly c zeros, ascending |
| Assignment.RowOrderFrom | transport/assignment.py:88-89 | the rows with at least c zeros, by ascending count and then ascending index |
| Assignment.RowOrder | transport/assignment.py:88-89 | the stable sort on zero counts: every row exactly once, by ascending count, ties by index |
| Assignment.FirstFree | transport/assignment.py:91-95 | the first candidate column not yet assigned, or None exactly when all are assigned |
| Assignment.GreedyConsistent | transport/assignment.py:90-95 | after any sequence of turns every assigned row sits on a zero of its row, its column is recorded, and no two rows share a column |
| Assignment.GreedySound | transport/assignment.py:96-98 | a greedy assignment gives each of the k rows a distinct column holding a zero |
| Assignment.Turn | transport/assignment.py:90-95 | one row's turn takes its first zero column that is still free, as the functional step does |
| Assignment.Turns | transport/assignment.py:90-95 | the turns of the given rows, in order, reach the functional greedy state |
| Assignment.TryAssignment | transport/assignment.py:82-98 | equals the functional greedy assignment. When it succeeds, every row gets a distinct column holding a zero |
| Assignment.PairsOf | transport/assignment.py:120-122 | exactly the pairs (i, a[i]) inside the original matrix, by increasing row |
| Assignment.PairsOfCount | transport/assignment.py:120-122 | with columns below n, one pair per row up to the smaller of the assignment's length and m |
| Assignment.PairsOfDistinct | transport/assignment.py:120-122 | distinct columns in the assignment give distinct columns among the pairs |
| Assignment.PairsBack | transport/assignment.py:117-123 | the loop keeps the pairs inside the original matrix and adds up their original costs |
| Assignment.PairCostNext | transport/assignment.py:123 | adding a pair adds its original cost |
| Assignment.GreedyPairs | transport/assignment.py:117-123 | the kept pairs have increasing rows and distinct columns and lie on zeros, with one per original row when m <= n |
| Assignment.RoundsRepeat | transport/assignment.py:100-115 | on a matrix with a zero in every line, the cover reaches k lines and the adjustment changes nothing |
| Assignment.CoverRound | transport/assignment.py:101-115 | one round logs the current matrix and makes the greedy attempt. A success logs one step, and the next round sees the same matrix |
| Assignment.CoverRounds | transport/assignment.py:100-115 | within the fuel the main loop succeeds exactly when the greedy attempt on the reduced matrix succeeds and some fuel is given, with one logged step |
| Assignment.AssignmentHungarian | transport/assignment.py:5-131 | succeeds exactly when fuel is given and the greedy attempt on the padded reduced matrix succeeds. The pairs then come from that assignment, have increasing rows and distinct columns, lie on zeros of the reduced matrix, number m when m <= n, and cost their original costs. The trace records the padded, row-reduced, reduced and covered matrices |
| AssignmentExample.QuickTest | test_quick.py:14-17 | on the costs [[9,2,7],[6,4,3],[5,8,1]] the greedy assignment of the reduced matrix is rows to columns 1, 0, 2, the pairs are (0,1), (1,0), (2,2) and the total cost is 9 |
| NwcrExample.NwcrFromStep | backend/transport/methods.py:29-46 | one pass of the walk from (i, j), written out: allocate min(remaining supply, remaining demand), lower both remainders, log, and move down and/or right by which remainder hit 0 |
| NwcrExample.QuickStep1 | test_quick.py:6-9 | first pass: 100 to (0, 0) exhausts row 0 and the walk moves down |
| NwcrExample.QuickStep2 | test_quick.py:6-9 | second pass: 30 to (1, 0) exhausts column 0 and the walk moves right |
| NwcrExample.QuickStep3 | test_quick.py:6-9 | third pass: 120 to (1, 1) exhausts row 1 and column 1 together, and the walk moves down and right |
| NwcrExample.QuickStep4 | test_quick.py:6-9 | fourth pass: 125 to (2, 2) exhausts both, and the walk leaves the matrix |
| NwcrExample.QuickCost | test_quick.py:6-9 | the allocation [[100,0,0],[30,120,0],[0,0,125]] costs 4510 |
| NwcrExample.QuickNwcr | test_quick.py:6-9 | on the costs [[8,6,10],[9,12,13],[14,7,16]] with supplies [100,150,125] and demands [130,120,125], NWCR gives [[100,0,0],[30,120,0],[0,0,125]] in four allocation steps after step 0, at total cost 4510 |

## Left out

- The description text of each trace step, the method name, the result dictionary's copies of costs, supply and demand, and `format_allocation_table` are not modelled. A trace step keeps its number, the matrix it records and the remainders.
- Floating point is not modelled: arithmetic is exact on reals. The 1e-10 comparisons of the source are kept as written. The guarantees of exact feasibility for Least Cost and Row Minima are stated for whole-number supplies and demands.
- Numpy arrays are values. Every array the solvers update in place is local to one call, so nothing is lost by the absence of aliasing. The one write that lands on a copy (the increment of doubly covered cells in `adjust_matrix`) is modelled as having no effect.
- Methods.LeastCost: with non-whole data it guarantees only that what remains totals at most 1e-10 on each side, not feasibility. The source stops on that guard too.
- Methods.RowMinima: with non-whole data it guarantees only that every remaining supply or every remaining demand is at most 1e-10, not feasibility.
- Methods.VamSelect: its own contract says only that the chosen cell is active. Which line and which cell it chooses is stated by VamSelectRow, VamSelectRowCell, VamSelectColumn and VamSelectColumnCell.
- Modi.ModiImprovement: requires at least one row and one column. With none, the source fails on `ui[0] = 0` or on the minimum of an empty array.
- Modi.ModiImprovement: does not state that row and column sums are kept. The epsilon repair adds 1e-10, and the cleanup removes amounts below 1e-10. ShiftKeepsSums and CleanupDrift state the two effects separately.
- Modi.ModiImprovement: does not state that the cost falls from round to round or that a certified allocation is optimal. Linear-programming duality is not part of this model.
- Modi.ComputePotentials: states that the result is the fixpoint `Potentials` and that each known potential fits the cost of the basic cell it came from. It does not state that u + v equals the cost on every basic cell, which the source does not check: a basic cell whose two potentials are already known is skipped, so when the basic cells contain a cycle the closing cell need not fit.
- Modi.FindLoopRectangle: which rectangle is returned when several exist (the first in the order of the basic list) is not characterised. The search only ever finds four-cell loops, since it stops extending at four cells.
- Assignment.AssignmentHungarian: takes a fuel bound on the rounds of the main loop. The source repeats forever when the greedy attempt fails, because its cover always covers every line and its adjustment then changes nothing. None stands for running out of fuel, which in the model happens exactly when the fuel is 0 or the first attempt fails.
- Assignment.CoverZeros: the zero counts are held as reals so that the first-maximum scan is shared with the other solvers. They are exact counts.
- A ragged cost list and an empty cost list with an empty supply, which numpy rejects while building or indexing the array, come back as the errors `RaggedCosts` and `MissingColumnAxis`. The source's message texts are not modelled.
