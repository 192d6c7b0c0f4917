# Sudoku solving engine — a Dafny model

This project models the solving engine of a small Angular Sudoku solver,
`AppComponent` in `src/app/app.component.ts`. The engine has two phases:

- **Constraint propagation** (`onValueCellConstraint`, run in a loop by `solve`):
  - the naked-single sweep gives every empty cell either its only possible digit or its candidate list;
  - the hidden-single sweep fixes a candidate that occurs once in the cell's row, column or box. The source loses this write for the column and the box (see Findings). The model's sweep makes the intended write; `Candidates.HiddenSingleAsWritten` keeps the code as written;
  - the candidate lists are then reset to empty cells.
- **Depth-first search** (`backtrackBased`): at the first empty cell it computes the candidates. Then:
  - if that already solves the board, the board is returned;
  - if the cell got a candidate list, each candidate is tried on its own copy of the board, and the search ends at that cell;
  - if the cell got its only candidate as a digit, the scan moves on to the next cell on the same board.

The validator (`compare`, `isSolved`) decides when a board is solved.

A board is a 9×9 grid of cells. A cell is one of:

- `Empty` — the text `"0"`;
- `Fixed(d)` — a digit text `"1"`..`"9"`;
- `Cands(ds)` — the transient candidate array the engine writes into a cell.

The source's rows are keyed `"1"`..`"9"`; they are rows 0..8 here. Columns are 0..8 as in the source.

Modules, following the structure of the source:

- `Grid` (grid.dfy) has:
  - the box table `SQUARE_COORDINATES`;
  - `getRow`, `getColumn` and `getSquare`;
  - the box geometry;
  - the board-update helper `Place`;
  - the count of unfixed cells, which bounds the search.
- `Validator` and `Permutations` (validator.dfy) have `compare`, implemented as sort-and-compare, and `isSolved`.
- `Candidates` (candidates.dfy) has:
  - `completeCell` (naked single);
  - `appearsOnlyOnce` and the hidden-single step;
  - the source's own hidden-single code, for comparison.
- `Solutions` (solutions.dfy): a board *agrees* with a solution when:
  - every fixed digit matches;
  - every candidate list contains the solution's digit.

  Neither step of the engine ever breaks this agreement.
- `Propagation` (propagation.dfy) has the three sweeps of one `onValueCellConstraint` pass.
- `Search` (search.dfy) has `backtrackBased` and the `solve` driver. It also proves:
  - soundness;
  - completeness;
  - the dead-end behaviour.
- `Wrappers` (wrappers.dfy) has `Option`, which models the source's `Board | false` result.

The source's `isSolved` checks the nine rows, the nine columns and only boxes 1..8. The comment above the loop says `// check all squares` (src/app/app.component.ts:207), yet the loop stops at `s < 9`. The model keeps the code's loop. `Validator.BoxNineFollows` proves that box 9 is then a permutation as well. So `Validator.IsSolved` holds exactly when all 27 units are permutations, and the two readings agree.

## Model

| member | source | states |
|---|---|---|
| Grid.SquareOf | src/app/app.component.ts:24-34 | the box id in the table is `3*(r/3) + c/3 + 1`, always in 1..9 |
| Grid.SquareOfBoxCell | src/app/app.component.ts:24-34 | the k-th cell listed for box s lies in box s |
| Grid.BoxCellOf | src/app/app.component.ts:24-34 | every cell is the one listed for its own box at its own index, so box ids and in-box indices are a bijection with cells |
| Grid.GetRow | src/app/app.component.ts:92-94 | the row holds the nine cells of row r, left to right |
| Grid.GetColumn | src/app/app.component.ts:96-103 | the column holds the nine cells of column c, top to bottom |
| Grid.GetSquare | src/app/app.component.ts:105-116 | box s lists its nine cells row by row; an id outside 1..9 yields the empty list |
| Grid.ScanSquareIsBox | src/app/app.component.ts:105-116 | the source's scan, which collects every cell whose table entry equals s, yields exactly the nine cells of box s in row-major order; it yields nothing for an id outside 1..9 |
| Grid.RowPartIsSlice | src/app/app.component.ts:108-114 | one row of that scan contributes the box's three columns when the row is in the box's band, and nothing otherwise |
| Grid.UnfixedShrinks | src/app/app.component.ts:247-292 | a board that keeps every digit has no more unfixed cells; it has strictly fewer when it fixes a new cell |
| Grid.FixingDecreasesUnfixed | src/app/app.component.ts:226-229 | placing a digit in a cell without one removes exactly one unfixed cell |
| Grid.ReplacingUnfixedKeepsCount | src/app/app.component.ts:146-151 | writing a candidate list into an empty cell leaves the count alone |
| Candidates.UsedNumbers | src/app/app.component.ts:124-128 | 27 cells: the row of (r, c), then its column, then its box |
| Candidates.UsedNumbersScope | src/app/app.component.ts:123-129 | digit d occurs as a fixed cell in the concatenated row, column and box exactly when some cell sharing a unit with (r, c) holds d; empty cells and candidate arrays rule nothing out |
| Candidates.Possibilities | src/app/app.component.ts:130-135 | the loop over p = 1..9 keeps exactly the digits not used, in ascending order |
| Candidates.CandidatesOf | src/app/app.component.ts:121-136 | the candidate list is ascending and contains d iff no cell sharing a unit holds d |
| Candidates.CandidateListUnique | src/app/app.component.ts:130-135 | only one list is ascending with exactly those digits, so the candidate list is determined by the board |
| Candidates.CompleteCell | src/app/app.component.ts:137-152 | the cell becomes non-empty; the result is true iff it became a digit; no other cell changes |
| Candidates.CompleteCellWrites | src/app/app.component.ts:137-152 | when true, the written digit is the only candidate; when false, the cell holds the full candidate list, whose length is not 1 (possibly empty) |
| Candidates.Count | src/app/app.component.ts:165-172 | the number of cells of a unit that hold d or list d never exceeds the unit's size |
| Candidates.CountZero | src/app/app.component.ts:165-172 | the count is 0 iff no cell of the unit holds or lists d |
| Candidates.CountOne | src/app/app.component.ts:165-173 | for a cell k that holds or lists d, the count is 1 iff no other cell does |
| Candidates.FirstUnique | src/app/app.component.ts:163-179 | the index found is the first candidate whose count is 1, or the end of the list when there is none |
| Candidates.AppearsOnlyOnce | src/app/app.component.ts:155-182 | true iff some candidate occurs once in the unit; the digit written is the first such candidate; false leaves the board as it was; no other cell changes |
| Candidates.HiddenSingle | src/app/app.component.ts:264-281 | true iff one of the three units has a unique candidate. When the row has one, the cell gets the row's first unique candidate. Otherwise, when the column has one, it gets the column's first. Otherwise it gets the box's first. When false, nothing changes. No other cell ever changes |
| Candidates.HiddenSingleAsWritten | src/app/app.component.ts:169-179 | the step as the source writes it: the same result flag as the corrected step. With a row hit the board is the corrected step's board. Without one the board is unchanged |
| Candidates.HiddenSingleCanDuplicate | src/app/app.component.ts:163-179 | the step can fix a digit that is already fixed in the cell's column: it counts only within one unit and never looks for a fixed copy elsewhere |
| Candidates.HiddenSingleLosesWrite | src/app/app.component.ts:173-176 | when the unique candidate is found only through the column or the box, the source's version reports progress but fixes no cell, while the corrected step fixes (r, c) |
| Validator.Insert | src/app/app.component.ts:184-191 | inserting into a sorted list keeps it sorted and adds exactly one element |
| Validator.Sort | src/app/app.component.ts:184-191 | the sort returns a sorted permutation of its input |
| Validator.SortedUnique | src/app/app.component.ts:184-191 | two sorted lists with the same elements are equal, so the positionwise comparison after sorting decides equality of contents |
| Validator.Compare | src/app/app.component.ts:184-191 | the result is true iff the two lists are equal as multisets |
| Validator.RowsPassIff | src/app/app.component.ts:197-200 | the row loop accepts iff every row is a permutation of 1..9 |
| Validator.ColumnsPassIff | src/app/app.component.ts:202-205 | the column loop accepts iff every column is a permutation of 1..9 |
| Validator.BoxesPassIff | src/app/app.component.ts:207-210 | the box loop, over ids 1..8, accepts iff boxes 1..8 are permutations of 1..9 |
| Validator.BoxNineFollows | src/app/app.component.ts:193-212 | when every row, column and box 1..8 is a permutation, so is box 9 |
| Validator.IsSolved | src/app/app.component.ts:193-212 | true iff all nine rows, all nine columns and all nine boxes hold each digit exactly once |
| Permutations.PermutationDistinct | src/app/app.component.ts:194 | a unit equal as a multiset to "1".."9" never holds the same cell twice |
| Solutions.SolutionValueIsCandidate | src/app/app.component.ts:121-136 | for a board agreeing with a solution, the solution's digit is never ruled out of a cell's candidates |
| Solutions.SolutionDistinctInUnit | src/app/app.component.ts:193-212 | two different cells sharing a unit of a solved board hold different digits |
| Solutions.CompleteCellKeepsSolution | src/app/app.component.ts:137-152 | the naked-single step keeps every solution the board agrees with |
| Solutions.HiddenSingleKeepsSolution | src/app/app.component.ts:264-281 | on a board without empty cells, the hidden-single step writes the solution's own digit, so it keeps every solution |
| Propagation.NakedSweep | src/app/app.component.ts:250-257 | every empty cell from (r, c) on gets exactly what `completeCell` gives it on the board the sweep sees there: the earlier cells as already swept, the later ones as they were. That is its only candidate as a digit, otherwise its whole candidate list. Cells before (r, c) and cells already filled are untouched. The result is true iff some cell got a digit. Every solution the board agrees with is kept |
| Propagation.NakedSweepFills | src/app/app.component.ts:250-257 | after the full sweep no cell is empty |
| Propagation.HiddenSweep | src/app/app.component.ts:261-281 | every candidate-list cell from (r, c) on gets exactly what the hidden-single step gives it on the board the sweep sees there. Only candidate-list cells change, and each one only to a digit from its own list. The result is true iff some cell got a digit. On a board without empty cells, every solution is kept |
| Propagation.ResetCandidates | src/app/app.component.ts:283-290 | every candidate list becomes empty again; every other cell is kept |
| Propagation.ConstraintPass | src/app/app.component.ts:243-292 | afterwards no candidate list is left and every digit of the input is kept. The result is true iff a cell that had no digit now has one. It is true whenever some empty cell has exactly one candidate. It is also true whenever, after the naked-single sweep, some candidate list has a candidate unique in its row, column or box |
| Propagation.NakedSingleFixes | src/app/app.component.ts:250-257 | a naked single at (i, j) gets a digit in the sweep, or some cell before (i, j) in the sweep order that had none gets one; either way the sweep fixes a new cell |
| Propagation.HiddenSingleFixes | src/app/app.component.ts:258-281 | a hidden single at (i, j) gets a digit in the sweep, or some cell before (i, j) in the sweep order that had none gets one; either way the sweep fixes a new cell |
| Propagation.PassProgress | src/app/app.component.ts:247-292 | a pass never increases the number of unfixed cells and strictly decreases it when it reports progress |
| Propagation.PassKeepsSolution | src/app/app.component.ts:247-292 | a pass never rules out a solution the board agrees with |
| Search.Backtrack | src/app/app.component.ts:215-241 | a returned board is a full solution that keeps every digit of the input |
| Search.Scan | src/app/app.component.ts:217-240 | the row-by-row scan returns only solutions that keep the board's digits |
| Search.TryCandidates | src/app/app.component.ts:225-236 | trying the candidates in turn, each on its own copy with the candidate placed, returns only solutions that keep the board's digits |
| Search.TryFinds | src/app/app.component.ts:226-233 | if the branch for candidate k finds a solution, the loop starting at any earlier candidate finds one too |
| Search.CompleteCellCount | src/app/app.component.ts:221 | filling a blank cell in the search keeps every digit; it removes one unfixed cell when the cell got a digit and none otherwise |
| Search.LooselyZero | src/app/app.component.ts:220 | `== 0` holds for the empty cell and for an empty candidate array, never for a digit or a non-empty array |
| Search.BacktrackWithoutBlank | src/app/app.component.ts:217-240 | a board with no cell loosely equal to 0 yields no result, even when already solved, because the solution test only runs after a cell is filled |
| Search.BacktrackDeadEnd | src/app/app.component.ts:225-235 | if some empty cell has no candidate, the search returns no board |
| Search.LastCellSingle | src/app/app.component.ts:137-143 | when every other cell holds its solution digit, the last cell has exactly one candidate |
| Search.BacktrackComplete | src/app/app.component.ts:215-241 | on a board without candidate lists, with an empty cell, agreeing with some solution, the search always finds a solution |
| Search.Propagate | src/app/app.component.ts:72-75 | repeated passes keep every digit and every solution, and leave no candidate list |
| Search.Solve | src/app/app.component.ts:59-90 | a returned board is a full solution that keeps every digit of the puzzle |
| Search.SolveComplete | src/app/app.component.ts:59-90 | every puzzle that agrees with some solution is solved |
| Search.SolveSolvedBoard | src/app/app.component.ts:59-90 | an already solved board comes back unchanged |

## Left out

- Angular plumbing is not modelled:
  - the form built in the constructor and `buildForm`;
  - `puzzle.get(r).setValue(row)`;
  - the `JSON.parse(JSON.stringify(...))` re-copies into `workingBoard`;
  - `console.log`.

  The model threads one immutable board value instead. Copies are implicit, so every search branch works on its own board.
- `solve` tests `isSolved(this.puzzle.value)`, the form, after each pass. The model tests the working board. The form is synchronised with the board only through the `setValue` side effects above.
- The next pass in `solve` reads `this.workingBoard`. `completeCell` and `appearsOnlyOnce` re-copy that field from the form whenever they report a hit, including the column and box hits of `appearsOnlyOnce` that fix no cell. The copy can still hold candidate arrays that the pass resets only on its own board. The model lets every pass continue on the board the previous pass returned, with its candidate lists reset.
- The form overwrite in the hidden-single step is not modelled. For the column and the box, the source writes `setValue` with a list that is a column or box copy into form row r.
- Propagation.HiddenSweep, Propagation.ConstraintPass: describe the intended pass, not the source's. They use the corrected `Candidates.HiddenSingle`, which fixes (r, c) on a column or box hit. The source leaves its board unchanged there, yet reports progress. The source's step is `Candidates.HiddenSingleAsWritten`, and `Candidates.HiddenSingleLosesWrite` states the difference.
- Propagation.ConstraintPass: no promise that a pass on a puzzle without duplicate digits creates no duplicate. Neither the source nor the model keeps that. Take row 0 = `0 0 5 6 7 8 9 3 4`, row 1 = `0 3 4 2 5 9 6 7 8`, a 1 at row 5, column 1, and every other cell empty. The naked sweep gives (0, 0) the list [1, 2], then fixes (0, 1) = 2 and (1, 0) = 1. The row hidden single then fixes (0, 0) = 1, so column 0 holds 1 twice. The puzzle has no solution: (1, 0) must be 1, which forces (0, 0) = 2 and (0, 1) = 1, and that clashes with the 1 at (5, 1). So the duplicate does not contradict `Propagation.PassKeepsSolution`. `Candidates.HiddenSingleCanDuplicate` states the step that does it. What is proved is soundness relative to a solution: `Propagation.PassKeepsSolution`.
- Input text other than `"0"`..`"9"` is not modelled. The engine's cells are the three cases above.
- JavaScript loose equality:
  - `board[r][c] == '0'` in the pass is true only for `Empty`;
  - `board[r][c] == 0` in the search is also true for an empty candidate array (`Search.LooselyZero`).
- `Validator.Sort`: sorts by a total order of its own rather than JavaScript's default string order. Either order makes `compare` a multiset-equality test, and that is what the contract states.
- `Validator.Compare`: treats two candidate lists with the same digits as equal. JavaScript's `===` compares arrays by identity. The validator only ever compares against the list of digit texts, so this never matters there.
- `for (const r in board)` iterates the keys `"1"`..`"9"` in ascending order, which is row order here.
- `Search.Propagate`: does not state that the last pass made no progress when the loop stops on an unsolved board. Only preservation facts are stated.
- Running time, and the exponential worst case of the search, are not modelled. Termination is proved through the number of unfixed cells.

## Findings

| source | as written | input that shows it | evidently intended | confidence | as-written member | corrected member |
|---|---|---|---|---|---|---|
| src/app/app.component.ts:173-176 | `appearsOnlyOnce` writes the unique candidate into `row[c]`. For the column and the box, `row` is a fresh copy, so no board cell changes, yet `updated` becomes true | a candidate-list cell whose every candidate is also listed in another cell of its row, while one candidate d occurs in no other cell of its column | fix cell (r, c) to d, as the row case does | high (not executed) | Candidates.HiddenSingleLosesWrite | Candidates.HiddenSingle |
