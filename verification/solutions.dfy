/** Consistency of a partly filled board with a full solution, and the fact
    that the naked-single and hidden-single steps never rule a solution out. */
module Solutions {
  import opened Grid
  import opened Validator
  import opened Permutations
  import opened Candidates

  /** Cell x of a working board is consistent with cell y of a solution: an
      empty cell allows anything, a fixed digit must match, and a candidate
      list must contain the solution's digit. */
  predicate CellAgrees(x: Cell, y: Cell)
  {
    match x
    case Empty => true
    case Fixed(v) => y == Fixed(v)
    case Cands(ds) => y.Fixed? && y.d in ds
  }

  /** Every cell of b is consistent with the same cell of sol. */
  predicate Agrees(b: Board, sol: Board)
  {
    forall i: Idx, j: Idx {:trigger CellAgrees(b[i][j], sol[i][j])} :: CellAgrees(b[i][j], sol[i][j])
  }

  /** Every cell of a solution holds a digit. */
  lemma SolutionCellFixed(sol: Board, r: Idx, c: Idx)
    requires IsSolution(sol)
    ensures sol[r][c].Fixed?
  {
    assert IsPermutation(GetRow(sol, r));
    PermutationCellFixed(sol[r], c);
  }

  /** Two different cells sharing a row, column or box of a solution hold
      different digits. */
  lemma SolutionDistinctInUnit(sol: Board, r: Idx, c: Idx, r2: Idx, c2: Idx)
    requires IsSolution(sol) && SharesUnit(r, c, r2, c2) && (r != r2 || c != c2)
    ensures sol[r][c] != sol[r2][c2]
  {
    if r2 == r {
      assert IsPermutation(GetRow(sol, r));
      PermutationDistinct(sol[r], c, c2);
    } else if c2 == c {
      assert IsPermutation(GetColumn(sol, c));
      PermutationDistinct(GetColumn(sol, c), r, r2);
    } else {
      BoxDistinct(sol, r, c, r2, c2);
    }
  }

  lemma BoxDistinct(sol: Board, r: Idx, c: Idx, r2: Idx, c2: Idx)
    requires IsPermutation(GetSquare(sol, SquareOf(r, c)))
    requires SquareOf(r, c) == SquareOf(r2, c2) && (r != r2 || c != c2)
    ensures sol[r][c] != sol[r2][c2]
  {
    var s := SquareOf(r, c);
    BoxCellOf(r, c);
    BoxCellOf(r2, c2);
    var box := GetSquare(sol, s);
    assert box[IndexInBox(r, c)] == sol[r][c];
    assert box[IndexInBox(r2, c2)] == sol[r2][c2];
    PermutationDistinct(box, IndexInBox(r, c), IndexInBox(r2, c2));
  }

  /** A cell's digit in a solution is not fixed anywhere else in its row,
      column or box of a consistent board, so the cell's candidate list
      contains it. */
  lemma SolutionValueIsCandidate(b: Board, r: Idx, c: Idx, sol: Board)
    requires IsSolution(sol) && Agrees(b, sol) && !b[r][c].Fixed?
    ensures sol[r][c].Fixed? && sol[r][c].d in CandidatesOf(b, r, c)
  {
    SolutionCellFixed(sol, r, c);
    var v := sol[r][c].d;
    if FixedInScope(b, r, c, v) {
      var r2: Idx, c2: Idx :| SharesUnit(r, c, r2, c2) && b[r2][c2] == Fixed(v);
      assert CellAgrees(b[r2][c2], sol[r2][c2]);
      SolutionDistinctInUnit(sol, r, c, r2, c2);
    }
  }

  /** The naked-single step keeps a board consistent with a solution. */
  lemma CompleteCellKeepsSolution(b: Board, r: Idx, c: Idx, sol: Board)
    requires IsSolution(sol) && Agrees(b, sol) && !b[r][c].Fixed?
    ensures Agrees(CompleteCell(b, r, c).0, sol)
  {
    SolutionValueIsCandidate(b, r, c, sol);
    CompleteCellWrites(b, r, c);
    var b2 := CompleteCell(b, r, c).0;
    assert CellAgrees(b2[r][c], sol[r][c]);
    ChangeOneAgrees(b, b2, r, c, sol);
  }

  /** In a group with no empty cell that is consistent with a permutation,
      the only cell that can take digit d is where the permutation has d. */
  lemma UniqueHolderIsSolution(g: seq<Cell>, sg: seq<Cell>, k: int, d: Digit)
    requires |g| == |sg| && IsPermutation(sg)
    requires forall t :: 0 <= t < |g| ==> !g[t].Empty? && CellAgrees(g[t], sg[t])
    requires 0 <= k < |g| && Holds(g[k], d) && Count(g, d) == 1
    ensures sg[k] == Fixed(d)
  {
    var t := PermutationHasDigit(sg, d);
    assert CellAgrees(g[t], sg[t]);
    assert Holds(g[t], d);
    CountOne(g, d, k);
  }

  /** The hidden-single step keeps a board with no empty cell consistent
      with a solution. */
  lemma HiddenSingleKeepsSolution(b: Board, r: Idx, c: Idx, sol: Board)
    requires IsSolution(sol) && Agrees(b, sol) && NoEmpty(b) && b[r][c].Cands?
    ensures Agrees(HiddenSingle(b, r, c).0, sol)
  {
    var res := HiddenSingle(b, r, c);
    if res.1 {
      HiddenDigitIsSolution(b, r, c, sol);
      ChangeOneAgrees(b, res.0, r, c, sol);
    }
  }

  /** Changing one cell to a value consistent with the solution keeps the
      board consistent. */
  lemma ChangeOneAgrees(b: Board, b2: Board, r: Idx, c: Idx, sol: Board)
    requires Agrees(b, sol) && CellAgrees(b2[r][c], sol[r][c])
    requires forall i: Idx, j: Idx :: (i != r || j != c) ==> b2[i][j] == b[i][j]
    ensures Agrees(b2, sol)
  {
    forall i: Idx, j: Idx
      ensures CellAgrees(b2[i][j], sol[i][j])
    {
      if i != r || j != c {
        assert b2[i][j] == b[i][j];
      }
    }
  }

  /** The digit the hidden-single step writes is the solution's digit. */
  lemma HiddenDigitIsSolution(b: Board, r: Idx, c: Idx, sol: Board)
    requires IsSolution(sol) && Agrees(b, sol) && NoEmpty(b) && b[r][c].Cands?
    requires HiddenSingle(b, r, c).1
    ensures sol[r][c] == HiddenSingle(b, r, c).0[r][c]
  {
    var d := HiddenSingle(b, r, c).0[r][c].d;
    assert Holds(b[r][c], d);
    if Count(GetRow(b, r), d) == 1 {
      assert IsPermutation(GetRow(sol, r));
      RowHolderIsSolution(b, r, c, sol, d);
    } else if Count(GetColumn(b, c), d) == 1 {
      assert IsPermutation(GetColumn(sol, c));
      ColumnHolderIsSolution(b, r, c, sol, d);
    } else {
      assert IsPermutation(GetSquare(sol, SquareOf(r, c)));
      BoxHolderIsSolution(b, r, c, sol, d);
    }
  }

  lemma RowHolderIsSolution(b: Board, r: Idx, c: Idx, sol: Board, d: Digit)
    requires IsPermutation(GetRow(sol, r)) && Agrees(b, sol) && NoEmpty(b)
    requires Holds(b[r][c], d) && Count(GetRow(b, r), d) == 1
    ensures sol[r][c] == Fixed(d)
  {
    UniqueHolderIsSolution(b[r], sol[r], c, d);
  }

  lemma ColumnHolderIsSolution(b: Board, r: Idx, c: Idx, sol: Board, d: Digit)
    requires IsPermutation(GetColumn(sol, c)) && Agrees(b, sol) && NoEmpty(b)
    requires Holds(b[r][c], d) && Count(GetColumn(b, c), d) == 1
    ensures sol[r][c] == Fixed(d)
  {
    var col, solCol := GetColumn(b, c), GetColumn(sol, c);
    forall t | 0 <= t < 9
      ensures !col[t].Empty? && CellAgrees(col[t], solCol[t])
    {
      assert col[t] == b[t][c] && solCol[t] == sol[t][c];
    }
    assert col[r] == b[r][c];
    UniqueHolderIsSolution(col, solCol, r, d);
    assert solCol[r] == sol[r][c];
  }

  lemma BoxHolderIsSolution(b: Board, r: Idx, c: Idx, sol: Board, d: Digit)
    requires IsPermutation(GetSquare(sol, SquareOf(r, c))) && Agrees(b, sol) && NoEmpty(b)
    requires Holds(b[r][c], d) && Count(GetSquare(b, SquareOf(r, c)), d) == 1
    ensures sol[r][c] == Fixed(d)
  {
    var s := SquareOf(r, c);
    BoxCellOf(r, c);
    var k := IndexInBox(r, c);
    var box, solBox := GetSquare(b, s), GetSquare(sol, s);
    assert box[k] == b[r][c];
    assert solBox[k] == sol[r][c];
    forall t | 0 <= t < 9
      ensures !box[t].Empty? && CellAgrees(box[t], solBox[t])
    {
      assert box[t] == b[BoxRow(s, t)][BoxCol(s, t)];
    }
    UniqueHolderIsSolution(box, solBox, k, d);
  }
}
