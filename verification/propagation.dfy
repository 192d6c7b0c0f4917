/** One constraint-propagation pass over the board (the source's
    `onValueCellConstraint`): a naked-single sweep, a hidden-single sweep,
    then every leftover candidate list goes back to an empty cell. */
module Propagation {
  import opened Grid
  import opened Validator
  import opened Candidates
  import opened Solutions

  /** Every solution b is consistent with, b2 is consistent with too. */
  ghost predicate KeepsSolutions(b: Board, b2: Board)
  {
    forall sol: Board {:trigger Agrees(b2, sol)} :: IsSolution(sol) && Agrees(b, sol) ==> Agrees(b2, sol)
  }

  lemma KeepsSolutionsChain(b0: Board, b1: Board, b2: Board)
    requires KeepsSolutions(b0, b1) && KeepsSolutions(b1, b2)
    ensures KeepsSolutions(b0, b2)
  {
    forall sol: Board | IsSolution(sol) && Agrees(b0, sol)
      ensures Agrees(b2, sol)
    {
      assert Agrees(b1, sol);
    }
  }

  lemma CompleteCellKeepsSolutions(b: Board, r: Idx, c: Idx)
    requires !b[r][c].Fixed?
    ensures KeepsSolutions(b, CompleteCell(b, r, c).0)
  {
    forall sol: Board | IsSolution(sol) && Agrees(b, sol)
      ensures Agrees(CompleteCell(b, r, c).0, sol)
    {
      CompleteCellKeepsSolution(b, r, c, sol);
    }
  }

  /** Changing only cell (r, c) fixes a new cell exactly when (r, c) goes from
      no digit to a digit. */
  lemma NewlyFixedAt(b: Board, b2: Board, r: Idx, c: Idx)
    requires forall i: Idx, j: Idx :: (i != r || j != c) ==> b2[i][j] == b[i][j]
    ensures NewlyFixed(b, b2) <==> !b[r][c].Fixed? && b2[r][c].Fixed?
  {
    if NewlyFixed(b, b2) {
      var i: Idx, j: Idx :| !b[i][j].Fixed? && b2[i][j].Fixed?;
      assert i == r && j == c;
    }
  }

  /** Over two steps that each keep fixed digits, a cell is newly fixed
      exactly when one of the steps fixed it. */
  lemma NewlyFixedChain(b0: Board, b1: Board, b2: Board)
    requires KeepsFixed(b0, b1) && KeepsFixed(b1, b2)
    ensures NewlyFixed(b0, b2) <==> NewlyFixed(b0, b1) || NewlyFixed(b1, b2)
  {
    if NewlyFixed(b0, b1) {
      var i: Idx, j: Idx :| !b0[i][j].Fixed? && b1[i][j].Fixed?;
      assert b2[i][j].Fixed?;
    }
    if NewlyFixed(b1, b2) {
      var i: Idx, j: Idx :| !b1[i][j].Fixed? && b2[i][j].Fixed?;
      assert !b0[i][j].Fixed?;
    }
    if NewlyFixed(b0, b2) {
      var i: Idx, j: Idx :| !b0[i][j].Fixed? && b2[i][j].Fixed?;
      if b1[i][j].Fixed? {
        assert NewlyFixed(b0, b1);
      } else {
        assert NewlyFixed(b1, b2);
      }
    }
  }

  /** Cell (i, j) comes before cell (r, c) in the row-by-row, left-to-right
      order of the sweeps; column 9 stands for the end of row r. */
  predicate Before(i: Idx, j: Idx, r: nat, c: nat)
  {
    i < r || (i == r && j < c)
  }

  /** The board a sweep sees when it reaches cell (i, j): the cells before
      (i, j) as the sweep left them in done, the others as they were in b. */
  function SweepView(b: Board, done: Board, i: Idx, j: Idx): (v: Board)
    ensures forall x: Idx, y: Idx {:trigger v[x][y]} :: v[x][y] == (if Before(x, y, i, j) then done[x][y] else b[x][y])
  {
    seq(9, x requires 0 <= x < 9 => seq(9, y requires 0 <= y < 9 => if Before(x, y, i, j) then done[x][y] else b[x][y]))
  }

  /** Every cell from (r, c) on that was empty in b holds, in done, what the
      naked-single step gives it on the board the sweep saw at that cell. */
  predicate NakedFilled(b: Board, done: Board, r: nat, c: nat)
  {
    forall i: Idx, j: Idx {:trigger SweepView(b, done, i, j)} :: !Before(i, j, r, c) && b[i][j].Empty? ==>
      done[i][j] == NakedCell(CandidatesOf(SweepView(b, done, i, j), i, j))
  }

  /** Every cell from (r, c) on that held a candidate list in b holds, in
      done, what the hidden-single step gives it on the board the sweep saw
      at that cell. */
  predicate HiddenFilled(b: Board, done: Board, r: nat, c: nat)
  {
    forall i: Idx, j: Idx {:trigger SweepView(b, done, i, j)} :: !Before(i, j, r, c) && b[i][j].Cands? ==>
      done[i][j] == HiddenSingle(SweepView(b, done, i, j), i, j).0[i][j]
  }

  /** The naked-single sweep passing over a cell that is not empty, or from
      the end of row r to the next row, keeps what its later cells got. */
  lemma NakedFilledSkip(b: Board, done: Board, r: nat, c: nat, r2: nat, c2: nat)
    requires (r2 == r && c2 == c + 1 && r < 9 && c < 9 && !b[r][c].Empty?) || (r2 == r + 1 && c2 == 0 && c == 9)
    requires NakedFilled(b, done, r2, c2)
    ensures NakedFilled(b, done, r, c)
  {
    assert forall i: Idx, j: Idx :: !Before(i, j, r, c) && b[i][j].Empty? ==> !Before(i, j, r2, c2);
  }

  /** The same for the hidden-single sweep and a cell without a candidate
      list. */
  lemma HiddenFilledSkip(b: Board, done: Board, r: nat, c: nat, r2: nat, c2: nat)
    requires (r2 == r && c2 == c + 1 && r < 9 && c < 9 && !b[r][c].Cands?) || (r2 == r + 1 && c2 == 0 && c == 9)
    requires HiddenFilled(b, done, r2, c2)
    ensures HiddenFilled(b, done, r, c)
  {
    assert forall i: Idx, j: Idx :: !Before(i, j, r, c) && b[i][j].Cands? ==> !Before(i, j, r2, c2);
  }

  /** At the start cell of a sweep the view is the board itself when the
      sweep has changed nothing before it. */
  lemma ViewAtStart(b: Board, done: Board, r: Idx, c: Idx)
    requires forall x: Idx, y: Idx :: Before(x, y, r, c) ==> done[x][y] == b[x][y]
    ensures SweepView(b, done, r, c) == b
  {
    BoardsEqual(SweepView(b, done, r, c), b);
  }

  /** A change at (r, c) is invisible in the view of any later cell, which
      takes (r, c) from done. */
  lemma ViewShift(b: Board, b1: Board, done: Board, r: Idx, c: Idx, i: Idx, j: Idx)
    requires forall x: Idx, y: Idx {:trigger b1[x][y]} :: (x != r || y != c) ==> b1[x][y] == b[x][y]
    requires !Before(i, j, r, c + 1)
    ensures SweepView(b1, done, i, j) == SweepView(b, done, i, j)
  {
    BoardsEqual(SweepView(b1, done, i, j), SweepView(b, done, i, j));
  }

  /** The naked-single sweep from cell (r, c) on: every empty cell gets its
      digit or its candidate list; the result is true when any cell got a
      digit. */
  function NakedSweep(b: Board, r: nat, c: nat): (res: (Board, bool))
    requires r <= 9 && c <= 9
    decreases 9 - r, 9 - c
    ensures forall i: Idx, j: Idx {:trigger res.0[i][j]} :: (Before(i, j, r, c) || !b[i][j].Empty?) ==> res.0[i][j] == b[i][j]
    ensures forall i: Idx, j: Idx {:trigger res.0[i][j]} :: !Before(i, j, r, c) && b[i][j].Empty? ==> !res.0[i][j].Empty?
    ensures KeepsFixed(b, res.0)
    ensures res.1 <==> NewlyFixed(b, res.0)
    ensures KeepsSolutions(b, res.0)
    ensures NakedFilled(b, res.0, r, c)
  {
    if r == 9 then
      (b, false)
    else if c == 9 then
      var rest := NakedSweep(b, r + 1, 0);
      NakedFilledSkip(b, rest.0, r, c, r + 1, 0);
      rest
    else if b[r][c].Empty? then
      var step := CompleteCell(b, r, c);
      var rest := NakedSweep(step.0, r, c + 1);
      NakedStepKeeps(b, step.0, rest.0, r, c, step.1, rest.1);
      NakedStepFills(b, step.0, rest.0, r, c);
      NakedStepFilled(b, step.0, rest.0, r, c);
      CompleteCellKeepsSolutions(b, r, c);
      KeepsSolutionsChain(b, step.0, rest.0);
      (rest.0, step.1 || rest.1)
    else
      var rest := NakedSweep(b, r, c + 1);
      NakedFilledSkip(b, rest.0, r, c, r, c + 1);
      rest
  }

  /** The cell contents stated by NakedFilled carry over one step. */
  lemma NakedStepFilled(b: Board, b1: Board, b2: Board, r: Idx, c: Idx)
    requires b[r][c].Empty? && b1[r][c] == NakedCell(CandidatesOf(b, r, c))
    requires forall i: Idx, j: Idx {:trigger b1[i][j]} :: (i != r || j != c) ==> b1[i][j] == b[i][j]
    requires forall i: Idx, j: Idx {:trigger b2[i][j]} :: (Before(i, j, r, c + 1) || !b1[i][j].Empty?) ==> b2[i][j] == b1[i][j]
    requires NakedFilled(b1, b2, r, c + 1)
    ensures NakedFilled(b, b2, r, c)
  {
    forall i: Idx, j: Idx | !Before(i, j, r, c) && b[i][j].Empty?
      ensures b2[i][j] == NakedCell(CandidatesOf(SweepView(b, b2, i, j), i, j))
    {
      if i == r && j == c {
        StepStart(b, b1, b2, r, c);
      } else {
        NakedLaterCell(b, b1, b2, r, c, i, j);
      }
    }
  }

  /** The cell (r, c) itself keeps what the step wrote, and the sweep sees b
      when it reaches (r, c). */
  lemma StepStart(b: Board, b1: Board, b2: Board, r: Idx, c: Idx)
    requires forall i: Idx, j: Idx {:trigger b1[i][j]} :: (i != r || j != c) ==> b1[i][j] == b[i][j]
    requires forall i: Idx, j: Idx {:trigger b2[i][j]} :: Before(i, j, r, c + 1) ==> b2[i][j] == b1[i][j]
    ensures b2[r][c] == b1[r][c]
    ensures SweepView(b, b2, r, c) == b
  {
    forall x: Idx, y: Idx | Before(x, y, r, c)
      ensures b2[x][y] == b[x][y]
    {
      assert b2[x][y] == b1[x][y];
    }
    ViewAtStart(b, b2, r, c);
  }

  /** A cell after (r, c) keeps, over the step at (r, c), the content
      NakedFilled gives it. */
  lemma NakedLaterCell(b: Board, b1: Board, b2: Board, r: Idx, c: Idx, i: Idx, j: Idx)
    requires forall x: Idx, y: Idx {:trigger b1[x][y]} :: (x != r || y != c) ==> b1[x][y] == b[x][y]
    requires NakedFilled(b1, b2, r, c + 1)
    requires !Before(i, j, r, c + 1) && b[i][j].Empty?
    ensures b2[i][j] == NakedCell(CandidatesOf(SweepView(b, b2, i, j), i, j))
  {
    ViewShift(b, b1, b2, r, c, i, j);
    assert b1[i][j] == b[i][j];
  }

  /** The cell contents stated by HiddenFilled carry over one step. */
  lemma HiddenStepFilled(b: Board, b1: Board, b2: Board, r: Idx, c: Idx)
    requires b[r][c].Cands? && b1[r][c] == HiddenSingle(b, r, c).0[r][c]
    requires forall i: Idx, j: Idx {:trigger b1[i][j]} :: (i != r || j != c) ==> b1[i][j] == b[i][j]
    requires forall i: Idx, j: Idx {:trigger b2[i][j]} :: (Before(i, j, r, c + 1) || !b1[i][j].Cands?) ==> b2[i][j] == b1[i][j]
    requires HiddenFilled(b1, b2, r, c + 1)
    ensures HiddenFilled(b, b2, r, c)
  {
    forall i: Idx, j: Idx | !Before(i, j, r, c) && b[i][j].Cands?
      ensures b2[i][j] == HiddenSingle(SweepView(b, b2, i, j), i, j).0[i][j]
    {
      if i == r && j == c {
        ViewAtStart(b, b2, r, c);
        assert b2[r][c] == b1[r][c];
      } else {
        ViewShift(b, b1, b2, r, c, i, j);
        assert b1[i][j] == b[i][j];
      }
    }
  }

  /** The postcondition of the naked-single sweep carries over one step. */
  lemma NakedStepKeeps(b: Board, b1: Board, b2: Board, r: Idx, c: Idx, u1: bool, u2: bool)
    requires b[r][c].Empty? && !b1[r][c].Empty? && (u1 <==> b1[r][c].Fixed?)
    requires forall i: Idx, j: Idx {:trigger b1[i][j]} :: (i != r || j != c) ==> b1[i][j] == b[i][j]
    requires forall i: Idx, j: Idx {:trigger b2[i][j]} :: (Before(i, j, r, c + 1) || !b1[i][j].Empty?) ==> b2[i][j] == b1[i][j]
    requires KeepsFixed(b1, b2) && (u2 <==> NewlyFixed(b1, b2))
    ensures forall i: Idx, j: Idx :: (Before(i, j, r, c) || !b[i][j].Empty?) ==> b2[i][j] == b[i][j]
    ensures KeepsFixed(b, b2)
    ensures u1 || u2 <==> NewlyFixed(b, b2)
  {
    forall i: Idx, j: Idx | Before(i, j, r, c) || !b[i][j].Empty?
      ensures b2[i][j] == b[i][j]
    {
      assert b1[i][j] == b[i][j];
    }
    NewlyFixedAt(b, b1, r, c);
    NewlyFixedChain(b, b1, b2);
  }

  /** The hidden-single sweep from cell (r, c) on: every cell that holds a
      candidate list is offered to the hidden-single step; the result is true
      when any cell got a digit. */
  function HiddenSweep(b: Board, r: nat, c: nat): (res: (Board, bool))
    requires r <= 9 && c <= 9
    decreases 9 - r, 9 - c
    ensures forall i: Idx, j: Idx {:trigger res.0[i][j]} :: (Before(i, j, r, c) || !b[i][j].Cands?) ==> res.0[i][j] == b[i][j]
    ensures forall i: Idx, j: Idx {:trigger res.0[i][j]} ::
      (res.0[i][j] == b[i][j] || (b[i][j].Cands? && res.0[i][j].Fixed? && res.0[i][j].d in b[i][j].ds))
    ensures KeepsFixed(b, res.0)
    ensures res.1 <==> NewlyFixed(b, res.0)
    ensures NoEmpty(b) ==> NoEmpty(res.0) && KeepsSolutions(b, res.0)
    ensures HiddenFilled(b, res.0, r, c)
  {
    if r == 9 then
      (b, false)
    else if c == 9 then
      var rest := HiddenSweep(b, r + 1, 0);
      HiddenFilledSkip(b, rest.0, r, c, r + 1, 0);
      rest
    else if b[r][c].Cands? then
      var step := HiddenSingle(b, r, c);
      var rest := HiddenSweep(step.0, r, c + 1);
      NewlyFixedAt(b, step.0, r, c);
      NewlyFixedChain(b, step.0, rest.0);
      HiddenStepFilled(b, step.0, rest.0, r, c);
      HiddenStepKeepsSolutions(b, r, c);
      if NoEmpty(b) then
        KeepsSolutionsChain(b, step.0, rest.0);
        (rest.0, step.1 || rest.1)
      else
        (rest.0, step.1 || rest.1)
    else
      var rest := HiddenSweep(b, r, c + 1);
      HiddenFilledSkip(b, rest.0, r, c, r, c + 1);
      rest
  }

  /** Every candidate list becomes an empty cell again; all other cells are
      kept. */
  function ResetCandidates(b: Board): (b2: Board)
    ensures NoCands(b2)
    ensures forall i: Idx, j: Idx {:trigger b2[i][j]} :: !b[i][j].Cands? ==> b2[i][j] == b[i][j]
    ensures forall i: Idx, j: Idx {:trigger b2[i][j]} :: b[i][j].Cands? ==> b2[i][j] == Empty
  {
    seq(9, i requires 0 <= i < 9 => seq(9, j requires 0 <= j < 9 => if b[i][j].Cands? then Empty else b[i][j]))
  }

  /** One propagation pass. Afterwards no candidate list is left, every digit
      of the input is kept, and the result is true exactly when some cell
      without a digit got one. */
  function ConstraintPass(b: Board): (res: (Board, bool))
    ensures NoCands(res.0)
    ensures KeepsFixed(b, res.0)
    ensures res.1 <==> NewlyFixed(b, res.0)
    ensures (exists i: Idx, j: Idx :: HasNakedSingle(b, i, j)) ==> res.1
    ensures var n := NakedSweep(b, 0, 0).0;
      (exists i: Idx, j: Idx :: HasHiddenSingle(n, i, j)) ==> res.1
  {
    var naked := NakedSweep(b, 0, 0);
    var hidden := HiddenSweep(naked.0, 0, 0);
    NakedSinglesFix(b, naked.0);
    HiddenSinglesFix(naked.0, hidden.0);
    var b2 := ResetCandidates(hidden.0);
    NewlyFixedChain(b, naked.0, hidden.0);
    NewlyFixedChain(b, hidden.0, b2);
    assert !NewlyFixed(hidden.0, b2);
    (b2, naked.1 || hidden.1)
  }

  /** A pass that reports progress leaves fewer cells without a digit. */
  lemma PassProgress(b: Board)
    ensures ConstraintPass(b).1 ==> Unfixed(ConstraintPass(b).0) < Unfixed(b)
    ensures Unfixed(ConstraintPass(b).0) <= Unfixed(b)
  {
    UnfixedShrinks(b, ConstraintPass(b).0);
  }

  lemma NakedStepFills(b: Board, b1: Board, b2: Board, r: Idx, c: Idx)
    requires !b1[r][c].Empty?
    requires forall i: Idx, j: Idx {:trigger b1[i][j]} :: (i != r || j != c) ==> b1[i][j] == b[i][j]
    requires forall i: Idx, j: Idx {:trigger b2[i][j]} :: (Before(i, j, r, c + 1) || !b1[i][j].Empty?) ==> b2[i][j] == b1[i][j]
    requires forall i: Idx, j: Idx :: !Before(i, j, r, c + 1) && b1[i][j].Empty? ==> !b2[i][j].Empty?
    ensures forall i: Idx, j: Idx :: !Before(i, j, r, c) && b[i][j].Empty? ==> !b2[i][j].Empty?
  {
    forall i: Idx, j: Idx | !Before(i, j, r, c) && b[i][j].Empty?
      ensures !b2[i][j].Empty?
    {
      if i == r && j == c {
        assert b2[i][j] == b1[i][j];
      } else {
        assert b1[i][j] == b[i][j];
      }
    }
  }

  /** After the naked-single sweep no cell is empty. */
  lemma NakedSweepFills(b: Board)
    ensures NoEmpty(NakedSweep(b, 0, 0).0)
  {
  }

  /** The hidden-single step keeps every solution of a board with no empty
      cell, and leaves no empty cell. */
  lemma HiddenStepKeepsSolutions(b: Board, r: Idx, c: Idx)
    requires b[r][c].Cands?
    ensures NoEmpty(b) ==> NoEmpty(HiddenSingle(b, r, c).0) && KeepsSolutions(b, HiddenSingle(b, r, c).0)
  {
    if NoEmpty(b) {
      HiddenSingleKeepsNoEmpty(b, r, c);
      forall sol: Board | IsSolution(sol) && Agrees(b, sol)
        ensures Agrees(HiddenSingle(b, r, c).0, sol)
      {
        HiddenSingleKeepsSolution(b, r, c, sol);
      }
    }
  }

  lemma HiddenSingleKeepsNoEmpty(b: Board, r: Idx, c: Idx)
    requires NoEmpty(b) && b[r][c].Cands?
    ensures NoEmpty(HiddenSingle(b, r, c).0)
  {
    var b2 := HiddenSingle(b, r, c).0;
    forall i: Idx, j: Idx
      ensures !b2[i][j].Empty?
    {
      if i != r || j != c {
        assert b2[i][j] == b[i][j];
      }
    }
  }

  /** Emptying candidate lists keeps a board consistent with a solution. */
  lemma ResetKeepsSolution(b: Board, sol: Board)
    requires Agrees(b, sol)
    ensures Agrees(ResetCandidates(b), sol)
  {
    var b2 := ResetCandidates(b);
    forall i: Idx, j: Idx
      ensures CellAgrees(b2[i][j], sol[i][j])
    {
      assert CellAgrees(b[i][j], sol[i][j]);
    }
  }

  /** A propagation pass never rules out a solution the board allows. */
  lemma PassKeepsSolution(b: Board, sol: Board)
    requires IsSolution(sol) && Agrees(b, sol)
    ensures Agrees(ConstraintPass(b).0, sol)
  {
    var naked := NakedSweep(b, 0, 0).0;
    NakedSweepFills(b);
    assert Agrees(naked, sol);
    var hidden := HiddenSweep(naked, 0, 0).0;
    assert Agrees(hidden, sol);
    ResetKeepsSolution(hidden, sol);
  }

  /** The same fact for all solutions at once. */
  lemma PassKeepsSolutions(b: Board)
    ensures KeepsSolutions(b, ConstraintPass(b).0)
  {
    forall sol: Board | IsSolution(sol) && Agrees(b, sol)
      ensures Agrees(ConstraintPass(b).0, sol)
    {
      PassKeepsSolution(b, sol);
    }
  }

  /** A cell with a single candidate gets a digit in the naked-single sweep,
      unless an earlier cell of the sweep already got one. */
  lemma NakedSingleFixes(b: Board, n: Board, i: Idx, j: Idx)
    requires KeepsFixed(b, n) && NakedFilled(b, n, 0, 0)
    requires HasNakedSingle(b, i, j)
    ensures n[i][j].Fixed? || exists x: Idx, y: Idx :: Before(x, y, i, j) && !b[x][y].Fixed? && n[x][y].Fixed?
    ensures NewlyFixed(b, n)
  {
    var v := SweepView(b, n, i, j);
    if forall x: Idx, y: Idx :: (v[x][y].Fixed? || b[x][y].Fixed?) ==> v[x][y] == b[x][y] {
      SameFixedSingle(b, n, i, j);
      assert !b[i][j].Fixed? && n[i][j].Fixed?;
    } else {
      var x: Idx, y: Idx :| (v[x][y].Fixed? || b[x][y].Fixed?) && v[x][y] != b[x][y];
      assert Before(x, y, i, j);
      assert !b[x][y].Fixed? && n[x][y].Fixed?;
    }
  }

  /** When the sweep has fixed nothing new before (i, j), the cell sees the
      candidates it has in b, so a single candidate becomes its digit. */
  lemma SameFixedSingle(b: Board, n: Board, i: Idx, j: Idx)
    requires NakedFilled(b, n, 0, 0)
    requires b[i][j].Empty? && |CandidatesOf(b, i, j)| == 1
    requires var v := SweepView(b, n, i, j);
      forall x: Idx, y: Idx :: (v[x][y].Fixed? || b[x][y].Fixed?) ==> v[x][y] == b[x][y]
    ensures n[i][j].Fixed?
  {
    CandidatesDependOnFixed(SweepView(b, n, i, j), b, i, j);
  }

  /** Every naked single of b is caught by a naked-single sweep result n. */
  lemma NakedSinglesFix(b: Board, n: Board)
    requires KeepsFixed(b, n) && NakedFilled(b, n, 0, 0)
    ensures (exists i: Idx, j: Idx :: HasNakedSingle(b, i, j)) ==> NewlyFixed(b, n)
  {
    if exists i: Idx, j: Idx :: HasNakedSingle(b, i, j) {
      var i: Idx, j: Idx :| HasNakedSingle(b, i, j);
      NakedSingleFixes(b, n, i, j);
    }
  }

  /** A candidate-list cell with a candidate unique in its row, column or box
      gets a digit in the hidden-single sweep, unless an earlier cell of the
      sweep already got one. */
  lemma HiddenSingleFixes(n: Board, h: Board, i: Idx, j: Idx)
    requires HiddenFilled(n, h, 0, 0)
    requires forall x: Idx, y: Idx :: h[x][y] == n[x][y] || (n[x][y].Cands? && h[x][y].Fixed?)
    requires HasHiddenSingle(n, i, j)
    ensures h[i][j].Fixed? || exists x: Idx, y: Idx :: Before(x, y, i, j) && !n[x][y].Fixed? && h[x][y].Fixed?
    ensures NewlyFixed(n, h)
  {
    var v := SweepView(n, h, i, j);
    if forall x: Idx, y: Idx :: v[x][y] == n[x][y] {
      BoardsEqual(v, n);
      assert h[i][j].Fixed?;
    } else {
      var x: Idx, y: Idx :| v[x][y] != n[x][y];
      assert Before(x, y, i, j);
      assert h[x][y] != n[x][y];
    }
  }

  /** Every hidden single of n is caught by a hidden-single sweep result h. */
  lemma HiddenSinglesFix(n: Board, h: Board)
    requires HiddenFilled(n, h, 0, 0)
    requires forall x: Idx, y: Idx :: h[x][y] == n[x][y] || (n[x][y].Cands? && h[x][y].Fixed?)
    ensures (exists i: Idx, j: Idx :: HasHiddenSingle(n, i, j)) ==> NewlyFixed(n, h)
  {
    if exists i: Idx, j: Idx :: HasHiddenSingle(n, i, j) {
      var i: Idx, j: Idx :| HasHiddenSingle(n, i, j);
      HiddenSingleFixes(n, h, i, j);
    }
  }
}
