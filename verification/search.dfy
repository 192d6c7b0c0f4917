/** The brute-force search and the solve driver: propagation passes until
    they stop making progress, then depth-first search over candidate
    lists. */
module Search {
  import opened Wrappers
  import opened Grid
  import opened Validator
  import opened Permutations
  import opened Candidates
  import opened Solutions
  import opened Propagation

  /** The search's test for a cell still to fill. The source compares the
      cell with the number 0 under loose equality, which holds for the text
      "0" and also for an empty candidate list (it converts to the empty
      text, hence to 0); a non-empty list or a digit does not qualify. */
  predicate LooselyZero(x: Cell)
    ensures x.Empty? ==> LooselyZero(x)
    ensures x.Fixed? ==> !LooselyZero(x)
    ensures x.Cands? ==> (LooselyZero(x) <==> |x.ds| == 0)
  {
    x == Empty || x == Cands([])
  }

  /** Depth-first search. A solution it returns keeps every digit of the
      input board. */
  function Backtrack(b: Board): (found: Option<Board>)
    ensures found.Some? ==> IsSolution(found.value) && KeepsFixed(b, found.value)
    decreases Unfixed(b), 2, 0, 0
  {
    Scan(b, 0, 0)
  }

  /** The scan over rows and columns from (r, c). At the first cell still to
      fill, the naked-single step runs; a solved board is returned at once.
      If the cell got a candidate list, each candidate is tried on its own
      copy and the scan ends there; if it got a digit, the scan goes on with
      the updated board. A scan that reaches the end finds nothing. */
  function Scan(b: Board, r: nat, c: nat): (found: Option<Board>)
    requires r <= 9 && c <= 9
    ensures found.Some? ==> IsSolution(found.value) && KeepsFixed(b, found.value)
    decreases Unfixed(b), 1, 9 - r, 9 - c
  {
    if r == 9 then
      None
    else if c == 9 then
      Scan(b, r + 1, 0)
    else if !LooselyZero(b[r][c]) then
      Scan(b, r, c + 1)
    else
      var b1 := CompleteCell(b, r, c).0;
      CompleteCellCount(b, r, c);
      if IsSolved(b1) then
        Some(b1)
      else if b1[r][c].Cands? then
        var found := TryCandidates(b1, r, c, b1[r][c].ds, 0);
        KeepsFixedChain(b, b1, found);
        found
      else
        var found := Scan(b1, r, c + 1);
        KeepsFixedChain(b, b1, found);
        found
  }

  /** Tries candidates ps[i..] for cell (r, c) in order, each on a fresh copy
      of b with the candidate placed, and returns the first solution found.
      An exhausted list, and in particular an empty one, finds nothing. */
  function TryCandidates(b: Board, r: Idx, c: Idx, ps: seq<Digit>, i: nat): (found: Option<Board>)
    requires !b[r][c].Fixed? && i <= |ps|
    ensures found.Some? ==> IsSolution(found.value) && KeepsFixed(b, found.value)
    decreases Unfixed(b), 0, |ps| - i, 0
  {
    if i == |ps| then
      None
    else
      var trial := Place(b, r, c, Fixed(ps[i]));
      FixingDecreasesUnfixed(b, r, c, ps[i]);
      var found := Backtrack(trial);
      if found.Some? then
        KeepsFixedChain(b, trial, found);
        found
      else
        TryCandidates(b, r, c, ps, i + 1)
  }

  /** Propagation passes repeat while the last one made progress and the
      board is not yet solved. The result keeps every digit of the input
      and every solution consistent with it. */
  function Propagate(b: Board): (res: Board)
    ensures NoCands(res) && KeepsFixed(b, res)
    ensures KeepsSolutions(b, res)
    decreases Unfixed(b)
  {
    var pass := ConstraintPass(b);
    PassProgress(b);
    PassKeepsSolutions(b);
    if pass.1 && !IsSolved(pass.0) then
      var res := Propagate(pass.0);
      KeepsSolutionsChain(b, pass.0, res);
      res
    else
      pass.0
  }

  /** The solve driver: propagation first, then the search when the board
      is not solved yet; the search's answer is accepted only if solved. */
  function Solve(b: Board): (found: Option<Board>)
    ensures found.Some? ==> IsSolution(found.value) && KeepsFixed(b, found.value)
  {
    var w := Propagate(b);
    if IsSolved(w) then
      Some(w)
    else
      var res := Backtrack(w);
      if res.Some? && IsSolved(res.value) then res else None
  }

  /** The naked-single step on a cell without a digit keeps every digit of
      the board; it removes an unfixed cell when it writes a digit and
      leaves the count alone otherwise. */
  lemma CompleteCellCount(b: Board, r: Idx, c: Idx)
    requires !b[r][c].Fixed?
    ensures KeepsFixed(b, CompleteCell(b, r, c).0)
    ensures CompleteCell(b, r, c).1 ==> Unfixed(CompleteCell(b, r, c).0) < Unfixed(b)
    ensures !CompleteCell(b, r, c).1 ==> Unfixed(CompleteCell(b, r, c).0) == Unfixed(b)
  {
    var ps := CandidatesOf(b, r, c);
    if |ps| == 1 {
      FixingDecreasesUnfixed(b, r, c, ps[0]);
    } else {
      ReplacingUnfixedKeepsCount(b, r, c, Cands(ps));
    }
  }

  lemma KeepsFixedChain(b0: Board, b1: Board, found: Option<Board>)
    requires KeepsFixed(b0, b1)
    requires found.Some? ==> KeepsFixed(b1, found.value)
    ensures found.Some? ==> KeepsFixed(b0, found.value)
  {
  }

  /** A board with no cell still to fill yields nothing, even when it is
      already solved: the search tests for a solution only after filling a
      cell. */
  lemma {:induction false} ScanWithoutBlank(b: Board, r: nat, c: nat)
    requires r <= 9 && c <= 9
    requires forall i: Idx, j: Idx :: !LooselyZero(b[i][j])
    ensures Scan(b, r, c).None?
    decreases 9 - r, 9 - c
  {
    if r < 9 {
      if c == 9 {
        ScanWithoutBlank(b, r + 1, 0);
      } else {
        ScanWithoutBlank(b, r, c + 1);
      }
    }
  }

  lemma BacktrackWithoutBlank(b: Board)
    requires forall i: Idx, j: Idx :: !LooselyZero(b[i][j])
    ensures Backtrack(b).None?
  {
    ScanWithoutBlank(b, 0, 0);
  }

  /** A board without candidate lists is consistent with any board that
      keeps its digits. */
  lemma KeptAgrees(b: Board, s: Board)
    requires NoCands(b) && KeepsFixed(b, s)
    ensures Agrees(b, s)
  {
    forall i: Idx, j: Idx
      ensures CellAgrees(b[i][j], s[i][j])
    {
    }
  }

  /** Dead end: when some empty cell has no candidate left, the search
      returns nothing. */
  lemma BacktrackDeadEnd(b: Board, r: Idx, c: Idx)
    requires NoCands(b) && b[r][c].Empty? && CandidatesOf(b, r, c) == []
    ensures Backtrack(b).None?
  {
    if Backtrack(b).Some? {
      var s := Backtrack(b).value;
      KeptAgrees(b, s);
      SolutionValueIsCandidate(b, r, c, s);
      assert false;
    }
  }

  /** A full board without candidate lists that is consistent with a
      solution is that solution. */
  lemma FilledAgreeingIsSolution(b: Board, sol: Board)
    requires NoCands(b) && NoEmpty(b) && IsSolution(sol) && Agrees(b, sol)
    ensures b == sol
  {
    forall i: Idx
      ensures b[i] == sol[i]
    {
      forall j: Idx
        ensures b[i][j] == sol[i][j]
      {
        assert CellAgrees(b[i][j], sol[i][j]);
      }
    }
  }

  /** When every other cell holds its digit from a solution, the
      solution's digit is the only candidate of the remaining cell. */
  lemma LastCellSingle(b: Board, r: Idx, c: Idx, sol: Board)
    requires IsSolution(sol) && Agrees(b, sol) && !b[r][c].Fixed?
    requires forall i: Idx, j: Idx :: (i != r || j != c) ==> b[i][j].Fixed?
    ensures |CandidatesOf(b, r, c)| == 1
  {
    var v := SolutionDigitFree(b, r, c, sol);
    RowAgrees(b, r, c, sol);
    OthersInScope(b, r, c, sol, v);
    assert IsCandidateList(b, r, c, [v]);
    CandidateListUnique(b, r, c, [v]);
  }

  /** The solution's digit for a cell without one is not yet used in its
      scope. */
  lemma SolutionDigitFree(b: Board, r: Idx, c: Idx, sol: Board) returns (v: Digit)
    requires IsSolution(sol) && Agrees(b, sol) && !b[r][c].Fixed?
    ensures sol[r][c] == Fixed(v) && !FixedInScope(b, r, c, v)
  {
    SolutionValueIsCandidate(b, r, c, sol);
    v := sol[r][c].d;
  }

  lemma RowAgrees(b: Board, r: Idx, c: Idx, sol: Board)
    requires Agrees(b, sol)
    requires forall i: Idx, j: Idx :: (i != r || j != c) ==> b[i][j].Fixed?
    ensures forall j: Idx :: j != c ==> b[r][j] == sol[r][j]
  {
    forall j: Idx | j != c
      ensures b[r][j] == sol[r][j]
    {
      assert b[r][j].Fixed? && CellAgrees(b[r][j], sol[r][j]);
    }
  }

  /** Every digit other than the solution's is fixed elsewhere in the row. */
  lemma OthersInScope(b: Board, r: Idx, c: Idx, sol: Board, v: Digit)
    requires IsSolution(sol) && sol[r][c] == Fixed(v)
    requires forall j: Idx :: j != c ==> b[r][j] == sol[r][j]
    ensures forall d: Digit :: d != v ==> FixedInScope(b, r, c, d)
  {
    assert IsPermutation(GetRow(sol, r));
    forall d: Digit | d != v
      ensures FixedInScope(b, r, c, d)
    {
      RowHoldsOthers(b, r, c, sol, d);
    }
  }

  /** A digit that a solution puts elsewhere in row r is fixed in the scope
      of (r, c) once the rest of the row holds the solution's digits. */
  lemma RowHoldsOthers(b: Board, r: Idx, c: Idx, sol: Board, d: Digit)
    requires IsPermutation(GetRow(sol, r)) && sol[r][c] != Fixed(d)
    requires forall j: Idx :: j != c ==> b[r][j] == sol[r][j]
    ensures FixedInScope(b, r, c, d)
  {
    var j := PermutationHasDigit(GetRow(sol, r), d);
    assert sol[r][j] == Fixed(d);
    assert SharesUnit(r, c, r, j);
  }

  /** A naked-single step that leaves a candidate list on a board consistent
      with a solution means some other cell is still empty. */
  lemma CandidatesLeaveBlank(b: Board, r: Idx, c: Idx, sol: Board)
    requires NoCands(b) && b[r][c].Empty? && IsSolution(sol) && Agrees(b, sol)
    requires !CompleteCell(b, r, c).1
    ensures exists i: Idx, j: Idx :: (i != r || j != c) && b[i][j].Empty?
  {
    assert |CandidatesOf(b, r, c)| != 1;
    if !exists i: Idx, j: Idx :: (i != r || j != c) && b[i][j].Empty? {
      forall i: Idx, j: Idx | i != r || j != c
        ensures b[i][j].Fixed?
      {
        assert !b[i][j].Empty? && !b[i][j].Cands?;
      }
      LastCellSingle(b, r, c, sol);
    }
  }

  /** A full board without candidate lists that is not a solution cannot be
      consistent with one: some cell is still empty. */
  lemma BlankRemains(b: Board, sol: Board)
    requires NoCands(b) && IsSolution(sol) && Agrees(b, sol) && !IsSolution(b)
    ensures !NoEmpty(b)
  {
    if NoEmpty(b) {
      FilledAgreeingIsSolution(b, sol);
    }
  }

  /** Trying candidates from position i succeeds when a later candidate k
      leads the search to a solution. */
  lemma {:induction false} TryFinds(b: Board, r: Idx, c: Idx, ps: seq<Digit>, i: nat, k: nat)
    requires !b[r][c].Fixed? && i <= k < |ps|
    requires Backtrack(Place(b, r, c, Fixed(ps[k]))).Some?
    ensures TryCandidates(b, r, c, ps, i).Some?
    decreases k - i
  {
    if Backtrack(Place(b, r, c, Fixed(ps[i]))).None? {
      TryFinds(b, r, c, ps, i + 1, k);
    }
  }

  /** Completeness: on a board without candidate lists that has an empty
      cell and is consistent with some solution, the search finds a
      solution. */
  lemma {:induction false} BacktrackComplete(b: Board, sol: Board, i0: Idx, j0: Idx)
    requires NoCands(b) && IsSolution(sol) && Agrees(b, sol) && b[i0][j0].Empty?
    ensures Backtrack(b).Some?
    decreases Unfixed(b), 2, 0, 0, 0
  {
    ScanComplete(b, 0, 0, sol, i0, j0);
  }

  /** The scan from (r, c) finds a solution when every earlier cell is
      filled and the empty cell (i0, j0) lies at or after (r, c). */
  lemma {:induction false} ScanComplete(b: Board, r: nat, c: nat, sol: Board, i0: Idx, j0: Idx)
    requires r < 9 && c <= 9
    requires NoCands(b) && IsSolution(sol) && Agrees(b, sol)
    requires forall i: Idx, j: Idx :: Before(i, j, r, c) ==> !b[i][j].Empty?
    requires b[i0][j0].Empty? && !Before(i0, j0, r, c)
    ensures Scan(b, r, c).Some?
    decreases Unfixed(b), 1, 9 - r, 9 - c, 2
  {
    if c == 9 {
      ScanComplete(b, r + 1, 0, sol, i0, j0);
    } else if !b[r][c].Empty? {
      ScanComplete(b, r, c + 1, sol, i0, j0);
    } else {
      ScanAtBlank(b, r, c, sol);
    }
  }

  /** The scan step at an empty cell (r, c), every earlier cell filled. */
  lemma {:induction false} ScanAtBlank(b: Board, r: Idx, c: Idx, sol: Board)
    requires NoCands(b) && IsSolution(sol) && Agrees(b, sol)
    requires forall i: Idx, j: Idx :: Before(i, j, r, c) ==> !b[i][j].Empty?
    requires b[r][c].Empty?
    ensures Scan(b, r, c).Some?
    decreases Unfixed(b), 1, 9 - r, 9 - c, 1
  {
    var b1 := CompleteCell(b, r, c).0;
    if !IsSolved(b1) {
      if b1[r][c].Cands? {
        BranchFinds(b, r, c, sol);
      } else {
        ContinueFinds(b, r, c, sol);
      }
    }
  }

  /** The cell got a candidate list: the solution's digit is among the
      candidates, and the branch that places it leads to a solution. */
  lemma {:induction false} BranchFinds(b: Board, r: Idx, c: Idx, sol: Board)
    requires NoCands(b) && IsSolution(sol) && Agrees(b, sol) && b[r][c].Empty?
    requires CompleteCell(b, r, c).0[r][c].Cands?
    ensures TryCandidates(CompleteCell(b, r, c).0, r, c, CompleteCell(b, r, c).0[r][c].ds, 0).Some?
    decreases Unfixed(b), 1, 9 - r, 9 - c, 0
  {
    var b1 := CompleteCell(b, r, c).0;
    CandidatesLeaveBlank(b, r, c, sol);
    var i: Idx, j: Idx :| (i != r || j != c) && b[i][j].Empty?;
    var ps := b1[r][c].ds;
    var d := SolutionDigitFree(b, r, c, sol);
    assert d in ps;
    var k :| 0 <= k < |ps| && ps[k] == d;
    var trial := Place(b1, r, c, Fixed(d));
    TrialShape(b, r, c, d);
    TrialCount(b, r, c, d);
    ChangeOneAgrees(b, trial, r, c, sol);
    BacktrackComplete(trial, sol, i, j);
    TryFinds(b1, r, c, ps, 0, k);
  }

  /** Placing a digit where the naked-single step left a candidate list
      gives a board without candidate lists, with one unfixed cell fewer,
      that differs from the original board only at that cell. */
  lemma TrialShape(b: Board, r: Idx, c: Idx, d: Digit)
    requires NoCands(b) && b[r][c].Empty? && CompleteCell(b, r, c).0[r][c].Cands?
    ensures NoCands(Place(CompleteCell(b, r, c).0, r, c, Fixed(d)))
    ensures forall i: Idx, j: Idx :: (i != r || j != c) ==> Place(CompleteCell(b, r, c).0, r, c, Fixed(d))[i][j] == b[i][j]
  {
  }

  lemma TrialCount(b: Board, r: Idx, c: Idx, d: Digit)
    requires b[r][c].Empty? && CompleteCell(b, r, c).0[r][c].Cands?
    ensures Unfixed(Place(CompleteCell(b, r, c).0, r, c, Fixed(d))) < Unfixed(b)
  {
    CompleteCellCount(b, r, c);
    FixingDecreasesUnfixed(CompleteCell(b, r, c).0, r, c, d);
  }

  /** The cell got its digit but the board is not solved: some later cell
      is still empty, and the scan goes on to find the solution. */
  lemma {:induction false} ContinueFinds(b: Board, r: Idx, c: Idx, sol: Board)
    requires NoCands(b) && IsSolution(sol) && Agrees(b, sol)
    requires forall i: Idx, j: Idx :: Before(i, j, r, c) ==> !b[i][j].Empty?
    requires b[r][c].Empty? && CompleteCell(b, r, c).1 && !IsSolution(CompleteCell(b, r, c).0)
    ensures Scan(CompleteCell(b, r, c).0, r, c + 1).Some?
    decreases Unfixed(b), 1, 9 - r, 9 - c, 0
  {
    var b1 := CompleteCell(b, r, c).0;
    FilledUpTo(b, b1, r, c);
    CompleteCellKeepsSolution(b, r, c, sol);
    var i, j := NextBlank(b1, r, c + 1, sol);
    CompleteCellCount(b, r, c);
    ScanComplete(b1, r, c + 1, sol, i, j);
  }

  /** Filling cell (r, c) of a board filled before (r, c), and changing
      nothing else, leaves a board filled up to and including (r, c); a
      digit written there adds no candidate list. */
  lemma FilledUpTo(b: Board, b1: Board, r: Idx, c: Idx)
    requires forall i: Idx, j: Idx :: (i != r || j != c) ==> b1[i][j] == b[i][j]
    requires b1[r][c].Fixed? && NoCands(b)
    requires forall i: Idx, j: Idx :: Before(i, j, r, c) ==> !b[i][j].Empty?
    ensures NoCands(b1)
    ensures forall i: Idx, j: Idx :: Before(i, j, r, c + 1) ==> !b1[i][j].Empty?
  {
    forall i: Idx, j: Idx | Before(i, j, r, c + 1)
      ensures !b1[i][j].Empty?
    {
      if i != r || j != c {
        assert Before(i, j, r, c);
      }
    }
  }

  /** A board consistent with a solution, without candidate lists, filled
      before (r, c) and not solved, has an empty cell at or after (r, c). */
  lemma NextBlank(b: Board, r: nat, c: nat, sol: Board) returns (i: Idx, j: Idx)
    requires NoCands(b) && IsSolution(sol) && Agrees(b, sol) && !IsSolution(b)
    requires forall i: Idx, j: Idx :: Before(i, j, r, c) ==> !b[i][j].Empty?
    ensures b[i][j].Empty? && !Before(i, j, r, c)
  {
    BlankRemains(b, sol);
    i, j :| b[i][j].Empty?;
  }

  /** Propagation keeps a board consistent with a solution and leaves no
      candidate list. */
  lemma PropagateAgrees(b: Board, sol: Board)
    requires IsSolution(sol) && Agrees(b, sol)
    ensures Agrees(Propagate(b), sol)
  {
    assert KeepsSolutions(b, Propagate(b));
  }

  /** Completeness of the driver: a board consistent with some solution is
      solved. */
  lemma SolveComplete(b: Board, sol: Board)
    requires IsSolution(sol) && Agrees(b, sol)
    ensures Solve(b).Some?
  {
    var w := Propagate(b);
    PropagateAgrees(b, sol);
    if !IsSolved(w) {
      BlankRemains(w, sol);
      var i: Idx, j: Idx :| w[i][j].Empty?;
      BacktrackComplete(w, sol, i, j);
      assert IsSolved(Backtrack(w).value);
    }
  }

  /** A board that is already a solution comes back unchanged, found by
      propagation alone. */
  lemma SolveSolvedBoard(b: Board)
    requires IsSolution(b)
    ensures Solve(b) == Some(b)
  {
    var w := Propagate(b);
    forall i: Idx, j: Idx
      ensures CellAgrees(b[i][j], b[i][j]) && !w[i][j].Empty?
    {
      SolutionCellFixed(b, i, j);
    }
    PropagateAgrees(b, b);
    FilledAgreeingIsSolution(w, b);
  }
}
