/** Candidate computation for one cell (the naked-single step) and the
    hidden-single step, which fixes a candidate that only one cell of a row,
    column or box can still take. */
module Candidates {
  import opened Grid

  /** The cells that rule digits out for cell (r, c): its row, then its
      column, then its box. The cell itself appears in all three. */
  function UsedNumbers(b: Board, r: Idx, c: Idx): (used: seq<Cell>)
    ensures |used| == 27
    ensures used[..9] == GetRow(b, r)
    ensures used[9..18] == GetColumn(b, c)
    ensures used[18..] == GetSquare(b, SquareOf(r, c))
  {
    GetRow(b, r) + GetColumn(b, c) + GetSquare(b, SquareOf(r, c))
  }

  /** Digit d is fixed in a cell sharing a row, column or box with (r, c). */
  predicate FixedInScope(b: Board, r: Idx, c: Idx, d: Digit)
  {
    exists r2: Idx, c2: Idx {:trigger SharesUnit(r, c, r2, c2)} :: SharesUnit(r, c, r2, c2) && b[r2][c2] == Fixed(d)
  }

  /** Strictly ascending, hence also free of duplicates. */
  predicate Increasing(ps: seq<Digit>)
  {
    forall i, j :: 0 <= i < j < |ps| ==> ps[i] < ps[j]
  }

  /** ps lists, in ascending order, exactly the digits that no cell in the
      row, column or box of (r, c) holds as a fixed digit. */
  predicate IsCandidateList(b: Board, r: Idx, c: Idx, ps: seq<Digit>)
  {
    Increasing(ps) && forall d: Digit :: d in ps <==> !FixedInScope(b, r, c, d)
  }

  /** Only fixed digits count as used: an empty cell or a candidate list in
      the scope of (r, c) rules out nothing. */
  lemma UsedNumbersScope(b: Board, r: Idx, c: Idx, d: Digit)
    ensures Fixed(d) in UsedNumbers(b, r, c) <==> FixedInScope(b, r, c, d)
  {
    var row, col, box := GetRow(b, r), GetColumn(b, c), GetSquare(b, SquareOf(r, c));
    assert UsedNumbers(b, r, c) == row + col + box;
    assert Fixed(d) in row + col + box <==> Fixed(d) in row || Fixed(d) in col || Fixed(d) in box;
    if Fixed(d) in row || Fixed(d) in col || Fixed(d) in box {
      ScopeOfUsed(b, r, c, d);
    }
    if FixedInScope(b, r, c, d) {
      UsedOfScope(b, r, c, d);
    }
  }

  lemma ScopeOfUsed(b: Board, r: Idx, c: Idx, d: Digit)
    requires Fixed(d) in GetRow(b, r) || Fixed(d) in GetColumn(b, c) || Fixed(d) in GetSquare(b, SquareOf(r, c))
    ensures FixedInScope(b, r, c, d)
  {
    var s := SquareOf(r, c);
    if Fixed(d) in GetRow(b, r) {
      var j :| 0 <= j < 9 && b[r][j] == Fixed(d);
      assert SharesUnit(r, c, r, j);
    } else if Fixed(d) in GetColumn(b, c) {
      var col := GetColumn(b, c);
      var i :| 0 <= i < 9 && col[i] == Fixed(d);
      assert SharesUnit(r, c, i, c);
    } else {
      var box := GetSquare(b, s);
      var k :| 0 <= k < 9 && box[k] == Fixed(d);
      SquareOfBoxCell(s, k);
      assert SharesUnit(r, c, BoxRow(s, k), BoxCol(s, k));
    }
  }

  lemma UsedOfScope(b: Board, r: Idx, c: Idx, d: Digit)
    requires FixedInScope(b, r, c, d)
    ensures Fixed(d) in GetRow(b, r) || Fixed(d) in GetColumn(b, c) || Fixed(d) in GetSquare(b, SquareOf(r, c))
  {
    var r2: Idx, c2: Idx :| SharesUnit(r, c, r2, c2) && b[r2][c2] == Fixed(d);
    if r2 == r {
      assert GetRow(b, r)[c2] == Fixed(d);
    } else if c2 == c {
      assert GetColumn(b, c)[r2] == Fixed(d);
    } else {
      BoxCellOf(r2, c2);
      assert GetSquare(b, SquareOf(r, c))[IndexInBox(r2, c2)] == Fixed(d);
    }
  }

  lemma UsedNumbersScopeAll(b: Board, r: Idx, c: Idx)
    ensures forall d: Digit {:trigger FixedInScope(b, r, c, d)} :: Fixed(d) in UsedNumbers(b, r, c) <==> FixedInScope(b, r, c, d)
  {
    forall d: Digit {
      UsedNumbersScope(b, r, c, d);
    }
  }

  /** The digits p..9, ascending, that do not occur as a fixed cell in used. */
  function Possibilities(used: seq<Cell>, p: int): (ps: seq<Digit>)
    requires 1 <= p <= 10
    decreases 10 - p
    ensures forall d: Digit {:trigger d in ps} :: d in ps <==> p <= d && Fixed(d) !in used
    ensures forall i :: 0 <= i < |ps| ==> p <= ps[i]
    ensures Increasing(ps)
  {
    if p == 10 then []
    else
      var rest := Possibilities(used, p + 1);
      if Fixed(p) !in used then [p] + rest else rest
  }

  /** The candidate list of cell (r, c). */
  function CandidatesOf(b: Board, r: Idx, c: Idx): (ps: seq<Digit>)
    ensures IsCandidateList(b, r, c, ps)
  {
    UsedNumbersScopeAll(b, r, c);
    Possibilities(UsedNumbers(b, r, c), 1)
  }

  /** Two ascending digit lists with the same members are equal. */
  lemma {:induction false} IncreasingUnique(ps: seq<Digit>, qs: seq<Digit>)
    requires Increasing(ps) && Increasing(qs)
    requires forall d: Digit :: d in ps <==> d in qs
    ensures ps == qs
    decreases |ps|
  {
    if ps != [] {
      assert ps[0] in qs;
    }
    if qs != [] {
      assert qs[0] in ps;
    }
    if ps != [] {
      var i :| 0 <= i < |ps| && ps[i] == qs[0];
      var j :| 0 <= j < |qs| && qs[j] == ps[0];
      assert ps[0] <= ps[i] && qs[0] <= qs[j];
      forall d: Digit
        ensures d in ps[1..] <==> d in qs[1..]
      {
        if d in ps[1..] {
          var k :| 1 <= k < |ps| && ps[k] == d;
          assert d != ps[0];
        }
        if d in qs[1..] {
          var k :| 1 <= k < |qs| && qs[k] == d;
          assert d != qs[0];
        }
        assert d in ps <==> d == ps[0] || d in ps[1..];
        assert d in qs <==> d == qs[0] || d in qs[1..];
      }
      IncreasingUnique(ps[1..], qs[1..]);
      assert ps == [ps[0]] + ps[1..];
      assert qs == [qs[0]] + qs[1..];
    }
  }

  /** The candidate list of a cell is determined by the board. */
  lemma CandidateListUnique(b: Board, r: Idx, c: Idx, ps: seq<Digit>)
    requires IsCandidateList(b, r, c, ps)
    ensures ps == CandidatesOf(b, r, c)
  {
    IncreasingUnique(ps, CandidatesOf(b, r, c));
  }

  /** The naked-single step on cell (r, c): with exactly one candidate the
      cell takes that digit and the result is true; otherwise the cell holds
      its (possibly empty) candidate list and the result is false. No other
      cell changes. */
  function CompleteCell(b: Board, r: Idx, c: Idx): (res: (Board, bool))
    ensures !res.0[r][c].Empty? && (res.1 <==> res.0[r][c].Fixed?)
    ensures forall i: Idx, j: Idx {:trigger res.0[i][j]} :: (i != r || j != c) ==> res.0[i][j] == b[i][j]
  {
    var ps := CandidatesOf(b, r, c);
    (Place(b, r, c, NakedCell(ps)), |ps| == 1)
  }

  /** Cell (r, c) is empty and has exactly one candidate. */
  predicate HasNakedSingle(b: Board, r: Idx, c: Idx)
  {
    b[r][c].Empty? && |CandidatesOf(b, r, c)| == 1
  }

  /** Only fixed digits decide a cell's candidates: two boards whose fixed
      cells coincide give every cell the same candidate list. */
  lemma CandidatesDependOnFixed(b: Board, b2: Board, r: Idx, c: Idx)
    requires forall i: Idx, j: Idx :: (b[i][j].Fixed? || b2[i][j].Fixed?) ==> b[i][j] == b2[i][j]
    ensures CandidatesOf(b, r, c) == CandidatesOf(b2, r, c)
  {
    forall d: Digit
      ensures FixedInScope(b, r, c, d) <==> FixedInScope(b2, r, c, d)
    {
      if FixedInScope(b, r, c, d) {
        var r2: Idx, c2: Idx :| SharesUnit(r, c, r2, c2) && b[r2][c2] == Fixed(d);
        assert b2[r2][c2] == Fixed(d);
      }
      if FixedInScope(b2, r, c, d) {
        var r2: Idx, c2: Idx :| SharesUnit(r, c, r2, c2) && b2[r2][c2] == Fixed(d);
        assert b[r2][c2] == Fixed(d);
      }
    }
    CandidateListUnique(b2, r, c, CandidatesOf(b, r, c));
  }

  /** What the naked-single step writes for candidate list ps: the digit
      when there is exactly one, the list itself otherwise. */
  function NakedCell(ps: seq<Digit>): Cell
  {
    if |ps| == 1 then Fixed(ps[0]) else Cands(ps)
  }

  /** What the naked-single step writes: the only candidate when there is
      exactly one, and the full candidate list otherwise. */
  lemma CompleteCellWrites(b: Board, r: Idx, c: Idx)
    ensures var res := CompleteCell(b, r, c);
      && (res.1 ==> IsCandidateList(b, r, c, [res.0[r][c].d]))
      && (!res.1 ==> IsCandidateList(b, r, c, res.0[r][c].ds) && |res.0[r][c].ds| != 1)
  {
    var ps := CandidatesOf(b, r, c);
    if |ps| == 1 {
      SingleCandidate(b, r, c, ps);
    }
  }

  lemma SingleCandidate(b: Board, r: Idx, c: Idx, ps: seq<Digit>)
    requires IsCandidateList(b, r, c, ps) && |ps| == 1
    ensures IsCandidateList(b, r, c, [ps[0]])
  {
    assert ps == [ps[0]];
  }

  /** Whether a cell counts as a place for digit d: a fixed cell holding d or
      a candidate list containing d. */
  predicate Holds(x: Cell, d: Digit)
  {
    match x
    case Empty => false
    case Fixed(v) => v == d
    case Cands(ds) => d in ds
  }

  /** How many cells of the group count as a place for d. */
  function Count(group: seq<Cell>, d: Digit): (n: nat)
    ensures n <= |group|
  {
    if group == [] then 0
    else (if Holds(group[0], d) then 1 else 0) + Count(group[1..], d)
  }

  /** A count of zero means no cell of the group holds d. */
  lemma {:induction false} CountZero(group: seq<Cell>, d: Digit)
    ensures Count(group, d) == 0 <==> forall i :: 0 <= i < |group| ==> !Holds(group[i], d)
  {
    if group != [] {
      CountZero(group[1..], d);
      assert forall i :: 1 <= i < |group| ==> group[1..][i - 1] == group[i];
    }
  }

  /** When cell k of the group holds d, a count of one means no other cell
      does. */
  lemma {:induction false} CountOne(group: seq<Cell>, d: Digit, k: int)
    requires 0 <= k < |group| && Holds(group[k], d)
    ensures Count(group, d) == 1 <==> forall i :: 0 <= i < |group| && i != k ==> !Holds(group[i], d)
  {
    assert forall i :: 1 <= i < |group| ==> group[1..][i - 1] == group[i];
    if k == 0 {
      CountZero(group[1..], d);
    } else {
      CountZero(group[1..], d);
      CountOne(group[1..], d, k - 1);
    }
  }

  /** Index of the first candidate, from position i on, that exactly one
      cell of the group can take; |ps| when there is none. */
  function FirstUnique(ps: seq<Digit>, group: seq<Cell>, i: nat): (j: nat)
    requires i <= |ps|
    decreases |ps| - i
    ensures i <= j <= |ps|
    ensures forall k :: i <= k < j ==> Count(group, ps[k]) != 1
    ensures j < |ps| ==> Count(group, ps[j]) == 1
  {
    if i == |ps| then i
    else if Count(group, ps[i]) == 1 then i
    else FirstUnique(ps, group, i + 1)
  }

  /** Some candidate of ps has exactly one place in the group. */
  predicate HasUnique(ps: seq<Digit>, group: seq<Cell>)
  {
    exists j :: 0 <= j < |ps| && Count(group, ps[j]) == 1
  }

  /** The search for a unique candidate succeeds exactly when there is one. */
  lemma FirstUniqueFound(ps: seq<Digit>, group: seq<Cell>)
    ensures HasUnique(ps, group) <==> FirstUnique(ps, group, 0) < |ps|
  {
  }

  /** The hidden-single step for cell (r, c) against one group: the first
      candidate in ps with exactly one place in the group is written into
      (r, c) and the result is true; with none, nothing changes. */
  function AppearsOnlyOnce(b: Board, r: Idx, c: Idx, ps: seq<Digit>, group: seq<Cell>): (res: (Board, bool))
    ensures res.1 <==> HasUnique(ps, group)
    ensures !res.1 ==> res.0 == b
    ensures res.1 ==> FirstUnique(ps, group, 0) < |ps| && res.0[r][c] == Fixed(ps[FirstUnique(ps, group, 0)])
    ensures res.1 ==> exists j :: (0 <= j < |ps| && Count(group, ps[j]) == 1 && res.0[r][c] == Fixed(ps[j])
      && forall k :: 0 <= k < j ==> Count(group, ps[k]) != 1)
    ensures forall i: Idx, j: Idx {:trigger res.0[i][j]} :: (i != r || j != c) ==> res.0[i][j] == b[i][j]
  {
    var j := FirstUnique(ps, group, 0);
    if j < |ps| then
      (Place(b, r, c, Fixed(ps[j])), true)
    else
      (b, false)
  }

  /** Cell (r, c) holds a candidate list with a candidate that has exactly
      one place in the cell's row, column or box. */
  predicate HasHiddenSingle(b: Board, r: Idx, c: Idx)
  {
    b[r][c].Cands? && (HasUnique(b[r][c].ds, GetRow(b, r)) || HasUnique(b[r][c].ds, GetColumn(b, c))
      || HasUnique(b[r][c].ds, GetSquare(b, SquareOf(r, c))))
  }

  /** The hidden-single step for a cell holding a candidate list: row, then
      column, then box, stopping at the first group that yields a digit. */
  function HiddenSingle(b: Board, r: Idx, c: Idx): (res: (Board, bool))
    requires b[r][c].Cands?
    ensures res.1 <==> (HasUnique(b[r][c].ds, GetRow(b, r)) || HasUnique(b[r][c].ds, GetColumn(b, c))
      || HasUnique(b[r][c].ds, GetSquare(b, SquareOf(r, c))))
    ensures !res.1 ==> res.0 == b
    ensures res.1 ==> res.0[r][c].Fixed? && res.0[r][c].d in b[r][c].ds
    ensures res.1 ==> var d := res.0[r][c].d;
      Count(GetRow(b, r), d) == 1 || Count(GetColumn(b, c), d) == 1 || Count(GetSquare(b, SquareOf(r, c)), d) == 1
    ensures var ds, row := b[r][c].ds, GetRow(b, r);
      HasUnique(ds, row) ==> var k := FirstUnique(ds, row, 0);
      k < |ds| && res.0[r][c] == Fixed(ds[k])
    ensures var ds, row, col := b[r][c].ds, GetRow(b, r), GetColumn(b, c);
      !HasUnique(ds, row) && HasUnique(ds, col) ==> var k := FirstUnique(ds, col, 0);
      k < |ds| && res.0[r][c] == Fixed(ds[k])
    ensures var ds, row, col, box := b[r][c].ds, GetRow(b, r), GetColumn(b, c), GetSquare(b, SquareOf(r, c));
      !HasUnique(ds, row) && !HasUnique(ds, col) && HasUnique(ds, box) ==> var k := FirstUnique(ds, box, 0);
      k < |ds| && res.0[r][c] == Fixed(ds[k])
    ensures forall i: Idx, j: Idx {:trigger res.0[i][j]} :: (i != r || j != c) ==> res.0[i][j] == b[i][j]
  {
    var ps := b[r][c].ds;
    FirstUniqueFound(ps, GetRow(b, r));
    FirstUniqueFound(ps, GetColumn(b, c));
    FirstUniqueFound(ps, GetSquare(b, SquareOf(r, c)));
    var byRow := AppearsOnlyOnce(b, r, c, ps, GetRow(b, r));
    if byRow.1 then byRow
    else
      var byColumn := AppearsOnlyOnce(b, r, c, ps, GetColumn(b, c));
      if byColumn.1 then byColumn
      else AppearsOnlyOnce(b, r, c, ps, GetSquare(b, SquareOf(r, c)))
  }

  /** The hidden-single step as the source writes it. For the row the list
      it writes into is the board's own row, so the digit lands in cell
      (r, c); for the column and the box the list is a fresh copy, so the
      write is lost and only the result flag survives. */
  function HiddenSingleAsWritten(b: Board, r: Idx, c: Idx): (res: (Board, bool))
    requires b[r][c].Cands?
    ensures res.1 == HiddenSingle(b, r, c).1
    ensures HasUnique(b[r][c].ds, GetRow(b, r)) ==> res.0 == HiddenSingle(b, r, c).0
    ensures !HasUnique(b[r][c].ds, GetRow(b, r)) ==> res.0 == b
  {
    var ps := b[r][c].ds;
    var byRow := AppearsOnlyOnce(b, r, c, ps, GetRow(b, r));
    if byRow.1 then byRow
    else (b, AppearsOnlyOnce(b, r, c, ps, GetColumn(b, c)).1 || AppearsOnlyOnce(b, r, c, ps, GetSquare(b, SquareOf(r, c))).1)
  }

  /** The discrepancy: when the unique candidate is found through the column
      or the box only, the source reports progress but fixes no cell, while
      the corrected step fixes cell (r, c). */
  lemma HiddenSingleLosesWrite(b: Board, r: Idx, c: Idx)
    requires b[r][c].Cands?
    requires !HasUnique(b[r][c].ds, GetRow(b, r))
    requires HasUnique(b[r][c].ds, GetColumn(b, c)) || HasUnique(b[r][c].ds, GetSquare(b, SquareOf(r, c)))
    ensures HiddenSingleAsWritten(b, r, c).1 && !NewlyFixed(b, HiddenSingleAsWritten(b, r, c).0)
    ensures HiddenSingle(b, r, c).1 && NewlyFixed(b, HiddenSingle(b, r, c).0)
  {
    assert !b[r][c].Fixed? && HiddenSingle(b, r, c).0[r][c].Fixed?;
  }

  /** The hidden-single step can fix a digit that is already fixed in the
      cell's column: it counts only the row, where the digit is unique,
      and never checks the column or the box for a fixed copy. */
  lemma HiddenSingleCanDuplicate(b: Board)
    requires b[0][0] == Cands([1, 2]) && b[1][0] == Fixed(1)
    requires forall j: Idx :: 1 <= j ==> !Holds(b[0][j], 1)
    ensures HiddenSingle(b, 0, 0).0[0][0] == Fixed(1)
    ensures HiddenSingle(b, 0, 0).0[1][0] == Fixed(1)
  {
    var row := GetRow(b, 0);
    CountOne(row, 1, 0);
    assert Count(row, 1) == 1;
    assert HasUnique([1, 2], row);
  }
}
