/** Board geometry of the solver: cells, the 9x9 board, the box-id table and
    the row, column and box views of a board.

    Rows are numbered 0..8 here; row `r` stands for the source's row key
    `r + 1` ("1".."9"). Columns are 0..8 as in the source. */
module Grid {

  /** A digit a cell can hold. */
  type Digit = d: int | 1 <= d <= 9 witness 1

  /** A row or column index. */
  type Idx = i: int | 0 <= i < 9

  /** One slot of the board. The source keeps the string "0", a digit string
      or an array of digit strings in the same slot; the tag makes the three
      cases explicit. */
  datatype Cell = Empty | Fixed(d: Digit) | Cands(ds: seq<Digit>)

  /** A 9x9 board. */
  type Board = b: seq<seq<Cell>> | |b| == 9 && forall r :: 0 <= r < |b| ==> |b[r]| == 9
    witness seq(9, _ => seq(9, _ => Empty))

  /** The box id of every cell, indexed by row then column. */
  const SquareCoordinates: seq<seq<int>> := [
    [1, 1, 1, 2, 2, 2, 3, 3, 3],
    [1, 1, 1, 2, 2, 2, 3, 3, 3],
    [1, 1, 1, 2, 2, 2, 3, 3, 3],
    [4, 4, 4, 5, 5, 5, 6, 6, 6],
    [4, 4, 4, 5, 5, 5, 6, 6, 6],
    [4, 4, 4, 5, 5, 5, 6, 6, 6],
    [7, 7, 7, 8, 8, 8, 9, 9, 9],
    [7, 7, 7, 8, 8, 8, 9, 9, 9],
    [7, 7, 7, 8, 8, 8, 9, 9, 9]
  ]

  /** The box id of cell (r, c): boxes are numbered 1..9 left to right, top
      to bottom. */
  function SquareOf(r: Idx, c: Idx): (s: int)
    ensures s == (r / 3) * 3 + c / 3 + 1
    ensures 1 <= s <= 9
  {
    assert r == 0 || r == 1 || r == 2 || r == 3 || r == 4 || r == 5 || r == 6 || r == 7 || r == 8;
    assert c == 0 || c == 1 || c == 2 || c == 3 || c == 4 || c == 5 || c == 6 || c == 7 || c == 8;
    SquareCoordinates[r][c]
  }

  /** First row of box s. */
  function BoxTop(s: int): int
    requires 1 <= s <= 9
  {
    ((s - 1) / 3) * 3
  }

  /** First column of box s. */
  function BoxLeft(s: int): int
    requires 1 <= s <= 9
  {
    ((s - 1) % 3) * 3
  }

  /** Row of the k-th cell of box s (cells of a box are listed row by row). */
  function BoxRow(s: int, k: Idx): Idx
    requires 1 <= s <= 9
  {
    BoxTop(s) + k / 3
  }

  /** Column of the k-th cell of box s. */
  function BoxCol(s: int, k: Idx): Idx
    requires 1 <= s <= 9
  {
    BoxLeft(s) + k % 3
  }

  /** Position of cell (r, c) inside its own box. */
  function IndexInBox(r: Idx, c: Idx): Idx
  {
    (r % 3) * 3 + c % 3
  }

  /** The cells listed for box s all carry box id s. */
  lemma SquareOfBoxCell(s: int, k: Idx)
    requires 1 <= s <= 9
    ensures SquareOf(BoxRow(s, k), BoxCol(s, k)) == s
  {
    var q, m := (s - 1) / 3, (s - 1) % 3;
    assert BoxRow(s, k) == q * 3 + k / 3 && BoxRow(s, k) / 3 == q;
    assert BoxCol(s, k) == m * 3 + k % 3 && BoxCol(s, k) / 3 == m;
  }

  /** Every cell is the one listed for its own box at its own index. */
  lemma BoxCellOf(r: Idx, c: Idx)
    ensures BoxRow(SquareOf(r, c), IndexInBox(r, c)) == r
    ensures BoxCol(SquareOf(r, c), IndexInBox(r, c)) == c
  {
    var s := SquareOf(r, c);
    var k := IndexInBox(r, c);
    assert s - 1 == (r / 3) * 3 + c / 3;
    assert (s - 1) / 3 == r / 3 && (s - 1) % 3 == c / 3;
    assert k / 3 == r % 3 && k % 3 == c % 3;
  }

  /** Whether cells (r, c) and (r2, c2) share a row, a column or a box. */
  predicate SharesUnit(r: Idx, c: Idx, r2: Idx, c2: Idx)
  {
    r == r2 || c == c2 || SquareOf(r, c) == SquareOf(r2, c2)
  }

  /** Row r of the board. */
  function GetRow(b: Board, r: Idx): (row: seq<Cell>)
    ensures |row| == 9
    ensures forall j: Idx :: row[j] == b[r][j]
  {
    b[r]
  }

  /** Column c of the board, one cell per row in row order. */
  function GetColumn(b: Board, c: Idx): (col: seq<Cell>)
    ensures |col| == 9
    ensures forall i: Idx :: col[i] == b[i][c]
  {
    seq(9, i requires 0 <= i < 9 => b[i][c])
  }

  /** The cells of row r from column c on whose box id is s. */
  function RowPart(row: seq<Cell>, r: Idx, s: int, c: nat): seq<Cell>
    requires |row| == 9 && c <= 9
    decreases 9 - c
  {
    if c == 9 then []
    else (if SquareOf(r, c) == s then [row[c]] else []) + RowPart(row, r, s, c + 1)
  }

  /** The cells of rows r..8 whose box id is s, row by row. */
  function SquareFrom(b: Board, s: int, r: nat): seq<Cell>
    requires r <= 9
    decreases 9 - r
  {
    if r == 9 then [] else RowPart(b[r], r, s, 0) + SquareFrom(b, s, r + 1)
  }

  /** The three columns of row `row` that lie in box s. */
  function BoxSlice(row: seq<Cell>, s: int): seq<Cell>
    requires |row| == 9 && 1 <= s <= 9
  {
    row[BoxLeft(s)..BoxLeft(s) + 3]
  }

  /** Box s read as the box's three columns of the three rows of its band. */
  function BoxCells(b: Board, s: int): seq<Cell>
    requires 1 <= s <= 9
  {
    BoxSlice(b[BoxTop(s)], s) + (BoxSlice(b[BoxTop(s) + 1], s) + BoxSlice(b[BoxTop(s) + 2], s))
  }

  /** Box s of the board, cell k being (BoxRow(s, k), BoxCol(s, k)): row by
      row, left to right. A box id outside 1..9 names no cells. */
  function GetSquare(b: Board, s: int): (cells: seq<Cell>)
    ensures 1 <= s <= 9 ==> |cells| == 9
    ensures 1 <= s <= 9 ==> forall k: Idx :: cells[k] == b[BoxRow(s, k)][BoxCol(s, k)]
    ensures !(1 <= s <= 9) ==> cells == []
  {
    if 1 <= s <= 9 then seq(9, k requires 0 <= k < 9 => b[BoxRow(s, k)][BoxCol(s, k)]) else []
  }

  /** The box-id scan: walking the rows in order and each row left to right,
      collecting the cells whose entry in the box-id table is s, yields box s
      exactly, and nothing for an id outside 1..9. */
  lemma ScanSquareIsBox(b: Board, s: int)
    ensures SquareFrom(b, s, 0) == GetSquare(b, s)
  {
    if 1 <= s <= 9 {
      SquareSlicesInRange(b, s);
      BoxCellsIsSquare(b, s);
    } else {
      NoSquareOutsideRange(b, s, 0);
    }
  }

  /** Box s is the box's three columns of the three rows of its band. */
  lemma BoxCellsIsSquare(b: Board, s: int)
    requires 1 <= s <= 9
    ensures GetSquare(b, s) == BoxCells(b, s)
  {
    BoxCellsIndices(b, s);
    var x, y := GetSquare(b, s), BoxCells(b, s);
    assert |x| == |y|;
    assert forall k :: 0 <= k < 9 ==> x[k] == y[k];
  }

  /** The k-th cell of box s is (BoxRow, BoxCol). */
  lemma BoxCellsIndices(b: Board, s: int)
    requires 1 <= s <= 9
    ensures |BoxCells(b, s)| == 9
    ensures forall k: Idx :: BoxCells(b, s)[k] == b[BoxRow(s, k)][BoxCol(s, k)]
  {
    var top := BoxTop(s);
    var lo := BoxLeft(s);
    var x0, x1, x2 := BoxSlice(b[top], s), BoxSlice(b[top + 1], s), BoxSlice(b[top + 2], s);
    var cells := BoxCells(b, s);
    assert cells == x0 + (x1 + x2);
    assert |x0| == 3 && |x1| == 3 && |x2| == 3;
    forall k: Idx
      ensures cells[k] == b[BoxRow(s, k)][BoxCol(s, k)]
    {
      if k < 3 {
        assert k / 3 == 0 && k % 3 == k;
        assert cells[k] == x0[k];
      } else if k < 6 {
        assert k / 3 == 1 && k % 3 == k - 3;
        assert cells[k] == x1[k - 3];
      } else {
        assert k / 3 == 2 && k % 3 == k - 6;
        assert cells[k] == x2[k - 6];
      }
    }
  }

  /** A row's part of box s is the box's three columns when the row lies in
      the box's band of rows, and nothing otherwise. */
  lemma RowPartIsSlice(row: seq<Cell>, r: Idx, s: int, c: nat)
    requires |row| == 9 && c <= 9
    ensures !(1 <= s <= 9) ==> RowPart(row, r, s, c) == []
    ensures 1 <= s <= 9 && r / 3 != (s - 1) / 3 ==> RowPart(row, r, s, c) == []
    ensures 1 <= s <= 9 && r / 3 == (s - 1) / 3 ==>
      var lo := ((s - 1) % 3) * 3;
      RowPart(row, r, s, c) == row[Max(c, lo)..Max(c, lo + 3)]
  {
    if 1 <= s <= 9 && r / 3 == (s - 1) / 3 {
      RowPartInBand(row, r, s, c);
      var lo := BoxLeft(s);
      if c <= lo {
        assert Max(c, lo) == lo && Max(c, lo + 3) == lo + 3;
      } else if c <= lo + 3 {
        assert Max(c, lo) == c && Max(c, lo + 3) == lo + 3;
      } else {
        assert Max(c, lo) == c && Max(c, lo + 3) == c;
      }
    } else {
      RowPartOutside(row, r, s, c);
    }
  }

  /** A row outside the band of box s, or a box id outside 1..9, contributes
      nothing. */
  lemma {:induction false} RowPartOutside(row: seq<Cell>, r: Idx, s: int, c: nat)
    requires |row| == 9 && c <= 9
    requires !(1 <= s <= 9) || r / 3 != (s - 1) / 3
    ensures RowPart(row, r, s, c) == []
    decreases 9 - c
  {
    if c < 9 {
      RowPartOutside(row, r, s, c + 1);
    }
  }

  /** Within the band of box s, a cell lies in box s exactly when its
      column is one of the box's three. */
  lemma BandColumn(r: Idx, c: Idx, s: int)
    requires 1 <= s <= 9 && r / 3 == (s - 1) / 3
    ensures SquareOf(r, c) == s <==> BoxLeft(s) <= c < BoxLeft(s) + 3
  {
  }

  /** A row in the band of box s contributes the box's columns from c on. */
  lemma {:induction false} RowPartInBand(row: seq<Cell>, r: Idx, s: int, c: nat)
    requires |row| == 9 && c <= 9
    requires 1 <= s <= 9 && r / 3 == (s - 1) / 3
    ensures c <= BoxLeft(s) ==> RowPart(row, r, s, c) == row[BoxLeft(s)..BoxLeft(s) + 3]
    ensures BoxLeft(s) <= c <= BoxLeft(s) + 3 ==> RowPart(row, r, s, c) == row[c..BoxLeft(s) + 3]
    ensures BoxLeft(s) + 3 <= c ==> RowPart(row, r, s, c) == []
    decreases 9 - c
  {
    if c < 9 {
      RowPartInBand(row, r, s, c + 1);
      var lo := BoxLeft(s);
      BandColumn(r, c, s);
      if lo <= c < lo + 3 {
        assert row[c..lo + 3] == [row[c]] + row[c + 1..lo + 3];
      }
    }
  }

  /** The larger of a and b. */
  function Max(a: int, b: int): int
  {
    if a < b then b else a
  }

  /** Rows after the band of box s contribute nothing to it. */
  lemma {:induction false} SquareFromAfterBand(b: Board, s: int, r: nat)
    requires 1 <= s <= 9 && BoxTop(s) + 3 <= r <= 9
    ensures SquareFrom(b, s, r) == []
    decreases 9 - r
  {
    if r < 9 {
      RowPartIsSlice(b[r], r, s, 0);
      SquareFromAfterBand(b, s, r + 1);
    }
  }

  /** Rows before the band of box s contribute nothing to it. */
  lemma {:induction false} SquareFromBeforeBand(b: Board, s: int, r: nat)
    requires 1 <= s <= 9 && r <= BoxTop(s)
    ensures SquareFrom(b, s, r) == SquareFrom(b, s, BoxTop(s))
    decreases BoxTop(s) - r
  {
    if r < BoxTop(s) {
      RowPartIsSlice(b[r], r, s, 0);
      SquareFromBeforeBand(b, s, r + 1);
    }
  }

  /** Box s is the box's three columns of each of the three rows of its
      band. */
  lemma SquareSlicesInRange(b: Board, s: int)
    requires 1 <= s <= 9
    ensures SquareFrom(b, s, 0) == BoxCells(b, s)
  {
    SquareFromBeforeBand(b, s, 0);
    BandIsBox(b, s);
  }

  /** Scanning from the top row of its band collects exactly box s. */
  lemma BandIsBox(b: Board, s: int)
    requires 1 <= s <= 9
    ensures SquareFrom(b, s, BoxTop(s)) == BoxCells(b, s)
  {
    var top := BoxTop(s);
    var row0, row1, row2 := BoxSlice(b[top], s), BoxSlice(b[top + 1], s), BoxSlice(b[top + 2], s);
    LastRowInBand(b, s);
    RowInBand(b, s, top + 1);
    assert SquareFrom(b, s, top + 1) == row1 + row2;
    RowInBand(b, s, top);
  }

  /** A row of the band of box s contributes the box's three columns. */
  lemma RowInBand(b: Board, s: int, r: Idx)
    requires 1 <= s <= 9 && BoxTop(s) <= r < BoxTop(s) + 3
    ensures SquareFrom(b, s, r) == BoxSlice(b[r], s) + SquareFrom(b, s, r + 1)
  {
    var lo := BoxLeft(s);
    assert r / 3 == (s - 1) / 3;
    RowPartIsSlice(b[r], r, s, 0);
    assert Max(0, lo) == lo && Max(0, lo + 3) == lo + 3;
    assert RowPart(b[r], r, s, 0) == BoxSlice(b[r], s);
  }

  /** The last row of the band of box s is the last one to contribute. */
  lemma LastRowInBand(b: Board, s: int)
    requires 1 <= s <= 9
    ensures SquareFrom(b, s, BoxTop(s) + 2) == BoxSlice(b[BoxTop(s) + 2], s)
  {
    RowInBand(b, s, BoxTop(s) + 2);
    SquareFromAfterBand(b, s, BoxTop(s) + 3);
  }

  lemma {:induction false} NoSquareOutsideRange(b: Board, s: int, r: nat)
    requires !(1 <= s <= 9) && r <= 9
    ensures SquareFrom(b, s, r) == []
    decreases 9 - r
  {
    if r < 9 {
      RowPartIsSlice(b[r], r, s, 0);
      NoSquareOutsideRange(b, s, r + 1);
    }
  }

  /** Two boards that agree cell by cell are equal. */
  lemma BoardsEqual(b: Board, b2: Board)
    requires forall i: Idx, j: Idx :: b[i][j] == b2[i][j]
    ensures b == b2
  {
    forall i | 0 <= i < 9
      ensures b[i] == b2[i]
    {
      assert forall j :: 0 <= j < 9 ==> b[i][j] == b2[i][j];
    }
  }

  /** The board with cell (r, c) replaced by x. */
  function Place(b: Board, r: Idx, c: Idx, x: Cell): (b2: Board)
    ensures b2[r][c] == x
    ensures forall i: Idx, j: Idx {:trigger b2[i][j]} :: (i != r || j != c) ==> b2[i][j] == b[i][j]
  {
    b[r := b[r][c := x]]
  }

  /** Every cell fixed in b holds the same digit in b2. */
  predicate KeepsFixed(b: Board, b2: Board)
  {
    forall i: Idx, j: Idx :: b[i][j].Fixed? ==> b2[i][j] == b[i][j]
  }

  /** Some cell not fixed in b is fixed in b2. */
  predicate NewlyFixed(b: Board, b2: Board)
  {
    exists i: Idx, j: Idx :: !b[i][j].Fixed? && b2[i][j].Fixed?
  }

  /** No cell holds a candidate list. */
  predicate NoCands(b: Board)
  {
    forall i: Idx, j: Idx :: !b[i][j].Cands?
  }

  /** No cell is empty. */
  predicate NoEmpty(b: Board)
  {
    forall i: Idx, j: Idx :: !b[i][j].Empty?
  }

  /** The cells of the board that hold no digit. */
  function UnfixedCells(b: Board): set<(Idx, Idx)>
  {
    set i: Idx, j: Idx | 0 <= i < 9 && 0 <= j < 9 && !b[i][j].Fixed? :: (i, j)
  }

  /** Number of cells of the board that hold no digit. */
  function Unfixed(b: Board): nat
  {
    |UnfixedCells(b)|
  }

  lemma SubsetSize<T>(small: set<T>, big: set<T>)
    requires small <= big
    ensures |small| <= |big|
    ensures small < big ==> |small| < |big|
  {
    assert big == small + (big - small);
    if small < big {
      var x :| x in big && x !in small;
      assert x in big - small;
    }
  }

  /** A board that keeps every fixed digit has no more unfixed cells, and
      strictly fewer when it fixes some cell. */
  lemma UnfixedShrinks(b: Board, b2: Board)
    requires KeepsFixed(b, b2)
    ensures Unfixed(b2) <= Unfixed(b)
    ensures NewlyFixed(b, b2) ==> Unfixed(b2) < Unfixed(b)
  {
    assert UnfixedCells(b2) <= UnfixedCells(b);
    if NewlyFixed(b, b2) {
      var i: Idx, j: Idx :| !b[i][j].Fixed? && b2[i][j].Fixed?;
      assert (i, j) in UnfixedCells(b) - UnfixedCells(b2);
    }
    SubsetSize(UnfixedCells(b2), UnfixedCells(b));
  }

  /** Fixing a cell that held no digit removes exactly one unfixed cell. */
  lemma FixingDecreasesUnfixed(b: Board, r: Idx, c: Idx, d: Digit)
    requires !b[r][c].Fixed?
    ensures Unfixed(Place(b, r, c, Fixed(d))) == Unfixed(b) - 1
  {
    var rest := UnfixedCells(Place(b, r, c, Fixed(d)));
    assert rest == UnfixedCells(b) - {(r, c)};
    assert UnfixedCells(b) == rest + {(r, c)};
  }

  /** Replacing one unfixed cell by another leaves the count unchanged. */
  lemma ReplacingUnfixedKeepsCount(b: Board, r: Idx, c: Idx, x: Cell)
    requires !b[r][c].Fixed? && !x.Fixed?
    ensures Unfixed(Place(b, r, c, x)) == Unfixed(b)
  {
    assert UnfixedCells(Place(b, r, c, x)) == UnfixedCells(b);
  }

}
