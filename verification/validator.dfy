/** The validator: `compare` (sorted equality of two cell lists) and
    `isSolved` (every row, every column and boxes 1..8 hold the digits 1..9).

    The source sorts with JavaScript's default string order. Here cells are
    sorted by a total order of their own: the empty cell first, then digits in
    ascending order, then candidate lists in lexicographic order. On digit
    cells the two orders agree, and `Compare` turns out to be multiset
    equality, which does not depend on the order used. */
module Validator {
  import opened Grid

  /** Lexicographic order on digit lists. */
  predicate LexLe(p: seq<Digit>, q: seq<Digit>)
    decreases |p|
  {
    |p| == 0 || (|q| > 0 && (p[0] < q[0] || (p[0] == q[0] && LexLe(p[1..], q[1..]))))
  }

  lemma {:induction false} LexLeTotal(p: seq<Digit>, q: seq<Digit>)
    ensures LexLe(p, q) || LexLe(q, p)
    decreases |p|
  {
    if |p| > 0 && |q| > 0 && p[0] == q[0] {
      LexLeTotal(p[1..], q[1..]);
    }
  }

  lemma {:induction false} LexLeAntisymmetric(p: seq<Digit>, q: seq<Digit>)
    requires LexLe(p, q) && LexLe(q, p)
    ensures p == q
    decreases |p|
  {
    if |p| > 0 {
      LexLeAntisymmetric(p[1..], q[1..]);
      assert p == [p[0]] + p[1..] && q == [q[0]] + q[1..];
    }
  }

  lemma {:induction false} LexLeReflexive(p: seq<Digit>)
    ensures LexLe(p, p)
    decreases |p|
  {
    if |p| > 0 {
      LexLeReflexive(p[1..]);
    }
  }

  lemma {:induction false} LexLeTransitive(p: seq<Digit>, q: seq<Digit>, t: seq<Digit>)
    requires LexLe(p, q) && LexLe(q, t)
    ensures LexLe(p, t)
    decreases |p|
  {
    if |p| > 0 && p[0] == q[0] && q[0] == t[0] {
      LexLeTransitive(p[1..], q[1..], t[1..]);
    }
  }

  /** The order the model sorts cells by. */
  predicate CellLe(x: Cell, y: Cell)
  {
    match (x, y)
    case (Empty, _) => true
    case (Fixed(_), Empty) => false
    case (Fixed(a), Fixed(b)) => a <= b
    case (Fixed(_), Cands(_)) => true
    case (Cands(_), Cands(q)) => LexLe(x.ds, q)
    case (Cands(_), _) => false
  }

  lemma CellLeTotal(x: Cell, y: Cell)
    ensures CellLe(x, y) || CellLe(y, x)
  {
    if x.Cands? && y.Cands? {
      LexLeTotal(x.ds, y.ds);
    }
  }

  lemma CellLeReflexive(x: Cell)
    ensures CellLe(x, x)
  {
    if x.Cands? {
      LexLeReflexive(x.ds);
    }
  }

  lemma CellLeAntisymmetric(x: Cell, y: Cell)
    requires CellLe(x, y) && CellLe(y, x)
    ensures x == y
  {
    if x.Cands? && y.Cands? {
      LexLeAntisymmetric(x.ds, y.ds);
    }
  }

  lemma CellLeTransitive(x: Cell, y: Cell, z: Cell)
    requires CellLe(x, y) && CellLe(y, z)
    ensures CellLe(x, z)
  {
    if x.Cands? && y.Cands? && z.Cands? {
      LexLeTransitive(x.ds, y.ds, z.ds);
    }
  }

  predicate Sorted(s: seq<Cell>)
  {
    forall i, j :: 0 <= i < j < |s| ==> CellLe(s[i], s[j])
  }

  /** Inserts x into a sorted list, keeping it sorted. */
  function Insert(x: Cell, s: seq<Cell>): (r: seq<Cell>)
    requires Sorted(s)
    ensures Sorted(r)
    ensures multiset(r) == multiset(s) + multiset{x}
    ensures |r| == |s| + 1
  {
    if s == [] then [x]
    else if CellLe(x, s[0]) then
      InsertFront(x, s);
      [x] + s
    else
      var tail := Insert(x, s[1..]);
      assert s == [s[0]] + s[1..];
      CellLeTotal(x, s[0]);
      InsertBehind(s[0], tail, x, s[1..]);
      [s[0]] + tail
  }

  lemma InsertFront(x: Cell, s: seq<Cell>)
    requires Sorted(s) && s != [] && CellLe(x, s[0])
    ensures Sorted([x] + s)
  {
    var r := [x] + s;
    forall i, j | 0 <= i < j < |r|
      ensures CellLe(r[i], r[j])
    {
      if i == 0 && j > 1 {
        CellLeTransitive(x, s[0], s[j - 1]);
      }
    }
  }

  lemma InsertBehind(h: Cell, tail: seq<Cell>, x: Cell, rest: seq<Cell>)
    requires Sorted(tail) && CellLe(h, x)
    requires multiset(tail) == multiset(rest) + multiset{x}
    requires forall k :: 0 <= k < |rest| ==> CellLe(h, rest[k])
    ensures Sorted([h] + tail)
  {
    var r := [h] + tail;
    forall i, j | 0 <= i < j < |r|
      ensures CellLe(r[i], r[j])
    {
      if i == 0 {
        var y := tail[j - 1];
        assert y in multiset(tail);
        if y != x {
          assert y in multiset(rest);
          var k :| 0 <= k < |rest| && rest[k] == y;
        }
      }
    }
  }

  /** Insertion sort: a sorted permutation of s. */
  function Sort(s: seq<Cell>): (r: seq<Cell>)
    ensures Sorted(r)
    ensures multiset(r) == multiset(s)
    ensures |r| == |s|
  {
    if s == [] then []
    else
      assert s == [s[0]] + s[1..];
      Insert(s[0], Sort(s[1..]))
  }

  /** Two sorted lists with the same elements are equal. */
  lemma {:induction false} SortedUnique(s: seq<Cell>, t: seq<Cell>)
    requires Sorted(s) && Sorted(t) && multiset(s) == multiset(t)
    ensures s == t
    decreases |s|
  {
    if s != [] {
      SortedHeads(s, t);
      RemoveHead(s, t);
      SortedUnique(s[1..], t[1..]);
    }
  }

  /** Two nonempty sorted lists with the same elements start alike. */
  lemma SortedHeads(s: seq<Cell>, t: seq<Cell>)
    requires Sorted(s) && Sorted(t) && multiset(s) == multiset(t) && s != []
    ensures t != [] && s[0] == t[0]
  {
    assert s[0] in multiset(t);
    assert t[0] in multiset(s);
    var i :| 0 <= i < |t| && t[i] == s[0];
    var j :| 0 <= j < |s| && s[j] == t[0];
    assert CellLe(t[0], s[0]) by {
      if i > 0 {
        assert CellLe(t[0], t[i]);
      } else {
        CellLeReflexive(s[0]);
      }
    }
    assert CellLe(s[0], t[0]) by {
      if j > 0 {
        assert CellLe(s[0], s[j]);
      } else {
        CellLeReflexive(s[0]);
      }
    }
    CellLeAntisymmetric(s[0], t[0]);
  }

  /** Dropping equal heads keeps the element multisets equal. */
  lemma RemoveHead(s: seq<Cell>, t: seq<Cell>)
    requires s != [] && t != [] && s[0] == t[0] && multiset(s) == multiset(t)
    ensures multiset(s[1..]) == multiset(t[1..])
  {
    assert s == [s[0]] + s[1..] && t == [t[0]] + t[1..];
    assert multiset(s) == multiset{s[0]} + multiset(s[1..]);
    assert multiset(t) == multiset{t[0]} + multiset(t[1..]);
    forall x
      ensures multiset(s[1..])[x] == multiset(t[1..])[x]
    {
      assert multiset(s)[x] == multiset(t)[x];
    }
  }

  /** The source's `compare`: sort copies of both lists and compare them
      position by position. Neither argument is changed, since lists are
      values. The result is multiset equality of the two lists. */
  function Compare(expected: seq<Cell>, actual: seq<Cell>): (same: bool)
    ensures same <==> multiset(expected) == multiset(actual)
  {
    var a := Sort(expected);
    var b := Sort(actual);
    var same := |expected| == |actual| && forall i :: 0 <= i < |a| ==> a[i] == b[i];
    if multiset(expected) == multiset(actual) then
      SortedUnique(a, b);
      same
    else
      assert same ==> a == b;
      same
  }

  /** The list the validator compares every unit against. */
  const Expected: seq<Cell> := [Fixed(1), Fixed(2), Fixed(3), Fixed(4), Fixed(5), Fixed(6), Fixed(7), Fixed(8), Fixed(9)]

  /** The unit holds each digit 1..9 exactly once. */
  predicate IsPermutation(cells: seq<Cell>)
  {
    multiset(cells) == multiset(Expected)
  }

  /** A solved board: every row, column and box (all nine) is a permutation
      of 1..9. */
  predicate IsSolution(b: Board)
  {
    RowsArePermutations(b) && ColumnsArePermutations(b) && BoxesArePermutations(b, 9)
  }

  predicate RowsArePermutations(b: Board)
  {
    forall r: Idx :: IsPermutation(GetRow(b, r))
  }

  predicate ColumnsArePermutations(b: Board)
  {
    forall c: Idx :: IsPermutation(GetColumn(b, c))
  }

  /** Boxes 1..last are permutations. */
  predicate BoxesArePermutations(b: Board, last: int)
  {
    forall s | 1 <= s <= last :: IsPermutation(GetSquare(b, s))
  }

  /** The source's `isSolved`: all rows, all columns and boxes 1..8 pass
      `compare`; box 9 is never looked at. It still decides exactly the
      solved boards, because box 9 is implied by the rest. */
  function IsSolved(b: Board): (solved: bool)
    ensures solved <==> IsSolution(b)
  {
    var solved := RowsPass(b) && ColumnsPass(b) && BoxesPass(b);
    RowsPassIff(b);
    ColumnsPassIff(b);
    BoxesPassIff(b);
    if solved then
      BoxNineFollows(b);
      solved
    else
      solved
  }

  /** Every row passes `compare` against 1..9. */
  predicate RowsPass(b: Board)
  {
    forall r: Idx :: Compare(Expected, GetRow(b, r))
  }

  /** Every column passes `compare` against 1..9. */
  predicate ColumnsPass(b: Board)
  {
    forall c: Idx :: Compare(Expected, GetColumn(b, c))
  }

  /** Boxes 1..8 pass `compare` against 1..9. */
  predicate BoxesPass(b: Board)
  {
    forall s | 1 <= s < 9 :: Compare(Expected, GetSquare(b, s))
  }

  lemma RowsPassIff(b: Board)
    ensures RowsPass(b) <==> RowsArePermutations(b)
  {
    if RowsPass(b) {
      forall r: Idx
        ensures IsPermutation(GetRow(b, r))
      {
        assert Compare(Expected, GetRow(b, r));
      }
    }
  }

  lemma ColumnsPassIff(b: Board)
    ensures ColumnsPass(b) <==> ColumnsArePermutations(b)
  {
    if ColumnsPass(b) {
      forall c: Idx
        ensures IsPermutation(GetColumn(b, c))
      {
        assert Compare(Expected, GetColumn(b, c));
      }
    }
  }

  lemma BoxesPassIff(b: Board)
    ensures BoxesPass(b) <==> BoxesArePermutations(b, 8)
  {
    if BoxesPass(b) {
      forall s | 1 <= s <= 8
        ensures IsPermutation(GetSquare(b, s))
      {
        assert Compare(Expected, GetSquare(b, s));
      }
    }
  }

  /** A row is the sum of its parts in the three box columns. */
  lemma RowIsThreeSlices(row: seq<Cell>)
    requires |row| == 9
    ensures multiset(row) == multiset(BoxSlice(row, 7)) + multiset(BoxSlice(row, 8)) + multiset(BoxSlice(row, 9))
  {
    assert BoxLeft(7) == 0 && BoxLeft(8) == 3 && BoxLeft(9) == 6;
    assert row == BoxSlice(row, 7) + BoxSlice(row, 8) + BoxSlice(row, 9);
  }

  /** Box s of the bottom band, as its slices of rows 7..9. */
  lemma BottomBox(b: Board, s: int)
    requires 7 <= s <= 9
    ensures multiset(GetSquare(b, s)) ==
      multiset(BoxSlice(b[6], s)) + (multiset(BoxSlice(b[7], s)) + multiset(BoxSlice(b[8], s)))
  {
    assert BoxTop(s) == 6;
    BoxCellsIsSquare(b, s);
    MultisetOfThree(BoxSlice(b[6], s), BoxSlice(b[7], s), BoxSlice(b[8], s));
  }

  lemma MultisetOfThree(x0: seq<Cell>, x1: seq<Cell>, x2: seq<Cell>)
    ensures multiset(x0 + (x1 + x2)) == multiset(x0) + (multiset(x1) + multiset(x2))
  {
  }

  /** Three rows split three ways: if every row and the first two columns of
      the split sum to e, so does the third. */
  lemma MultisetCancel(a0: multiset<Cell>, a1: multiset<Cell>, a2: multiset<Cell>,
                       b0: multiset<Cell>, b1: multiset<Cell>, b2: multiset<Cell>,
                       c0: multiset<Cell>, c1: multiset<Cell>, c2: multiset<Cell>, e: multiset<Cell>)
    requires a0 + a1 + a2 == e && b0 + b1 + b2 == e && c0 + c1 + c2 == e
    requires a0 + (b0 + c0) == e && a1 + (b1 + c1) == e
    ensures a2 + (b2 + c2) == e
  {
    forall x
      ensures (a2 + (b2 + c2))[x] == e[x]
    {
      assert (a0 + a1 + a2)[x] == e[x] && (b0 + b1 + b2)[x] == e[x] && (c0 + c1 + c2)[x] == e[x];
      assert (a0 + (b0 + c0))[x] == e[x] && (a1 + (b1 + c1))[x] == e[x];
    }
  }

  /** With every row and boxes 1..8 permutations of 1..9, box 9 is one too:
      checking boxes 1..8 only loses nothing. */
  lemma BoxNineFollows(b: Board)
    requires RowsArePermutations(b) && BoxesArePermutations(b, 8)
    ensures BoxesArePermutations(b, 9)
  {
    assert IsPermutation(GetSquare(b, 7)) && IsPermutation(GetSquare(b, 8));
    assert IsPermutation(GetRow(b, 6)) && IsPermutation(GetRow(b, 7)) && IsPermutation(GetRow(b, 8));
    BoxNineFromBottomBand(b);
  }

  /** If rows 7..9 and boxes 7 and 8 are permutations of 1..9, so is box 9. */
  lemma BoxNineFromBottomBand(b: Board)
    requires IsPermutation(b[6]) && IsPermutation(b[7]) && IsPermutation(b[8])
    requires IsPermutation(GetSquare(b, 7)) && IsPermutation(GetSquare(b, 8))
    ensures IsPermutation(GetSquare(b, 9))
  {
    BottomBox(b, 7);
    BottomBox(b, 8);
    BottomBox(b, 9);
    RowIsThreeSlices(b[6]);
    RowIsThreeSlices(b[7]);
    RowIsThreeSlices(b[8]);
    MultisetCancel(multiset(BoxSlice(b[6], 7)), multiset(BoxSlice(b[6], 8)), multiset(BoxSlice(b[6], 9)),
                   multiset(BoxSlice(b[7], 7)), multiset(BoxSlice(b[7], 8)), multiset(BoxSlice(b[7], 9)),
                   multiset(BoxSlice(b[8], 7)), multiset(BoxSlice(b[8], 8)), multiset(BoxSlice(b[8], 9)),
                   multiset(Expected));
  }
}

/** Facts about units that are permutations of 1..9, used by the soundness
    and completeness lemmas. */
module Permutations {
  import opened Grid
  import opened Validator

  /** Every cell of a permutation of 1..9 holds a digit. */
  lemma PermutationCellFixed(cells: seq<Cell>, i: int)
    requires IsPermutation(cells) && 0 <= i < |cells|
    ensures cells[i].Fixed?
  {
    assert cells[i] in multiset(cells);
  }

  /** A permutation of 1..9 holds every digit somewhere. */
  lemma PermutationHasDigit(cells: seq<Cell>, d: Digit) returns (i: int)
    requires IsPermutation(cells)
    ensures 0 <= i < |cells| && cells[i] == Fixed(d)
  {
    assert Expected[d - 1] == Fixed(d);
    assert Fixed(d) in multiset(Expected);
    assert Fixed(d) in multiset(cells);
    i :| 0 <= i < |cells| && cells[i] == Fixed(d);
  }

  /** Two positions of a permutation of 1..9 hold different cells. */
  lemma PermutationDistinct(cells: seq<Cell>, i: int, j: int)
    requires IsPermutation(cells) && 0 <= i < |cells| && 0 <= j < |cells| && i != j
    ensures cells[i] != cells[j]
  {
    if cells[i] == cells[j] {
      var x := cells[i];
      if i < j {
        TwoCopies(cells, i, j);
      } else {
        TwoCopies(cells, j, i);
      }
      ExpectedOnce(x);
      assert false;
    }
  }

  lemma TwoCopies(s: seq<Cell>, i: int, j: int)
    requires 0 <= i < j < |s| && s[i] == s[j]
    ensures multiset(s)[s[i]] >= 2
  {
    assert s == s[..i] + [s[i]] + s[i + 1..j] + [s[j]] + s[j + 1..];
  }

  /** The reference list holds each cell at most once. */
  lemma ExpectedOnce(x: Cell)
    ensures multiset(Expected)[x] <= 1
  {
  }

}
