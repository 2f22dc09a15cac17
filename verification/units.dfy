/** The nine rows, nine columns and nine boxes of the grid, and the fact
    that a full grid without clashes holds every digit exactly once in each
    of them. */
module Units {
  import opened Grids
  import opened Validation

  /** The cells of row i, left to right. */
  function RowCells(i: int): seq<int>
  {
    seq(9, t => 9 * i + t)
  }

  /** The cells of column j, top to bottom. */
  function ColumnCells(j: int): seq<int>
  {
    seq(9, t => 9 * t + j)
  }

  /** The cells of box b (boxes numbered 0..8 in row-major order), in
      row-major order. */
  function BoxCells(b: int): seq<int>
  {
    seq(9, t => 9 * (3 * (b / 3) + t / 3) + 3 * (b % 3) + t % 3)
  }

  /** Nine cells of the grid. */
  predicate NineCells(cells: seq<int>)
  {
    |cells| == 9 && forall t :: 0 <= t < 9 ==> 0 <= cells[t] < 81
  }

  /** Nine different cells of the grid, each a peer of every other. */
  predicate IsUnit(cells: seq<int>)
  {
    && NineCells(cells)
    && (forall t1, t2 :: 0 <= t1 < 9 && 0 <= t2 < 9 && t1 != t2 ==> cells[t1] != cells[t2] && Peer(cells[t1], cells[t2]))
  }

  /** The digits of nine cells, in their order. */
  function UnitValues(g: Grid, cells: seq<int>): (u: seq<int>)
    requires IsShape(g) && NineCells(cells)
    ensures |u| == 9 && forall t :: 0 <= t < 9 ==> u[t] == At(g, cells[t])
  {
    seq(9, t requires 0 <= t < 9 => At(g, cells[t]))
  }

  lemma RowsAreUnits(i: int)
    requires 0 <= i < 9
    ensures IsUnit(RowCells(i))
  {
    var cells := RowCells(i);
    forall t | 0 <= t < 9
      ensures cells[t] / 9 == i && cells[t] % 9 == t
    {
      FlatIndex(i, t);
    }
  }

  lemma ColumnsAreUnits(j: int)
    requires 0 <= j < 9
    ensures IsUnit(ColumnCells(j))
  {
    var cells := ColumnCells(j);
    forall t | 0 <= t < 9
      ensures cells[t] / 9 == t && cells[t] % 9 == j
    {
      FlatIndex(t, j);
    }
  }

  /** Where the t-th cell of box b lies. */
  lemma BoxCellPosition(b: int, t: int)
    requires 0 <= b < 9 && 0 <= t < 9
    ensures var c := BoxCells(b)[t];
            && c / 9 == 3 * (b / 3) + t / 3 && c % 9 == 3 * (b % 3) + t % 3
            && (c / 9) / 3 == b / 3 && (c % 9) / 3 == b % 3
            && 0 <= c < 81
  {
    FlatIndex(3 * (b / 3) + t / 3, 3 * (b % 3) + t % 3);
  }

  lemma BoxesAreUnits(b: int)
    requires 0 <= b < 9
    ensures IsUnit(BoxCells(b))
  {
    var cells := BoxCells(b);
    forall t | 0 <= t < 9
      ensures 0 <= cells[t] < 81
    {
      BoxCellPosition(b, t);
    }
    forall t1, t2 | 0 <= t1 < 9 && 0 <= t2 < 9 && t1 != t2
      ensures cells[t1] != cells[t2] && Peer(cells[t1], cells[t2])
    {
      BoxCellPosition(b, t1);
      BoxCellPosition(b, t2);
      assert t1 == 3 * (t1 / 3) + t1 % 3 && t2 == 3 * (t2 / 3) + t2 % 3;
    }
  }

  /** The distinct elements of a sequence without repeats number as many as
      its length. */
  lemma {:induction false} DistinctCount(u: seq<int>)
    requires forall a, b :: 0 <= a < b < |u| ==> u[a] != u[b]
    ensures |set x | x in u| == |u|
  {
    if u != [] {
      DistinctCount(u[1..]);
      assert (set x | x in u) == {u[0]} + (set x | x in u[1..]);
      assert u[0] !in (set x | x in u[1..]);
    }
  }

  lemma DigitsCount()
    ensures |Digits| == 9
  {
    assert Digits == {1, 2, 3, 4, 5, 6, 7, 8, 9};
  }

  /** Nine pairwise different digits are all nine digits. */
  lemma NineDistinctDigits(u: seq<int>)
    requires |u| == 9
    requires forall a :: 0 <= a < 9 ==> 1 <= u[a] <= 9
    requires forall a, b :: 0 <= a < b < 9 ==> u[a] != u[b]
    ensures forall d :: 1 <= d <= 9 ==> d in u
  {
    var values := set x | x in u;
    DistinctCount(u);
    DigitsCount();
    assert values <= Digits;
    assert |Digits - values| == 0;
    assert Digits - values == {};
    forall d | 1 <= d <= 9
      ensures d in u
    {
      assert d in Digits;
    }
  }

  /** In a grid of digits without clashes, each unit holds each digit 1..9
      exactly once. */
  lemma UnitHoldsEachDigitOnce(g: Grid, cells: seq<int>)
    requires IsShape(g) && IsUnit(cells)
    requires forall m :: 0 <= m < 81 ==> 1 <= At(g, m) <= 9
    requires NoClashes(g)
    ensures forall t1, t2 :: 0 <= t1 < 9 && 0 <= t2 < 9 && t1 != t2 ==> At(g, cells[t1]) != At(g, cells[t2])
    ensures forall d :: 1 <= d <= 9 ==> d in UnitValues(g, cells)
  {
    NineDistinctDigits(UnitValues(g, cells));
  }

  /** A full grid of digits without clashes holds each digit 1..9 in every
      row, column and box, as the row, column and box searches see it. */
  lemma FullGridHasEveryDigit(s: Grid)
    requires IsShape(s) && CellsInRange(s) && Full(s) && NoClashes(s)
    ensures forall r, d :: 0 <= r < 9 && 1 <= d <= 9 ==> InRow(d, r, s)
    ensures forall c, d :: 0 <= c < 9 && 1 <= d <= 9 ==> InColumn(d, c, s)
    ensures forall r, c, d :: 0 <= r < 9 && 0 <= c < 9 && 1 <= d <= 9 ==> InSquare(d, r, c, s)
  {
    assert forall m :: 0 <= m < 81 ==> 1 <= At(s, m) <= 9;
    forall r, d | 0 <= r < 9 && 1 <= d <= 9
      ensures InRow(d, r, s)
    {
      RowsAreUnits(r);
      UnitHoldsEachDigitOnce(s, RowCells(r));
      RowHolds(s, r, d);
    }
    forall c, d | 0 <= c < 9 && 1 <= d <= 9
      ensures InColumn(d, c, s)
    {
      ColumnsAreUnits(c);
      UnitHoldsEachDigitOnce(s, ColumnCells(c));
      ColumnHolds(s, c, d);
    }
    forall r, c, d | 0 <= r < 9 && 0 <= c < 9 && 1 <= d <= 9
      ensures InSquare(d, r, c, s)
    {
      var b := 3 * (r / 3) + c / 3;
      BoxesAreUnits(b);
      UnitHoldsEachDigitOnce(s, BoxCells(b));
      BoxHolds(s, r, c, d);
    }
  }

  /** A digit among the values of row r is found by the row search. */
  lemma RowHolds(s: Grid, r: int, d: int)
    requires IsShape(s) && 0 <= r < 9 && NineCells(RowCells(r)) && d in UnitValues(s, RowCells(r))
    ensures InRow(d, r, s)
  {
    var t :| 0 <= t < 9 && UnitValues(s, RowCells(r))[t] == d;
    FlatIndex(r, t);
    assert s[r][t] == d;
  }

  /** A digit among the values of column c is found by the column search. */
  lemma ColumnHolds(s: Grid, c: int, d: int)
    requires IsShape(s) && 0 <= c < 9 && NineCells(ColumnCells(c)) && d in UnitValues(s, ColumnCells(c))
    ensures InColumn(d, c, s)
  {
    var t :| 0 <= t < 9 && UnitValues(s, ColumnCells(c))[t] == d;
    FlatIndex(t, c);
    assert s[t][c] == d;
  }

  /** A digit among the values of the box of (r, c) is found by the box
      search. */
  lemma BoxHolds(s: Grid, r: int, c: int, d: int)
    requires IsShape(s) && 0 <= r < 9 && 0 <= c < 9
    requires var b := 3 * (r / 3) + c / 3; NineCells(BoxCells(b)) && d in UnitValues(s, BoxCells(b))
    ensures InSquare(d, r, c, s)
  {
    var rowBox, columnBox := r / 3, c / 3;
    var t :| 0 <= t < 9 && UnitValues(s, BoxCells(3 * rowBox + columnBox))[t] == d;
    BoxDigitAt(s, rowBox, columnBox, t);
    var i, j := 3 * rowBox + t / 3, 3 * columnBox + t % 3;
    assert s[i][j] == d;
  }

  /** Digit t of the box in box-row R and box-column C. */
  lemma BoxDigitAt(s: Grid, rowBox: int, columnBox: int, t: int)
    requires IsShape(s) && 0 <= rowBox < 3 && 0 <= columnBox < 3 && 0 <= t < 9
    requires NineCells(BoxCells(3 * rowBox + columnBox))
    ensures UnitValues(s, BoxCells(3 * rowBox + columnBox))[t] == s[3 * rowBox + t / 3][3 * columnBox + t % 3]
  {
    ThreeIndex(rowBox, columnBox);
    FlatIndex(3 * rowBox + t / 3, 3 * columnBox + t % 3);
  }
}
