/** The candidate engine: from a grid, the digits each blank cell may still
    take. */
module Candidates {
  import opened Grids

  /** The digits of row i. */
  function RowValues(g: Grid, i: int): set<int>
    requires IsShape(g) && 0 <= i < 9
  {
    (set j | 0 <= j < 9 :: g[i][j]) - {0}
  }

  /** The digits of column j. */
  function ColumnValues(g: Grid, j: int): set<int>
    requires IsShape(g) && 0 <= j < 9
  {
    (set i | 0 <= i < 9 :: g[i][j]) - {0}
  }

  /** Cell (i, j) of box s, the boxes numbered 0..8 in row-major order. */
  function SquareCell(g: Grid, s: int, i: int, j: int): int
    requires IsShape(g) && 0 <= s < 9 && 0 <= i < 3 && 0 <= j < 3
  {
    g[3 * (s / 3) + i][3 * (s % 3) + j]
  }

  /** The digits of box s. */
  function SquareValues(g: Grid, s: int): set<int>
    requires IsShape(g) && 0 <= s < 9
  {
    (set i, j | 0 <= i < 3 && 0 <= j < 3 :: SquareCell(g, s, i, j)) - {0}
  }

  /** The box holding cell k. */
  function SquareOf(k: int): (s: int)
    requires 0 <= k < 81
    ensures 0 <= s < 9 && s / 3 == (k / 9) / 3 && s % 3 == (k % 9) / 3
  {
    3 * ((k / 9) / 3) + (k % 9) / 3
  }

  /** The candidate set of every cell: the marker for an assigned cell, and
      for a blank cell the digits missing from its row, column and box. */
  function FeasibilitySet(g: Grid): (r: CellSets)
    requires IsShape(g)
    ensures |r| == 81
    ensures forall k :: 0 <= k < 81 && At(g, k) != 0 ==> r[k] == Fixed
    ensures forall k :: 0 <= k < 81 && At(g, k) == 0 ==> r[k] <= Digits
  {
    var rows := seq(9, i requires 0 <= i < 9 => RowValues(g, i));
    var columns := seq(9, j requires 0 <= j < 9 => ColumnValues(g, j));
    var squares := seq(9, s requires 0 <= s < 9 => SquareValues(g, s));
    seq(81, k requires 0 <= k < 81 =>
      if At(g, k) != 0 then Fixed
      else Digits - rows[k / 9] - columns[k % 9] - squares[SquareOf(k)])
  }

  /** A digit of the row, column or box sets of cell k is the digit of a
      peer of k. */
  lemma {:induction false} UnitValueIsPeerValue(g: Grid, k: int, d: int)
    requires IsShape(g) && 0 <= k < 81 && d != 0
    requires d in RowValues(g, k / 9) || d in ColumnValues(g, k % 9) || d in SquareValues(g, SquareOf(k))
    ensures !Absent(g, d, k)
  {
    var x, y, s := k / 9, k % 9, SquareOf(k);
    if d in RowValues(g, x) {
      var j :| 0 <= j < 9 && g[x][j] == d;
      FlatIndex(x, j);
      assert Peer(k, 9 * x + j) && At(g, 9 * x + j) == d;
    } else if d in ColumnValues(g, y) {
      var i :| 0 <= i < 9 && g[i][y] == d;
      FlatIndex(i, y);
      assert Peer(k, 9 * i + y) && At(g, 9 * i + y) == d;
    } else {
      var i, j :| 0 <= i < 3 && 0 <= j < 3 && SquareCell(g, s, i, j) == d;
      BoxCellIsPeer(g, k, i, j);
    }
  }

  /** Cell (i, j) of the box of cell k is a peer of k. */
  lemma BoxCellIsPeer(g: Grid, k: int, i: int, j: int)
    requires IsShape(g) && 0 <= k < 81 && 0 <= i < 3 && 0 <= j < 3
    ensures var s := SquareOf(k);
            var m := 9 * (3 * (s / 3) + i) + 3 * (s % 3) + j;
            0 <= m < 81 && Peer(k, m) && At(g, m) == SquareCell(g, s, i, j)
  {
    var s := SquareOf(k);
    var boxRow, boxColumn := s / 3, s % 3;
    assert 0 <= boxRow < 3 && 0 <= boxColumn < 3;
    var a, b := 3 * boxRow + i, 3 * boxColumn + j;
    assert 0 <= a < 9 && 0 <= b < 9;
    FlatIndex(a, b);
    ThreeIndex(boxRow, i);
    ThreeIndex(boxColumn, j);
    assert SameUnit(k / 9, k % 9, a, b);
  }

  /** The digit of a peer of k lies in the row, column or box set of k. */
  lemma {:induction false} PeerValueIsUnitValue(g: Grid, k: int, d: int)
    requires IsShape(g) && 0 <= k < 81 && d != 0
    requires !Absent(g, d, k)
    ensures d in RowValues(g, k / 9) || d in ColumnValues(g, k % 9) || d in SquareValues(g, SquareOf(k))
  {
    var x, y, s := k / 9, k % 9, SquareOf(k);
    var m :| 0 <= m < 81 && Peer(k, m) && At(g, m) == d;
    if m / 9 == x {
      assert g[x][m % 9] in set j | 0 <= j < 9 :: g[x][j];
    } else if m % 9 == y {
      assert g[m / 9][y] in set i | 0 <= i < 9 :: g[i][y];
    } else {
      assert s / 3 == x / 3 && s % 3 == y / 3;
      var i, j := m / 9 - 3 * (s / 3), m % 9 - 3 * (s % 3);
      assert SquareCell(g, s, i, j) == d;
      assert SquareCell(g, s, i, j) in set i, j | 0 <= i < 3 && 0 <= j < 3 :: SquareCell(g, s, i, j);
    }
  }

  /** A blank cell's candidates are exactly the digits 1..9 that occur in no
      peer of the cell. */
  lemma FeasibilitySetExact(g: Grid, k: int, d: int)
    requires IsShape(g) && 0 <= k < 81 && At(g, k) == 0
    ensures d in FeasibilitySet(g)[k] <==> 1 <= d <= 9 && Absent(g, d, k)
  {
    if d != 0 {
      if d in RowValues(g, k / 9) || d in ColumnValues(g, k % 9) || d in SquareValues(g, SquareOf(k)) {
        UnitValueIsPeerValue(g, k, d);
      } else if !Absent(g, d, k) {
        PeerValueIsUnitValue(g, k, d);
      }
    }
  }

  /** The whole-grid form of `FeasibilitySetExact`. */
  lemma FeasibilitySetMeaning(g: Grid)
    requires IsShape(g)
    ensures forall k, d :: 0 <= k < 81 && At(g, k) == 0 ==>
              (d in FeasibilitySet(g)[k] <==> 1 <= d <= 9 && Absent(g, d, k))
  {
    forall k, d | 0 <= k < 81 && At(g, k) == 0
      ensures d in FeasibilitySet(g)[k] <==> 1 <= d <= 9 && Absent(g, d, k)
    {
      FeasibilitySetExact(g, k, d);
    }
  }
}
