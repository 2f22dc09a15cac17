/** The two input checks run before any solving: the shape check and the
    check that the given digits do not clash. */
module Validation {
  import opened Grids

  /** Entries j.. of a row are all in 0..9. */
  function EntriesInRange(row: seq<int>, j: int): (ok: bool)
    requires 0 <= j <= |row|
    decreases |row| - j
    ensures ok <==> forall c :: j <= c < |row| ==> 0 <= row[c] <= 9
  {
    if j == |row| then true
    else if !(0 <= row[j] <= 9) then false
    else EntriesInRange(row, j + 1)
  }

  /** Rows i.. all have nine entries, each in 0..9. */
  function RowsWellFormed(g: Grid, i: int): (ok: bool)
    requires 0 <= i <= |g|
    decreases |g| - i
    ensures ok <==> forall r :: i <= r < |g| ==> |g[r]| == 9 && forall c :: 0 <= c < 9 ==> 0 <= g[r][c] <= 9
  {
    if i == |g| then true
    else if |g[i]| != 9 then false
    else if !EntriesInRange(g[i], 0) then false
    else RowsWellFormed(g, i + 1)
  }

  /** The shape check: nine rows, each of nine entries in 0..9. */
  function CheckFormat(g: Grid): (ok: bool)
    ensures ok <==> ValidGrid(g)
  {
    if |g| != 9 then false else RowsWellFormed(g, 0)
  }

  /** elem occurs in row r: some cell of the grid in row r holds it. */
  function InRow(elem: int, r: int, g: Grid): (found: bool)
    requires IsShape(g) && 0 <= r < 9
    ensures found <==> exists m :: 0 <= m < 81 && m / 9 == r && At(g, m) == elem
  {
    RowSearchFinds(elem, r, g);
    elem in g[r]
  }

  /** elem occurs in column c: some cell of the grid in column c holds
      it. */
  function InColumn(elem: int, c: int, g: Grid): (found: bool)
    requires IsShape(g) && 0 <= c < 9
    ensures found <==> exists m :: 0 <= m < 81 && m % 9 == c && At(g, m) == elem
  {
    ColumnSearchFinds(elem, c, g);
    exists i :: 0 <= i < 9 && g[i][c] == elem
  }

  /** elem occurs in the 3x3 box holding (r, c): some cell of the grid in
      that box holds it. */
  function InSquare(elem: int, r: int, c: int, g: Grid): (found: bool)
    requires IsShape(g) && 0 <= r < 9 && 0 <= c < 9
    ensures found <==> exists m :: 0 <= m < 81 && (m / 9) / 3 == r / 3 && (m % 9) / 3 == c / 3 && At(g, m) == elem
  {
    var rowTop := 3 * (r / 3);
    var columnLeft := 3 * (c / 3);
    SquareSearchFinds(elem, r, c, g);
    exists i, j :: rowTop <= i < rowTop + 3 && columnLeft <= j < columnLeft + 3 && g[i][j] == elem
  }

  /** The row slice holds elem exactly when a cell of the row does. */
  lemma RowSearchFinds(elem: int, r: int, g: Grid)
    requires IsShape(g) && 0 <= r < 9
    ensures elem in g[r] <==> exists m :: 0 <= m < 81 && m / 9 == r && At(g, m) == elem
  {
    if elem in g[r] {
      var j :| 0 <= j < 9 && g[r][j] == elem;
      FlatIndex(r, j);
      assert At(g, 9 * r + j) == elem;
    }
  }

  /** The column slice holds elem exactly when a cell of the column does. */
  lemma ColumnSearchFinds(elem: int, c: int, g: Grid)
    requires IsShape(g) && 0 <= c < 9
    ensures (exists i :: 0 <= i < 9 && g[i][c] == elem)
            <==> exists m :: 0 <= m < 81 && m % 9 == c && At(g, m) == elem
  {
    if exists i :: 0 <= i < 9 && g[i][c] == elem {
      var i :| 0 <= i < 9 && g[i][c] == elem;
      FlatIndex(i, c);
      assert At(g, 9 * i + c) == elem;
    }
  }

  /** The box slice holds elem exactly when a cell of the box does. */
  lemma SquareSearchFinds(elem: int, r: int, c: int, g: Grid)
    requires IsShape(g) && 0 <= r < 9 && 0 <= c < 9
    ensures var rowTop, columnLeft := 3 * (r / 3), 3 * (c / 3);
            (exists i, j :: rowTop <= i < rowTop + 3 && columnLeft <= j < columnLeft + 3 && g[i][j] == elem)
            <==> exists m :: 0 <= m < 81 && (m / 9) / 3 == r / 3 && (m % 9) / 3 == c / 3 && At(g, m) == elem
  {
    var rowTop, columnLeft := 3 * (r / 3), 3 * (c / 3);
    if exists i, j :: rowTop <= i < rowTop + 3 && columnLeft <= j < columnLeft + 3 && g[i][j] == elem {
      var i, j :| rowTop <= i < rowTop + 3 && columnLeft <= j < columnLeft + 3 && g[i][j] == elem;
      FlatIndex(i, j);
      assert At(g, 9 * i + j) == elem;
    }
    if exists m :: 0 <= m < 81 && (m / 9) / 3 == r / 3 && (m % 9) / 3 == c / 3 && At(g, m) == elem {
      var m :| 0 <= m < 81 && (m / 9) / 3 == r / 3 && (m % 9) / 3 == c / 3 && At(g, m) == elem;
      assert rowTop <= m / 9 < rowTop + 3 && columnLeft <= m % 9 < columnLeft + 3 && g[m / 9][m % 9] == elem;
    }
  }

  /** Cell k holds a digit that some other cell of its row, column or box
      also holds. */
  predicate ClashAt(g: Grid, k: int)
    requires IsShape(g) && 0 <= k < 81
  {
    At(g, k) != 0 && exists m :: 0 <= m < 81 && m != k && Peer(k, m) && At(g, m) == At(g, k)
  }

  /** Blanking cell k and searching its row, column and box for its digit
      finds the digit exactly when it clashes with another cell. */
  lemma BlankedSearchFindsClash(g: Grid, k: int)
    requires IsShape(g) && 0 <= k < 81 && At(g, k) != 0
    ensures var elem, blank := At(g, k), SetAt(g, k, 0);
            (InRow(elem, k / 9, blank) || InColumn(elem, k % 9, blank) || InSquare(elem, k / 9, k % 9, blank))
            <==> ClashAt(g, k)
  {
    FoundDigitClashes(g, k);
    if ClashAt(g, k) {
      ClashIsFound(g, k);
    }
  }

  /** A digit the blanked search finds is a clash. */
  lemma FoundDigitClashes(g: Grid, k: int)
    requires IsShape(g) && 0 <= k < 81 && At(g, k) != 0
    ensures var elem, blank := At(g, k), SetAt(g, k, 0);
            (InRow(elem, k / 9, blank) || InColumn(elem, k % 9, blank) || InSquare(elem, k / 9, k % 9, blank))
            ==> ClashAt(g, k)
  {
    var elem, blank := At(g, k), SetAt(g, k, 0);
    var r, c := k / 9, k % 9;
    var i, j;
    if InRow(elem, r, blank) {
      j :| 0 <= j < 9 && blank[r][j] == elem;
      i := r;
    } else if InColumn(elem, c, blank) {
      i :| 0 <= i < 9 && blank[i][c] == elem;
      j := c;
    } else if InSquare(elem, r, c, blank) {
      i, j :| 3 * (r / 3) <= i < 3 * (r / 3) + 3 && 3 * (c / 3) <= j < 3 * (c / 3) + 3 && blank[i][j] == elem;
      assert i / 3 == r / 3 && j / 3 == c / 3;
    } else {
      return;
    }
    FlatIndex(i, j);
    assert At(blank, 9 * i + j) == elem;
    assert Peer(k, 9 * i + j);
  }

  /** A clash is found by the blanked search. */
  lemma ClashIsFound(g: Grid, k: int)
    requires IsShape(g) && 0 <= k < 81 && At(g, k) != 0 && ClashAt(g, k)
    ensures var elem, blank := At(g, k), SetAt(g, k, 0);
            InRow(elem, k / 9, blank) || InColumn(elem, k % 9, blank) || InSquare(elem, k / 9, k % 9, blank)
  {
    var elem, blank := At(g, k), SetAt(g, k, 0);
    var r, c := k / 9, k % 9;
    var m :| 0 <= m < 81 && m != k && Peer(k, m) && At(g, m) == elem;
    var i, j := m / 9, m % 9;
    assert blank[i][j] == elem;
    if i == r {
      assert InRow(elem, r, blank);
    } else if j == c {
      assert InColumn(elem, c, blank);
    } else {
      assert 3 * (r / 3) <= i < 3 * (r / 3) + 3 && 3 * (c / 3) <= j < 3 * (c / 3) + 3;
      assert InSquare(elem, r, c, blank);
    }
  }


  /** Writing back the digit that was blanked restores the grid. */
  lemma RestoreCell(g: Grid, k: int)
    requires IsShape(g) && 0 <= k < 81
    ensures SetAt(SetAt(g, k, 0), k, At(g, k)) == g
  {
    SameCellsSameGrid(SetAt(SetAt(g, k, 0), k, At(g, k)), g);
  }

  /** The clash check from cell k on, in row-major order.  Each assigned
      cell is blanked, its digit searched for, and the digit written back on
      both paths; the grid handed back is the grid handed in. */
  function CheckFixedFrom(g: Grid, k: int): (r: (bool, Grid))
    requires IsShape(g) && 0 <= k <= 81
    decreases 81 - k
    ensures r.1 == g
    ensures r.0 <==> forall m :: k <= m < 81 ==> !ClashAt(g, m)
  {
    if k == 81 then (true, g)
    else
      var elem := At(g, k);
      if elem != 0 then
        var blank := SetAt(g, k, 0);
        BlankedSearchFindsClash(g, k);
        RestoreCell(g, k);
        if InRow(elem, k / 9, blank) || InColumn(elem, k % 9, blank) || InSquare(elem, k / 9, k % 9, blank) then
          (false, SetAt(blank, k, elem))
        else
          CheckFixedFrom(SetAt(blank, k, elem), k + 1)
      else
        CheckFixedFrom(g, k + 1)
  }

  /** The clash check over the whole grid: true exactly when no given digit
      appears twice in a row, a column or a box. */
  function CheckFixedValues(g: Grid): (ok: bool)
    requires IsShape(g)
    ensures ok <==> NoClashes(g)
  {
    NoClashesMeansNoClashAt(g);
    CheckFixedFrom(g, 0).0
  }

  /** NoClashes, cell by cell. */
  lemma NoClashesMeansNoClashAt(g: Grid)
    requires IsShape(g)
    ensures NoClashes(g) <==> forall k :: 0 <= k < 81 ==> !ClashAt(g, k)
  {
    if forall k :: 0 <= k < 81 ==> !ClashAt(g, k) {
      forall a, b | 0 <= a < 81 && 0 <= b < 81 && a != b && Peer(a, b) && At(g, a) != 0
        ensures At(g, a) != At(g, b)
      {
        assert !ClashAt(g, a);
      }
    }
  }
}
