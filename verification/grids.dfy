/** The data model shared by every part of the solver: the 9x9 grid, the
    per-cell candidate sets, and the row/column/box relation between cells. */
module Grids {

  /** The usual Some/None wrapper, used for every operation that can fail. */
  datatype Option<T> = None | Some(value: T)

  /** A grid as the solver receives it: rows of cells, 0 for a blank and
      1..9 for an assigned digit.  Nothing about the shape is assumed by the
      type itself; `IsShape` and `ValidGrid` state it. */
  type Grid = seq<seq<int>>

  /** One candidate set per cell, the cell (x, y) at index 9*x+y.  A cell
      whose value is already fixed carries the marker set `Fixed`. */
  type CellSets = seq<set<int>>

  /** The marker `{-1}` that stands for "this cell is fixed". */
  const Fixed: set<int> := {-1}

  /** The digits a cell may take. */
  const Digits: set<int> := set d | 1 <= d <= 9

  predicate IsShape(g: Grid)
  {
    |g| == 9 && forall i :: 0 <= i < 9 ==> |g[i]| == 9
  }

  /** Nine rows of nine cells, every cell in 0..9. */
  predicate ValidGrid(g: Grid)
  {
    IsShape(g) && forall i, j :: 0 <= i < 9 && 0 <= j < 9 ==> 0 <= g[i][j] <= 9
  }

  /** The cell with row-major index k, that is, cell (k / 9, k % 9). */
  function At(g: Grid, k: int): int
    requires IsShape(g) && 0 <= k < 81
  {
    g[k / 9][k % 9]
  }

  /** The grid with the cell of row-major index k set to v. */
  function SetAt(g: Grid, k: int, v: int): (r: Grid)
    requires IsShape(g) && 0 <= k < 81
    ensures IsShape(r)
    ensures forall m :: 0 <= m < 81 ==> At(r, m) == if m == k then v else At(g, m)
  {
    g[k / 9 := g[k / 9][k % 9 := v]]
  }

  /** Cells (i1, j1) and (i2, j2) share a row, a column or a 3x3 box. */
  predicate SameUnit(i1: int, j1: int, i2: int, j2: int)
  {
    i1 == i2 || j1 == j2 || (i1 / 3 == i2 / 3 && j1 / 3 == j2 / 3)
  }

  /** The same relation on row-major indices. */
  predicate Peer(a: int, b: int)
  {
    SameUnit(a / 9, a % 9, b / 9, b % 9)
  }

  /** Every cell lies in 0..9. */
  predicate CellsInRange(g: Grid)
    requires IsShape(g)
  {
    forall m :: 0 <= m < 81 ==> 0 <= At(g, m) <= 9
  }

  /** No blank is left. */
  predicate Full(g: Grid)
    requires IsShape(g)
  {
    forall m :: 0 <= m < 81 ==> At(g, m) != 0
  }

  /** No assigned digit appears in another cell of its row, column or box. */
  predicate NoClashes(g: Grid)
    requires IsShape(g)
  {
    forall a, b :: 0 <= a < 81 && 0 <= b < 81 && a != b && Peer(a, b) && At(g, a) != 0 ==> At(g, a) != At(g, b)
  }

  /** `h` keeps every digit that `g` assigns. */
  predicate Agrees(g: Grid, h: Grid)
    requires IsShape(g) && IsShape(h)
  {
    forall m :: 0 <= m < 81 && At(g, m) != 0 ==> At(h, m) == At(g, m)
  }

  /** `s` is a solution of the puzzle `g`: a full grid of digits, free of
      clashes, that keeps the digits given in `g`. */
  predicate IsSolutionOf(s: Grid, g: Grid)
  {
    && IsShape(s) && IsShape(g)
    && (forall m :: 0 <= m < 81 ==> 1 <= At(s, m) <= 9)
    && NoClashes(s)
    && Agrees(g, s)
  }

  /** Digit d occurs nowhere in the row, column or box of cell k. */
  predicate Absent(g: Grid, d: int, k: int)
    requires IsShape(g) && 0 <= k < 81
  {
    forall m :: 0 <= m < 81 && Peer(k, m) ==> At(g, m) != d
  }

  /** The candidate sets follow the grid: a cell is marked fixed exactly when
      it holds a digit, and a blank cell's candidates are digits. */
  predicate Tracked(g: Grid, sets: CellSets)
  {
    && IsShape(g) && |sets| == 81
    && forall m :: 0 <= m < 81 ==> if At(g, m) != 0 then sets[m] == Fixed else sets[m] <= Digits
  }

  /** Agreement on the assigned digits is transitive. */
  lemma AgreesTransitive(g: Grid, h: Grid, k: Grid)
    requires IsShape(g) && IsShape(h) && IsShape(k)
    requires Agrees(g, h) && Agrees(h, k)
    ensures Agrees(g, k)
  {
  }

  /** Index a * 3 + b within threes (box and position in a box) and its
      inverse. */
  lemma ThreeIndex(a: int, b: int)
    requires 0 <= b < 3
    ensures (3 * a + b) / 3 == a && (3 * a + b) % 3 == b
  {
  }

  /** Row-major index of cell (x, y) and its inverse. */
  lemma FlatIndex(x: int, y: int)
    requires 0 <= y < 9
    ensures (9 * x + y) / 9 == x && (9 * x + y) % 9 == y
  {
  }

  /** Two grids of the right shape that agree on every cell are equal. */
  lemma {:induction false} SameCellsSameGrid(g: Grid, h: Grid)
    requires IsShape(g) && IsShape(h)
    requires forall m :: 0 <= m < 81 ==> At(g, m) == At(h, m)
    ensures g == h
  {
    forall i | 0 <= i < 9
      ensures g[i] == h[i]
    {
      forall j | 0 <= j < 9
        ensures g[i][j] == h[i][j]
      {
        FlatIndex(i, j);
        assert At(g, 9 * i + j) == At(h, 9 * i + j);
      }
    }
  }

  /** The 2-D and the row-major statement of "every cell in 0..9" agree. */
  lemma {:induction false} ValidGridCells(g: Grid)
    requires IsShape(g)
    ensures ValidGrid(g) <==> CellsInRange(g)
  {
    if CellsInRange(g) {
      forall i, j | 0 <= i < 9 && 0 <= j < 9
        ensures 0 <= g[i][j] <= 9
      {
        FlatIndex(i, j);
        assert At(g, 9 * i + j) == g[i][j];
      }
    }
  }
}
