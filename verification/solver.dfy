/** The solve entry point: validate, compute candidates, run one pass of
    single-candidate propagation, then search. */
module Solver {
  import opened Grids
  import opened Validation
  import opened Candidates
  import opened Propagation
  import opened Search
  import opened Soundness
  import opened Completeness
  import opened Units

  /** What solving a puzzle yields, as the code is written: the solved grid;
      `False`, returned for an input that fails the shape or clash check;
      or the `NameError` raised when propagation or search fails on a valid
      input, where the code evaluates the undefined name `false`. */
  datatype Outcome = Solved(grid: Grid) | ReturnsFalse | RaisesNameError

  /** Solves a puzzle.  A malformed or clashing input is rejected before any
      candidate is computed; a grid it returns is full, passes the clash
      check and keeps every given digit. */
  function Solve(g: Grid): (r: Outcome)
    ensures r == ReturnsFalse <==> !(ValidGrid(g) && NoClashes(g))
    ensures r.Solved? ==>
              && ValidGrid(r.grid)
              && Full(r.grid)
              && CheckFixedValues(r.grid)
              && Agrees(g, r.grid)
  {
    if !(CheckFormat(g) && CheckFixedValues(g)) then ReturnsFalse
    else
      var sets := FeasibilitySet(g);
      match FixSingles(g, sets, 0)
      case None => RaisesNameError
      case Some(state) =>
        match SolveSudoku(state.0, state.1, 0, 0)
        case Some(solution) =>
          FeasibilitySetConsistent(g);
          FixSinglesKeepsConsistent(g, sets, 0);
          SolveSudokuSound(state.0, state.1, 0, 0);
          ValidGridCells(solution);
          Solved(solution)
        case None => RaisesNameError
  }

  /** A puzzle is solved exactly when it is well formed and has a
      solution. */
  lemma SolveSucceedsIffSolvable(g: Grid)
    ensures Solve(g).Solved? <==> ValidGrid(g) && exists s :: IsSolutionOf(s, g)
  {
    if Solve(g).Solved? {
      var s := Solve(g).grid;
      ValidGridCells(s);
      assert IsSolutionOf(s, g);
    }
    if ValidGrid(g) && exists s :: IsSolutionOf(s, g) {
      var s :| IsSolutionOf(s, g);
      SolvedPuzzleHasNoClashes(g, s);
      SolveFindsSolution(g, s);
    }
  }

  /** The givens of a puzzle that has a solution do not clash. */
  lemma SolvedPuzzleHasNoClashes(g: Grid, s: Grid)
    requires IsSolutionOf(s, g)
    ensures NoClashes(g)
  {
    forall a, b | 0 <= a < 81 && 0 <= b < 81 && a != b && Peer(a, b) && At(g, a) != 0
      ensures At(g, a) != At(g, b)
    {
      if At(g, b) != 0 {
        assert At(s, a) != At(s, b);
      }
    }
  }

  /** Solve reaches a solution whenever one exists. */
  lemma SolveFindsSolution(g: Grid, s: Grid)
    requires ValidGrid(g) && NoClashes(g) && IsSolutionOf(s, g)
    ensures Solve(g).Solved?
  {
    var sets := FeasibilitySet(g);
    FeasibilitySetAdmits(g, s);
    FixSinglesAdmits(g, sets, 0, s);
    var state := FixSingles(g, sets, 0).value;
    SolveSudokuComplete(state.0, state.1, 0, 0, s);
  }

  /** A full, valid grid without clashes is its own answer. */
  lemma SolveKeepsSolvedGrid(g: Grid)
    requires ValidGrid(g) && Full(g) && NoClashes(g)
    ensures Solve(g) == Solved(g)
  {
    ValidGridCells(g);
    assert IsSolutionOf(g, g);
    SolveFindsSolution(g, g);
    SameCellsSameGrid(Solve(g).grid, g);
  }

  /** Solving an answer again gives the same answer. */
  lemma SolveIdempotent(g: Grid)
    ensures Solve(g).Solved? ==> Solve(Solve(g).grid) == Solve(g)
  {
    if Solve(g).Solved? {
      SolveKeepsSolvedGrid(Solve(g).grid);
    }
  }

  /** Every row, column and box of an answer holds each digit 1..9, as the
      row, column and box searches see it. */
  lemma SolvedGridHasEveryDigit(g: Grid)
    ensures Solve(g).Solved? ==>
            var s := Solve(g).grid;
            && (forall r, d :: 0 <= r < 9 && 1 <= d <= 9 ==> InRow(d, r, s))
            && (forall c, d :: 0 <= c < 9 && 1 <= d <= 9 ==> InColumn(d, c, s))
            && (forall r, c, d :: 0 <= r < 9 && 0 <= c < 9 && 1 <= d <= 9 ==> InSquare(d, r, c, s))
  {
    if Solve(g).Solved? {
      var s := Solve(g).grid;
      assert ValidGrid(s) && Full(s) && CheckFixedValues(s);
      ValidGridCells(s);
      FullGridHasEveryDigit(s);
    }
  }

  /** As written, the failure path raises exactly on the well-formed puzzles
      without clashes that have no solution. */
  lemma SolveRaisesIffUnsolvable(g: Grid)
    ensures Solve(g) == RaisesNameError
            <==> ValidGrid(g) && NoClashes(g) && !(exists s :: IsSolutionOf(s, g))
  {
    SolveSucceedsIffSolvable(g);
  }

  /** A well-formed puzzle without clashes and without a solution: the top
      row holds 1..8 and then a blank, and the bottom-right cell holds 9, so
      the blank can take neither a digit of its row nor the 9 of its
      column. */
  function LastCellBlocked(): Grid
  {
    seq(9, i => seq(9, j => if i == 0 && j < 8 then j + 1 else if i == 8 && j == 8 then 9 else 0))
  }

  /** The cells of that puzzle in row-major order. */
  lemma LastCellBlockedCells()
    ensures IsShape(LastCellBlocked())
    ensures forall m :: 0 <= m < 81 ==> At(LastCellBlocked(), m) == if m < 8 then m + 1 else if m == 80 then 9 else 0
  {
    var g := LastCellBlocked();
    forall m | 0 <= m < 81
      ensures At(g, m) == if m < 8 then m + 1 else if m == 80 then 9 else 0
    {
      assert m / 9 == 0 && m % 9 < 8 <==> m < 8;
      assert m / 9 == 8 && m % 9 == 8 <==> m == 80;
    }
  }

  /** That puzzle passes both input checks and has no solution. */
  lemma LastCellBlockedIsUnsolvable()
    ensures ValidGrid(LastCellBlocked()) && NoClashes(LastCellBlocked())
    ensures !exists s :: IsSolutionOf(s, LastCellBlocked())
  {
    var g := LastCellBlocked();
    LastCellBlockedCells();
    ValidGridCells(g);
    if exists s :: IsSolutionOf(s, g) {
      var s :| IsSolutionOf(s, g);
      var d := At(s, 8);
      if d <= 8 {
        assert At(s, d - 1) == d && Peer(8, d - 1);
      } else {
        assert At(s, 80) == 9 && Peer(8, 80);
      }
    }
  }

  /** The line that should report an unsolvable puzzle raises instead: on
      that puzzle the outcome is the NameError, not the value `False` its
      caller checks for. */
  lemma UnsolvablePuzzleRaises()
    ensures Solve(LastCellBlocked()) == RaisesNameError
  {
    LastCellBlockedIsUnsolvable();
    SolveRaisesIffUnsolvable(LastCellBlocked());
  }

  /** Solve as documented and as its caller uses it: the answer, or None for
      the value `False` whenever the puzzle cannot be solved, whatever the
      reason. */
  function SolveOrFalse(g: Grid): (r: Option<Grid>)
    ensures r.None? <==> !(ValidGrid(g) && exists s :: IsSolutionOf(s, g))
    ensures r.Some? ==> ValidGrid(r.value) && IsSolutionOf(r.value, g)
  {
    SolveSucceedsIffSolvable(g);
    match Solve(g)
    case Solved(s) =>
      ValidGridCells(s);
      Some(s)
    case _ => None
  }

  /** The corrected solve reports the unsolvable puzzle with `False`. */
  lemma UnsolvablePuzzleFalse()
    ensures SolveOrFalse(LastCellBlocked()) == None
  {
    LastCellBlockedIsUnsolvable();
  }
}
