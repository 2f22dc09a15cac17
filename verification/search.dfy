/** The backtracking search: a row-major cursor moves to the first blank
    cell, and each candidate of that cell is tried on its own copy of the
    grid and candidate sets. */
module Search {
  import opened Grids
  import opened Propagation

  /** A cursor position: a cell (x, y) of the grid, or (9, 0) once the
      cursor has passed the last cell. */
  predicate Cursor(x: int, y: int)
  {
    0 <= x && 0 <= y < 9 && 9 * x + y <= 81
  }

  /** The cursor step: the next cell in row-major order. */
  function Advance(x: int, y: int): (c: (int, int))
    requires 0 <= y < 9
    ensures 9 * c.0 + c.1 == 9 * x + y + 1 && 0 <= c.1 < 9
  {
    (x + (y + 1) / 9, (y + 1) % 9)
  }

  /** Moves the cursor forward past assigned cells.  It stops on the first
      blank cell at or after (x, y), or past the last cell when there is
      none. */
  function Skip(g: Grid, x: int, y: int): (c: (int, int))
    requires IsShape(g) && Cursor(x, y)
    decreases 81 - (9 * x + y)
    ensures Cursor(c.0, c.1) && 9 * x + y <= 9 * c.0 + c.1
    ensures forall m :: 9 * x + y <= m < 9 * c.0 + c.1 ==> At(g, m) != 0
    ensures c.0 < 9 ==> At(g, 9 * c.0 + c.1) == 0
    ensures c.0 >= 9 ==> 9 * c.0 + c.1 == 81
  {
    if x < 9 && g[x][y] != 0 then
      var next := Advance(x, y);
      FlatIndex(x, y);
      assert At(g, 9 * x + y) != 0;
      Skip(g, next.0, next.1)
    else if x < 9 then
      FlatIndex(x, y);
      (x, y)
    else
      assert 9 * x + y == 81;
      (x, y)
  }

  /** The digits d.. of s in ascending order. */
  function DigitsFrom(s: set<int>, d: int): (r: seq<int>)
    requires 1 <= d <= 10
    decreases 10 - d
    ensures forall c :: c in r <==> c in s && d <= c <= 9
    ensures forall a :: 0 <= a < |r| ==> d <= r[a]
    ensures forall a, b :: 0 <= a < b < |r| ==> r[a] < r[b]
  {
    if d == 10 then []
    else if d in s then [d] + DigitsFrom(s, d + 1)
    else DigitsFrom(s, d + 1)
  }

  /** The order in which the candidates of a cell are tried: its digits,
      ascending, each once. */
  function CandidateOrder(s: set<int>): (r: seq<int>)
    ensures forall c :: c in r <==> c in s && 1 <= c <= 9
    ensures forall a, b :: 0 <= a < b < |r| ==> r[a] < r[b]
  {
    DigitsFrom(s, 1)
  }

  /** The search from cursor (x, y): the cursor skips the assigned cells;
      past the last cell the grid is the answer, otherwise the candidates
      of the blank cell it stops on are tried in ascending order.  What a
      returned grid satisfies is proved in the Soundness module. */
  function SolveSudoku(g: Grid, sets: CellSets, x: int, y: int): (r: Option<Grid>)
    requires IsShape(g) && |sets| == 81 && Cursor(x, y)
    decreases 81 - (9 * x + y), 1, 0
    ensures r.Some? ==> IsShape(r.value)
  {
    var c := Skip(g, x, y);
    if c.0 >= 9 then Some(g)
    else TryCandidates(g, sets, c.0, c.1, CandidateOrder(sets[9 * c.0 + c.1]))
  }

  /** One branch of the search: candidate i is written into a copy of the
      grid, cell (x, y) is marked fixed in a copy of the sets, the digit is
      removed from the peers, one single-candidate pass runs, and the search
      goes on from the next cell.  The parent's grid and sets are not
      changed by the branch. */
  function Branch(g: Grid, sets: CellSets, x: int, y: int, i: int): (r: Option<Grid>)
    requires IsShape(g) && |sets| == 81 && 0 <= x < 9 && 0 <= y < 9
    decreases 81 - (9 * x + y), 0, 0
    ensures r.Some? ==> IsShape(r.value)
  {
    var p := 9 * x + y;
    var newGrid := SetAt(g, p, i);
    var newSets := sets[p := Fixed];
    var next := Advance(x, y);
    match RemovePossibility(i, x, y, newSets)
    case None => None
    case Some(removed) =>
      match FixSingles(newGrid, removed, 0)
      case None => None
      case Some(state) =>
        match SolveSudoku(state.0, state.1, next.0, next.1)
        case None => None
        case Some(solution) =>
          Some(solution)
  }

  /** Tries the candidates `cands` of cell (x, y) in turn, each from the
      same parent grid and sets, and stops at the first branch that
      succeeds (TryCandidatesFindsFirst). */
  function TryCandidates(g: Grid, sets: CellSets, x: int, y: int, cands: seq<int>): (r: Option<Grid>)
    requires IsShape(g) && |sets| == 81 && 0 <= x < 9 && 0 <= y < 9
    decreases 81 - (9 * x + y), 0, |cands|
    ensures r.Some? ==> IsShape(r.value)
  {
    if cands == [] then None
    else
      match Branch(g, sets, x, y, cands[0])
      case Some(solution) => Some(solution)
      case None => TryCandidates(g, sets, x, y, cands[1..])
  }

  /** The candidate loop fails exactly when every candidate's branch
      fails. */
  lemma {:induction false} TryCandidatesSucceedsIff(g: Grid, sets: CellSets, x: int, y: int, cands: seq<int>)
    requires IsShape(g) && |sets| == 81 && 0 <= x < 9 && 0 <= y < 9
    decreases |cands|
    ensures TryCandidates(g, sets, x, y, cands).Some?
            <==> exists t :: 0 <= t < |cands| && Branch(g, sets, x, y, cands[t]).Some?
  {
    if cands != [] && Branch(g, sets, x, y, cands[0]).None? {
      var rest := cands[1..];
      TryCandidatesSucceedsIff(g, sets, x, y, rest);
      assert forall t :: 1 <= t < |cands| ==> cands[t] == rest[t - 1];
      if exists t :: 0 <= t < |cands| && Branch(g, sets, x, y, cands[t]).Some? {
        var t :| 0 <= t < |cands| && Branch(g, sets, x, y, cands[t]).Some?;
        assert Branch(g, sets, x, y, rest[t - 1]).Some?;
      }
    }
  }

  /** A successful candidate loop yields the outcome of the first candidate
      whose branch succeeds. */
  lemma {:induction false} TryCandidatesFindsFirst(g: Grid, sets: CellSets, x: int, y: int, cands: seq<int>)
    requires IsShape(g) && |sets| == 81 && 0 <= x < 9 && 0 <= y < 9
    decreases |cands|
    ensures var r := TryCandidates(g, sets, x, y, cands);
            r.Some? ==> exists t :: 0 <= t < |cands| && r == Branch(g, sets, x, y, cands[t])
                                    && forall u :: 0 <= u < t ==> Branch(g, sets, x, y, cands[u]).None?
  {
    var r := TryCandidates(g, sets, x, y, cands);
    if r.Some? {
      if Branch(g, sets, x, y, cands[0]).Some? {
        assert r == Branch(g, sets, x, y, cands[0]);
      } else {
        var rest := cands[1..];
        TryCandidatesFindsFirst(g, sets, x, y, rest);
        assert r == TryCandidates(g, sets, x, y, rest);
        var t :| 0 <= t < |rest| && r == Branch(g, sets, x, y, rest[t])
                 && forall u :: 0 <= u < t ==> Branch(g, sets, x, y, rest[u]).None?;
        assert forall u :: 1 <= u < |cands| ==> cands[u] == rest[u - 1];
        assert r == Branch(g, sets, x, y, cands[t + 1]);
        assert forall u :: 0 <= u < t + 1 ==> Branch(g, sets, x, y, cands[u]).None?;
      }
    }
  }
}
