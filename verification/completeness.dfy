/** Completeness: propagation never discards a solution, so the search finds
    a solution whenever the puzzle has one. */
module Completeness {
  import opened Grids
  import opened Candidates
  import opened Propagation
  import opened Search

  /** Solution s is still open in state (g, sets): it solves g, and every
      blank cell of g keeps the digit of s among its candidates. */
  predicate Admits(g: Grid, sets: CellSets, s: Grid)
  {
    && IsSolutionOf(s, g)
    && Tracked(g, sets)
    && forall m :: 0 <= m < 81 && At(g, m) == 0 ==> At(s, m) in sets[m]
  }

  /** The initial candidate sets admit every solution of the puzzle. */
  lemma FeasibilitySetAdmits(g: Grid, s: Grid)
    requires IsSolutionOf(s, g)
    ensures Admits(g, FeasibilitySet(g), s)
  {
    var sets := FeasibilitySet(g);
    forall m | 0 <= m < 81 && At(g, m) == 0
      ensures At(s, m) in sets[m]
    {
      forall b | 0 <= b < 81 && Peer(m, b)
        ensures At(g, b) != At(s, m)
      {
        if At(g, b) != 0 {
          assert At(s, b) == At(g, b) && b != m;
        }
      }
      FeasibilitySetExact(g, m, At(s, m));
    }
  }

  /** Placing the digit of an admitted solution in the blank cell (x, y)
      never empties a peer's candidates, and the new state still admits the
      solution. */
  lemma AssignAdmits(g: Grid, sets: CellSets, x: int, y: int, s: Grid)
    requires Admits(g, sets, s) && 0 <= x < 9 && 0 <= y < 9 && At(g, 9 * x + y) == 0
    ensures var v := At(s, 9 * x + y);
            var r := RemovePossibility(v, x, y, sets[9 * x + y := Fixed]);
            r.Some? && Admits(SetAt(g, 9 * x + y, v), r.value, s)
  {
    var p := 9 * x + y;
    var v := At(s, p);
    FlatIndex(x, y);
    var marked := sets[p := Fixed];
    forall m | 0 <= m < 81 && SameUnit(x, y, m / 9, m % 9)
      ensures marked[m] - {v} != {}
    {
      if m == p {
        assert -1 in marked[m] - {v};
      } else if At(g, m) != 0 {
        assert -1 in marked[m] - {v};
      } else {
        assert Peer(p, m);
        assert At(s, m) in marked[m] - {v};
      }
    }
    AssignKeepsTracked(g, sets, x, y, v);
    var r := RemovePossibility(v, x, y, marked);
    var g' := SetAt(g, p, v);
    forall m | 0 <= m < 81 && At(g', m) == 0
      ensures At(s, m) in r.value[m]
    {
      if SameUnit(x, y, m / 9, m % 9) {
        assert Peer(p, m);
      }
    }
  }

  /** The single-candidate pass never fails on a state that admits a
      solution, and the state it leaves still admits it. */
  lemma {:induction false} FixSinglesAdmits(g: Grid, sets: CellSets, k: int, s: Grid)
    requires Admits(g, sets, s) && 0 <= k <= 81
    decreases 81 - k
    ensures var r := FixSingles(g, sets, k);
            r.Some? && Admits(r.value.0, r.value.1, s)
  {
    if k < 81 && |sets[k]| == 1 && sets[k] != Fixed {
      var v := TheElement(sets[k]);
      assert At(g, k) == 0;
      assert v == At(s, k);
      AssignAdmits(g, sets, k / 9, k % 9, s);
      var r := RemovePossibility(v, k / 9, k % 9, sets[k := Fixed]);
      FixSinglesAdmits(SetAt(g, k, v), r.value, k + 1, s);
    } else if k < 81 {
      FixSinglesAdmits(g, sets, k + 1, s);
    }
  }

  /** The search succeeds from any state that admits a solution. */
  lemma {:induction false} SolveSudokuComplete(g: Grid, sets: CellSets, x: int, y: int, s: Grid)
    requires Admits(g, sets, s) && Cursor(x, y)
    decreases 81 - (9 * x + y), 1, 0
    ensures SolveSudoku(g, sets, x, y).Some?
  {
    var c := Skip(g, x, y);
    if c.0 < 9 {
      var p := 9 * c.0 + c.1;
      assert At(g, p) == 0;
      assert At(s, p) in sets[p] && 1 <= At(s, p) <= 9;
      assert At(s, p) in CandidateOrder(sets[p]);
      TryCandidatesComplete(g, sets, c.0, c.1, CandidateOrder(sets[p]), s);
    }
  }

  /** The branch on the digit of an admitted solution succeeds. */
  lemma {:induction false} BranchComplete(g: Grid, sets: CellSets, x: int, y: int, s: Grid)
    requires Admits(g, sets, s) && 0 <= x < 9 && 0 <= y < 9 && At(g, 9 * x + y) == 0
    decreases 81 - (9 * x + y), 0, 0
    ensures Branch(g, sets, x, y, At(s, 9 * x + y)).Some?
  {
    var p := 9 * x + y;
    var i := At(s, p);
    var next := Advance(x, y);
    AssignAdmits(g, sets, x, y, s);
    var removed := RemovePossibility(i, x, y, sets[p := Fixed]);
    var newGrid := SetAt(g, p, i);
    FixSinglesAdmits(newGrid, removed.value, 0, s);
    var state := FixSingles(newGrid, removed.value, 0);
    SolveSudokuComplete(state.value.0, state.value.1, next.0, next.1, s);
  }

  /** The candidate loop succeeds when the digit of an admitted solution is
      among the candidates still to try. */
  lemma {:induction false} TryCandidatesComplete(g: Grid, sets: CellSets, x: int, y: int, cands: seq<int>, s: Grid)
    requires Admits(g, sets, s) && 0 <= x < 9 && 0 <= y < 9
    requires At(g, 9 * x + y) == 0 && At(s, 9 * x + y) in cands
    decreases 81 - (9 * x + y), 0, |cands|
    ensures TryCandidates(g, sets, x, y, cands).Some?
  {
    if cands[0] == At(s, 9 * x + y) {
      BranchComplete(g, sets, x, y, s);
    } else {
      assert At(s, 9 * x + y) in cands[1..];
      TryCandidatesComplete(g, sets, x, y, cands[1..], s);
    }
  }
}
