/** Soundness: every state the solver builds is consistent, so a grid the
    search returns is free of clashes. */
module Soundness {
  import opened Grids
  import opened Candidates
  import opened Propagation
  import opened Search

  /** A blank cell's candidates exclude the digit of every peer. */
  predicate Excludes(g: Grid, sets: CellSets)
    requires IsShape(g) && |sets| == 81
  {
    forall a, b :: 0 <= a < 81 && 0 <= b < 81 && At(g, a) == 0 && Peer(a, b) ==> At(g, b) !in sets[a]
  }

  /** The invariant of every search state: sets in step with the grid, cells
      in range, no clash among the digits, and no candidate that clashes with
      a digit already placed. */
  predicate Consistent(g: Grid, sets: CellSets)
  {
    && Tracked(g, sets)
    && CellsInRange(g)
    && NoClashes(g)
    && Excludes(g, sets)
  }

  /** The candidate sets of a well-formed grid without clashes form a
      consistent state. */
  lemma FeasibilitySetConsistent(g: Grid)
    requires ValidGrid(g) && NoClashes(g)
    ensures Consistent(g, FeasibilitySet(g))
  {
    ValidGridCells(g);
    FeasibilitySetMeaning(g);
  }

  /** Placing candidate v in a blank cell adds no clash. */
  lemma AssignKeepsNoClashes(g: Grid, sets: CellSets, p: int, v: int)
    requires IsShape(g) && |sets| == 81 && 0 <= p < 81
    requires NoClashes(g) && Excludes(g, sets) && At(g, p) == 0 && v in sets[p]
    ensures NoClashes(SetAt(g, p, v))
  {
    var g' := SetAt(g, p, v);
    forall a, b | 0 <= a < 81 && 0 <= b < 81 && a != b && Peer(a, b) && At(g', a) != 0
      ensures At(g', a) != At(g', b)
    {
      if a == p {
        assert At(g, b) !in sets[p];
      } else if b == p {
        assert Peer(b, a);
        assert At(g, a) !in sets[p];
      }
    }
  }

  /** Placing candidate v in the blank cell (x, y) and removing it from the
      peers keeps the state consistent. */
  lemma AssignKeepsConsistent(g: Grid, sets: CellSets, x: int, y: int, v: int)
    requires Consistent(g, sets) && 0 <= x < 9 && 0 <= y < 9
    requires At(g, 9 * x + y) == 0 && v in sets[9 * x + y]
    ensures var r := RemovePossibility(v, x, y, sets[9 * x + y := Fixed]);
            r.Some? ==> Consistent(SetAt(g, 9 * x + y, v), r.value)
  {
    var p := 9 * x + y;
    FlatIndex(x, y);
    AssignKeepsTracked(g, sets, x, y, v);
    AssignKeepsNoClashes(g, sets, p, v);
    var r := RemovePossibility(v, x, y, sets[p := Fixed]);
    if r.Some? {
      var g' := SetAt(g, p, v);
      assert CellsInRange(g');
      forall a, b | 0 <= a < 81 && 0 <= b < 81 && At(g', a) == 0 && Peer(a, b)
        ensures At(g', b) !in r.value[a]
      {
        if b == p {
          assert Peer(p, a);
        }
      }
    }
  }

  /** The single-candidate pass keeps the state consistent. */
  lemma {:induction false} FixSinglesKeepsConsistent(g: Grid, sets: CellSets, k: int)
    requires Consistent(g, sets) && 0 <= k <= 81
    decreases 81 - k
    ensures var r := FixSingles(g, sets, k);
            r.Some? ==> Consistent(r.value.0, r.value.1)
  {
    if k < 81 && |sets[k]| == 1 && sets[k] != Fixed {
      var v := TheElement(sets[k]);
      assert 9 * (k / 9) + k % 9 == k;
      assert At(g, k) == 0 && v in sets[k];
      AssignKeepsConsistent(g, sets, k / 9, k % 9, v);
      var r := RemovePossibility(v, k / 9, k % 9, sets[k := Fixed]);
      if r.Some? {
        FixSinglesKeepsConsistent(SetAt(g, k, v), r.value, k + 1);
      }
    } else if k < 81 {
      FixSinglesKeepsConsistent(g, sets, k + 1);
    }
  }

  /** A grid the search returns from a consistent state has digits in 0..9
      and no clash, keeps every digit of `g` and has no blank from the
      cursor on. */
  lemma {:induction false} SolveSudokuSound(g: Grid, sets: CellSets, x: int, y: int)
    requires Consistent(g, sets) && Cursor(x, y)
    decreases 81 - (9 * x + y), 1, 0
    ensures var r := SolveSudoku(g, sets, x, y);
            r.Some? ==>
              && CellsInRange(r.value) && NoClashes(r.value) && Agrees(g, r.value)
              && forall m :: 9 * x + y <= m < 81 ==> At(r.value, m) != 0
  {
    var c := Skip(g, x, y);
    if c.0 < 9 {
      TryCandidatesSound(g, sets, c.0, c.1, CandidateOrder(sets[9 * c.0 + c.1]));
    }
  }

  /** The same for one branch on a candidate of the blank cell (x, y). */
  lemma {:induction false} BranchSound(g: Grid, sets: CellSets, x: int, y: int, i: int)
    requires Consistent(g, sets) && 0 <= x < 9 && 0 <= y < 9
    requires At(g, 9 * x + y) == 0 && i in sets[9 * x + y]
    decreases 81 - (9 * x + y), 0, 0
    ensures var r := Branch(g, sets, x, y, i);
            r.Some? ==>
              && CellsInRange(r.value) && NoClashes(r.value) && Agrees(g, r.value)
              && forall m :: 9 * x + y <= m < 81 ==> At(r.value, m) != 0
  {
    var p := 9 * x + y;
    var next := Advance(x, y);
    AssignKeepsConsistent(g, sets, x, y, i);
    var removed := RemovePossibility(i, x, y, sets[p := Fixed]);
    if removed.Some? {
      var newGrid := SetAt(g, p, i);
      FixSinglesKeepsConsistent(newGrid, removed.value, 0);
      FixSinglesKeepsDigits(newGrid, removed.value, 0);
      var state := FixSingles(newGrid, removed.value, 0);
      if state.Some? {
        SolveSudokuSound(state.value.0, state.value.1, next.0, next.1);
        var r := SolveSudoku(state.value.0, state.value.1, next.0, next.1);
        if r.Some? {
          assert i != 0 by {
            assert sets[p] <= Digits;
          }
          assert Agrees(g, newGrid) && At(newGrid, p) != 0;
          AgreesTransitive(newGrid, state.value.0, r.value);
          AgreesTransitive(g, newGrid, r.value);
        }
      }
    }
  }

  /** The same for the candidate loop at a blank cell. */
  lemma {:induction false} TryCandidatesSound(g: Grid, sets: CellSets, x: int, y: int, cands: seq<int>)
    requires Consistent(g, sets) && 0 <= x < 9 && 0 <= y < 9
    requires At(g, 9 * x + y) == 0 && forall c :: c in cands ==> c in sets[9 * x + y]
    decreases 81 - (9 * x + y), 0, |cands|
    ensures var r := TryCandidates(g, sets, x, y, cands);
            r.Some? ==>
              && CellsInRange(r.value) && NoClashes(r.value) && Agrees(g, r.value)
              && forall m :: 9 * x + y <= m < 81 ==> At(r.value, m) != 0
  {
    if cands != [] {
      assert cands[0] in cands;
      assert forall c :: c in cands[1..] ==> c in cands;
      BranchSound(g, sets, x, y, cands[0]);
      TryCandidatesSound(g, sets, x, y, cands[1..]);
    }
  }
}
