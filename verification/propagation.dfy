/** Propagation: removing a digit from the candidates of a cell's peers, and
    the single row-major pass that fixes cells left with one candidate. */
module Propagation {
  import opened Grids
  import opened Peers

  /** Removes elem from the candidate set of every cell index in `order`,
      visiting them in that order, and stops with None as soon as one of
      those sets becomes empty.  The sets changed before the failure are
      dropped, as every caller drops them. */
  function RemoveAlong(elem: int, order: seq<int>, sets: CellSets): (r: Option<CellSets>)
    requires forall q :: q in order ==> 0 <= q < |sets|
    decreases |order|
    ensures r.Some? <==> forall q :: q in order ==> sets[q] - {elem} != {}
    ensures r.Some? ==> |r.value| == |sets|
    ensures r.Some? ==> forall m :: 0 <= m < |sets| ==> r.value[m] == if m in order then sets[m] - {elem} else sets[m]
  {
    if order == [] then Some(sets)
    else
      var q := order[0];
      assert q in order;
      var rest := sets[q] - {elem};
      if rest == {} then None
      else
        var sets' := sets[q := rest];
        assert forall p :: p in order[1..] ==> p in order;
        assert forall p :: p in order[1..] ==> sets'[p] - {elem} == sets[p] - {elem};
        RemoveAlong(elem, order[1..], sets')
  }

  /** Two visiting orders of the same cells give the same outcome: the answer
      does not depend on the order the peers are visited in. */
  lemma RemoveAlongOrderFree(elem: int, order1: seq<int>, order2: seq<int>, sets: CellSets)
    requires forall q :: q in order1 ==> 0 <= q < |sets|
    requires forall q :: q in order1 <==> q in order2
    ensures RemoveAlong(elem, order1, sets) == RemoveAlong(elem, order2, sets)
  {
    var r1, r2 := RemoveAlong(elem, order1, sets), RemoveAlong(elem, order2, sets);
    assert r1.Some? <==> r2.Some?;
    if r1.Some? {
      assert |r1.value| == |r2.value|;
      forall m | 0 <= m < |sets|
        ensures r1.value[m] == r2.value[m]
      {
        assert m in order1 <==> m in order2;
      }
      assert r1.value == r2.value;
    }
  }

  /** Removes elem from the candidates of every peer of (x, y), the cell
      itself included, all at once.  None when some peer would be left
      without a candidate; otherwise each peer has lost elem, every other
      cell is as it was, and a fixed cell stays fixed.  Visiting the table
      entry of (x, y) one cell at a time, in any order, gives the same
      outcome (RemovePossibilityFollowsTable). */
  function RemovePossibility(elem: int, x: int, y: int, sets: CellSets): (r: Option<CellSets>)
    requires 0 <= x < 9 && 0 <= y < 9 && |sets| == 81
    ensures r.Some? <==> forall m :: 0 <= m < 81 && SameUnit(x, y, m / 9, m % 9) ==> sets[m] - {elem} != {}
    ensures r.Some? ==> |r.value| == 81
    ensures r.Some? ==> forall m :: 0 <= m < 81 ==>
              r.value[m] == if SameUnit(x, y, m / 9, m % 9) then sets[m] - {elem} else sets[m]
    ensures r.Some? && elem != -1 ==> forall m :: 0 <= m < 81 && sets[m] == Fixed ==> r.value[m] == Fixed
  {
    if forall m :: 0 <= m < 81 && SameUnit(x, y, m / 9, m % 9) ==> sets[m] - {elem} != {} then
      Some(seq(81, m requires 0 <= m < 81 => if SameUnit(x, y, m / 9, m % 9) then sets[m] - {elem} else sets[m]))
    else None
  }

  /** Removing elem along any visiting order of the table entry of (x, y)
      (each peer listed, nothing else) is the all-at-once removal. */
  lemma RemovePossibilityFollowsTable(elem: int, x: int, y: int, sets: CellSets, order: seq<int>)
    requires 0 <= x < 9 && 0 <= y < 9 && |sets| == 81
    requires forall q :: q in order <==> 0 <= q < 81 && (q / 9, q % 9) in Affected(x, y)
    ensures RemoveAlong(elem, order, sets) == RemovePossibility(elem, x, y, sets)
  {
    AffectedMeaning(x, y);
    var r1, r2 := RemoveAlong(elem, order, sets), RemovePossibility(elem, x, y, sets);
    assert forall q :: q in order <==> 0 <= q < 81 && SameUnit(x, y, q / 9, q % 9) by {
      forall q
        ensures q in order <==> 0 <= q < 81 && SameUnit(x, y, q / 9, q % 9)
      {
        if 0 <= q < 81 {
          assert (q / 9, q % 9) in Affected(x, y) <==> SameUnit(x, y, q / 9, q % 9);
        }
      }
    }
    assert r1.Some? <==> r2.Some?;
    if r1.Some? {
      assert r1.value == r2.value;
    }
  }

  /** In particular along the ascending order of the peers. */
  lemma RemovePossibilityIsIteration(elem: int, x: int, y: int, sets: CellSets)
    requires 0 <= x < 9 && 0 <= y < 9 && |sets| == 81
    ensures RemoveAlong(elem, PeerOrder(x, y), sets) == RemovePossibility(elem, x, y, sets)
  {
    PeerOrderIsAffected(x, y);
    RemovePossibilityFollowsTable(elem, x, y, sets, PeerOrder(x, y));
  }

  /** A set with exactly one element is the singleton of that element. */
  lemma SingletonElement(s: set<int>, v: int)
    requires |s| == 1 && v in s
    ensures s == {v}
  {
    assert |s - {v}| == 0;
  }

  /** The one element of a one-element set. */
  function TheElement(s: set<int>): (v: int)
    requires |s| == 1
    ensures s == {v}
  {
    assert s != {};
    assert exists v :: v in s by {
      if forall v :: v !in s {
        assert false;
      }
    }
    var v :| v in s;
    SingletonElement(s, v);
    v
  }

  /** Fixing a digit v in the blank cell (x, y) and removing v from its
      peers keeps the candidate sets in step with the grid. */
  lemma AssignKeepsTracked(g: Grid, sets: CellSets, x: int, y: int, v: int)
    requires Tracked(g, sets) && 0 <= x < 9 && 0 <= y < 9
    requires At(g, 9 * x + y) == 0 && v in sets[9 * x + y]
    ensures var r := RemovePossibility(v, x, y, sets[9 * x + y := Fixed]);
            r.Some? ==> Tracked(SetAt(g, 9 * x + y, v), r.value)
  {
    var p := 9 * x + y;
    var r := RemovePossibility(v, x, y, sets[p := Fixed]);
    if r.Some? {
      var g' := SetAt(g, p, v);
      forall m | 0 <= m < 81
        ensures if At(g', m) != 0 then r.value[m] == Fixed else r.value[m] <= Digits
      {
        AssignKeepsTrackedAt(g, sets, x, y, v, m);
      }
    }
  }

  /** The same, cell by cell. */
  lemma AssignKeepsTrackedAt(g: Grid, sets: CellSets, x: int, y: int, v: int, m: int)
    requires Tracked(g, sets) && 0 <= x < 9 && 0 <= y < 9 && 0 <= m < 81
    requires At(g, 9 * x + y) == 0 && v in sets[9 * x + y]
    requires RemovePossibility(v, x, y, sets[9 * x + y := Fixed]).Some?
    ensures var r := RemovePossibility(v, x, y, sets[9 * x + y := Fixed]).value;
            if At(SetAt(g, 9 * x + y, v), m) != 0 then r[m] == Fixed else r[m] <= Digits
  {
    var p := 9 * x + y;
    var marked := sets[p := Fixed];
    var r := RemovePossibility(v, x, y, marked).value;
    assert v != -1 && v != 0 by {
      assert sets[p] <= Digits;
    }
    assert r[m] == marked[m] || r[m] == marked[m] - {v};
    if m == p {
      assert Fixed - {v} == Fixed;
    } else if At(g, m) != 0 {
      assert Fixed - {v} == Fixed;
    }
  }

  /** Fixing the single candidate v of cell k and removing it from the peers
      leaves cell k marked, keeps every marker, and only shrinks the other
      candidate sets. */
  lemma FixOneShrinks(sets: CellSets, k: int, v: int)
    requires |sets| == 81 && 0 <= k < 81 && sets[k] == {v} && v != -1
    ensures var r := RemovePossibility(v, k / 9, k % 9, sets[k := Fixed]);
            r.Some? ==>
              && r.value[k] == Fixed
              && (forall m :: 0 <= m < 81 && sets[m] == Fixed ==> r.value[m] == Fixed)
              && (forall m :: 0 <= m < 81 ==> r.value[m] == Fixed || r.value[m] <= sets[m])
  {
  }

  /** One row-major pass from cell k on: a cell whose candidate set holds a
      single digit gets that digit, is marked fixed, and the digit is removed
      from its peers; None as soon as a removal leaves a peer without
      candidates.  Cells behind the scan that become single are left for
      the search. */
  function FixSingles(g: Grid, sets: CellSets, k: int): (r: Option<(Grid, CellSets)>)
    requires IsShape(g) && |sets| == 81 && 0 <= k <= 81
    decreases 81 - k
    ensures r.Some? ==> IsShape(r.value.0) && |r.value.1| == 81
    // cells before k are never written
    ensures r.Some? ==> forall m :: 0 <= m < k ==> At(r.value.0, m) == At(g, m)
    // a fixed cell is never written and stays fixed
    ensures r.Some? ==> forall m :: 0 <= m < 81 && sets[m] == Fixed ==> At(r.value.0, m) == At(g, m) && r.value.1[m] == Fixed
    // a written cell gets one of its candidates and is marked fixed
    ensures r.Some? ==> forall m :: 0 <= m < 81 && At(r.value.0, m) != At(g, m) ==> At(r.value.0, m) in sets[m] && r.value.1[m] == Fixed
    // candidate sets only shrink, or become the marker
    ensures r.Some? ==> forall m :: 0 <= m < 81 ==> r.value.1[m] == Fixed || r.value.1[m] <= sets[m]
    ensures r.Some? && Tracked(g, sets) ==> Tracked(r.value.0, r.value.1)
  {
    if k == 81 then Some((g, sets))
    else if |sets[k]| == 1 && sets[k] != Fixed then
      var v := TheElement(sets[k]);
      var g' := SetAt(g, k, v);
      var sets' := sets[k := Fixed];
      match RemovePossibility(v, k / 9, k % 9, sets')
      case None => None
      case Some(sets'') =>
        FixOneShrinks(sets, k, v);
        if Tracked(g, sets) then AssignKeepsTracked(g, sets, k / 9, k % 9, v); FixSingles(g', sets'', k + 1)
        else FixSingles(g', sets'', k + 1)
    else FixSingles(g, sets, k + 1)
  }

  /** When the sets follow the grid, the pass keeps every digit already
      placed. */
  lemma FixSinglesKeepsDigits(g: Grid, sets: CellSets, k: int)
    requires Tracked(g, sets) && 0 <= k <= 81
    ensures var r := FixSingles(g, sets, k);
            r.Some? ==> Agrees(g, r.value.0)
  {
    assert forall m :: 0 <= m < 81 && At(g, m) != 0 ==> sets[m] == Fixed;
  }

  /** The pass moves over cells k..j-1 without change when none of them
      holds a single unfixed candidate. */
  lemma {:induction false} FixSinglesPassOver(g: Grid, sets: CellSets, k: int, j: int)
    requires IsShape(g) && |sets| == 81 && 0 <= k <= j <= 81
    requires forall m :: k <= m < j ==> sets[m] == Fixed || |sets[m]| != 1
    decreases j - k
    ensures FixSingles(g, sets, k) == FixSingles(g, sets, j)
  {
    if k < j {
      FixSinglesPassOver(g, sets, k + 1, j);
    }
  }

  /** One step of the pass at a cell with the single candidate v. */
  lemma FixSinglesStep(g: Grid, sets: CellSets, k: int, v: int)
    requires IsShape(g) && |sets| == 81 && 0 <= k < 81 && sets[k] == {v} && v != -1
    requires RemovePossibility(v, k / 9, k % 9, sets[k := Fixed]).Some?
    ensures FixSingles(g, sets, k)
            == FixSingles(SetAt(g, k, v), RemovePossibility(v, k / 9, k % 9, sets[k := Fixed]).value, k + 1)
  {
    assert sets[k] != Fixed by {
      assert v in sets[k];
    }
    assert TheElement(sets[k]) == v;
  }

  /** The pass fails as soon as a removal fails: when cells k..j-1 hold no
      single unfixed candidate and fixing the single candidate v of cell j
      would empty a peer's set, the pass from k yields None. */
  lemma FixSinglesStopsOnFailure(g: Grid, sets: CellSets, k: int, j: int, v: int)
    requires IsShape(g) && |sets| == 81 && 0 <= k <= j < 81
    requires forall m :: k <= m < j ==> sets[m] == Fixed || |sets[m]| != 1
    requires sets[j] == {v} && v != -1
    requires RemovePossibility(v, j / 9, j % 9, sets[j := Fixed]).None?
    ensures FixSingles(g, sets, k).None?
  {
    FixSinglesPassOver(g, sets, k, j);
    assert sets[j] != Fixed by {
      assert v in sets[j];
    }
    assert TheElement(sets[j]) == v;
  }

  /** Candidate sets where cell a has the candidates {3, 5}, a later peer b
      the single candidate 5, and every other cell is marked fixed. */
  predicate LateSingle(sets: CellSets, a: int, b: int)
  {
    && |sets| == 81 && 0 <= a < b < 81 && Peer(a, b)
    && sets[a] == {3, 5} && sets[b] == {5}
    && forall m :: 0 <= m < 81 && m != a && m != b ==> sets[m] == Fixed
  }

  /** Fixing cell b to 5 in such sets leaves {3} at cell a. */
  lemma LateSingleRemoval(sets: CellSets, a: int, b: int)
    requires LateSingle(sets, a, b)
    ensures var removed := RemovePossibility(5, b / 9, b % 9, sets[b := Fixed]);
            && removed.Some?
            && removed.value[a] == {3}
            && forall m :: 0 <= m < 81 && m != a ==> removed.value[m] == Fixed
  {
    var marked := sets[b := Fixed];
    forall m | 0 <= m < 81
      ensures marked[m] - {5} != {}
    {
      if m == a {
        assert 3 in marked[m] - {5};
      } else {
        assert -1 in marked[m] - {5};
      }
    }
    assert SameUnit(b / 9, b % 9, a / 9, a % 9);
    assert {3, 5} - {5} == {3};
  }

  /** On such sets the pass moves over every cell before b, fixes b to 5,
      and moves over the rest. */
  lemma LateSingleTrace(g: Grid, sets: CellSets, a: int, b: int)
    requires IsShape(g) && LateSingle(sets, a, b)
    ensures var removed := RemovePossibility(5, b / 9, b % 9, sets[b := Fixed]);
            && removed.Some?
            && FixSingles(g, sets, 0) == Some((SetAt(g, b, 5), removed.value))
  {
    assert |sets[a]| == 2;
    FixSinglesPassOver(g, sets, 0, b);
    LateSingleRemoval(sets, a, b);
    FixSinglesStep(g, sets, b, 5);
    var removed := RemovePossibility(5, b / 9, b % 9, sets[b := Fixed]);
    FixSinglesPassOver(SetAt(g, b, 5), removed.value, b + 1, 81);
  }

  /** The pass is a single scan, not a fixpoint: fixing cell b to 5 leaves
      its earlier peer a, already scanned, unwritten and with the one
      candidate 3. */
  lemma FixSinglesIsOnePass(g: Grid, sets: CellSets, a: int, b: int)
    requires IsShape(g) && LateSingle(sets, a, b)
    ensures var r := FixSingles(g, sets, 0);
            && r.Some?
            && At(r.value.0, a) == At(g, a) && r.value.1[a] == {3}
  {
    LateSingleTrace(g, sets, a, b);
    LateSingleRemoval(sets, a, b);
  }
}
