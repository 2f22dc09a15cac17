/** The peer table: for each cell, the cells of its row, its column and its
    3x3 box, the cell itself included. */
module Peers {
  import opened Grids

  /** The cells sharing a row, a column or a box with (x, y), built as the
      union of a column, a row and a box, just as the table is built. */
  function Affected(x: int, y: int): (peers: set<(int, int)>)
    requires 0 <= x < 9 && 0 <= y < 9
    ensures (x, y) in peers
    ensures forall p :: p in peers ==> 0 <= p.0 < 9 && 0 <= p.1 < 9
  {
    (set i | 0 <= i < 9 :: (i, y))
    + (set i | 0 <= i < 9 :: (x, i))
    + (set i, j | 0 <= i < 3 && 0 <= j < 3 :: BoxCell(x, y, i, j))
  }

  /** Cell (i, j) of the box holding (x, y), counted from the box's top-left
      corner (3 * (x / 3), 3 * (y / 3)). */
  function BoxCell(x: int, y: int, i: int, j: int): (int, int)
  {
    (3 * (x / 3) + i, 3 * (y / 3) + j)
  }

  /** (i, j) is a peer of (x, y) exactly when it is a cell of the grid and
      shares the row, the column or the box of (x, y). */
  lemma {:induction false} AffectedIsSameUnit(x: int, y: int, i: int, j: int)
    requires 0 <= x < 9 && 0 <= y < 9
    ensures (i, j) in Affected(x, y) <==> 0 <= i < 9 && 0 <= j < 9 && SameUnit(x, y, i, j)
  {
    var column := set i' | 0 <= i' < 9 :: (i', y);
    var row := set i' | 0 <= i' < 9 :: (x, i');
    var box := set i', j' | 0 <= i' < 3 && 0 <= j' < 3 :: BoxCell(x, y, i', j');
    assert Affected(x, y) == column + row + box;
    if 0 <= i < 9 && 0 <= j < 9 && SameUnit(x, y, i, j) {
      if j == y {
        assert (i, j) in column;
      } else if i == x {
        assert (i, j) in row;
      } else {
        var a, b := i - 3 * (x / 3), j - 3 * (y / 3);
        assert 0 <= a < 3 && 0 <= b < 3;
        assert (i, j) == BoxCell(x, y, a, b);
        assert BoxCell(x, y, a, b) in box;
      }
    }
    if (i, j) in box {
      var a, b :| 0 <= a < 3 && 0 <= b < 3 && BoxCell(x, y, a, b) == (i, j);
      assert i / 3 == x / 3 && j / 3 == y / 3;
    }
  }

  /** The quantified form of `AffectedIsSameUnit`. */
  lemma AffectedMeaning(x: int, y: int)
    requires 0 <= x < 9 && 0 <= y < 9
    ensures forall i, j :: (i, j) in Affected(x, y) <==> 0 <= i < 9 && 0 <= j < 9 && SameUnit(x, y, i, j)
  {
    forall i, j
      ensures (i, j) in Affected(x, y) <==> 0 <= i < 9 && 0 <= j < 9 && SameUnit(x, y, i, j)
    {
      AffectedIsSameUnit(x, y, i, j);
    }
  }

  /** Being a peer is symmetric. */
  lemma AffectedSymmetric(x: int, y: int, i: int, j: int)
    requires 0 <= x < 9 && 0 <= y < 9
    ensures (i, j) in Affected(x, y) <==> 0 <= i < 9 && 0 <= j < 9 && (x, y) in Affected(i, j)
  {
    AffectedIsSameUnit(x, y, i, j);
    if 0 <= i < 9 && 0 <= j < 9 {
      AffectedIsSameUnit(i, j, x, y);
    }
  }

  /** The peers of (x, y) with row-major index at least m, as row-major
      indices in ascending order. */
  function PeersFrom(x: int, y: int, m: int): (r: seq<int>)
    requires 0 <= m <= 81
    decreases 81 - m
    ensures forall q :: q in r <==> m <= q < 81 && SameUnit(x, y, q / 9, q % 9)
    ensures forall a, b :: 0 <= a < b < |r| ==> r[a] < r[b]
    ensures forall a :: 0 <= a < |r| ==> m <= r[a]
  {
    if m == 81 then []
    else if SameUnit(x, y, m / 9, m % 9) then [m] + PeersFrom(x, y, m + 1)
    else PeersFrom(x, y, m + 1)
  }

  /** The fixed order in which the peers of (x, y) are visited: every peer
      once, in ascending row-major index. */
  function PeerOrder(x: int, y: int): (r: seq<int>)
    requires 0 <= x < 9 && 0 <= y < 9
    ensures forall q :: q in r <==> 0 <= q < 81 && SameUnit(x, y, q / 9, q % 9)
    ensures forall a, b :: 0 <= a < b < |r| ==> r[a] < r[b]
  {
    PeersFrom(x, y, 0)
  }

  /** The visiting order holds exactly the cells of the table entry for
      (x, y), each once. */
  lemma PeerOrderIsAffected(x: int, y: int)
    requires 0 <= x < 9 && 0 <= y < 9
    ensures forall q :: q in PeerOrder(x, y) <==> 0 <= q < 81 && (q / 9, q % 9) in Affected(x, y)
    ensures forall a, b :: 0 <= a < b < |PeerOrder(x, y)| ==> PeerOrder(x, y)[a] != PeerOrder(x, y)[b]
  {
    AffectedMeaning(x, y);
  }
}
