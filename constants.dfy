/** The eight compass offsets and the 8-adjacency they define. */
module Constants {
  import opened Drawing

  const E := Size(1, 0)
  const N := Size(0, -1)
  const NE := Size(1, -1)
  const NW := Size(-1, -1)
  const S := Size(0, 1)
  const SE := Size(1, 1)
  const SW := Size(-1, 1)
  const W := Size(-1, 0)

  /** All directions, in the order every search visits them. */
  const Directions: seq<Size> := [NW, N, NE, E, SE, S, SW, W]

  /** The neighbour of `p` in the `i`-th direction of the table. */
  function Neighbour(p: Point, i: nat): Point
    requires i < |Directions|
  {
    Add(p, Directions[i])
  }

  /** `q` is one of the eight cells around `p`. */
  predicate Adjacent(p: Point, q: Point) {
    Offset(q, p) in Directions
  }

  lemma DirectionsTable()
    ensures |Directions| == 8
    ensures Directions[0] == Size(-1, -1) && Directions[1] == Size(0, -1)
    ensures Directions[2] == Size(1, -1) && Directions[3] == Size(1, 0)
    ensures Directions[4] == Size(1, 1) && Directions[5] == Size(0, 1)
    ensures Directions[6] == Size(-1, 1) && Directions[7] == Size(-1, 0)
  {
  }

  lemma DirectionsDistinct()
    ensures forall i, j :: 0 <= i < j < |Directions| ==> Directions[i] != Directions[j]
  {
  }

  /** Every entry is a unit step: both components in {-1, 0, 1}, and not the null offset. */
  lemma DirectionsAreUnitSteps()
    ensures forall d :: d in Directions ==>
      -1 <= d.width <= 1 && -1 <= d.height <= 1 && d != Size(0, 0)
  {
  }

  /** Every unit step appears in the table. */
  lemma DirectionsComplete(dx: int, dy: int)
    requires -1 <= dx <= 1 && -1 <= dy <= 1 && (dx, dy) != (0, 0)
    ensures Size(dx, dy) in Directions
  {
    if dy == -1 {
      assert Size(dx, dy) == Directions[dx + 1];
    } else if dy == 1 {
      assert Size(dx, dy) == Directions[5 - dx];
    } else if dx == 1 {
      assert Size(dx, dy) == Directions[3];
    } else {
      assert Size(dx, dy) == Directions[7];
    }
  }

  /** The table is closed under negation. */
  lemma DirectionsNegation(d: Size)
    requires d in Directions
    ensures Size(-d.width, -d.height) in Directions
  {
    DirectionsAreUnitSteps();
    DirectionsComplete(-d.width, -d.height);
  }

  /** 8-adjacency is symmetric and irreflexive. */
  lemma AdjacentSymmetric(p: Point, q: Point)
    requires Adjacent(p, q)
    ensures Adjacent(q, p) && p != q
  {
    var d := Offset(q, p);
    DirectionsNegation(d);
    assert Offset(p, q) == Size(-d.width, -d.height);
    DirectionsAreUnitSteps();
  }

  /** The neighbours `Neighbour(p, i)` are exactly the points adjacent to `p`, one per direction. */
  lemma NeighbourIsAdjacent(p: Point, i: nat)
    requires i < |Directions|
    ensures Adjacent(p, Neighbour(p, i))
    ensures forall j :: 0 <= j < |Directions| && Neighbour(p, j) == Neighbour(p, i) ==> j == i
  {
    assert Offset(Neighbour(p, i), p) == Directions[i];
  }

  lemma AdjacentIsNeighbour(p: Point, q: Point) returns (i: nat)
    requires Adjacent(p, q)
    ensures i < |Directions| && q == Neighbour(p, i)
  {
    var k :| 0 <= k < |Directions| && Directions[k] == Offset(q, p);
    i := k;
  }
}
