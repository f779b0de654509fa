/**
 * The surface the searches run on, and `SurfaceFactory.CreateSurface`.
 * A bitmap is reduced to what the searches read of it: whether a pixel is opaque
 * (alpha 255, "occupied"). `s[x, y]` is the pixel in column `x` and row `y`.
 */
module Surfaces {
  import opened Wrappers
  import opened Drawing
  import opened Constants
  import opened Paths

  /** `GetPixel(p.X, p.Y)` does not throw. */
  predicate InRange(s: array2<bool>, p: Point) {
    0 <= p.x < s.Length0 && 0 <= p.y < s.Length1
  }

  /** All eight neighbours of `p` can be read. */
  predicate Interior(s: array2<bool>, p: Point) {
    1 <= p.x < s.Length0 - 1 && 1 <= p.y < s.Length1 - 1
  }

  /** All eight neighbours of `p` are interior, so their neighbours can be read too. */
  predicate Inner(s: array2<bool>, p: Point) {
    2 <= p.x < s.Length0 - 2 && 2 <= p.y < s.Length1 - 2
  }

  ghost predicate OccupiedAt(s: array2<bool>, q: Point)
    reads s
  {
    InRange(s, q) && s[q.x, q.y]
  }

  /** Some cell around `p` (not `p` itself) is occupied. */
  ghost predicate HasOccupiedNeighbour(s: array2<bool>, p: Point)
    reads s
  {
    exists i :: 0 <= i < |Directions| && OccupiedAt(s, Neighbour(p, i))
  }

  /** `p` is a usable cell: readable all around, and no obstacle within one step. */
  ghost predicate Free(s: array2<bool>, p: Point)
    reads s
  {
    Interior(s, p) && !HasOccupiedNeighbour(s, p)
  }

  /** The outermost rows and columns are occupied: the sentinel border. */
  ghost predicate Bordered(s: array2<bool>)
    reads s
  {
    && s.Length0 >= 1 && s.Length1 >= 1
    && var right, bottom := s.Length0 - 1, s.Length1 - 1;
    && (forall x :: 0 <= x < s.Length0 ==> s[x, 0] && s[x, bottom])
    && (forall y :: 0 <= y < s.Length1 ==> s[0, y] && s[right, y])
  }

  /**
   * A fresh bitmap with its outermost pixels set. A new bitmap is transparent, so every
   * pixel that is not written stays unoccupied; one of no positive size cannot be created.
   */
  method CreateSurface(width: int, height: int) returns (r: Result<array2<bool>>)
    ensures r.Throw? <==> width <= 0 || height <= 0
    ensures r.Throw? ==> r.error == Argument
    ensures r.Ok? ==> fresh(r.value) && r.value.Length0 == width && r.value.Length1 == height
    ensures r.Ok? ==> forall x, y :: 0 <= x < width && 0 <= y < height ==>
      r.value[x, y] == (x == 0 || x == width - 1 || y == 0 || y == height - 1)
    ensures r.Ok? ==> Bordered(r.value)
  {
    if width <= 0 || height <= 0 {
      return Throw(Argument);
    }
    var bitmap := new bool[width, height]((x, y) => false);
    for x := 0 to bitmap.Length0
      invariant forall i, j :: 0 <= i < width && 0 <= j < height ==>
        bitmap[i, j] == ((j == 0 || j == height - 1) && i < x)
    {
      bitmap[x, 0] := true;
      bitmap[x, bitmap.Length1 - 1] := true;
    }
    for y := 0 to bitmap.Length1
      invariant forall i, j :: 0 <= i < width && 0 <= j < height ==>
        bitmap[i, j] == (j == 0 || j == height - 1 || ((i == 0 || i == width - 1) && j < y))
    {
      bitmap[0, y] := true;
      bitmap[bitmap.Length0 - 1, y] := true;
    }
    return Ok(bitmap);
  }

  lemma InteriorReadsInRange(s: array2<bool>, p: Point)
    requires Interior(s, p)
    ensures forall i :: 0 <= i < |Directions| ==> InRange(s, Neighbour(p, i))
  {
  }

  lemma InnerNeighboursAreInterior(s: array2<bool>, p: Point)
    ensures Inner(s, p) ==> forall i :: 0 <= i < |Directions| ==> Interior(s, Neighbour(p, i))
  {
  }

  /** On a bordered surface an interior point next to the border has an occupied neighbour. */
  lemma {:induction false} BorderIsOccupied(s: array2<bool>, p: Point)
    requires Bordered(s) && Interior(s, p)
    ensures Inner(s, p) || HasOccupiedNeighbour(s, p)
  {
    if p.x == 1 {
      assert Neighbour(p, 7) == Point(0, p.y) && s[0, p.y];
    } else if p.x == s.Length0 - 2 {
      assert Neighbour(p, 3) == Point(s.Length0 - 1, p.y) && s[s.Length0 - 1, p.y];
    } else if p.y == 1 {
      assert Neighbour(p, 1) == Point(p.x, 0) && s[p.x, 0];
    } else if p.y == s.Length1 - 2 {
      assert Neighbour(p, 5) == Point(p.x, s.Length1 - 1) && s[p.x, s.Length1 - 1];
    }
  }

  /** So a free point on a bordered surface keeps one cell away from the border. */
  lemma BorderedFreeIsInner(s: array2<bool>, p: Point)
    ensures Bordered(s) && Free(s, p) ==> Inner(s, p)
  {
    if Bordered(s) && Interior(s, p) {
      BorderIsOccupied(s, p);
    }
  }

  /** The interior cells, a finite set: every search step closes or visits one of them. */
  function InteriorPoints(s: array2<bool>): set<Point> {
    set x, y | 1 <= x < s.Length0 - 1 && 1 <= y < s.Length1 - 1 :: Point(x, y)
  }

  lemma InteriorPointsContains(s: array2<bool>, p: Point)
    ensures Interior(s, p) ==> p in InteriorPoints(s)
  {
    if Interior(s, p) {
      assert p == Point(p.x, p.y);
    }
  }

  /** `w` is a walk from `a` to `b` through free cells only. */
  ghost predicate FreeWalk(s: array2<bool>, w: seq<Point>, a: Point, b: Point)
    reads s
  {
    IsWalk(w, a, b) && forall k :: 0 <= k < |w| ==> Free(s, w[k])
  }

  /** Some walk through free cells leads from `a` to `b`. */
  ghost predicate Reachable(s: array2<bool>, a: Point, b: Point)
    reads s
  {
    exists w :: FreeWalk(s, w, a, b)
  }

  /** A walk through free cells cannot leave a region that holds every free neighbour of its cells. */
  lemma {:induction false} WalkStaysInRegion(s: array2<bool>, region: set<Point>, w: seq<Point>)
    requires |w| >= 1 && w[0] in region && Steps(w)
    requires forall k :: 0 <= k < |w| ==> Free(s, w[k])
    requires forall c, q :: c in region && Adjacent(c, q) && Free(s, q) ==> q in region
    ensures w[|w| - 1] in region
    decreases |w|
  {
    if |w| > 1 {
      var v := w[..|w| - 1];
      assert Steps(v);
      WalkStaysInRegion(s, region, v);
      assert Adjacent(v[|v| - 1], w[|w| - 1]);
    }
  }

  /** So everything reachable from a cell of such a region lies in the region. */
  lemma ReachableStaysInRegion(s: array2<bool>, region: set<Point>, a: Point)
    requires a in region
    requires forall c, q :: c in region && Adjacent(c, q) && Free(s, q) ==> q in region
    ensures forall b :: Reachable(s, a, b) ==> b in region
  {
    forall b, w | FreeWalk(s, w, a, b) ensures b in region {
      WalkStaysInRegion(s, region, w);
    }
  }
}
