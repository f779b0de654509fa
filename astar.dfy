/**
 * `AStarPathFinder`: best-first search over the free cells of a surface.
 * The C5 interval heap is a map from point to priority; `DeleteMin` may return any
 * entry of least priority. `handles` is the key set of the handle dictionary.
 */
module AStar {
  import opened Wrappers
  import opened Drawing
  import opened Constants
  import opened Utils
  import opened States
  import opened Collections
  import opened Paths
  import opened Surfaces

  /**
   * The recorded predecessors lead back to `start`, each step lowering the g-score by one.
   * This is what lets `ReconstructPath` terminate.
   */
  ghost predicate ChainInv(cameFrom: map<Point, Point>, gScore: map<Point, int>, start: Point) {
    && start in gScore && gScore[start] == 0
    && cameFrom.Keys == gScore.Keys - {start}
    && (forall p :: p in gScore ==> gScore[p] >= 0)
    && (forall y {:trigger cameFrom[y]} :: y in cameFrom ==>
          cameFrom[y] in gScore && Adjacent(cameFrom[y], y) && gScore[y] == gScore[cameFrom[y]] + 1)
  }

  /** The chain of predecessors from `start` to `p`, in walking order. */
  ghost function Trace(cameFrom: map<Point, Point>, gScore: map<Point, int>, start: Point, p: Point): seq<Point>
    requires ChainInv(cameFrom, gScore, start) && p in gScore
    decreases gScore[p]
  {
    if p == start then [start] else Trace(cameFrom, gScore, start, cameFrom[p]) + [p]
  }

  /** The chain is a walk from `start` to `p` with `gScore[p] + 1` points, the `k`-th at g-score `k`. */
  lemma {:induction false} TraceIsWalk(cameFrom: map<Point, Point>, gScore: map<Point, int>, start: Point, p: Point)
    requires ChainInv(cameFrom, gScore, start) && p in gScore
    ensures IsWalk(Trace(cameFrom, gScore, start, p), start, p)
    ensures |Trace(cameFrom, gScore, start, p)| == gScore[p] + 1
    ensures forall k :: 0 <= k < |Trace(cameFrom, gScore, start, p)| ==>
      Trace(cameFrom, gScore, start, p)[k] in gScore && gScore[Trace(cameFrom, gScore, start, p)[k]] == k
    decreases gScore[p]
  {
    if p != start {
      TraceIsWalk(cameFrom, gScore, start, cameFrom[p]);
    }
  }

  /** No point occurs twice on the chain. */
  lemma TraceDistinct(cameFrom: map<Point, Point>, gScore: map<Point, int>, start: Point, p: Point)
    requires ChainInv(cameFrom, gScore, start) && p in gScore
    ensures Distinct(Trace(cameFrom, gScore, start, p))
  {
    TraceIsWalk(cameFrom, gScore, start, p);
  }

  /** Over free points with g-scores, the traced chain is a free walk without repeats. */
  lemma TraceIsFreeWalk(s: array2<bool>, cameFrom: map<Point, Point>, gScore: map<Point, int>, start: Point, p: Point)
    requires ChainInv(cameFrom, gScore, start) && p in gScore
    requires forall q :: q in gScore ==> Free(s, q)
    ensures FreeWalk(s, Trace(cameFrom, gScore, start, p), start, p)
    ensures Distinct(Trace(cameFrom, gScore, start, p))
  {
    TraceIsWalk(cameFrom, gScore, start, p);
    TraceDistinct(cameFrom, gScore, start, p);
  }

  /**
   * The bookkeeping of the search loop. Every point with a g-score is open (in the heap and
   * in `handles`) or closed, and free; predecessors are closed; the priority of an open point
   * other than the start is its f-score; the start is closed once the
   * first point has been taken; the end is never closed; and every free neighbour of a closed
   * point outside `pending` already has a g-score.
   */
  ghost predicate SearchInv(s: array2<bool>, start: Point, end: Point, openSet: map<Point, int>,
                            handles: set<Point>, closedSet: set<Point>, gScore: map<Point, int>,
                            fScore: map<Point, int>, cameFrom: map<Point, Point>, pending: set<Point>)
    reads s
  {
    && handles == openSet.Keys
    && openSet.Keys !! closedSet
    && gScore.Keys == openSet.Keys + closedSet
    && fScore.Keys == gScore.Keys
    && ChainInv(cameFrom, gScore, start)
    && (forall y {:trigger cameFrom[y]} :: y in cameFrom ==> cameFrom[y] in closedSet)
    && (forall p :: p in gScore ==> Free(s, p))
    && (start in closedSet || (closedSet == {} && openSet.Keys == {start}))
    && end !in closedSet
    && (start in openSet ==> openSet[start] == 0)
    && (forall p :: p in openSet && p != start ==> openSet[p] == fScore[p])
    && (forall c, q :: c in closedSet && c !in pending && Adjacent(c, q) && Free(s, q) ==> q in gScore)
  }

  /** Taking a minimal open point `x` other than the end and closing it keeps the bookkeeping, `x` pending. */
  lemma CloseStep(s: array2<bool>, start: Point, end: Point, openSet: map<Point, int>,
                  handles: set<Point>, closedSet: set<Point>, gScore: map<Point, int>,
                  fScore: map<Point, int>, cameFrom: map<Point, Point>, x: Point)
    requires SearchInv(s, start, end, openSet, handles, closedSet, gScore, fScore, cameFrom, {})
    requires x in openSet && x != end
    ensures SearchInv(s, start, end, openSet - {x}, handles - {x}, closedSet + {x}, gScore, fScore, cameFrom, {x})
    ensures start in closedSet + {x}
  {
  }

  /**
   * Recording `x` as the predecessor of its free, not yet closed neighbour `y`, with g-score
   * `g`, keeps the bookkeeping; `y` becomes open with priority g + Distance(y, end).
   */
  lemma RelaxStep(s: array2<bool>, start: Point, end: Point, openSet: map<Point, int>,
                  handles: set<Point>, closedSet: set<Point>, gScore: map<Point, int>,
                  fScore: map<Point, int>, cameFrom: map<Point, Point>, x: Point, y: Point, g: int)
    requires SearchInv(s, start, end, openSet, handles, closedSet, gScore, fScore, cameFrom, {x})
    requires x in closedSet && start in closedSet && y !in closedSet
    requires Adjacent(x, y) && Free(s, y) && g == gScore[x] + 1
    ensures SearchInv(s, start, end, openSet[y := g + Distance(y, end)], handles + {y}, closedSet,
                      gScore[y := g], fScore[y := g + Distance(y, end)], cameFrom[y := x], {x})
  {
    var open', gScore', cameFrom' := openSet[y := g + Distance(y, end)], gScore[y := g], cameFrom[y := x];
    assert ChainInv(cameFrom', gScore', start) by {
      forall z | z in cameFrom' ensures cameFrom'[z] in gScore' && gScore'[z] == gScore'[cameFrom'[z]] + 1 {
        if z != y {
          assert cameFrom[z] in closedSet;
        }
      }
    }
  }

  /** Once every free neighbour of `x` has a g-score, `x` is no longer pending. */
  lemma ExpandStep(s: array2<bool>, start: Point, end: Point, openSet: map<Point, int>,
                   handles: set<Point>, closedSet: set<Point>, gScore: map<Point, int>,
                   fScore: map<Point, int>, cameFrom: map<Point, Point>, x: Point, ns: seq<Point>)
    requires SearchInv(s, start, end, openSet, handles, closedSet, gScore, fScore, cameFrom, {x})
    requires forall q :: q in ns <==> Adjacent(x, q) && Free(s, q)
    requires forall j :: 0 <= j < |ns| ==> ns[j] in gScore
    ensures SearchInv(s, start, end, openSet, handles, closedSet, gScore, fScore, cameFrom, {})
  {
    forall c, q | c in closedSet && Adjacent(c, q) && Free(s, q) ensures q in gScore {
      if c == x {
        var j :| 0 <= j < |ns| && ns[j] == q;
      }
    }
  }

  /**
   * The g-scores and predecessors of the closed points are the ones recorded in `closedGScore`
   * and `closedCameFrom` when they were closed.
   */
  ghost predicate Frozen(closedSet: set<Point>, gScore: map<Point, int>, cameFrom: map<Point, Point>,
                         closedGScore: map<Point, int>, closedCameFrom: map<Point, Point>)
  {
    && closedGScore.Keys == closedSet && closedCameFrom.Keys <= closedSet
    && (forall p :: p in closedSet ==> p in gScore && gScore[p] == closedGScore[p])
    && (forall p :: p in closedSet ==>
          (p in cameFrom <==> p in closedCameFrom) && (p in cameFrom ==> cameFrom[p] == closedCameFrom[p]))
  }

  /** Closing `x` records its g-score and predecessor. */
  lemma FreezeStep(closedSet: set<Point>, gScore: map<Point, int>, cameFrom: map<Point, Point>,
                   closedGScore: map<Point, int>, closedCameFrom: map<Point, Point>, x: Point)
    requires Frozen(closedSet, gScore, cameFrom, closedGScore, closedCameFrom) && x in gScore
    ensures Frozen(closedSet + {x}, gScore, cameFrom, closedGScore[x := gScore[x]],
                   if x in cameFrom then closedCameFrom[x := cameFrom[x]] else closedCameFrom)
  {
  }

  /** Updates that leave the closed points' entries alone keep them frozen. */
  lemma FrozenKept(closedSet: set<Point>, gScore: map<Point, int>, cameFrom: map<Point, Point>,
                   gScore': map<Point, int>, cameFrom': map<Point, Point>,
                   closedGScore: map<Point, int>, closedCameFrom: map<Point, Point>)
    requires Frozen(closedSet, gScore, cameFrom, closedGScore, closedCameFrom)
    requires forall p :: p in closedSet ==> p in gScore' && gScore'[p] == gScore[p]
    requires forall p :: p in closedSet ==>
      (p in cameFrom' <==> p in cameFrom) && (p in cameFrom ==> cameFrom'[p] == cameFrom[p])
    ensures Frozen(closedSet, gScore', cameFrom', closedGScore, closedCameFrom)
  {
  }

  class AStarPathFinder {
    /** Surface where paths are being located. */
    const surface: array2<bool>
    var endPoint: Point
    var startPoint: Point

    constructor (surface: array2<bool>)
      ensures this.surface == surface
    {
      this.surface := surface;
      endPoint := Point(0, 0);
      startPoint := Point(0, 0);
    }

    /**
     * Finds a path between `startPoint` and `endPoint`, or `None`; a bitmap read outside the
     * surface, or a start equal to the end, throws as the C# code does.
     */
    method FindPath(startPoint: Point, endPoint: Point) returns (r: Result<Option<Path>>)
      modifies this
      ensures r.Ok? && r.value.Some? ==>
        && fresh(r.value.value)
        && startPoint != endPoint
        && FreeWalk(surface, r.value.value.points, startPoint, endPoint)
        && Distinct(r.value.value.points)
      ensures r == Ok(None) && Free(surface, startPoint) && Free(surface, endPoint) ==>
        !Reachable(surface, startPoint, endPoint)
      ensures Interior(surface, startPoint) && HasOccupiedNeighbour(surface, startPoint) ==> r == Ok(None)
      ensures Interior(surface, startPoint) && Interior(surface, endPoint) && HasOccupiedNeighbour(surface, endPoint) ==>
        r == Ok(None)
      ensures r == Throw(KeyNotFound) <==> startPoint == endPoint && Free(surface, startPoint)
      ensures r == Throw(ArgumentOutOfRange) ==>
        !(Bordered(surface) && Interior(surface, startPoint) && Interior(surface, endPoint))
    {
      var c := Collides(startPoint);
      if c.Throw? {
        return Throw(c.error);
      }
      if c.value {
        return Ok(None);
      }
      c := Collides(endPoint);
      if c.Throw? {
        return Throw(c.error);
      }
      if c.value {
        return Ok(None);
      }

      this.startPoint := startPoint;
      this.endPoint := endPoint;
      r := Search();
    }

    /**
     * The search proper, from `startPoint` to `endPoint` once both are known to be free:
     * a path found is a walk through free cells without repetitions; `None` means that no
     * such walk exists; `KeyNotFound` is thrown exactly when the two points are equal.
     */
    method Search() returns (r: Result<Option<Path>>)
      requires Free(surface, startPoint) && Free(surface, endPoint)
      ensures r.Ok? && r.value.Some? ==>
        && fresh(r.value.value)
        && startPoint != endPoint
        && FreeWalk(surface, r.value.value.points, startPoint, endPoint)
        && Distinct(r.value.value.points)
      ensures r == Ok(None) ==> !Reachable(surface, startPoint, endPoint)
      ensures r == Throw(KeyNotFound) <==> startPoint == endPoint
      ensures r == Throw(ArgumentOutOfRange) ==> !Bordered(surface)
    {
      var openSet: map<Point, int> := map[startPoint := 0];
      var handles: set<Point> := {startPoint};
      var closedSet: set<Point> := {};
      var gScore: map<Point, int> := map[startPoint := 0];
      var fScore: map<Point, int> := map[startPoint := Distance(startPoint, endPoint)];
      var cameFrom: map<Point, Point> := map[];
      // the g-scores and predecessors of the points at the time they were closed
      ghost var closedGScore: map<Point, int> := map[];
      ghost var closedCameFrom: map<Point, Point> := map[];

      while openSet != map[]
        invariant SearchInv(surface, startPoint, endPoint, openSet, handles, closedSet, gScore, fScore, cameFrom, {})
        invariant Frozen(closedSet, gScore, cameFrom, closedGScore, closedCameFrom)
        decreases InteriorPoints(surface) - closedSet
      {
        MinimalExists(openSet);
        var x :| IsMinimal(openSet, x);

        if x == endPoint {
          var path := ReconstructPath(cameFrom, gScore);
          if path.Throw? {
            return Throw(path.error);
          }
          return Ok(Some(path.value));
        }

        CloseStep(surface, startPoint, endPoint, openSet, handles, closedSet, gScore, fScore, cameFrom, x);
        InteriorPointsContains(surface, x);
        openSet := openSet - {x};
        handles := handles - {x};
        FreezeStep(closedSet, gScore, cameFrom, closedGScore, closedCameFrom, x);
        closedSet := closedSet + {x};
        closedGScore := closedGScore[x := gScore[x]];
        if x in cameFrom {
          closedCameFrom := closedCameFrom[x := cameFrom[x]];
        }
        BorderedFreeIsInner(surface, x);
        var neighbours, dirs := GetNeighbours(x);
        if neighbours.Throw? {
          return Throw(neighbours.error);
        }
        var ns := neighbours.value;

        ghost var gScore0, cameFrom0 := gScore, cameFrom;
        openSet, handles, gScore, fScore, cameFrom := Expand(x, ns, openSet, handles, closedSet, gScore, fScore, cameFrom);
        FrozenKept(closedSet, gScore0, cameFrom0, gScore, cameFrom, closedGScore, closedCameFrom);
      }

      ReachableStaysInRegion(surface, closedSet, startPoint);
      return Ok(None);
    }

    /** The loop over the free neighbours `ns` of the point `x` that has just been closed. */
    method Expand(x: Point, ns: seq<Point>, openSet: map<Point, int>, handles: set<Point>, closedSet: set<Point>,
                  gScore: map<Point, int>, fScore: map<Point, int>, cameFrom: map<Point, Point>)
      returns (openSet': map<Point, int>, handles': set<Point>, gScore': map<Point, int>,
               fScore': map<Point, int>, cameFrom': map<Point, Point>)
      requires SearchInv(surface, startPoint, endPoint, openSet, handles, closedSet, gScore, fScore, cameFrom, {x})
      requires x in closedSet && startPoint in closedSet
      requires forall q :: q in ns <==> Adjacent(x, q) && Free(surface, q)
      ensures SearchInv(surface, startPoint, endPoint, openSet', handles', closedSet, gScore', fScore', cameFrom', {})
      ensures forall p :: p in closedSet ==> p in gScore' && gScore'[p] == gScore[p]
      ensures forall p :: p in closedSet ==>
        (p in cameFrom' <==> p in cameFrom) && (p in cameFrom ==> cameFrom'[p] == cameFrom[p])
    {
      openSet', handles', gScore', fScore', cameFrom' := openSet, handles, gScore, fScore, cameFrom;
      for i := 0 to |ns|
        invariant SearchInv(surface, startPoint, endPoint, openSet', handles', closedSet, gScore', fScore', cameFrom', {x})
        invariant forall j :: 0 <= j < i ==> ns[j] in gScore'
        invariant forall p :: p in closedSet ==> p in gScore' && gScore'[p] == gScore[p]
        invariant forall p :: p in closedSet ==>
          (p in cameFrom' <==> p in cameFrom) && (p in cameFrom ==> cameFrom'[p] == cameFrom[p])
      {
        var y := ns[i];
        openSet', handles', gScore', fScore', cameFrom' := Relax(x, y, openSet', handles', closedSet, gScore', fScore', cameFrom');
        forall j | 0 <= j < i + 1 ensures ns[j] in gScore' {
          if j == i {
            assert ns[j] == y;
          }
        }
      }
      ExpandStep(surface, startPoint, endPoint, openSet', handles', closedSet, gScore', fScore', cameFrom', x, ns);
    }

    /**
     * One turn of the loop over the neighbours of `x`: unless `y` is closed, record `x` as its
     * predecessor when `y` is new or the route through `x` is shorter, and give `y` its f-score
     * as priority.
     */
    method Relax(x: Point, y: Point, openSet: map<Point, int>, handles: set<Point>, closedSet: set<Point>,
                 gScore: map<Point, int>, fScore: map<Point, int>, cameFrom: map<Point, Point>)
      returns (openSet': map<Point, int>, handles': set<Point>, gScore': map<Point, int>,
               fScore': map<Point, int>, cameFrom': map<Point, Point>)
      requires SearchInv(surface, startPoint, endPoint, openSet, handles, closedSet, gScore, fScore, cameFrom, {x})
      requires x in closedSet && startPoint in closedSet && Adjacent(x, y) && Free(surface, y)
      ensures SearchInv(surface, startPoint, endPoint, openSet', handles', closedSet, gScore', fScore', cameFrom', {x})
      ensures y in gScore'
      ensures forall p :: p in gScore ==> p in gScore'
      ensures y in closedSet || (y in gScore && gScore[y] <= gScore[x] + 1) ==>
        openSet' == openSet && handles' == handles && gScore' == gScore && fScore' == fScore && cameFrom' == cameFrom
      ensures y !in closedSet && (y !in gScore || gScore[x] + 1 < gScore[y]) ==>
        && cameFrom' == cameFrom[y := x]
        && gScore' == gScore[y := gScore[x] + 1]
        && fScore' == fScore[y := gScore[x] + 1 + Distance(y, endPoint)]
        && openSet' == openSet[y := gScore[x] + 1 + Distance(y, endPoint)]
        && handles' == handles + {y}
    {
      openSet', handles', gScore', fScore', cameFrom' := openSet, handles, gScore, fScore, cameFrom;
      if y in closedSet {
        return;
      }
      DistanceToNeighbour(x, y);
      var tentativeGScore := gScore[x] + Distance(x, y);

      var tentativeIsBetter: bool;
      var point := y;
      if point !in handles' && y !in closedSet {
        // will get its priority below
        openSet' := openSet'[point := 0];
        handles' := handles' + {point};
        tentativeIsBetter := true;
      } else if tentativeGScore < gScore'[y] {
        tentativeIsBetter := true;
      } else {
        tentativeIsBetter := false;
      }

      if tentativeIsBetter {
        cameFrom' := cameFrom'[y := x];
        gScore' := gScore'[y := tentativeGScore];
        fScore' := fScore'[y := gScore'[y] + Distance(y, endPoint)];
        var heuristic := fScore'[y];
        openSet' := openSet'[y := heuristic];
        RelaxStep(surface, startPoint, endPoint, openSet, handles, closedSet, gScore, fScore, cameFrom,
                  x, y, tentativeGScore);
        assert handles' == handles + {y};
        assert openSet' == openSet[y := heuristic];
      }
    }

    /** True if some neighbour of `point` is occupied; does not look at `point` itself. */
    method Collides(point: Point) returns (r: Result<bool>)
      ensures r.Ok? && r.value ==> HasOccupiedNeighbour(surface, point)
      ensures r.Ok? && !r.value ==> Free(surface, point)
      ensures Interior(surface, point) ==> r.Ok?
      ensures r.Throw? ==> r.error == ArgumentOutOfRange
    {
      for i := 0 to |Directions|
        invariant forall j :: 0 <= j < i ==>
          InRange(surface, Neighbour(point, j)) && !OccupiedAt(surface, Neighbour(point, j))
      {
        var pt := Add(point, Directions[i]);
        if !InRange(surface, pt) {
          return Throw(ArgumentOutOfRange);
        }
        if surface[pt.x, pt.y] {
          assert OccupiedAt(surface, Neighbour(point, i));
          return Ok(true);
        }
      }
      assert InRange(surface, Neighbour(point, 0)) && InRange(surface, Neighbour(point, 4));
      return Ok(false);
    }

    /**
     * The free neighbours of `point`, in the order of the direction table
     * (`dirs` gives the direction of each).
     */
    method GetNeighbours(point: Point) returns (r: Result<seq<Point>>, ghost dirs: seq<nat>)
      ensures r.Ok? ==> forall q :: q in r.value <==> Adjacent(point, q) && Free(surface, q)
      ensures r.Ok? ==> |dirs| == |r.value|
      ensures r.Ok? ==> forall k :: 0 <= k < |dirs| ==>
        dirs[k] < |Directions| && r.value[k] == Neighbour(point, dirs[k])
      ensures r.Ok? ==> forall k, l :: 0 <= k < l < |dirs| ==> dirs[k] < dirs[l]
      ensures Inner(surface, point) ==> r.Ok?
      ensures r.Throw? ==> r.error == ArgumentOutOfRange
    {
      InnerNeighboursAreInterior(surface, point);
      var points: seq<Point> := [];
      dirs := [];
      for i := 0 to |Directions|
        invariant |dirs| == |points|
        invariant forall k :: 0 <= k < |dirs| ==>
          dirs[k] < i && points[k] == Neighbour(point, dirs[k]) && Free(surface, points[k])
        invariant forall k, l :: 0 <= k < l < |dirs| ==> dirs[k] < dirs[l]
        invariant forall j :: 0 <= j < i && Free(surface, Neighbour(point, j)) ==> Neighbour(point, j) in points
      {
        var pt := Add(point, Directions[i]);
        var collides := Collides(pt);
        if collides.Throw? {
          return Throw(collides.error), dirs;
        }
        if !collides.value {
          points := points + [pt];
          dirs := dirs + [i];
        }
      }
      forall q ensures q in points <==> Adjacent(point, q) && Free(surface, q) {
        if q in points {
          var k :| 0 <= k < |points| && points[k] == q;
          NeighbourIsAdjacent(point, dirs[k]);
        }
        if Adjacent(point, q) {
          var i := AdjacentIsNeighbour(point, q);
        }
      }
      return Ok(points), dirs;
    }

    /** Walks `cameFrom` back from `endPoint` to `startPoint` and returns the points start first. */
    method ReconstructPath(cameFrom: map<Point, Point>, ghost gScore: map<Point, int>) returns (r: Result<Path>)
      requires ChainInv(cameFrom, gScore, startPoint) && endPoint in gScore
      requires forall q :: q in gScore ==> Free(surface, q)
      ensures endPoint == startPoint ==> r == Throw(KeyNotFound)
      ensures endPoint != startPoint ==>
        r.Ok? && fresh(r.value) && r.value.points == Trace(cameFrom, gScore, startPoint, endPoint)
      ensures r.Ok? ==>
        FreeWalk(surface, r.value.points, startPoint, endPoint) && Distinct(r.value.points)
    {
      var points := new Stack<Point>();
      points.Push(endPoint);
      if endPoint !in cameFrom {
        return Throw(KeyNotFound);
      }
      var p := cameFrom[endPoint];
      while p != startPoint
        invariant p in gScore
        invariant Trace(cameFrom, gScore, startPoint, endPoint) ==
          Trace(cameFrom, gScore, startPoint, p) + Reverse(points.items)
        decreases gScore[p]
      {
        ReverseSnoc(points.items, p);
        points.Push(p);
        p := cameFrom[p];
      }
      ReverseSnoc(points.items, startPoint);
      points.Push(startPoint);
      var path := new Path(points.ToArray());
      TraceIsFreeWalk(surface, cameFrom, gScore, startPoint, endPoint);
      return Ok(path);
    }
  }
}
