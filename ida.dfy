/**
 * `Ida`: iterative-deepening A*. Each round is a depth-first search from the start that
 * prunes a node once its cost so far plus its distance to the end exceeds the round's limit;
 * the next round uses the least cost that was pruned.
 */
module IdaStar {
  import opened Wrappers
  import opened Drawing
  import opened Constants
  import opened Utils
  import opened DistanceComparers
  import opened Collections
  import opened Paths
  import opened Surfaces

  /** `int.MaxValue`. */
  const IntMaxValue: int := 0x7fff_ffff

  /** The result of one depth-first search: a cost limit, and the path found, if any. */
  datatype Solution = Solution(costLimit: int, path: Option<Stack<Point>>)

  /** How many of the first `k` neighbours of `p` (in direction-table order) are in `visited`. */
  function VisitedAround(visited: set<Point>, p: Point, k: nat): (n: nat)
    requires k <= |Directions|
    ensures n <= k
  {
    if k == 0 then 0 else VisitedAround(visited, p, k - 1) + (if Neighbour(p, k - 1) in visited then 1 else 0)
  }

  /** Two or more cells around `p` are on the current path, so stepping on `p` would hug it. */
  predicate Crowded(visited: set<Point>, p: Point) {
    VisitedAround(visited, p, |Directions|) >= 2
  }

  /** `VisitedAround` counts exactly the directions that lead into `visited`. */
  lemma {:induction false} VisitedAroundCounts(visited: set<Point>, p: Point, k: nat)
    requires k <= |Directions|
    ensures VisitedAround(visited, p, k) == |set i | 0 <= i < k && Neighbour(p, i) in visited|
  {
    var ds := set i | 0 <= i < k && Neighbour(p, i) in visited;
    if k > 0 {
      VisitedAroundCounts(visited, p, k - 1);
      var ds' := set i | 0 <= i < k - 1 && Neighbour(p, i) in visited;
      assert k - 1 !in ds';
      if Neighbour(p, k - 1) in visited {
        assert ds == ds' + {k - 1};
      } else {
        assert ds == ds';
      }
    } else {
      assert ds == {};
    }
  }

  /** A neighbour `q` of `point` that the depth-first search may step on. */
  ghost predicate Successor(s: array2<bool>, visited: set<Point>, point: Point, q: Point)
    reads s
  {
    Adjacent(point, q) && q !in visited && Free(s, q) && !Crowded(visited, q)
  }

  /**
   * The stack of the depth-first search: a walk with no repeated point whose cells after the
   * first are free, and exactly the visited set.
   */
  ghost predicate OnPath(s: array2<bool>, visited: set<Point>, items: seq<Point>)
    reads s
  {
    && |items| >= 1
    && Steps(items)
    && Distinct(items)
    && (forall k :: 1 <= k < |items| ==> Free(s, items[k]))
    && (forall p :: p in visited <==> p in items)
  }

  /** `p` extends `prefix` to `end` within `costLimit` steps without repeating a point. */
  ghost predicate GoalPath(s: array2<bool>, prefix: seq<Point>, p: seq<Point>, end: Point, costLimit: int)
    reads s
  {
    && 1 <= |p| && |prefix| <= |p|
    && p[..|prefix|] == prefix
    && p[|p| - 1] == end
    && |p| - 1 <= costLimit
    && Steps(p)
    && Distinct(p)
    && (forall k :: 1 <= k < |p| ==> Free(s, p[k]))
  }

  /** Pushing a successor of the top keeps the stack a path. */
  lemma OnPathExtend(s: array2<bool>, visited: set<Point>, items: seq<Point>, q: Point)
    requires OnPath(s, visited, items) && Successor(s, visited, items[|items| - 1], q)
    ensures OnPath(s, visited + {q}, items + [q])
  {
    var items' := items + [q];
    assert forall k :: 0 <= k < |items| ==> items'[k] == items[k];
    forall i, j | 0 <= i < j < |items'| ensures items'[i] != items'[j] {
      if j == |items| {
        assert items[i] in visited;
      }
    }
  }

  /** A stack whose top is the end is itself a goal path. */
  lemma OnPathAtGoal(s: array2<bool>, visited: set<Point>, items: seq<Point>, end: Point, costLimit: int)
    requires OnPath(s, visited, items) && items[|items| - 1] == end && |items| - 1 <= costLimit
    ensures GoalPath(s, items, items, end, costLimit)
  {
    assert items[..|items|] == items;
  }

  /** A goal path through `prefix + [q]` is one through `prefix`. */
  lemma GoalPathShorten(s: array2<bool>, prefix: seq<Point>, q: Point, p: seq<Point>, end: Point, costLimit: int)
    requires GoalPath(s, prefix + [q], p, end, costLimit)
    ensures GoalPath(s, prefix, p, end, costLimit)
  {
    assert p[..|prefix|] == (prefix + [q])[..|prefix|];
  }

  function Min(a: int, b: int): (m: int)
    ensures m <= a && m <= b && (m == a || m == b)
  {
    if a < b then a else b
  }

  /** The successors of `p` among its first `k` neighbours, in direction-table order. */
  ghost function SuccessorList(s: array2<bool>, visited: set<Point>, p: Point, k: nat): (qs: seq<Point>)
    reads s
    requires k <= |Directions|
    ensures forall q :: q in qs ==> Successor(s, visited, p, q)
    ensures forall j :: 0 <= j < k && Successor(s, visited, p, Neighbour(p, j)) ==> Neighbour(p, j) in qs
  {
    if k == 0 then []
    else
      SuccessorList(s, visited, p, k - 1) +
      (if Successor(s, visited, p, Neighbour(p, k - 1)) then [Neighbour(p, k - 1)] else [])
  }

  /** The list holds exactly the successors of `p`. */
  lemma SuccessorListMembers(s: array2<bool>, visited: set<Point>, p: Point)
    ensures forall q :: q in SuccessorList(s, visited, p, |Directions|) <==> Successor(s, visited, p, q)
  {
    forall q | Successor(s, visited, p, q) ensures q in SuccessorList(s, visited, p, |Directions|) {
      var i := AdjacentIsNeighbour(p, q);
    }
  }

  /**
   * The cost limit that a depth-first search from `node`, reached at cost `startCost` with
   * `visited` on the path, returns when it finds no path: its own estimate when that exceeds
   * the limit, otherwise the least bound among its successors, `int.MaxValue` without any.
   */
  ghost function Bound(s: array2<bool>, end: Point, visited: set<Point>, node: Point, startCost: int,
                       costLimit: int): int
    reads s
    decreases costLimit + 1 - startCost, 0
  {
    var minimumCost := startCost + Distance(node, end);
    if minimumCost > costLimit then minimumCost
    else if node == end then costLimit
    else LeastBound(s, end, visited, SuccessorList(s, visited, node, |Directions|), startCost, costLimit)
  }

  /** The running minimum of the successor loop over `qs`, starting from `int.MaxValue`. */
  ghost function LeastBound(s: array2<bool>, end: Point, visited: set<Point>, qs: seq<Point>, startCost: int,
                            costLimit: int): int
    reads s
    decreases costLimit - startCost, |qs| + 1
  {
    if qs == [] then IntMaxValue
    else
      var q := qs[|qs| - 1];
      Min(LeastBound(s, end, visited, qs[..|qs| - 1], startCost, costLimit),
          Bound(s, end, visited + {q}, q, startCost + 1, costLimit))
  }

  /**
   * The cost limits of the rounds of an iterative-deepening search from `start` to `end`: the
   * first is the distance between them, and each later one is the bound the round before it
   * returned, which is larger than that round's limit and below `int.MaxValue`.
   */
  ghost predicate Deepening(s: array2<bool>, start: Point, end: Point, rounds: seq<int>)
    reads s
    decreases |rounds|
  {
    if |rounds| <= 1 then rounds == [Distance(start, end)]
    else
      var last, before := rounds[|rounds| - 1], rounds[|rounds| - 2];
      && Deepening(s, start, end, rounds[..|rounds| - 1])
      && before < last < IntMaxValue
      && last == Bound(s, end, {start}, start, 0, before)
  }

  /** `LeastBound` is the least of the successors' bounds and `int.MaxValue`. */
  lemma {:induction false} LeastBoundIsLeast(s: array2<bool>, end: Point, visited: set<Point>, qs: seq<Point>,
                                             startCost: int, costLimit: int)
    ensures LeastBound(s, end, visited, qs, startCost, costLimit) <= IntMaxValue
    ensures forall q :: q in qs ==>
      LeastBound(s, end, visited, qs, startCost, costLimit) <= Bound(s, end, visited + {q}, q, startCost + 1, costLimit)
    ensures LeastBound(s, end, visited, qs, startCost, costLimit) == IntMaxValue ||
      exists q :: q in qs &&
        LeastBound(s, end, visited, qs, startCost, costLimit) == Bound(s, end, visited + {q}, q, startCost + 1, costLimit)
    decreases |qs|
  {
    if qs != [] {
      var init := qs[..|qs| - 1];
      LeastBoundIsLeast(s, end, visited, init, startCost, costLimit);
      assert qs == init + [qs[|qs| - 1]];
    }
  }

  /** So the order in which the successors are tried does not change the bound. */
  lemma LeastBoundOrderFree(s: array2<bool>, end: Point, visited: set<Point>, qs: seq<Point>, ts: seq<Point>,
                            startCost: int, costLimit: int)
    requires forall q :: q in qs <==> q in ts
    ensures LeastBound(s, end, visited, qs, startCost, costLimit) == LeastBound(s, end, visited, ts, startCost, costLimit)
  {
    LeastBoundIsLeast(s, end, visited, qs, startCost, costLimit);
    LeastBoundIsLeast(s, end, visited, ts, startCost, costLimit);
  }

  class Ida {
    /** Surface where paths are being located. */
    const surface: array2<bool>
    /** Compares points by their distance to the end point. */
    var comparer: DistanceComparer
    /** The points on the current depth-first path. */
    var visited: set<Point>
    var endPoint: Point

    constructor (surface: array2<bool>)
      ensures this.surface == surface && visited == {}
    {
      this.surface := surface;
      comparer := DistanceComparer(Point(0, 0));
      visited := {};
      endPoint := Point(0, 0);
    }

    /**
     * Runs depth-first searches with growing cost limits, starting from the distance between
     * the two points, until one finds the end or none was pruned.
     * `rounds` holds the cost limit of every round: each round's limit is the bound the
     * round before it returned, and the search stops at the first round that finds a path.
     */
    method FindPath(startPoint: Point, endPoint: Point) returns (r: Result<Option<Path>>, ghost rounds: seq<int>)
      modifies this
      ensures Deepening(surface, startPoint, endPoint, rounds)
      ensures r == Ok(None) ==> Bound(surface, endPoint, {startPoint}, startPoint, 0, rounds[|rounds| - 1]) == IntMaxValue
      ensures r.Ok? && r.value.Some? ==>
        var p := r.value.value.points;
        && fresh(r.value.value)
        && IsWalk(p, startPoint, endPoint)
        && Distinct(p)
        && (forall k :: 1 <= k < |p| ==> Free(surface, p[k]))
        && |p| - 1 <= rounds[|rounds| - 1]
      ensures startPoint == endPoint ==> r.Ok? && r.value.Some? && r.value.value.points == [startPoint]
      ensures Bordered(surface) && Inner(surface, startPoint) ==> r.Ok?
      ensures r.Throw? ==> r.error == ArgumentOutOfRange
      ensures r.Ok? ==> visited == {}
    {
      this.endPoint := endPoint;
      this.comparer := DistanceComparer(this.endPoint);
      var costLimit := Distance(startPoint, endPoint);
      rounds := [costLimit];

      while true
        invariant this.endPoint == endPoint && comparer == DistanceComparer(endPoint)
        invariant Deepening(surface, startPoint, endPoint, rounds) && costLimit == rounds[|rounds| - 1]
        invariant costLimit >= Distance(startPoint, endPoint)
        decreases IntMaxValue - costLimit
      {
        var result := Round(startPoint, costLimit);
        if result.Throw? {
          return Throw(result.error), rounds;
        }
        if result.value.path.Some? {
          var path := new Path(result.value.path.value.ToArray());
          return Ok(Some(path)), rounds;
        }
        if result.value.costLimit == IntMaxValue {
          return Ok(None), rounds;
        }

        // update with new cost limit
        costLimit := result.value.costLimit;
        assert (rounds + [costLimit])[..|rounds|] == rounds;
        rounds := rounds + [costLimit];
      }
    }

    /** One round of `FindPath`: a depth-first search from `startPoint` with the given cost limit. */
    method Round(startPoint: Point, costLimit: int) returns (r: Result<Solution>)
      modifies this
      ensures comparer == old(comparer) && endPoint == old(endPoint)
      ensures r.Ok? ==> visited == {}
      ensures r.Ok? && r.value.path.Some? ==>
        && fresh(r.value.path.value)
        && GoalPath(surface, [startPoint], r.value.path.value.ToArray(), endPoint, costLimit)
      ensures r.Ok? && r.value.path.None? ==>
        r.value.costLimit == Bound(surface, endPoint, {startPoint}, startPoint, 0, costLimit)
      ensures Distance(startPoint, endPoint) <= costLimit && r.Ok? && r.value.path.None? ==>
        (costLimit < r.value.costLimit || r.value.costLimit == IntMaxValue) && r.value.costLimit <= IntMaxValue
      ensures startPoint == endPoint && 0 <= costLimit ==>
        r.Ok? && r.value.path.Some? && r.value.path.value.ToArray() == [startPoint]
      ensures Bordered(surface) && Inner(surface, startPoint) ==> r.Ok?
      ensures r.Throw? ==> r.error == ArgumentOutOfRange
    {
      var pathSoFar := new Stack<Point>();
      pathSoFar.Push(startPoint);
      visited := {startPoint};
      r := DFS(0, startPoint, costLimit, pathSoFar);
      if r.Ok? {
        visited := visited - {startPoint};
      }
    }

    /**
     * True if some neighbour of `point` is occupied, or at least two of its neighbours are on
     * the current path.
     */
    method Collides(point: Point) returns (r: Result<bool>)
      ensures r.Ok? && !r.value ==> Free(surface, point) && !Crowded(visited, point)
      ensures r.Ok? && r.value ==> HasOccupiedNeighbour(surface, point) || Crowded(visited, point)
      ensures Interior(surface, point) ==> r.Ok?
      ensures r.Throw? ==> r.error == ArgumentOutOfRange
    {
      var neighbours := 0;
      for i := 0 to |Directions|
        invariant neighbours == VisitedAround(visited, point, i)
        invariant forall j :: 0 <= j < i ==>
          InRange(surface, Neighbour(point, j)) && !OccupiedAt(surface, Neighbour(point, j))
      {
        var pt := Add(point, Directions[i]);
        if !InRange(surface, pt) {
          return Throw(ArgumentOutOfRange);
        }
        if surface[pt.x, pt.y] {
          assert OccupiedAt(surface, Neighbour(point, i));
          return Ok(true);
        }
        if pt in visited {
          neighbours := neighbours + 1;
        }
      }
      assert InRange(surface, Neighbour(point, 0)) && InRange(surface, Neighbour(point, 4));
      return Ok(neighbours >= 2);
    }

    /**
     * Depth-first search from `node`, the top of `pathSoFar`, reached at cost `startCost`.
     * The path found extends the stack to the end point within `costLimit` steps; without a
     * path the result carries the least pruned cost above the limit, or `int.MaxValue` when
     * nothing was pruned. The stack and the visited set are as before unless an exception
     * escaped.
     */
    method DFS(startCost: int, node: Point, costLimit: int, pathSoFar: Stack<Point>) returns (r: Result<Solution>)
      requires OnPath(surface, visited, pathSoFar.items)
      requires pathSoFar.items[|pathSoFar.items| - 1] == node && startCost == |pathSoFar.items| - 1
      modifies this, pathSoFar
      decreases costLimit + 1 - startCost, 2
      ensures comparer == old(comparer) && endPoint == old(endPoint)
      ensures r.Ok? ==> visited == old(visited) && pathSoFar.items == old(pathSoFar.items)
      ensures r.Ok? && r.value.path.Some? ==>
        && fresh(r.value.path.value)
        && r.value.costLimit == costLimit
        && GoalPath(surface, old(pathSoFar.items), r.value.path.value.ToArray(), endPoint, costLimit)
      ensures r.Ok? && r.value.path.None? ==> r.value.costLimit > costLimit || r.value.costLimit == IntMaxValue
      ensures r.Ok? && r.value.path.None? ==>
        r.value.costLimit == Bound(surface, endPoint, old(visited), node, startCost, costLimit)
      ensures startCost + Distance(node, endPoint) > costLimit ==>
        r == Ok(Solution(startCost + Distance(node, endPoint), None))
      ensures startCost + Distance(node, endPoint) <= costLimit && r.Ok? && r.value.path.None? ==>
        r.value.costLimit <= IntMaxValue
      ensures node == endPoint && startCost <= costLimit ==>
        r.Ok? && r.value.path.Some? && r.value.path.value.ToArray() == old(pathSoFar.items)
      ensures Bordered(surface) && Inner(surface, node) ==> r.Ok?
      ensures r.Throw? ==> r.error == ArgumentOutOfRange
    {
      DistanceToSelf(endPoint);
      var minimumCost := startCost + Distance(node, endPoint);
      if minimumCost > costLimit {
        return Ok(Solution(minimumCost, None));
      }

      if node == endPoint {
        OnPathAtGoal(surface, visited, pathSoFar.items, endPoint, costLimit);
        ReverseReverse(pathSoFar.items);
        var found := new Stack<Point>.FromArray(pathSoFar.ToArray());
        return Ok(Solution(costLimit, Some(found)));
      }

      r := Successors(startCost, node, costLimit, pathSoFar);
    }

    /**
     * The successor loop of the depth-first search: every successor of `node` in turn, until
     * one leads to the end point, keeping the least cost pruned beyond the limit.
     */
    method Successors(startCost: int, node: Point, costLimit: int, pathSoFar: Stack<Point>)
      returns (r: Result<Solution>)
      requires OnPath(surface, visited, pathSoFar.items)
      requires pathSoFar.items[|pathSoFar.items| - 1] == node && startCost == |pathSoFar.items| - 1
      requires startCost <= costLimit
      modifies this, pathSoFar
      decreases costLimit + 1 - startCost, 1
      ensures comparer == old(comparer) && endPoint == old(endPoint)
      ensures r.Ok? ==> visited == old(visited) && pathSoFar.items == old(pathSoFar.items)
      ensures r.Ok? && r.value.path.Some? ==>
        && fresh(r.value.path.value)
        && r.value.costLimit == costLimit
        && GoalPath(surface, old(pathSoFar.items), r.value.path.value.ToArray(), endPoint, costLimit)
      ensures r.Ok? && r.value.path.None? ==>
        (r.value.costLimit > costLimit || r.value.costLimit == IntMaxValue) && r.value.costLimit <= IntMaxValue
      ensures r.Ok? && r.value.path.None? ==>
        var succs := SuccessorList(surface, old(visited), node, |Directions|);
        r.value.costLimit == LeastBound(surface, endPoint, old(visited), succs, startCost, costLimit)
      ensures Bordered(surface) && Inner(surface, node) ==> r.Ok?
      ensures r.Throw? ==> r.error == ArgumentOutOfRange
    {
      var nextCostLimit := IntMaxValue;
      var successors := GetNeighbours(node);
      if successors.Throw? {
        return Throw(successors.error);
      }
      var succ := successors.value;
      for i := 0 to |succ|
        invariant visited == old(visited) && pathSoFar.items == old(pathSoFar.items)
        invariant comparer == old(comparer) && endPoint == old(endPoint)
        invariant nextCostLimit <= IntMaxValue
        invariant nextCostLimit > costLimit || nextCostLimit == IntMaxValue
        invariant nextCostLimit == LeastBound(surface, endPoint, visited, succ[..i], startCost, costLimit)
      {
        var solution := Visit(startCost, node, succ[i], costLimit, pathSoFar);
        if solution.Throw? {
          return Throw(solution.error);
        }
        if solution.value.path.Some? {
          return solution;
        }
        assert succ[..i + 1][..i] == succ[..i];
        nextCostLimit := Min(nextCostLimit, solution.value.costLimit);
      }
      assert succ[..|succ|] == succ;
      SuccessorListMembers(surface, visited, node);
      LeastBoundOrderFree(surface, endPoint, visited, succ, SuccessorList(surface, visited, node, |Directions|),
                          startCost, costLimit);

      return Ok(Solution(nextCostLimit, None));
    }

    /**
     * One turn of the search's successor loop: steps from `node` onto `succNode`, searches
     * from there one step further on, and steps back.
     */
    method Visit(startCost: int, node: Point, succNode: Point, costLimit: int, pathSoFar: Stack<Point>)
      returns (r: Result<Solution>)
      requires OnPath(surface, visited, pathSoFar.items)
      requires pathSoFar.items[|pathSoFar.items| - 1] == node && startCost == |pathSoFar.items| - 1
      requires startCost <= costLimit
      requires Successor(surface, visited, node, succNode)
      modifies this, pathSoFar
      decreases costLimit + 1 - startCost, 0
      ensures comparer == old(comparer) && endPoint == old(endPoint)
      ensures r.Ok? ==> visited == old(visited) && pathSoFar.items == old(pathSoFar.items)
      ensures r.Ok? && r.value.path.Some? ==>
        && fresh(r.value.path.value)
        && r.value.costLimit == costLimit
        && GoalPath(surface, old(pathSoFar.items), r.value.path.value.ToArray(), endPoint, costLimit)
      ensures r.Ok? && r.value.path.None? ==> r.value.costLimit > costLimit || r.value.costLimit == IntMaxValue
      ensures r.Ok? && r.value.path.None? ==>
        r.value.costLimit == Bound(surface, endPoint, old(visited) + {succNode}, succNode, startCost + 1, costLimit)
      ensures Bordered(surface) ==> r.Ok?
      ensures r.Throw? ==> r.error == ArgumentOutOfRange
    {
      OnPathExtend(surface, visited, pathSoFar.items, succNode);
      BorderedFreeIsInner(surface, succNode);
      pathSoFar.Push(succNode);
      visited := visited + {succNode};
      r := DFS(startCost + 1, succNode, costLimit, pathSoFar);
      if r.Throw? {
        return;
      }
      visited := visited - {succNode};
      var _ := pathSoFar.Pop();
      if r.value.path.Some? {
        GoalPathShorten(surface, old(pathSoFar.items), succNode, r.value.path.value.ToArray(),
                        endPoint, costLimit);
      }
    }

    /**
     * The neighbours of `point` the search may step on (not visited, not colliding), sorted
     * by distance to the end point, closest first.
     */
    method GetNeighbours(point: Point) returns (r: Result<seq<Point>>)
      ensures r.Ok? ==> forall q :: q in r.value <==> Successor(surface, visited, point, q)
      ensures r.Ok? ==> comparer.Sorted(r.value) && Distinct(r.value)
      ensures r.Ok? ==> |r.value| <= |Directions|
      ensures Inner(surface, point) ==> r.Ok?
      ensures r.Throw? ==> r.error == ArgumentOutOfRange
    {
      InnerNeighboursAreInterior(surface, point);
      var points: seq<Point> := [];
      ghost var dirs: seq<nat> := [];
      for i := 0 to |Directions|
        invariant |dirs| == |points| <= i
        invariant forall k :: 0 <= k < |dirs| ==>
          dirs[k] < i && points[k] == Neighbour(point, dirs[k]) && Successor(surface, visited, point, points[k])
        invariant forall j :: 0 <= j < i && Successor(surface, visited, point, Neighbour(point, j)) ==>
          Neighbour(point, j) in points
        invariant Distinct(points)
      {
        var pt := Add(point, Directions[i]);

        var collides := Collides(pt);
        if collides.Throw? {
          return Throw(collides.error);
        }
        NeighbourIsAdjacent(point, i);
        if pt !in visited && !collides.value {
          points := points + [pt];
          dirs := dirs + [i];
        }
      }

      // sort points so that the closest to the end point comes first
      SortedPermutationExists(comparer, points);
      var sorted :| multiset(sorted) == multiset(points) && comparer.Sorted(sorted);

      forall q ensures q in sorted <==> Successor(surface, visited, point, q) {
        assert q in sorted <==> q in multiset(sorted);
        assert q in points <==> q in multiset(points);
        if q in points {
          var k :| 0 <= k < |points| && points[k] == q;
        }
        if Successor(surface, visited, point, q) {
          var i := AdjacentIsNeighbour(point, q);
        }
      }
      assert |sorted| == |multiset(sorted)| == |multiset(points)| == |points|;
      DistinctPermutation(points, sorted);
      return Ok(sorted);
    }
  }
}
