# PathFinder in Dafny

A model of the pathfinding engine of PathFinder, a small C# program with two searches over an
occupancy grid:

- **A\*** (`AStarPathFinder`). It runs a best-first loop over an open set (a priority heap),
  a closed set and the `gScore`/`fScore`/`cameFrom` maps, then rebuilds the path by walking
  `cameFrom` back to the start.
- **IDA\*** (`Ida`). An outer loop raises a cost limit. A recursive depth-first search does the
  work: it keeps the current path on a stack and in a `Visited` set, and restores both after
  each step.

The searches share some helpers, which are modelled too:

- the eight-direction table `Constants.Directions`;
- `Utils.Distance`, the Euclidean distance rounded down;
- `DistanceComparer`, an order by squared distance to a point of reference;
- the frontier entry `State`;
- the result type `Path`;
- `SurfaceFactory.CreateSurface`, which draws the sentinel border around a fresh surface.

A bitmap is an `array2<bool>`. `true` means an opaque pixel (alpha 255), which counts as
occupied. A point is **free** when all eight cells around it can be read and none of them is
occupied. This is the collision rule both searches use; it never looks at the point itself.
A surface is **bordered** when its outermost rows and columns are occupied, as `CreateSurface`
leaves them. The `Constants.Directions` order is NW, N, NE, E, SE, S, SW, W.

## How the model is built

- **Pure parts.** The value types and pure helpers (`Utils`, `DistanceComparer`, `Constants`,
  `State`) are datatypes, functions and lemmas.
- **Classes.** The searches, `Path`, .NET's `Stack<T>` and `CreateSurface` are classes and
  methods with loops. They keep the source's fields: `Ida.visited` and `Ida.endPoint` are
  fields that `FindPath`/`DFS` assign, and `Stack.items` is updated by `Push`/`Pop`.
- **Exceptions.** `GetPixel` outside the bitmap and a missing dictionary key both throw in
  .NET. They are modelled as a `Result` that carries the exception up through every caller,
  like the C# exception. State that was changed before the throw is not restored, as the C#
  code does.
- **Choices left open.** The C5 interval heap is a map from point to priority.
  `DeleteMin` picks any entry whose priority is least. `List.Sort` picks any permutation that
  the comparer considers sorted. Neither assumes a tie order.
- **IDA\* bounds.** The ghost function `IdaStar.Bound` defines the value a depth-first search
  returns when it finds no path. It is the node's own estimate when that estimate exceeds the
  limit. Otherwise it is `IdaStar.LeastBound` over the node's successors in direction-table
  order: the least of their bounds, or `int.MaxValue` when there are none. `IdaStar.Deepening`
  chains the rounds of `FindPath` through it.
- **Step cost.** Every A\* step costs `Distance(x, y)`. `Utils.DistanceToNeighbour` proves
  this is 1, diagonals included.

### Equal end points

One might expect `FindPath(p, p)` to return `[p]` for a free `p`. Neither search does:

- **A\*.** The start is the first point taken off the heap. `ReconstructPath` then looks up
  `cameFrom[end]`, which has no entry, and throws `KeyNotFound`.
  `AStar.AStarPathFinder.FindPath` states this: it throws `KeyNotFound` exactly when the
  start equals the end and is free.
- **IDA\*.** It has no collision check on its end points. It returns `[p]` even when `p`
  collides (`IdaStar.Ida.FindPath`).

## Model

| member | source | states |
|---|---|---|
| Drawing.Offset | PathFinder/Utils.cs:25 | the offset `(Size)p1 - (Size)p2` is what `Point.Add` must add to `p2` to reach `p1` |
| Drawing.OffsetNegated | PathFinder/Utils.cs:25-26 | swapping the points negates the offset and keeps its squared length |
| Constants.DirectionsTable | PathFinder/Constants.cs:19-59 | the table has 8 entries, in the order NW, N, NE, E, SE, S, SW, W, with the source's offsets |
| Constants.DirectionsDistinct | PathFinder/Constants.cs:19-59 | the eight entries are pairwise distinct |
| Constants.DirectionsAreUnitSteps | PathFinder/Constants.cs:19-54 | every entry has both components in {-1, 0, 1} and none is (0, 0) |
| Constants.DirectionsComplete | PathFinder/Constants.cs:59 | every non-zero offset with components in {-1, 0, 1} is in the table |
| Constants.DirectionsNegation | PathFinder/Constants.cs:19-59 | the table is closed under negation |
| Constants.AdjacentSymmetric | PathFinder/Constants.cs:59 | 8-adjacency is symmetric, and no point is adjacent to itself |
| Constants.NeighbourIsAdjacent | PathFinder/AStarPathFinder.cs:157-159 | `Point.Add(p, Directions[i])` is adjacent to `p`, and no other direction gives the same cell |
| Constants.AdjacentIsNeighbour | PathFinder/AStarPathFinder.cs:178-180 | every cell adjacent to `p` is `Point.Add(p, Directions[i])` for some `i` |
| Utils.IsqrtBracket | PathFinder/Utils.cs:27 | the integer square root `r` of `n` satisfies `r*r <= n < (r+1)*(r+1)` |
| Utils.IsqrtUnique | PathFinder/Utils.cs:27 | that bracket determines the root |
| Utils.IsqrtMonotonic | PathFinder/Utils.cs:27 | the root is monotonic |
| Utils.Distance | PathFinder/Utils.cs:23-28 | the distance is never negative |
| Utils.DistanceIsFloorRoot | PathFinder/Utils.cs:25-27 | `Distance(p1, p2)` is the floor of the square root of `dx² + dy²` |
| Utils.DistanceToSelf | PathFinder/Utils.cs:23-28 | a point has distance 0 to itself |
| Utils.DistanceSymmetric | PathFinder/Utils.cs:25-26 | the distance is symmetric in its arguments |
| Utils.DistanceToNeighbour | PathFinder/AStarPathFinder.cs:107 | every step to one of the 8 adjacent cells, diagonals included, has distance 1 |
| Utils.DistanceAtLeastChebyshev | PathFinder/Utils.cs:26-27 | the distance is at least `max(abs(dx), abs(dy))` |
| Utils.RootOfSquare | PathFinder/Utils.cs:27 | the root of `a*a` is `abs(a)` |
| DistanceComparers.CompareInts | PathFinder/DistanceComparer.cs:45 | `Int32.CompareTo` gives -1, 0 or 1, with the sign of the comparison |
| DistanceComparers.DistanceComparer.Compare | PathFinder/DistanceComparer.cs:37-46 | the result is negative, zero or positive exactly as the first point's squared distance to the reference is less than, equal to or greater than the second's |
| DistanceComparers.CompareReflexive | PathFinder/DistanceComparer.cs:45 | `Compare(a, a) == 0` |
| DistanceComparers.CompareAntisymmetric | PathFinder/DistanceComparer.cs:45 | `Compare(a, b)` and `Compare(b, a)` have opposite signs |
| DistanceComparers.CompareTransitive | PathFinder/DistanceComparer.cs:39-45 | the order is transitive |
| DistanceComparers.CompareTotal | PathFinder/DistanceComparer.cs:39-45 | any two points are comparable, so the order is a total preorder |
| DistanceComparers.CompareAgreesWithDistance | PathFinder/DistanceComparer.cs:39-45 | `Compare(a, b) <= 0` implies `Distance(a, ref) <= Distance(b, ref)` |
| DistanceComparers.InsertPermutes | PathFinder/Ida.cs:173 | inserting into a list keeps its elements; a step of the witness for the `:|` choice that models `List.Sort` in `IdaStar.Ida.GetNeighbours` |
| DistanceComparers.InsertSorted | PathFinder/Ida.cs:173 | inserting into a sorted list keeps it sorted; a step of the witness for the `:|` choice that models `List.Sort` in `IdaStar.Ida.GetNeighbours` |
| DistanceComparers.InsertionSortCorrect | PathFinder/Ida.cs:173 | insertion sort returns a sorted permutation of its input, the witness for the `:|` choice that models `List.Sort` in `IdaStar.Ida.GetNeighbours` |
| DistanceComparers.SortedPermutationExists | PathFinder/Ida.cs:173 | every list has a permutation sorted by the comparer, so `List.Sort` has a result |
| States.State.CompareTo | PathFinder/State.cs:40-43 | the sign of `CompareTo` is the comparison of the two heuristic values |
| States.EqualHeuristicsCompareEqual | PathFinder/State.cs:40-43 | states with equal heuristics compare 0, whatever their points |
| States.CompareToIsPreorder | PathFinder/State.cs:42 | `CompareTo` is reflexive, antisymmetric in sign and transitive |
| States.HashIgnoresHeuristic | PathFinder/State.cs:49-52 | the hash code depends only on the point |
| States.MinimalExists | PathFinder/AStarPathFinder.cs:85 | a non-empty heap has an entry that `DeleteMin` may return |
| Paths.Path.constructor | PathFinder/Path.cs:27-58 | the path stores the given points in the given order; enumerating it yields exactly those points and `Count` is their number |
| Paths.Path.Add | PathFinder/Path.cs:35-58 | `Add` appends one point: `Count` grows by 1, and enumeration yields the earlier points in order followed by the new one |
| Paths.DistinctOccursOnce | PathFinder/Ida.cs:173 | in a list without repeats every point occurs at most once |
| Paths.DistinctPermutation | PathFinder/Ida.cs:173 | a reordering of a list without repeats has none, so sorting keeps the successors distinct |
| Collections.ReverseAt | PathFinder/AStarPathFinder.cs:209 | element `k` of the reversal is element `n-1-k` of the original |
| Collections.ReverseReverse | PathFinder/Ida.cs:129 | reversing twice gives the original order back, so the two stack copies cancel |
| Collections.ReverseSnoc | PathFinder/AStarPathFinder.cs:204 | pushing a point puts it first in the reversal |
| Collections.Stack.constructor | PathFinder/AStarPathFinder.cs:199 | a new stack is empty |
| Collections.Stack.FromArray | PathFinder/Ida.cs:129 | `new Stack<T>(a)` has the last element of `a` on top |
| Collections.Stack.Push | PathFinder/Ida.cs:137 | `Push` puts one element on top and keeps the rest |
| Collections.Stack.Pop | PathFinder/Ida.cs:141 | `Pop` returns the top and removes exactly it |
| Collections.Stack.ToArray | PathFinder/AStarPathFinder.cs:209 | `ToArray` lists the elements from the top down |
| Surfaces.CreateSurface | PathFinder/SurfaceFactory.cs:24-40 | the result has the requested size; exactly the pixels of row 0, row H-1, column 0 and column W-1 are occupied, and no other pixel is written; a size that is not positive throws |
| Surfaces.InteriorReadsInRange | PathFinder/AStarPathFinder.cs:155-168 | for an interior point all eight neighbour reads are inside the bitmap |
| Surfaces.InnerNeighboursAreInterior | PathFinder/AStarPathFinder.cs:175-190 | for a point two cells away from the edge, the collision test of each neighbour reads inside the bitmap |
| Surfaces.BorderIsOccupied | PathFinder/SurfaceFactory.cs:12-14 | on a bordered surface, an interior cell next to the border has an occupied neighbour |
| Surfaces.BorderedFreeIsInner | PathFinder/SurfaceFactory.cs:27-37 | on a bordered surface, a free point lies in `[2, W-3] x [2, H-3]` |
| Surfaces.InteriorPointsContains | PathFinder/AStarPathFinder.cs:81 | every interior point is in a fixed finite set, which bounds the closed set |
| Surfaces.WalkStaysInRegion | PathFinder/AStarPathFinder.cs:95-99 | a free walk cannot leave a region that contains every free neighbour of its cells |
| Surfaces.ReachableStaysInRegion | PathFinder/AStarPathFinder.cs:81-147 | so everything reachable from such a region lies in it |
| AStar.TraceIsWalk | PathFinder/AStarPathFinder.cs:197-209 | following `cameFrom` from a point with a g-score reaches the start in exactly `gScore` steps, through adjacent cells; the chain has `gScore + 1` points, and its `k`-th point has g-score `k` |
| AStar.TraceDistinct | PathFinder/AStarPathFinder.cs:197-209 | that chain repeats no point |
| AStar.TraceIsFreeWalk | PathFinder/AStarPathFinder.cs:197-209 | over free points, that chain is a free walk from the start without repeats |
| AStar.CloseStep | PathFinder/AStarPathFinder.cs:85-95 | taking a minimal point other than the end off the heap and closing it keeps the search invariant |
| AStar.RelaxStep | PathFinder/AStarPathFinder.cs:128-142 | recording a better route to a neighbour keeps the search invariant |
| AStar.ExpandStep | PathFinder/AStarPathFinder.cs:98-144 | once every free neighbour of the closed point has a g-score, the closed set again covers its free neighbours |
| AStar.AStarPathFinder.constructor | PathFinder/AStarPathFinder.cs:37-40 | the finder keeps the given surface |
| AStar.AStarPathFinder.FindPath | PathFinder/AStarPathFinder.cs:48-148 | start or end colliding gives no path; a path found runs from start to end through adjacent free cells without repeats; no path means the end cannot be reached; equal free end points throw `KeyNotFound`; on a bordered surface with interior end points no read is out of range |
| AStar.AStarPathFinder.Search | PathFinder/AStarPathFinder.cs:58-147 | the search loop keeps the handles equal to the heap's points, the open and closed sets disjoint, the start chain of `cameFrom` with `gScore[y] == gScore[cameFrom[y]] + 1`, the closed set covering the free neighbours of its points, and the g-score and predecessor of every closed point equal to the ones it had when it was closed; it ends with a free walk, or with no path when the end is unreachable |
| AStar.AStarPathFinder.Expand | PathFinder/AStarPathFinder.cs:98-144 | relaxing every free neighbour of the closed point restores the search invariant, and leaves the g-score and the `cameFrom` entry of every closed point unchanged |
| AStar.AStarPathFinder.Relax | PathFinder/AStarPathFinder.cs:101-143 | a closed neighbour, or one with no better g-score, changes nothing; otherwise `cameFrom`, `gScore`, `fScore`, the heap and the handles are updated at that neighbour only, with cost `gScore[x] + 1` and priority that plus its distance to the end |
| AStar.AStarPathFinder.Collides | PathFinder/AStarPathFinder.cs:155-168 | true means some neighbour is occupied, false means the point is free; an interior point never reads out of range |
| AStar.AStarPathFinder.GetNeighbours | PathFinder/AStarPathFinder.cs:175-190 | the result holds exactly the adjacent free cells, in direction-table order |
| AStar.AStarPathFinder.ReconstructPath | PathFinder/AStarPathFinder.cs:197-210 | for a start other than the end, the path is the `cameFrom` chain from start to end, a free walk without repeats; with equal end points, the lookup of `cameFrom[end]` throws |
| IdaStar.VisitedAround | PathFinder/Ida.cs:92-106 | the counter never exceeds the number of directions examined |
| IdaStar.VisitedAroundCounts | PathFinder/Ida.cs:92-106 | the counter equals the number of directions whose cell is on the current path |
| IdaStar.OnPathExtend | PathFinder/Ida.cs:136-138 | pushing a successor keeps the stack a walk without repeats whose points equal `Visited` |
| IdaStar.OnPathAtGoal | PathFinder/Ida.cs:127-129 | a stack whose top is the end is a path to the end |
| IdaStar.GoalPathShorten | PathFinder/Ida.cs:139-145 | a path found below a successor also extends the caller's stack |
| IdaStar.Min | PathFinder/Ida.cs:147 | `Math.Min` is the smaller argument |
| IdaStar.SuccessorList | PathFinder/Ida.cs:158-170 | the list holds only successors of the node, and every successor among the directions it has looked at |
| IdaStar.SuccessorListMembers | PathFinder/Ida.cs:158-170 | over all eight directions it holds exactly the successors |
| IdaStar.LeastBoundIsLeast | PathFinder/Ida.cs:133-147 | the bound of a successor loop is at most `int.MaxValue`, at most every successor's bound, and equal to `int.MaxValue` or to one of them |
| IdaStar.LeastBoundOrderFree | PathFinder/Ida.cs:133-147 | lists with the same successors give the same bound, so the sort order does not change it |
| IdaStar.Ida.constructor | PathFinder/Ida.cs:32-41 | the finder keeps the given surface, with an empty visited set |
| IdaStar.Ida.FindPath | PathFinder/Ida.cs:58-83 | the round limits start at `Distance(start, end)`, and each next one is the `Bound` the round before returned, strictly larger and below `int.MaxValue`; the search stops at the first round that finds a path, and a null result means the last round's bound was `int.MaxValue`; a path found runs from start to end through adjacent cells without repeats, with every cell after the start free, and has at most `limit + 1` points for the last round's limit; equal end points give `[start]`; `Visited` is empty again afterwards; a bordered surface with the start two cells inside never reads out of range |
| IdaStar.Ida.Collides | PathFinder/Ida.cs:90-109 | false means the point is free and fewer than two of its neighbours are visited; true means a neighbour is occupied or at least two are visited |
| IdaStar.Ida.Round | PathFinder/Ida.cs:66-70 | one round pushes the start, searches with the round's limit and clears `Visited`; a path found extends `[start]` within the limit, and no path returns `Bound` of the start, above the limit or `int.MaxValue` |
| IdaStar.Ida.DFS | PathFinder/Ida.cs:119-151 | `Visited` and the stack are restored; a node whose cost plus distance exceeds the limit returns that cost; at the end it returns the stack as the path; a path returned extends the caller's stack within the limit; no path returns exactly `Bound` of the node, which is above the current limit or `int.MaxValue` |
| IdaStar.Ida.Successors | PathFinder/Ida.cs:132-150 | the successor loop returns a path as soon as one successor's search finds one; otherwise it returns `LeastBound` over the successors, the least of their bounds or `int.MaxValue` when there are none, which is above the limit |
| IdaStar.Ida.Visit | PathFinder/Ida.cs:136-145 | pushing and visiting a successor, searching from it and popping again leaves `Visited` and the stack as they were; no path returns `Bound` of the successor with it visited |
| IdaStar.Ida.GetNeighbours | PathFinder/Ida.cs:158-176 | the result holds exactly the adjacent cells that are not visited, free and not crowded, each once, sorted by squared distance to the end |

## Left out

- The WinForms user interface (`MainForm`, `Presenter`, `IView`, `Program`) is event-driven I/O with no search logic. The factories and the interfaces `IPathFinder` and `IPathFinderFactory` are one-line constructors and declarations.
- The internals of the C5 interval heap and its handles are foreign code. The heap is a map from point to priority, and its handles are the set of points in it.
- `System.Drawing.Bitmap` is reduced to the opacity of each pixel. That a new bitmap is fully transparent is a fact about the library, taken as given in `Surfaces.CreateSurface`.
- `Math.Sqrt`/`Math.Floor` become an exact integer square root. The `double` score maps of A\* become `int` maps; `Utils.Distance` returns an `int`, so every score is whole.
- Utils.Distance: 32-bit overflow of `dx² + dy²` is not modelled; integers are unbounded. This matters only for points more than about 46 000 cells apart.
- DistanceComparers.DistanceComparer.Compare: the same 32-bit overflow of the squared lengths is not modelled.
- IdaStar.Ida.DFS: overflow of `startCost + Distance` is not modelled.
- AStar.AStarPathFinder.Search: the model does not state `fScore[y] == gScore[y] + Distance(y, end)` as a loop invariant. It states only that `Relax` sets it so and that heap priorities equal `fScore`. The search's correctness claims do not depend on it.
- AStar.AStarPathFinder.FindPath: optimality is not claimed. The heuristic can exceed the remaining step count, so a shortest path is not guaranteed.
- IdaStar.Ida.FindPath: optimality is not claimed, for the same reason.
- IdaStar.Ida.FindPath: completeness is not claimed. A null result is not proved to mean that no path exists, because the crowding rule prunes some real paths.
- The runtime's `Point.GetHashCode` is not part of the model. `States.State.GetHashCode` takes it as a parameter.
- Enumerating a `Path` is a read of its whole list, not an iterator object.
- The concrete path lengths in the unit tests need whole searches over 10x10 and 400x400 grids. They are not proved.
