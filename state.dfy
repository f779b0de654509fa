/** `State`: a frontier entry of the A* search, a point with its priority. */
module States {
  import opened Drawing
  import opened DistanceComparers

  datatype State = State(heuristic: int, point: Point) {

    /** Order by heuristic value only. */
    function CompareTo(other: State): (r: int)
      ensures r < 0 <==> heuristic < other.heuristic
      ensures r == 0 <==> heuristic == other.heuristic
      ensures r > 0 <==> heuristic > other.heuristic
    {
      CompareInts(heuristic, other.heuristic)
    }

    /** The hash code of the point; `pointHash` stands for the runtime's `Point.GetHashCode`. */
    function GetHashCode(pointHash: Point -> int): int {
      pointHash(point)
    }
  }

  lemma EqualHeuristicsCompareEqual(a: State, b: State)
    requires a.heuristic == b.heuristic
    ensures a.CompareTo(b) == 0 && b.CompareTo(a) == 0
  {
  }

  lemma CompareToIsPreorder(a: State, b: State, c: State)
    ensures a.CompareTo(a) == 0
    ensures a.CompareTo(b) < 0 <==> b.CompareTo(a) > 0
    ensures a.CompareTo(b) <= 0 && b.CompareTo(c) <= 0 ==> a.CompareTo(c) <= 0
  {
  }

  lemma HashIgnoresHeuristic(a: State, b: State, pointHash: Point -> int)
    requires a.point == b.point
    ensures a.GetHashCode(pointHash) == b.GetHashCode(pointHash)
  {
  }

  /** `q` holds an entry of `open` that no other entry precedes: what `DeleteMin` may return. */
  predicate IsMinimal(open: map<Point, int>, q: Point) {
    q in open && forall p :: p in open ==> State(open[q], q).CompareTo(State(open[p], p)) <= 0
  }

  /** A non-empty frontier always has a minimal entry. */
  lemma {:induction false} MinimalExists(open: map<Point, int>)
    requires open != map[]
    ensures exists q :: IsMinimal(open, q)
    decreases |open|
  {
    var k :| k in open;
    var rest := open - {k};
    if rest == map[] {
      forall p | p in open ensures p == k {
        assert p !in rest;
      }
      assert IsMinimal(open, k);
    } else {
      MinimalExists(rest);
      var q :| IsMinimal(rest, q);
      var m := if open[k] <= open[q] then k else q;
      forall p | p in open ensures State(open[m], m).CompareTo(State(open[p], p)) <= 0 {
        if p != k {
          assert p in rest && rest[p] == open[p];
        }
      }
      assert IsMinimal(open, m);
    }
  }
}
