/** `Path`: the ordered list of points a search returns, and what makes a list a walk. */
module Paths {
  import opened Drawing
  import opened Constants

  class Path {
    /** The points, from the start of the path to its end. */
    var points: seq<Point>

    constructor (points: seq<Point>)
      ensures this.points == points
      ensures GetEnumerator() == points && Count() == |points|
    {
      this.points := points;
    }

    /** The number of points in the path. */
    function Count(): int
      reads this
    {
      |points|
    }

    /** Append a point; the earlier points stay as they were. */
    method Add(point: Point)
      modifies this
      ensures points == old(points) + [point]
      ensures Count() == old(Count()) + 1
      ensures GetEnumerator() == old(GetEnumerator()) + [point]
    {
      points := points + [point];
    }

    /** Enumeration yields the stored points in order. */
    function GetEnumerator(): seq<Point>
      reads this
    {
      points
    }
  }

  /** Each point of `w` is one of the eight cells around the previous one. */
  ghost predicate Steps(w: seq<Point>) {
    forall k :: 0 <= k < |w| - 1 ==> Adjacent(w[k], w[k + 1])
  }

  /** `w` leads from `a` to `b` in 8-directional steps. */
  ghost predicate IsWalk(w: seq<Point>, a: Point, b: Point) {
    |w| >= 1 && w[0] == a && w[|w| - 1] == b && Steps(w)
  }

  /** No point occurs twice in `w`. */
  ghost predicate Distinct(w: seq<Point>) {
    forall i, j :: 0 <= i < j < |w| ==> w[i] != w[j]
  }

  /** Without repeats, every point occurs at most once. */
  lemma {:induction false} DistinctOccursOnce(w: seq<Point>)
    requires Distinct(w)
    ensures forall p :: multiset(w)[p] <= 1
  {
    if |w| > 0 {
      var v := w[..|w| - 1];
      assert w == v + [w[|w| - 1]];
      assert w[|w| - 1] !in v by {
        forall k | 0 <= k < |v| ensures v[k] != w[|w| - 1] {
          assert v[k] == w[k];
        }
      }
      DistinctOccursOnce(v);
    }
  }

  /** A reordering of a sequence without repeats has none. */
  lemma DistinctPermutation(v: seq<Point>, w: seq<Point>)
    requires multiset(v) == multiset(w) && Distinct(v)
    ensures Distinct(w)
  {
    DistinctOccursOnce(v);
    forall i, j | 0 <= i < j < |w| ensures w[i] != w[j] {
      // `w[j]` occurs once in `w`, so not in front of itself, where `w[i]` is
      assert w == w[..j] + [w[j]] + w[j + 1..];
      assert multiset(w) == multiset(w[..j]) + multiset{w[j]} + multiset(w[j + 1..]);
      assert multiset(w)[w[j]] <= 1;
      assert multiset(w[..j])[w[j]] == 0;
      assert w[..j][i] == w[i];
    }
  }
}
