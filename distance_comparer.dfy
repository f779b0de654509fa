/** `DistanceComparer`: orders points by their squared distance to a point of reference. */
module DistanceComparers {
  import opened Drawing
  import opened Utils

  /** `Int32.CompareTo`: -1, 0 or 1 as `a` is less than, equal to or greater than `b`. */
  function CompareInts(a: int, b: int): (r: int)
    ensures r == -1 || r == 0 || r == 1
    ensures r < 0 <==> a < b
    ensures r == 0 <==> a == b
    ensures r > 0 <==> a > b
  {
    if a < b then -1 else if a == b then 0 else 1
  }

  datatype DistanceComparer = DistanceComparer(point: Point) {

    /** Compare two points; the one closer to `point` comes first. */
    function Compare(first: Point, second: Point): (r: int)
      ensures r < 0 <==> SquaredDistance(first, point) < SquaredDistance(second, point)
      ensures r == 0 <==> SquaredDistance(first, point) == SquaredDistance(second, point)
      ensures r > 0 <==> SquaredDistance(first, point) > SquaredDistance(second, point)
    {
      var diff1 := Offset(first, point);
      var length1 := (diff1.height * diff1.height) + (diff1.width * diff1.width);
      var diff2 := Offset(second, point);
      var length2 := (diff2.height * diff2.height) + (diff2.width * diff2.width);
      CompareInts(length1, length2)
    }

    /** A sequence the comparer considers sorted: no element is farther than a later one. */
    predicate Sorted(s: seq<Point>) {
      forall i, j :: 0 <= i < j < |s| ==> Compare(s[i], s[j]) <= 0
    }
  }

  lemma CompareReflexive(c: DistanceComparer, a: Point)
    ensures c.Compare(a, a) == 0
  {
  }

  lemma CompareAntisymmetric(c: DistanceComparer, a: Point, b: Point)
    ensures c.Compare(a, b) < 0 <==> c.Compare(b, a) > 0
    ensures c.Compare(a, b) == 0 <==> c.Compare(b, a) == 0
  {
  }

  /** The comparer is a total preorder, so sorting by it is well defined. */
  lemma CompareTransitive(c: DistanceComparer, a: Point, b: Point, d: Point)
    requires c.Compare(a, b) <= 0 && c.Compare(b, d) <= 0
    ensures c.Compare(a, d) <= 0
  {
  }

  lemma CompareTotal(c: DistanceComparer, a: Point, b: Point)
    ensures c.Compare(a, b) <= 0 || c.Compare(b, a) <= 0
  {
  }

  /** The squared-distance order agrees with the rounded distance of `Utils.Distance`. */
  lemma {:induction false} CompareAgreesWithDistance(c: DistanceComparer, a: Point, b: Point)
    requires c.Compare(a, b) <= 0
    ensures Distance(a, c.point) <= Distance(b, c.point)
  {
    IsqrtMonotonic(SquaredDistance(a, c.point), SquaredDistance(b, c.point));
  }

  /** Insert `p` into a sorted sequence, before the first element farther away than `p`. */
  function Insert(c: DistanceComparer, p: Point, s: seq<Point>): seq<Point> {
    if s == [] || c.Compare(p, s[0]) <= 0 then [p] + s else [s[0]] + Insert(c, p, s[1..])
  }

  /** Insertion sort by the comparer: one of the orders `List.Sort` may produce. */
  function InsertionSort(c: DistanceComparer, s: seq<Point>): seq<Point> {
    if s == [] then [] else Insert(c, s[0], InsertionSort(c, s[1..]))
  }

  lemma {:induction false} InsertPermutes(c: DistanceComparer, p: Point, s: seq<Point>)
    ensures multiset(Insert(c, p, s)) == multiset([p] + s)
  {
    if s != [] && c.Compare(p, s[0]) > 0 {
      InsertPermutes(c, p, s[1..]);
      assert s == [s[0]] + s[1..];
    }
  }

  lemma {:induction false} InsertSorted(c: DistanceComparer, p: Point, s: seq<Point>)
    requires c.Sorted(s)
    ensures c.Sorted(Insert(c, p, s))
  {
    if s != [] && c.Compare(p, s[0]) > 0 {
      InsertSorted(c, p, s[1..]);
      InsertPermutes(c, p, s[1..]);
      var t := Insert(c, p, s[1..]);
      forall k | 0 <= k < |t| ensures c.Compare(s[0], t[k]) <= 0 {
        assert t[k] in multiset([p] + s[1..]);
        assert t[k] == p || t[k] in s[1..];
      }
    }
  }

  lemma {:induction false} InsertionSortCorrect(c: DistanceComparer, s: seq<Point>)
    ensures multiset(InsertionSort(c, s)) == multiset(s)
    ensures c.Sorted(InsertionSort(c, s))
  {
    if s != [] {
      InsertionSortCorrect(c, s[1..]);
      InsertPermutes(c, s[0], InsertionSort(c, s[1..]));
      InsertSorted(c, s[0], InsertionSort(c, s[1..]));
      assert s == [s[0]] + s[1..];
    }
  }

  /** Some permutation of any sequence is sorted by the comparer. */
  lemma SortedPermutationExists(c: DistanceComparer, s: seq<Point>)
    ensures exists t :: multiset(t) == multiset(s) && c.Sorted(t)
  {
    InsertionSortCorrect(c, s);
  }
}
