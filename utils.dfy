/** `Utils.Distance`: the Euclidean distance between two points, rounded down. */
module Utils {
  import opened Drawing
  import opened Constants

  /**
   * Counts `r` up from below until `(r + 1) * (r + 1)` passes `n`; `next` carries that square,
   * grown by successive odd numbers.
   */
  function RootFrom(n: nat, r: nat, next: nat): nat
    decreases n + 1 - next
  {
    if next > n then r else RootFrom(n, r + 1, next + 2 * r + 3)
  }

  /** The integer square root: the largest `r` with `r * r <= n`. */
  function Isqrt(n: nat): nat {
    RootFrom(n, 0, 1)
  }

  lemma {:induction false} RootFromBracket(n: nat, r: nat, next: nat)
    requires next == (r + 1) * (r + 1) && r * r <= n
    ensures RootFrom(n, r, next) * RootFrom(n, r, next) <= n
    ensures n < (RootFrom(n, r, next) + 1) * (RootFrom(n, r, next) + 1)
    decreases n + 1 - next
  {
    if next <= n {
      assert next + 2 * r + 3 == (r + 2) * (r + 2);
      RootFromBracket(n, r + 1, next + 2 * r + 3);
    }
  }

  /** `Isqrt(n)` is the floor of the square root of `n`. */
  lemma {:induction false} IsqrtBracket(n: nat)
    ensures Isqrt(n) * Isqrt(n) <= n < (Isqrt(n) + 1) * (Isqrt(n) + 1)
  {
    RootFromBracket(n, 0, 1);
  }

  lemma {:induction false} SquareMonotonic(a: nat, b: nat)
    requires a <= b
    ensures a * a <= b * b
  {
    assert a * a <= a * b <= b * b;
  }

  /** The bracket `r*r <= n < (r+1)*(r+1)` determines the root. */
  lemma {:induction false} IsqrtUnique(n: nat, r: nat)
    requires r * r <= n < (r + 1) * (r + 1)
    ensures Isqrt(n) == r
  {
    IsqrtBracket(n);
    var t := Isqrt(n);
    if t < r {
      SquareMonotonic(t + 1, r);
    } else if r < t {
      SquareMonotonic(r + 1, t);
    }
  }

  lemma {:induction false} IsqrtMonotonic(a: nat, b: nat)
    requires a <= b
    ensures Isqrt(a) <= Isqrt(b)
  {
    IsqrtBracket(a);
    IsqrtBracket(b);
    if Isqrt(a) > Isqrt(b) {
      SquareMonotonic(Isqrt(b) + 1, Isqrt(a));
    }
  }

  /** The squared Euclidean distance `dx² + dy²` between two points. */
  function SquaredDistance(p1: Point, p2: Point): nat {
    var offset := Offset(p1, p2);
    SquaredLength(offset)
  }

  /** `Utils.Distance`: floor of the square root of the squared distance. */
  function Distance(p1: Point, p2: Point): (r: int)
    ensures r >= 0
  {
    Isqrt(SquaredDistance(p1, p2))
  }

  /** The distance is the floor of the Euclidean distance: the largest `r` with `r * r <= dx² + dy²`. */
  lemma {:induction false} DistanceIsFloorRoot(p1: Point, p2: Point)
    ensures Distance(p1, p2) * Distance(p1, p2) <= SquaredDistance(p1, p2)
    ensures SquaredDistance(p1, p2) < (Distance(p1, p2) + 1) * (Distance(p1, p2) + 1)
  {
    IsqrtBracket(SquaredDistance(p1, p2));
  }

  lemma {:induction false} DistanceToSelf(p: Point)
    ensures Distance(p, p) == 0
  {
    assert Offset(p, p) == Size(0, 0);
    assert Isqrt(0) == 0;
  }

  lemma {:induction false} DistanceSymmetric(p1: Point, p2: Point)
    ensures Distance(p1, p2) == Distance(p2, p1)
  {
    OffsetNegated(p1, p2);
  }

  /** Every step of the direction table, straight or diagonal, has distance 1. */
  lemma {:induction false} DistanceToNeighbour(p: Point, q: Point)
    requires Adjacent(p, q)
    ensures Distance(p, q) == 1
  {
    var i := AdjacentIsNeighbour(p, q);
    var o := Offset(p, q);
    assert o == Size(-Directions[i].width, -Directions[i].height);
    assert SquaredDistance(p, q) == (if i % 2 == 0 then 2 else 1) by {
      assert i == 0 || i == 1 || i == 2 || i == 3 || i == 4 || i == 5 || i == 6 || i == 7;
    }
    IsqrtUnique(SquaredDistance(p, q), 1);
  }

  /** The distance is at least the Chebyshev distance `max(|dx|, |dy|)`. */
  lemma {:induction false} DistanceAtLeastChebyshev(p1: Point, p2: Point)
    ensures Distance(p1, p2) >= Abs(p1.x - p2.x)
    ensures Distance(p1, p2) >= Abs(p1.y - p2.y)
  {
    var o := Offset(p1, p2);
    var n := SquaredDistance(p1, p2);
    SquareBelowSum(o.width, o.height);
    SquareBelowSum(o.height, o.width);
    RootOfSquare(o.width);
    RootOfSquare(o.height);
    IsqrtMonotonic(o.width * o.width, n);
    IsqrtMonotonic(o.height * o.height, n);
  }

  lemma {:induction false} SquareBelowSum(a: int, b: int)
    ensures a * a <= a * a + b * b
  {
    assert b * b >= 0 by {
      if b < 0 {
        assert b * b == (-b) * (-b);
      }
    }
  }

  /** The root of `a * a` is `|a|`. */
  lemma {:induction false} RootOfSquare(a: int)
    ensures Isqrt(a * a) == Abs(a)
  {
    var d := Abs(a);
    assert d * d == a * a;
    assert (d + 1) * (d + 1) == d * d + 2 * d + 1;
    IsqrtUnique(a * a, d);
  }

  function Abs(a: int): nat {
    if a < 0 then -a else a
  }
}
