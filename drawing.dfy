/** The parts of System.Drawing's `Point` and `Size` that the path finders use. */
module Drawing {

  /** An integer grid coordinate. Equality is by value. */
  datatype Point = Point(x: int, y: int)

  /** An integer offset between two points. */
  datatype Size = Size(width: int, height: int)

  /** `Point.Add(p, s)`: the point displaced by `s`. */
  function Add(p: Point, s: Size): (q: Point)
    ensures q.x - p.x == s.width && q.y - p.y == s.height
  {
    Point(p.x + s.width, p.y + s.height)
  }

  /** `(Size)p1 - (Size)p2`: the offset that leads from `p2` to `p1`. */
  function Offset(p1: Point, p2: Point): (s: Size)
    ensures Add(p2, s) == p1
  {
    Size(p1.x - p2.x, p1.y - p2.y)
  }

  /** The squared length `height² + width²` of an offset, as both distance measures compute it. */
  function SquaredLength(s: Size): nat {
    s.height * s.height + s.width * s.width
  }

  lemma {:induction false} OffsetNegated(p1: Point, p2: Point)
    ensures Offset(p2, p1) == Size(-Offset(p1, p2).width, -Offset(p1, p2).height)
    ensures SquaredLength(Offset(p2, p1)) == SquaredLength(Offset(p1, p2))
  {
  }
}
