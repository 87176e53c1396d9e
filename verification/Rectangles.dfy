/** Points and rectangles of kernel/graphic/graphics.hpp. */
module Rectangles {

  datatype Point = Point(x: int, y: int) {
    function Plus(q: Point): Point {
      Point(x + q.x, y + q.y)
    }
    function Minus(q: Point): Point {
      Point(x - q.x, y - q.y)
    }
  }

  datatype Rectangle = Rectangle(pos: Point, size: Point) {
    function End(): Point {
      pos.Plus(size)
    }
    /** A size that is not negative. */
    predicate Proper() {
      size.x >= 0 && size.y >= 0
    }
    predicate Contains(p: Point) {
      pos.x <= p.x < pos.x + size.x && pos.y <= p.y < pos.y + size.y
    }
  }

  function Max(a: int, b: int): int {
    if a < b then b else a
  }

  function Min(a: int, b: int): int {
    if b < a then b else a
  }

  function ElementMax(a: Point, b: Point): Point {
    Point(Max(a.x, b.x), Max(a.y, b.y))
  }

  function ElementMin(a: Point, b: Point): Point {
    Point(Min(a.x, b.x), Min(a.y, b.y))
  }

  /** operator&: the common part; an empty rectangle at the origin when there is none. */
  function Intersect(a: Rectangle, b: Rectangle): Rectangle {
    if a.End().x < b.pos.x || a.End().y < b.pos.y || b.End().x < a.pos.x || b.End().y < a.pos.y then
      Rectangle(Point(0, 0), Point(0, 0))
    else
      var pos := ElementMax(a.pos, b.pos);
      Rectangle(pos, ElementMin(a.End(), b.End()).Minus(pos))
  }

  /** It holds exactly the common points, whether or not the rectangles meet. */
  lemma IntersectIsCommon(a: Rectangle, b: Rectangle)
    requires a.Proper() && b.Proper()
    ensures Intersect(a, b).Proper()
    ensures forall p: Point :: Intersect(a, b).Contains(p) <==> a.Contains(p) && b.Contains(p)
  {
  }
}
