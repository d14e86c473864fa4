/** The toolkit values the window handlers work with: points (QPoint) and
    rectangles (QRect) in integer pixel coordinates. A rectangle is kept as its four
    edge coordinates; its width is right - left (the toolkit's extra pixel is not
    modelled). */
module Geometry {

  datatype Option<T> = None | Some(value: T)

  datatype Point = Point(x: int, y: int)

  function Add(p: Point, q: Point): Point
  {
    Point(p.x + q.x, p.y + q.y)
  }

  function Sub(p: Point, q: Point): Point
  {
    Point(p.x - q.x, p.y - q.y)
  }

  datatype Rect = Rect(left: int, top: int, right: int, bottom: int)

  function Width(r: Rect): int
  {
    r.right - r.left
  }

  function Height(r: Rect): int
  {
    r.bottom - r.top
  }

  function TopLeft(r: Rect): Point
  {
    Point(r.left, r.top)
  }

  predicate IsNormal(r: Rect)
  {
    r.left <= r.right && r.top <= r.bottom
  }

  /** QRect.normalized(): swaps left/right when the width is negative and
      top/bottom when the height is negative. The result is normal, is built from
      the same coordinates on each axis, and leaves a normal rectangle as it is. */
  function Normalized(g: Rect): (r: Rect)
    ensures IsNormal(r)
    ensures multiset{r.left, r.right} == multiset{g.left, g.right}
    ensures multiset{r.top, r.bottom} == multiset{g.top, g.bottom}
    ensures IsNormal(g) ==> r == g
  {
    var (l, rt) := if g.right < g.left then (g.right, g.left) else (g.left, g.right);
    var (t, b) := if g.bottom < g.top then (g.bottom, g.top) else (g.top, g.bottom);
    Rect(l, t, rt, b)
  }

  /** QWidget.move(p) for a frameless window: the top-left corner goes to p and the
      size is kept. */
  function MoveTo(g: Rect, p: Point): (r: Rect)
    ensures TopLeft(r) == p
    ensures Width(r) == Width(g) && Height(r) == Height(g)
  {
    Rect(p.x, p.y, p.x + Width(g), p.y + Height(g))
  }
}
