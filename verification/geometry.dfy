/**
 * Points, rectangles and size hints in integer pixels.
 * The rectangle type lives in a file that is not part of this model; its
 * `contains` is taken to be the usual half-open test and `intersect` the
 * exact set intersection of the two rectangles.
 */
module Geometry {

  datatype Point = Point(x: int, y: int)

  datatype Size = Size(x: int, y: int)

  datatype Rect = Rect(topLeft: Point, size: Size)

  function Add(a: Point, b: Point): Point {
    Point(a.x + b.x, a.y + b.y)
  }

  function Sub(a: Point, b: Point): Point {
    Point(a.x - b.x, a.y - b.y)
  }

  function Max(a: int, b: int): int {
    if a < b then b else a
  }

  function Min(a: int, b: int): int {
    if a < b then a else b
  }

  function FromXywh(x: int, y: int, w: int, h: int): Rect {
    Rect(Point(x, y), Size(w, h))
  }

  function BottomRight(r: Rect): Point {
    Point(r.topLeft.x + r.size.x, r.topLeft.y + r.size.y)
  }

  /** Half-open containment: the top-left edge is inside, the bottom-right edge is not. */
  predicate Contains(r: Rect, p: Point) {
    r.topLeft.x <= p.x < r.topLeft.x + r.size.x &&
    r.topLeft.y <= p.y < r.topLeft.y + r.size.y
  }

  function Translate(r: Rect, offset: Point): (t: Rect)
    ensures t.size == r.size
    ensures forall p :: Contains(r, p) <==> Contains(t, Add(p, offset))
  {
    Rect(Add(r.topLeft, offset), r.size)
  }

  /** Overlap of two rectangles; an empty overlap has a zero extent. */
  function Intersect(a: Rect, b: Rect): (r: Rect)
    ensures r.size.x >= 0 && r.size.y >= 0
    ensures forall p :: Contains(r, p) <==> Contains(a, p) && Contains(b, p)
  {
    var x0 := Max(a.topLeft.x, b.topLeft.x);
    var y0 := Max(a.topLeft.y, b.topLeft.y);
    var x1 := Min(BottomRight(a).x, BottomRight(b).x);
    var y1 := Min(BottomRight(a).y, BottomRight(b).y);
    Rect(Point(x0, y0), Size(Max(0, x1 - x0), Max(0, y1 - y0)))
  }

  /** The (min, preferred, fixed) triple every widget reports for one axis. */
  datatype SizeHint = SizeHint(min: int, preferred: int, isFixed: bool)

  /**
   * The paddings and spacings a grid layout leaves on one axis, at the
   * minimum and at the preferred size. The grid layout that reads them
   * is not part of this model.
   */
  datatype GridAxisOptions = GridAxisOptions(minPadding: int, minSpacing: int, preferredPadding: int, preferredSpacing: int)

  datatype GridOptions = GridOptions(x: GridAxisOptions, y: GridAxisOptions)

  /** No padding around the cells and no spacing between them, on either axis. */
  predicate NoGaps(o: GridOptions) {
    o.x == GridAxisOptions(0, 0, 0, 0) && o.y == GridAxisOptions(0, 0, 0, 0)
  }

  /** Largest element, or 0 for an empty sequence (Rust's `max().unwrap_or(0)`). */
  function MaxOrZero(xs: seq<int>): (m: int)
    ensures |xs| == 0 ==> m == 0
    ensures forall i :: 0 <= i < |xs| ==> xs[i] <= m
    ensures |xs| > 0 ==> exists i :: 0 <= i < |xs| && xs[i] == m
  {
    if |xs| == 0 then 0
    else
      var rest := MaxOrZero(xs[1..]);
      if |xs| == 1 || rest < xs[0] then xs[0] else
        assert xs[1..][0] in xs;
        rest
  }
}
