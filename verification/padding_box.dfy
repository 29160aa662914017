/**
 * `src/widgets/padding_box.rs`: one content widget surrounded by a fixed
 * 10-pixel padding on every side.
 */
module PaddingBox {
  import opened Wrappers
  import opened Geometry

  /** `PADDING`. */
  const Padding := Point(10, 10)

  /** The hint of an absent content widget. */
  const EmptyHint := SizeHint(0, 0, true)

  /**
   * `size_hint_x`: the content's hint (or the empty one) with twice the
   * padding added to the minimum and the preferred size.
   */
  function SizeHintX(content: Option<SizeHint>): (h: SizeHint)
    ensures var c := content.UnwrapOr(EmptyHint);
      h.min == c.min + 20 && h.preferred == c.preferred + 20 && h.isFixed == c.isFixed
    ensures content.None? ==> h == SizeHint(20, 20, true)
  {
    var c := content.UnwrapOr(EmptyHint);
    c.(min := c.min + 2 * Padding.x, preferred := c.preferred + 2 * Padding.x)
  }

  /** The width the content is asked about when the box is offered `sizeX`. */
  function ContentWidth(sizeX: int): (w: int)
    ensures w >= 0
    ensures sizeX >= 20 ==> w + 20 == sizeX
    ensures sizeX < 20 ==> w == 0
  {
    Max(0, sizeX - 2 * Padding.x)
  }

  /**
   * `size_hint_y`: the content's height hint at the narrower width, plus
   * twice the padding.
   */
  function SizeHintY(sizeX: int, content: Option<int -> SizeHint>): (h: SizeHint)
    ensures var c := if content.Some? then content.value(ContentWidth(sizeX)) else EmptyHint;
      h.min == c.min + 20 && h.preferred == c.preferred + 20 && h.isFixed == c.isFixed
  {
    var c := match content
      case None => EmptyHint
      case Some(hintY) => hintY(ContentWidth(sizeX));
    c.(min := c.min + 2 * Padding.y, preferred := c.preferred + 2 * Padding.y)
  }

  /**
   * `layout`: no rectangles without content or without a rectangle of
   * its own; otherwise one rectangle at the padding offset, shrunk by the
   * padding on both sides and never negative.
   */
  function Layout(childCount: nat, rectInWindow: Option<Rect>): (r: seq<Option<Rect>>)
    ensures childCount == 0 || rectInWindow.None? ==> r == []
    ensures childCount > 0 && rectInWindow.Some? ==>
      |r| == 1 && r[0].Some? && r[0].value.topLeft == Padding &&
      r[0].value.size == Size(ContentWidth(rectInWindow.value.size.x), ContentWidth(rectInWindow.value.size.y))
  {
    if childCount == 0 then []
    else match rectInWindow
      case None => []
      case Some(bounds) =>
        [Some(Rect(Padding, Size(Max(0, bounds.size.x - 2 * Padding.x), Max(0, bounds.size.y - 2 * Padding.y))))]
  }

  /**
   * The layout honours the hints: a box at least as wide and as tall as
   * its minimum hints gives the content at least the content's minimums,
   * and the content's rectangle stays inside the box.
   */
  lemma LayoutHonoursMinimum(childCount: nat, bounds: Rect, cx: SizeHint, cy: SizeHint)
    requires childCount > 0
    requires bounds.size.x >= SizeHintX(Some(cx)).min && bounds.size.y >= SizeHintX(Some(cy)).min
    requires cx.min >= 0 && cy.min >= 0
    ensures var r := Layout(childCount, Some(bounds))[0].value;
      r.size.x >= cx.min && r.size.y >= cy.min &&
      forall p :: Contains(r, p) ==> Contains(Rect(Point(0, 0), bounds.size), p)
  {
  }
}
