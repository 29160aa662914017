/**
 * The part of a scroll bar both scroll areas rely on: its current value
 * and its inclusive value range `start..=end`. The scroll bar widget
 * itself is not part of this model.
 */
module ScrollBars {
  import opened Geometry

  datatype ScrollBar = ScrollBar(value: int, rangeStart: int, rangeEnd: int)

  /** The largest scroll value for content of one extent shown in a viewport of another. */
  function MaxValue(contentSize: int, viewportSize: int): (m: int)
    ensures m >= 0
    ensures contentSize - viewportSize <= m
    ensures contentSize <= viewportSize ==> m == 0
    ensures contentSize > viewportSize ==> viewportSize + m == contentSize
  {
    Max(0, contentSize - viewportSize)
  }

  /** `set_value_range(0..=max)`: the value itself is left as it is. */
  function WithRange(bar: ScrollBar, rangeEnd: int): (r: ScrollBar)
    ensures r.value == bar.value
    ensures r.rangeStart == 0 && r.rangeEnd == rangeEnd
  {
    bar.(rangeStart := 0, rangeEnd := rangeEnd)
  }

  /**
   * Rust's `i32::clamp`, which panics when its lower bound exceeds the
   * upper one: the result is the point of the range nearest to `x`.
   */
  function Clamp(x: int, lo: int, hi: int): (r: int)
    requires lo <= hi
    ensures lo <= r <= hi
    ensures lo <= x <= hi ==> r == x
    ensures x < lo ==> r == lo
    ensures x > hi ==> r == hi
  {
    if x < lo then lo else if x > hi then hi else x
  }

  /**
   * Moving a scroll bar by a wheel step: the value goes down by the step
   * and is clamped into the bar's own range.
   */
  function ScrollBy(bar: ScrollBar, delta: int): (r: ScrollBar)
    requires bar.rangeStart <= bar.rangeEnd
    ensures r.rangeStart == bar.rangeStart && r.rangeEnd == bar.rangeEnd
    ensures bar.rangeStart <= r.value <= bar.rangeEnd
    ensures bar.rangeStart <= bar.value - delta <= bar.rangeEnd ==> r.value == bar.value - delta
    ensures bar.value - delta < bar.rangeStart ==> r.value == bar.rangeStart
    ensures bar.value - delta > bar.rangeEnd ==> r.value == bar.rangeEnd
  {
    bar.(value := Clamp(bar.value - delta, bar.rangeStart, bar.rangeEnd))
  }

  /**
   * The partner of `MaxValue`: with the value anywhere in `0..=MaxValue`,
   * content shifted left by the value still spans the whole viewport when
   * it is at least as large, and never starts right of the viewport's
   * origin.
   */
  lemma ScrolledContentCoversViewport(value: int, contentSize: int, viewportSize: int)
    requires 0 <= value <= MaxValue(contentSize, viewportSize)
    ensures -value <= 0
    ensures contentSize >= viewportSize ==> -value + contentSize >= viewportSize
    ensures contentSize <= viewportSize ==> value == 0
  {
  }

  /**
   * Scrolling by `a` and then by `b` ends where one step of `a + b` does
   * whenever neither step reaches an end of the range.
   */
  lemma ScrollStepsAdd(bar: ScrollBar, a: int, b: int)
    requires bar.rangeStart <= bar.rangeEnd
    requires bar.rangeStart <= bar.value - a <= bar.rangeEnd
    requires bar.rangeStart <= bar.value - a - b <= bar.rangeEnd
    ensures ScrollBy(ScrollBy(bar, a), b) == ScrollBy(bar, a + b)
  {
  }

  /** Scrolling is monotone: a larger wheel step never yields a larger value. */
  lemma ScrollIsMonotone(bar: ScrollBar, a: int, b: int)
    requires bar.rangeStart <= bar.rangeEnd
    requires a <= b
    ensures ScrollBy(bar, b).value <= ScrollBy(bar, a).value
  {
  }
}

/**
 * `salvation/src/widgets/scroll_area.rs`: two scroll bars and a viewport
 * (children 0, 1, 2); the content is the viewport's only child and is
 * placed in viewport coordinates.
 */
module SalvationScrollArea {
  import opened Wrappers
  import opened Geometry
  import opened Address
  import opened ScrollBars

  const IndexScrollBarX: nat := 0
  const IndexScrollBarY: nat := 1
  const IndexViewport: nat := 2

  /**
   * The scroll area's state: its two bars, the viewport's children, the
   * rectangles last given to its own children and the content rectangle
   * last given to the viewport's child.
   */
  datatype ScrollArea = ScrollArea(
    barX: ScrollBar,
    barY: ScrollBar,
    viewportChildren: seq<WidgetId>,
    childRects: map<nat, Rect>,
    contentRect: Option<Rect>)

  /** `has_content`. */
  predicate HasContent(a: ScrollArea) {
    |a.viewportChildren| > 0
  }

  /** At most one content widget, as `set_content` keeps it. */
  predicate WellFormed(a: ScrollArea) {
    |a.viewportChildren| <= 1
  }

  /**
   * `set_content`: the viewport's first child is removed if there is one,
   * then the new content is appended.
   */
  function SetContent(a: ScrollArea, content: WidgetId): (r: ScrollArea)
    ensures HasContent(r)
    ensures r.viewportChildren[|r.viewportChildren| - 1] == content
    ensures WellFormed(a) ==> r.viewportChildren == [content]
    ensures |r.viewportChildren| == if HasContent(a) then |a.viewportChildren| else 1
    ensures r.barX == a.barX && r.barY == a.barY
  {
    var kept := if HasContent(a) then a.viewportChildren[1..] else a.viewportChildren;
    a.(viewportChildren := kept + [content])
  }

  /** Replacing the content twice is the same as replacing it once with the second widget. */
  lemma SetContentTwice(a: ScrollArea, c1: WidgetId, c2: WidgetId)
    requires WellFormed(a)
    ensures WellFormed(SetContent(a, c1))
    ensures SetContent(SetContent(a, c1), c2) == SetContent(a, c2)
  {
  }

  /**
   * The grid options `new` stores for the three children and `relayout`
   * reads back: `GridOptions::ZERO`, taken to mean no padding and no
   * spacing on either axis.
   */
  function LayoutOptions(): (o: GridOptions)
    ensures NoGaps(o)
  {
    GridOptions(GridAxisOptions(0, 0, 0, 0), GridAxisOptions(0, 0, 0, 0))
  }

  /**
   * The viewport's width hint, the hint the grid reads for child 2: no
   * width at the minimum or the preferred size, and not fixed.
   */
  function ViewportSizeHintX(): (h: SizeHint)
    ensures h.min == 0 && h.preferred == 0 && !h.isFixed
  {
    SizeHint(0, 0, false)
  }

  /** The viewport's height hint: no height at any width, and not fixed. */
  function ViewportSizeHintY(sizeX: int): (h: SizeHint)
    ensures h.min == 0 && h.preferred == 0 && !h.isFixed
  {
    SizeHint(0, 0, false)
  }

  /** Why a relayout stops early: no size yet, or the grid layout failed. */
  datatype LayoutError = SizeMissing | GridFailed | ViewportRectMissing

  /**
   * `relayout`. The grid layout of the three children is a parameter,
   * given `LayoutOptions()`;
   * `contentX` and `contentY` are the content's preferred width and its
   * preferred height for a width. A missing viewport rectangle is the
   * `unwrap` panic, reported here as `ViewportRectMissing`.
   */
  function Relayout(a: ScrollArea, size: Option<Size>,
                    grid: (GridOptions, Size) -> Option<map<nat, Rect>>,
                    contentX: int, contentY: int -> int): (r: Result<ScrollArea, LayoutError>)
    ensures size.None? ==> r == Err(SizeMissing)
    ensures size.Some? && grid(LayoutOptions(), size.value).None? ==> r == Err(GridFailed)
    ensures r.Ok? ==> size.Some? && grid(LayoutOptions(), size.value).Some? && r.value.childRects == grid(LayoutOptions(), size.value).value
    ensures r.Ok? ==> r.value.viewportChildren == a.viewportChildren
    ensures r.Ok? && !HasContent(a) ==> r.value.barX == a.barX && r.value.barY == a.barY && r.value.contentRect == a.contentRect
    ensures r.Err? && r.error == ViewportRectMissing ==>
      HasContent(a) && IndexViewport !in grid(LayoutOptions(), size.value).value
    ensures r.Ok? && HasContent(a) ==>
      IndexViewport in r.value.childRects &&
      var viewport := r.value.childRects[IndexViewport];
      r.value.contentRect == Some(FromXywh(-a.barX.value, -a.barY.value, contentX, contentY(contentX))) &&
      r.value.barX == ScrollBar(a.barX.value, 0, MaxValue(contentX, viewport.size.x)) &&
      r.value.barY == ScrollBar(a.barY.value, 0, MaxValue(contentY(contentX), viewport.size.y))
  {
    match size
    case None => Err(SizeMissing)
    case Some(s) =>
      match grid(LayoutOptions(), s)
      case None => Err(GridFailed)
      case Some(rects) =>
        var placed := a.(childRects := rects);
        if !HasContent(a) then Ok(placed)
        else if IndexViewport !in rects then Err(ViewportRectMissing)
        else
          var viewport := rects[IndexViewport];
          var cy := contentY(contentX);
          Ok(placed.(
            contentRect := Some(FromXywh(-a.barX.value, -a.barY.value, contentX, cy)),
            barX := WithRange(a.barX, MaxValue(contentX, viewport.size.x)),
            barY := WithRange(a.barY, MaxValue(cy, viewport.size.y))))
  }

  /**
   * `handle_mouse_scroll`: each bar moves by its rounded wheel delta,
   * clamped into its range; the event is always accepted. Rust's `clamp`
   * panics on an inverted range, hence the precondition.
   */
  function HandleMouseScroll(a: ScrollArea, delta: Point): (r: (ScrollArea, bool))
    requires a.barX.rangeStart <= a.barX.rangeEnd && a.barY.rangeStart <= a.barY.rangeEnd
    ensures r.1
    ensures r.0.viewportChildren == a.viewportChildren && r.0.childRects == a.childRects
    ensures a.barX.rangeStart <= r.0.barX.value <= a.barX.rangeEnd
    ensures a.barY.rangeStart <= r.0.barY.value <= a.barY.rangeEnd
    ensures r.0.barX.rangeStart == a.barX.rangeStart && r.0.barX.rangeEnd == a.barX.rangeEnd
    ensures r.0.barY.rangeStart == a.barY.rangeStart && r.0.barY.rangeEnd == a.barY.rangeEnd
    ensures r.0.barX.value == Clamp(a.barX.value - delta.x, a.barX.rangeStart, a.barX.rangeEnd)
    ensures r.0.barY.value == Clamp(a.barY.value - delta.y, a.barY.rangeStart, a.barY.rangeEnd)
  {
    (a.(barX := ScrollBy(a.barX, delta.x), barY := ScrollBy(a.barY, delta.y)), true)
  }

  /**
   * After a relayout with content, both ranges start at 0 and are not
   * inverted, so a following wheel event cannot hit the `clamp` panic,
   * and the scrolled values keep the content over the viewport.
   */
  lemma RelayoutThenScrollStaysInRange(a: ScrollArea, size: Option<Size>,
                                       grid: (GridOptions, Size) -> Option<map<nat, Rect>>,
                                       contentX: int, contentY: int -> int, delta: Point)
    requires HasContent(a)
    requires Relayout(a, size, grid, contentX, contentY).Ok?
    ensures var laid := Relayout(a, size, grid, contentX, contentY).value;
      laid.barX.rangeStart <= laid.barX.rangeEnd && laid.barY.rangeStart <= laid.barY.rangeEnd &&
      var scrolled := HandleMouseScroll(laid, delta).0;
      0 <= scrolled.barX.value <= MaxValue(contentX, laid.childRects[IndexViewport].size.x) &&
      0 <= scrolled.barY.value <= MaxValue(contentY(contentX), laid.childRects[IndexViewport].size.y)
  {
  }
}

/**
 * `src/widgets/scroll_area.rs`: two scroll bars, a viewport and the
 * content as the scroll area's own fourth child, placed in the scroll
 * area's coordinates over the viewport.
 */
module SrcScrollArea {
  import opened Wrappers
  import opened Geometry
  import opened Address
  import opened ScrollBars
  import SalvationScrollArea

  const IndexScrollBarX: nat := 0
  const IndexScrollBarY: nat := 1
  const IndexViewport: nat := 2
  const IndexContent: nat := 3

  datatype ScrollArea = ScrollArea(
    barX: ScrollBar,
    barY: ScrollBar,
    children: seq<WidgetId>,
    childRects: map<nat, Rect>)

  /** `has_content`: the content is the fourth child. */
  predicate HasContent(a: ScrollArea) {
    |a.children| > IndexContent
  }

  /** The three fixed children, optionally followed by the content. */
  predicate WellFormed(a: ScrollArea) {
    3 <= |a.children| <= 4
  }

  /** `set_content`: child 3 is removed if present, then the content is appended. */
  function SetContent(a: ScrollArea, content: WidgetId): (r: ScrollArea)
    ensures |r.children| == if HasContent(a) then |a.children| else |a.children| + 1
    ensures r.children[|r.children| - 1] == content
    ensures |a.children| >= 3 ==> r.children[..3] == a.children[..3] && HasContent(r)
    ensures HasContent(a) ==> r.children[IndexContent..|r.children| - 1] == a.children[IndexContent + 1..]
    ensures WellFormed(a) ==> WellFormed(r) && r.children == a.children[..3] + [content]
  {
    var kept := if HasContent(a) then a.children[..IndexContent] + a.children[IndexContent + 1..] else a.children;
    a.(children := kept + [content])
  }

  /** Replacing the content twice is the same as replacing it once with the second widget. */
  lemma SetContentTwice(a: ScrollArea, c1: WidgetId, c2: WidgetId)
    requires WellFormed(a)
    ensures SetContent(SetContent(a, c1), c2) == SetContent(a, c2)
  {
  }

  /** `grid_options`: no padding and no spacing on either axis. */
  function LayoutOptions(): (o: GridOptions)
    ensures NoGaps(o)
  {
    var none := GridAxisOptions(minPadding := 0, minSpacing := 0, preferredPadding := 0, preferredSpacing := 0);
    GridOptions(none, none)
  }

  /** `Viewport::size_hint_x`: no width in either mode, and not fixed. */
  function ViewportSizeHintX(): (h: SizeHint)
    ensures h.min == 0 && h.preferred == 0 && !h.isFixed
  {
    SizeHint(0, 0, false)
  }

  /** `Viewport::size_hint_y`: no height at any width, and not fixed. */
  function ViewportSizeHintY(sizeX: int): (h: SizeHint)
    ensures h.min == 0 && h.preferred == 0 && !h.isFixed
  {
    SizeHint(0, 0, false)
  }

  /**
   * The two generations give the grid the same inputs for the scroll
   * area's fixed children: the same options and the same viewport hints.
   */
  lemma LayoutInputsMatchSalvation(sizeX: int)
    ensures LayoutOptions() == SalvationScrollArea.LayoutOptions()
    ensures ViewportSizeHintX() == SalvationScrollArea.ViewportSizeHintX()
    ensures ViewportSizeHintY(sizeX) == SalvationScrollArea.ViewportSizeHintY(sizeX)
  {
  }

  /** Why a relayout stops early. */
  datatype LayoutError = SizeMissing | GridFailed | ViewportRectMissing

  /**
   * `relayout`: the grid layout (a parameter, given `LayoutOptions()`)
   * places the children; with content, the content rectangle is the
   * preferred size shifted back by the scroll values and then moved onto
   * the viewport, and the ranges become `0..=max(0, content - viewport)`.
   */
  function Relayout(a: ScrollArea, size: Option<Size>,
                    grid: (GridOptions, Size) -> Option<map<nat, Rect>>,
                    contentX: int, contentY: int -> int): (r: Result<ScrollArea, LayoutError>)
    ensures size.None? ==> r == Err(SizeMissing)
    ensures size.Some? && grid(LayoutOptions(), size.value).None? ==> r == Err(GridFailed)
    ensures r.Ok? ==> size.Some? && grid(LayoutOptions(), size.value).Some? && r.value.children == a.children
    ensures r.Ok? && !HasContent(a) ==>
      r.value.childRects == grid(LayoutOptions(), size.value).value && r.value.barX == a.barX && r.value.barY == a.barY
    ensures r.Err? && r.error == ViewportRectMissing ==>
      HasContent(a) && IndexViewport !in grid(LayoutOptions(), size.value).value
    ensures r.Ok? && HasContent(a) ==>
      var rects := grid(LayoutOptions(), size.value).value;
      IndexViewport in rects && IndexContent in r.value.childRects &&
      r.value.childRects == rects[IndexContent := r.value.childRects[IndexContent]] &&
      r.value.childRects[IndexContent].topLeft ==
        Add(Point(-a.barX.value, -a.barY.value), rects[IndexViewport].topLeft) &&
      r.value.childRects[IndexContent].size == Size(contentX, contentY(contentX)) &&
      r.value.barX == ScrollBar(a.barX.value, 0, MaxValue(contentX, rects[IndexViewport].size.x)) &&
      r.value.barY == ScrollBar(a.barY.value, 0, MaxValue(contentY(contentX), rects[IndexViewport].size.y))
  {
    match size
    case None => Err(SizeMissing)
    case Some(s) =>
      match grid(LayoutOptions(), s)
      case None => Err(GridFailed)
      case Some(rects) =>
        if !HasContent(a) then Ok(a.(childRects := rects))
        else if IndexViewport !in rects then Err(ViewportRectMissing)
        else
          var viewport := rects[IndexViewport];
          var cy := contentY(contentX);
          var contentRect := Translate(FromXywh(-a.barX.value, -a.barY.value, contentX, cy), viewport.topLeft);
          Ok(a.(
            childRects := rects[IndexContent := contentRect],
            barX := WithRange(a.barX, MaxValue(contentX, viewport.size.x)),
            barY := WithRange(a.barY, MaxValue(cy, viewport.size.y))))
  }

  /**
   * With both scroll values inside the ranges a relayout set, the content
   * never starts right of or below the viewport's origin, and when it is
   * at least as large it reaches the viewport's far edges.
   */
  lemma ContentCoversViewport(a: ScrollArea, size: Option<Size>,
                              grid: (GridOptions, Size) -> Option<map<nat, Rect>>,
                              contentX: int, contentY: int -> int)
    requires HasContent(a)
    requires Relayout(a, size, grid, contentX, contentY).Ok?
    requires var laid := Relayout(a, size, grid, contentX, contentY).value;
      0 <= a.barX.value <= laid.barX.rangeEnd && 0 <= a.barY.value <= laid.barY.rangeEnd
    ensures var laid := Relayout(a, size, grid, contentX, contentY).value;
      var viewport := laid.childRects[IndexViewport];
      var content := laid.childRects[IndexContent];
      content.topLeft.x <= viewport.topLeft.x && content.topLeft.y <= viewport.topLeft.y &&
      (contentX >= viewport.size.x ==> BottomRight(content).x >= BottomRight(viewport).x) &&
      (contentY(contentX) >= viewport.size.y ==> BottomRight(content).y >= BottomRight(viewport).y)
  {
    var laid := Relayout(a, size, grid, contentX, contentY).value;
    var viewport := grid(LayoutOptions(), size.value).value[IndexViewport];
    assert laid.childRects[IndexViewport] == viewport;
    ScrolledContentCoversViewport(a.barX.value, contentX, viewport.size.x);
    ScrolledContentCoversViewport(a.barY.value, contentY(contentX), viewport.size.y);
  }
}
