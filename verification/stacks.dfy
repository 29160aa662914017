/**
 * The `Stack` container in its three generations: children placed at
 * fixed rectangles, with size hints just large enough to show every
 * child's bottom-right corner.
 */
module StackHints {
  import opened Wrappers
  import opened Geometry

  /** The bottom-right coordinate of a rectangle on the x or the y axis. */
  function Corner(r: Rect, xAxis: bool): int {
    if xAxis then BottomRight(r).x else BottomRight(r).y
  }

  /** The corners of the present rectangles, in order. */
  function Corners(rects: seq<Option<Rect>>, xAxis: bool): (r: seq<int>)
    ensures |r| <= |rects|
    ensures forall i :: 0 <= i < |rects| && rects[i].Some? ==> Corner(rects[i].value, xAxis) in r
    ensures forall k :: 0 <= k < |r| ==>
      exists i :: 0 <= i < |rects| && rects[i].Some? && r[k] == Corner(rects[i].value, xAxis)
    ensures (forall i :: 0 <= i < |rects| ==> rects[i].None?) <==> |r| == 0
  {
    if |rects| == 0 then []
    else
      var rest := Corners(rects[1..], xAxis);
      assert forall i :: 1 <= i < |rects| ==> rects[i] == rects[1..][i - 1];
      match rects[0]
      case None => rest
      case Some(rect) => [Corner(rect, xAxis)] + rest
  }

  /**
   * The stack hint for one axis: the largest bottom-right coordinate among
   * the children that have a rectangle, or 0 with none; fixed, with the
   * minimum equal to the preferred size.
   */
  function StackHint(rects: seq<Option<Rect>>, xAxis: bool): (h: SizeHint)
    ensures h.isFixed && h.min == h.preferred
    ensures forall i :: 0 <= i < |rects| && rects[i].Some? ==> Corner(rects[i].value, xAxis) <= h.preferred
    ensures (forall i :: 0 <= i < |rects| ==> rects[i].None?) ==> h.preferred == 0
    ensures (exists i :: 0 <= i < |rects| && rects[i].Some?) ==>
      exists i :: 0 <= i < |rects| && rects[i].Some? && h.preferred == Corner(rects[i].value, xAxis)
  {
    var cs := Corners(rects, xAxis);
    var m := MaxOrZero(cs);
    SizeHint(m, m, true)
  }
}

/** `src/widgets/stack.rs`: children kept with their rectangles in insertion order. */
module SrcStack {
  import opened Wrappers
  import opened Geometry
  import opened Address
  import StackHints

  /** Mount data handed to a child: its address and its index in the stack. */
  datatype StackMount = StackMount(address: WidgetAddress, indexInParent: nat)

  datatype StackChild = StackChild(rectInParent: Rect, widgetId: WidgetId, mount: Option<StackMount>, indexInParent: nat)

  datatype Stack = Stack(mount: Option<StackMount>, rectInWindow: Option<Rect>, children: seq<StackChild>)

  predicate IndicesMatch(s: Stack) {
    forall i :: 0 <= i < |s.children| ==> s.children[i].indexInParent == i
  }

  /**
   * `Stack::add`: the new child is appended with index equal to the old
   * child count, and is mounted below the stack when the stack is mounted.
   * The address the child gets is the stack's joined with the child's id,
   * as this file's `add` does.
   */
  function Add(s: Stack, rect: Rect, widgetId: WidgetId): (r: Stack)
    ensures |r.children| == |s.children| + 1 && r.children[..|s.children|] == s.children
    ensures r.children[|s.children|].indexInParent == |s.children|
    ensures r.children[|s.children|].rectInParent == rect && r.children[|s.children|].widgetId == widgetId
    ensures r.children[|s.children|].mount.Some? <==> s.mount.Some?
    ensures s.mount.Some? ==>
      r.children[|s.children|].mount.value == StackMount(Join(s.mount.value.address, widgetId), |s.children|)
    ensures r.mount == s.mount && r.rectInWindow == s.rectInWindow
    ensures IndicesMatch(s) ==> IndicesMatch(r)
  {
    var index := |s.children|;
    var mount := match s.mount
      case None => None
      case Some(mp) => Some(StackMount(Join(mp.address, widgetId), index));
    s.(children := s.children + [StackChild(rect, widgetId, mount, index)])
  }

  /** What a child does with the pointer event it was given, by child index and local position. */
  type ChildDispatch = (nat, Point) -> bool

  /**
   * `on_mouse_input` (and `on_cursor_moved`, which has the same loop):
   * children are tried in insertion order, each only when its rectangle
   * holds the position, with the position made relative to it. The second
   * result is the index of the first child that accepted.
   */
  method OnMouseInput(s: Stack, pos: Point, dispatch: ChildDispatch) returns (accepted: bool, acceptedAt: Option<nat>)
    ensures accepted <==> acceptedAt.Some?
    ensures acceptedAt.Some? ==>
      var i := acceptedAt.value;
      i < |s.children| && Contains(s.children[i].rectInParent, pos) &&
      dispatch(i, Sub(pos, s.children[i].rectInParent.topLeft))
    ensures forall k :: (0 <= k < |s.children| && (acceptedAt.None? || k < acceptedAt.value) &&
      Contains(s.children[k].rectInParent, pos)) ==> !dispatch(k, Sub(pos, s.children[k].rectInParent.topLeft))
  {
    var i := 0;
    while i < |s.children|
      invariant 0 <= i <= |s.children|
      invariant forall k :: 0 <= k < i && Contains(s.children[k].rectInParent, pos) ==>
        !dispatch(k, Sub(pos, s.children[k].rectInParent.topLeft))
    {
      var rect := s.children[i].rectInParent;
      if Contains(rect, pos) && dispatch(i, Sub(pos, rect.topLeft)) {
        return true, Some(i);
      }
      i := i + 1;
    }
    return false, None;
  }

  /**
   * The rectangle a child draws into (`on_draw`): its own rectangle moved
   * to the parent's origin and cut down to the parent's rectangle.
   */
  function DrawRect(childRect: Rect, parentRect: Rect): (r: Rect)
    ensures forall p :: Contains(r, p) ==> Contains(parentRect, p)
    ensures forall p :: Contains(r, p) <==> Contains(parentRect, p) && Contains(childRect, Sub(p, parentRect.topLeft))
  {
    var moved := Translate(childRect, parentRect.topLeft);
    assert forall p :: Geometry.Add(Sub(p, parentRect.topLeft), parentRect.topLeft) == p;
    Intersect(moved, parentRect)
  }

  /**
   * `layout`: without a geometry nothing is sent; otherwise each child is
   * given its rectangle moved to the stack's position in the window.
   */
  function Layout(s: Stack): (r: seq<Rect>)
    ensures s.rectInWindow.None? ==> r == []
    ensures s.rectInWindow.Some? ==> |r| == |s.children|
    ensures s.rectInWindow.Some? ==> forall i :: 0 <= i < |r| ==>
      r[i].size == s.children[i].rectInParent.size &&
      r[i].topLeft == Geometry.Add(s.children[i].rectInParent.topLeft, s.rectInWindow.value.topLeft)
  {
    match s.rectInWindow
    case None => []
    case Some(g) =>
      seq(|s.children|, i requires 0 <= i < |s.children| => Translate(s.children[i].rectInParent, g.topLeft))
  }

  function Rects(s: Stack): seq<Option<Rect>> {
    seq(|s.children|, i requires 0 <= i < |s.children| => Some(s.children[i].rectInParent))
  }

  /** `size_hint_x`: the largest right edge over all children, or 0 with no children. */
  function SizeHintX(s: Stack): (h: SizeHint)
    ensures h.isFixed && h.min == h.preferred
    ensures |s.children| == 0 ==> h.preferred == 0
    ensures forall i :: 0 <= i < |s.children| ==> BottomRight(s.children[i].rectInParent).x <= h.preferred
    ensures |s.children| > 0 ==>
      exists i :: 0 <= i < |s.children| && h.preferred == BottomRight(s.children[i].rectInParent).x
  {
    var rects := Rects(s);
    assert forall i :: 0 <= i < |s.children| ==> rects[i] == Some(s.children[i].rectInParent);
    var h := StackHints.StackHint(rects, true);
    assert |s.children| > 0 ==> rects[0].Some?;
    h
  }

  /** `size_hint_y`: the same for the bottom edges; the offered width is not looked at. */
  function SizeHintY(s: Stack, sizeX: int): (h: SizeHint)
    ensures h.isFixed && h.min == h.preferred
    ensures |s.children| == 0 ==> h.preferred == 0
    ensures forall i :: 0 <= i < |s.children| ==> BottomRight(s.children[i].rectInParent).y <= h.preferred
    ensures |s.children| > 0 ==>
      exists i :: 0 <= i < |s.children| && h.preferred == BottomRight(s.children[i].rectInParent).y
  {
    var rects := Rects(s);
    assert forall i :: 0 <= i < |s.children| ==> rects[i] == Some(s.children[i].rectInParent);
    var h := StackHints.StackHint(rects, false);
    assert |s.children| > 0 ==> rects[0].Some?;
    h
  }
}

/** `widgem/src/widgets/stack.rs`: a stack over the keyed tree. */
module WidgemStack {
  import opened Wrappers
  import opened Geometry
  import opened Address
  import opened KeyedTree
  import StackHints

  /** What the child's geometry is taken to be: placed at `rect` inside the parent's geometry. */
  function ChildGeometry(parent: WidgetGeometry, rect: Rect): (g: WidgetGeometry)
    ensures g.rectInParent == rect
    ensures g.rectInWindow.size == rect.size
  {
    WidgetGeometry(rect, Translate(rect, parent.rectInWindow.topLeft))
  }

  /**
   * The node with `child` stored under `key` (`add_child_with_key`): the
   * old child under that key, if any, is replaced in place; otherwise the
   * child goes last.
   */
  function InsertKeyed(n: Node, key: Key, child: Node): (r: Node)
    ensures IndexOfKey(r.children, key).Some? && r.children[IndexOfKey(r.children, key).value] == child.(key := key)
    ensures KeysUnique(n.children) ==> KeysUnique(r.children)
    ensures r.(children := n.children) == n
    ensures forall i :: 0 <= i < |n.children| && n.children[i].key != key ==> n.children[i] in r.children
  {
    var c := child.(key := key);
    match IndexOfKey(n.children, key)
    case Some(i) =>
      var r := n.(children := n.children[i := c]);
      assert forall j :: 0 <= j < |n.children| && j != i ==> r.children[j] == n.children[j];
      assert forall j :: 0 <= j < i ==> r.children[j].key != key;
      assert r.children[i].key == key;
      r
    case None =>
      var r := n.(children := n.children + [c]);
      assert forall j :: 0 <= j < |n.children| ==> r.children[j] == n.children[j];
      assert forall j :: 0 <= j < |n.children| ==> r.children[j].key != key;
      assert r.children[|n.children|].key == key;
      r
  }

  /**
   * `Stack::add`: the new child is stored under `key`; it is placed at
   * `rect` only when the stack itself already has a geometry.
   */
  function Add(s: Node, key: Key, rect: Rect, child: Node): (r: Node)
    ensures IndexOfKey(r.children, key).Some?
    ensures
      var c := r.children[IndexOfKey(r.children, key).value];
      c.key == key && c.id == child.id &&
      (s.geometry.Some? ==> RectInParent(c) == Some(rect)) &&
      (s.geometry.None? ==> c.geometry == child.geometry)
    ensures KeysUnique(s.children) ==> KeysUnique(r.children)
    ensures r.(children := s.children) == s
  {
    var placed := match s.geometry
      case None => child
      case Some(g) => SetGeometry(child, Some(ChildGeometry(g, rect)), []).0;
    InsertKeyed(s, key, placed)
  }

  function ChildRects(n: Node): seq<Option<Rect>> {
    seq(|n.children|, i requires 0 <= i < |n.children| => RectInParent(n.children[i]))
  }

  /** `handle_size_hint_x_request`: largest right edge among children that have a rectangle, or 0. */
  function SizeHintX(n: Node): (h: SizeHint)
    ensures h.isFixed && h.min == h.preferred
    ensures forall i :: 0 <= i < |n.children| && RectInParent(n.children[i]).Some? ==>
      BottomRight(RectInParent(n.children[i]).value).x <= h.preferred
    ensures (forall i :: 0 <= i < |n.children| ==> RectInParent(n.children[i]).None?) ==> h.preferred == 0
    ensures (exists i :: 0 <= i < |n.children| && RectInParent(n.children[i]).Some?) ==>
      exists i :: 0 <= i < |n.children| && RectInParent(n.children[i]).Some? &&
        h.preferred == BottomRight(RectInParent(n.children[i]).value).x
  {
    var rects := ChildRects(n);
    assert forall i :: 0 <= i < |n.children| ==> rects[i] == RectInParent(n.children[i]);
    StackHints.StackHint(rects, true)
  }

  /** `handle_size_hint_y_request`: the same for bottom edges, whatever the width. */
  function SizeHintY(n: Node, sizeX: int): (h: SizeHint)
    ensures h.isFixed && h.min == h.preferred
    ensures forall i :: 0 <= i < |n.children| && RectInParent(n.children[i]).Some? ==>
      BottomRight(RectInParent(n.children[i]).value).y <= h.preferred
    ensures (forall i :: 0 <= i < |n.children| ==> RectInParent(n.children[i]).None?) ==> h.preferred == 0
    ensures (exists i :: 0 <= i < |n.children| && RectInParent(n.children[i]).Some?) ==>
      exists i :: 0 <= i < |n.children| && RectInParent(n.children[i]).Some? &&
        h.preferred == BottomRight(RectInParent(n.children[i]).value).y
  {
    var rects := ChildRects(n);
    assert forall i :: 0 <= i < |n.children| ==> rects[i] == RectInParent(n.children[i]);
    StackHints.StackHint(rects, false)
  }
}

/** `salvation/src/widgets/stack.rs`: children with optional rectangles plus a rectangle table by id. */
module SalvationStack {
  import opened Wrappers
  import opened Geometry
  import opened Address
  import StackHints

  datatype StackChild = StackChild(id: WidgetId, rectInParent: Option<Rect>)

  datatype Stack = Stack(children: seq<StackChild>, rects: map<WidgetId, Option<Rect>>)

  /**
   * `Stack::add`: a new child is appended at index = old length, its
   * rectangle is set, and the table records it under the child's id.
   */
  function Add(s: Stack, id: WidgetId, rect: Rect): (r: Stack)
    ensures |r.children| == |s.children| + 1 && r.children[..|s.children|] == s.children
    ensures r.children[|s.children|] == StackChild(id, Some(rect))
    ensures id in r.rects && r.rects[id] == Some(rect)
    ensures forall other :: other != id ==> (other in r.rects <==> other in s.rects)
    ensures forall other :: other != id && other in s.rects ==> r.rects[other] == s.rects[other]
  {
    Stack(s.children + [StackChild(id, Some(rect))], s.rects[id := Some(rect)])
  }

  function ChildRects(s: Stack): seq<Option<Rect>> {
    seq(|s.children|, i requires 0 <= i < |s.children| => s.children[i].rectInParent)
  }

  /**
   * `recalculate_size_hint_x`: the largest right edge among children with
   * a rectangle, or 0; the size-hint mode is not looked at, so the minimum
   * and preferred answers are the same number.
   */
  function SizeHintX(s: Stack): (m: int)
    ensures forall i :: 0 <= i < |s.children| && s.children[i].rectInParent.Some? ==>
      BottomRight(s.children[i].rectInParent.value).x <= m
    ensures (forall i :: 0 <= i < |s.children| ==> s.children[i].rectInParent.None?) ==> m == 0
    ensures (exists i :: 0 <= i < |s.children| && s.children[i].rectInParent.Some?) ==>
      exists i :: 0 <= i < |s.children| && s.children[i].rectInParent.Some? &&
        m == BottomRight(s.children[i].rectInParent.value).x
  {
    var rects := ChildRects(s);
    assert forall i :: 0 <= i < |s.children| ==> rects[i] == s.children[i].rectInParent;
    StackHints.StackHint(rects, true).preferred
  }

  /** `recalculate_size_hint_y`: the same for bottom edges, whatever the width and mode. */
  function SizeHintY(s: Stack, sizeX: int): (m: int)
    ensures forall i :: 0 <= i < |s.children| && s.children[i].rectInParent.Some? ==>
      BottomRight(s.children[i].rectInParent.value).y <= m
    ensures (forall i :: 0 <= i < |s.children| ==> s.children[i].rectInParent.None?) ==> m == 0
    ensures (exists i :: 0 <= i < |s.children| && s.children[i].rectInParent.Some?) ==>
      exists i :: 0 <= i < |s.children| && s.children[i].rectInParent.Some? &&
        m == BottomRight(s.children[i].rectInParent.value).y
  {
    var rects := ChildRects(s);
    assert forall i :: 0 <= i < |s.children| ==> rects[i] == s.children[i].rectInParent;
    StackHints.StackHint(rects, false).preferred
  }

  /** Adding a child can only grow the hints, and they then cover the new rectangle. */
  lemma AddGrowsHints(s: Stack, id: WidgetId, rect: Rect)
    ensures SizeHintX(s) <= SizeHintX(Add(s, id, rect)) ||
            (forall i :: 0 <= i < |s.children| ==> s.children[i].rectInParent.None?)
    ensures BottomRight(rect).x <= SizeHintX(Add(s, id, rect))
    ensures BottomRight(rect).y <= SizeHintY(Add(s, id, rect), 0)
  {
    var r := Add(s, id, rect);
    assert r.children[|s.children|].rectInParent == Some(rect);
    if exists i :: 0 <= i < |s.children| && s.children[i].rectInParent.Some? {
      var i :| 0 <= i < |s.children| && s.children[i].rectInParent.Some? &&
        SizeHintX(s) == BottomRight(s.children[i].rectInParent.value).x;
      assert r.children[i] == s.children[i];
    }
  }
}
