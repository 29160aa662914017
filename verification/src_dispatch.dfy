/**
 * How the first generation routes a mouse button event down the widget
 * tree (`WidgetExt::dispatch` in `src/widgets/mod.rs`): children are
 * tried in index order, each only when its rectangle holds the pointer and
 * with the position made relative to it; the first child that accepts
 * stops the search; otherwise the widget's own handler decides. The
 * innermost accepting widget is recorded as the event's `accepted_by`.
 */
module SrcDispatch {
  import opened Wrappers
  import opened Geometry
  import opened Address
  import opened SrcWidget

  datatype HandlerError = HandlerError

  /** The widget's own `on_event` for this event, by id and local position; widget code is not modelled. */
  type Handler = (WidgetId, Point) -> Result<bool, HandlerError>

  /** `map_to_child`: the event reaches the child only inside its rect, in the child's coordinates. */
  function MapToChild(rectInParent: Rect, pos: Point): (r: Option<Point>)
    ensures r.Some? <==> Contains(rectInParent, pos)
    ensures r.Some? ==> Add(r.value, rectInParent.topLeft) == pos
  {
    if Contains(rectInParent, pos) then Some(Sub(pos, rectInParent.topLeft)) else None
  }

  /** A handler error is reported and counts as "not accepted". */
  function OwnResult(h: Handler, id: WidgetId, pos: Point): bool {
    match h(id, pos)
    case Ok(b) => b
    case Err(_) => false
  }

  datatype Dispatched = Dispatched(accepted: bool, acceptedBy: Option<WidgetId>)

  /** Where the child at `i` would receive the event, if at all. */
  function ChildPos(w: Widget, i: nat, pos: Point): Option<Point>
    requires i < |w.children|
  {
    match w.children[i].rectInParent
    case None => None
    case Some(rect) => MapToChild(rect, pos)
  }

  function DispatchMouseInput(w: Widget, pos: Point, acceptedBy: Option<WidgetId>, h: Handler): (r: Dispatched)
    ensures acceptedBy.Some? ==> r.acceptedBy == acceptedBy
    ensures acceptedBy.None? ==> (r.acceptedBy.Some? <==> r.accepted)
    ensures !r.accepted ==> r.acceptedBy == acceptedBy
    ensures
      var c := DispatchToChildren(w, 0, pos, acceptedBy, h);
      r.accepted == (c.0.accepted || OwnResult(h, w.id, pos)) &&
      (acceptedBy.None? && !c.0.accepted && r.accepted ==> r.acceptedBy == Some(w.id))
    decreases w, 1
  {
    var (c, _) := DispatchToChildren(w, 0, pos, acceptedBy, h);
    var accepted := c.accepted || OwnResult(h, w.id, pos);
    var claimed := if c.acceptedBy.None? && accepted then Some(w.id) else c.acceptedBy;
    Dispatched(accepted, claimed)
  }

  /**
   * The loop over the children from index `from`. The second component is
   * the index of the child that accepted, if one did.
   */
  function DispatchToChildren(w: Widget, from: nat, pos: Point, acceptedBy: Option<WidgetId>, h: Handler)
    : (r: (Dispatched, Option<nat>))
    requires from <= |w.children|
    ensures r.0.accepted <==> r.1.Some?
    ensures acceptedBy.Some? ==> r.0.acceptedBy == acceptedBy
    ensures acceptedBy.None? ==> (r.0.acceptedBy.Some? <==> r.0.accepted)
    ensures !r.0.accepted ==> r.0.acceptedBy == acceptedBy
    ensures r.1.Some? ==>
      var i := r.1.value;
      from <= i < |w.children| && ChildPos(w, i, pos).Some? &&
      r.0 == DispatchMouseInput(w.children[i].widget, ChildPos(w, i, pos).value, acceptedBy, h)
    ensures forall k :: from <= k < |w.children| && (r.1.None? || k < r.1.value) && ChildPos(w, k, pos).Some? ==>
      !DispatchMouseInput(w.children[k].widget, ChildPos(w, k, pos).value, acceptedBy, h).accepted
    decreases w, 0, |w.children| - from
  {
    if from == |w.children| then (Dispatched(false, acceptedBy), None)
    else
      match ChildPos(w, from, pos)
      case None => DispatchToChildren(w, from + 1, pos, acceptedBy, h)
      case Some(p) =>
        var d := DispatchMouseInput(w.children[from].widget, p, acceptedBy, h);
        if d.accepted then (d, Some(from))
        else DispatchToChildren(w, from + 1, pos, acceptedBy, h)
  }
}
