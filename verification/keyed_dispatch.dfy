/**
 * Event routing in the second generation (`WidgetExt::dispatch` in
 * `salvation/src/widgets/ext_impl.rs`, with the event payloads of
 * `salvation/src/event.rs`).
 *
 * Pointer events go to children in reverse order (the last child is on
 * top), each child only if it has a rectangle that the pointer hits or it
 * asks for every mouse event, and only while the receiving widget is
 * enabled. The first child that accepts ends the search; otherwise the
 * widget's event filter, then its handler, decide. A `ScrollToRect` event
 * hops down its address one segment at a time.
 */
module KeyedDispatch {
  import opened Wrappers
  import opened Geometry
  import opened Address
  import opened KeyedTree

  datatype PointerKind = MouseInput | MouseScroll | MouseMove

  /**
   * The events whose routing is modelled. The three pointer events share
   * their payload shape: device, position in the receiver's coordinates,
   * position in the window; the button, scroll delta and phase are not
   * looked at by the routing and are left out.
   */
  datatype Event =
    | Pointer(kind: PointerKind, deviceId: nat, pos: Point, posInWindow: Point)
    | MouseEnter(enterDeviceId: nat, enterPos: Point)
    | KeyboardInput
    | InputMethod
    | ScrollToRect(address: KeyAddress)

  /** The events a disabled widget neither handles nor forwards. */
  predicate GatedByEnabled(e: Event) {
    e.Pointer? || e.MouseEnter? || e.KeyboardInput? || e.InputMethod?
  }

  /** The optional `event_filter`; `None` means no filter is installed. */
  type Filter = (WidgetId, Event) -> Option<Result<bool, HandlerError>>

  /** The widget's own `handle_event`. */
  type Handler = (WidgetId, Event) -> Result<bool, HandlerError>

  /**
   * `map_to_child` of the three pointer events: the child gets the event
   * if it asks for all of them or its rectangle holds the pointer, with
   * the position made relative to the child and nothing else changed.
   */
  function MapToChild(e: Event, rectInParent: Rect, force: bool): (r: Option<Event>)
    requires e.Pointer?
    ensures r.Some? <==> force || Contains(rectInParent, e.pos)
    ensures r.Some? ==> r.value.Pointer? && r.value == e.(pos := r.value.pos) && Add(r.value.pos, rectInParent.topLeft) == e.pos
    ensures r.Some? && !force ==> Contains(Rect(Point(0, 0), rectInParent.size), r.value.pos)
  {
    if force || Contains(rectInParent, e.pos) then Some(e.(pos := Sub(e.pos, rectInParent.topLeft)))
    else None
  }

  /** `create_enter_event`: the enter event keeps the move's device and position. */
  function CreateEnterEvent(e: Event): (r: Event)
    requires e.Pointer? && e.kind == MouseMove
    ensures r.MouseEnter? && r.enterDeviceId == e.deviceId && r.enterPos == e.pos
  {
    MouseEnter(e.deviceId, e.pos)
  }

  /** What the widget's own code made of an event, and whether the handler was consulted. */
  datatype OwnOutcome = OwnOutcome(accepted: bool, handlerRan: bool)

  /** A failure of the filter or the handler is reported and counts as "not accepted". */
  function FilterAccepts(f: Filter, id: WidgetId, e: Event): bool {
    match f(id, e)
    case None => false
    case Some(Ok(b)) => b
    case Some(Err(_)) => false
  }

  function HandlerAccepts(h: Handler, id: WidgetId, e: Event): bool {
    match h(id, e)
    case Ok(b) => b
    case Err(_) => false
  }

  /** The filter gets first refusal; the handler runs only if the filter did not accept. */
  function OwnHandlers(f: Filter, h: Handler, id: WidgetId, e: Event): (r: OwnOutcome)
    ensures r.handlerRan <==> !FilterAccepts(f, id, e)
    ensures r.accepted <==> FilterAccepts(f, id, e) || HandlerAccepts(h, id, e)
    ensures r.handlerRan ==> r.accepted == HandlerAccepts(h, id, e)
  {
    if FilterAccepts(f, id, e) then OwnOutcome(true, false)
    else OwnOutcome(HandlerAccepts(h, id, e), true)
  }

  function ShouldDispatch(n: Node, e: Event): bool {
    !GatedByEnabled(e) || IsEnabled(n)
  }

  /**
   * An event the widget handles itself without forwarding (mouse enter,
   * keyboard, input method): a disabled widget refuses it untouched.
   */
  function DispatchToSelf(n: Node, e: Event, f: Filter, h: Handler): (r: OwnOutcome)
    requires !e.Pointer? && !e.ScrollToRect?
    ensures !ShouldDispatch(n, e) ==> r == OwnOutcome(false, false)
    ensures ShouldDispatch(n, e) ==> r == OwnHandlers(f, h, n.id, e)
  {
    if ShouldDispatch(n, e) then OwnHandlers(f, h, n.id, e) else OwnOutcome(false, false)
  }

  /**
   * Result of a pointer dispatch: whether the widget (or a descendant)
   * accepted, and the window's record of which widget accepted the
   * current mouse event.
   */
  datatype Dispatched = Dispatched(accepted: bool, acceptedBy: Option<WidgetId>)

  /** The event the child at `i` would receive, if any. */
  function ChildEvent(n: Node, i: nat, e: Event): Option<Event>
    requires e.Pointer? && i < |n.children|
  {
    match RectInParent(n.children[i])
    case None => None
    case Some(rect) => MapToChild(e, rect, n.children[i].receivesAllMouseEvents)
  }

  /**
   * Reference definition of acceptance, with the window's record left
   * out: an enabled widget accepts a pointer event iff one of its children
   * that the event reaches accepts it, or its own filter or handler does.
   */
  predicate Accepts(n: Node, e: Event, f: Filter, h: Handler)
    requires e.Pointer?
    decreases n, 1
  {
    IsEnabled(n) && (AcceptsChildren(n, |n.children|, e, f, h) || OwnHandlers(f, h, n.id, e).accepted)
  }

  /** Some child below index `upto` that the event reaches accepts it. */
  predicate AcceptsChildren(n: Node, upto: nat, e: Event, f: Filter, h: Handler)
    requires e.Pointer? && upto <= |n.children|
    decreases n, 0, upto
  {
    upto > 0 &&
    (AcceptsChildren(n, upto - 1, e, f, h) ||
     match ChildEvent(n, upto - 1, e)
     case None => false
     case Some(ce) => Accepts(n.children[upto - 1], ce, f, h))
  }

  /** A widget with a rectangle in the window; only such a widget can take the record of a mouse move. */
  predicate HasWindowRect(n: Node) {
    n.geometry.Some?
  }

  /**
   * A pointer event arriving at `n`, with `acceptedBy` the window's record
   * of which widget accepted the current mouse event so far.
   *
   * Mouse input and scroll events that end up accepted are recorded for
   * the innermost accepting widget. A mouse move is recorded differently:
   * after its children, every widget it reaches takes the record when
   * nothing is recorded yet and the widget has a window rectangle, whether
   * or not it is enabled and whether or not anyone accepted. The enter
   * event an enabled widget sends itself when no child accepted would
   * record the same widget under the same condition, so it changes nothing
   * here. A record, once made, is never replaced.
   */
  function Dispatch(n: Node, e: Event, f: Filter, h: Handler, acceptedBy: Option<WidgetId>): (r: Dispatched)
    requires e.Pointer?
    ensures r.accepted == Accepts(n, e, f, h)
    ensures acceptedBy.Some? ==> r.acceptedBy == acceptedBy
    ensures e.kind != MouseMove && !IsEnabled(n) ==> r == Dispatched(false, acceptedBy)
    ensures e.kind != MouseMove && !r.accepted ==> r.acceptedBy == acceptedBy
    ensures e.kind != MouseMove && acceptedBy.None? ==> (r.acceptedBy.Some? <==> r.accepted)
    ensures e.kind == MouseMove && acceptedBy.None? && HasWindowRect(n) ==> r.acceptedBy.Some?
    ensures e.kind == MouseMove && acceptedBy.None? && !IsEnabled(n) ==>
      (r.acceptedBy.Some? <==> HasWindowRect(n)) && (r.acceptedBy.Some? ==> r.acceptedBy == Some(n.id))
    ensures IsEnabled(n) ==>
      var c := DispatchChildren(n, |n.children|, e, f, h, acceptedBy);
      (c.0.acceptedBy.Some? ==> r.acceptedBy == c.0.acceptedBy) &&
      (e.kind != MouseMove && acceptedBy.None? && !c.0.accepted && r.accepted ==> r.acceptedBy == Some(n.id)) &&
      (e.kind == MouseMove && c.0.acceptedBy.None? ==>
         (r.acceptedBy.Some? <==> HasWindowRect(n)) && (r.acceptedBy.Some? ==> r.acceptedBy == Some(n.id)))
    decreases n, 1
  {
    var (c, _) :=
      if IsEnabled(n) then DispatchChildren(n, |n.children|, e, f, h, acceptedBy)
      else (Dispatched(false, acceptedBy), None);
    var accepted := IsEnabled(n) && (c.accepted || OwnHandlers(f, h, n.id, e).accepted);
    var claimed :=
      if c.acceptedBy.Some? then c.acceptedBy
      else if e.kind != MouseMove && accepted then Some(n.id)
      else if e.kind == MouseMove && HasWindowRect(n) then Some(n.id)
      else None;
    Dispatched(accepted, claimed)
  }

  /**
   * The reverse loop over the children below index `upto`, handing the
   * window's record from one child to the next. The second component is
   * the index of the child that accepted; every child above it that the
   * event reached refused.
   */
  function DispatchChildren(n: Node, upto: nat, e: Event, f: Filter, h: Handler, acceptedBy: Option<WidgetId>)
    : (r: (Dispatched, Option<nat>))
    requires e.Pointer? && upto <= |n.children|
    ensures r.0.accepted <==> r.1.Some?
    ensures r.0.accepted == AcceptsChildren(n, upto, e, f, h)
    ensures acceptedBy.Some? ==> r.0.acceptedBy == acceptedBy
    ensures e.kind != MouseMove && !r.0.accepted ==> r.0.acceptedBy == acceptedBy
    ensures e.kind != MouseMove && acceptedBy.None? ==> (r.0.acceptedBy.Some? <==> r.0.accepted)
    ensures r.1.Some? ==>
      var i := r.1.value;
      i < upto && ChildEvent(n, i, e).Some? && Accepts(n.children[i], ChildEvent(n, i, e).value, f, h) &&
      (e.kind != MouseMove ==> r.0 == Dispatch(n.children[i], ChildEvent(n, i, e).value, f, h, acceptedBy))
    ensures forall k: nat :: (r.1.None? || r.1.value < k) && k < upto && ChildEvent(n, k, e).Some? ==>
      !Accepts(n.children[k], ChildEvent(n, k, e).value, f, h)
    decreases n, 0, upto
  {
    if upto == 0 then (Dispatched(false, acceptedBy), None)
    else
      var i := upto - 1;
      match ChildEvent(n, i, e)
      case None => DispatchChildren(n, i, e, f, h, acceptedBy)
      case Some(ce) =>
        var d := Dispatch(n.children[i], ce, f, h, acceptedBy);
        if d.accepted then (d, Some(i))
        else DispatchChildren(n, i, e, f, h, d.acceptedBy)
  }

  /**
   * Whoever takes the record of a mouse move that arrived with nothing
   * recorded is a widget of the subtree with a window rectangle.
   */
  lemma {:induction false} MoveRecordHasWindowRect(n: Node, e: Event, f: Filter, h: Handler)
    returns (path: seq<nat>)
    requires e.Pointer? && e.kind == MouseMove
    ensures Dispatch(n, e, f, h, None).acceptedBy.Some? ==>
      NodeAt(n, path).Some? && HasWindowRect(NodeAt(n, path).value) &&
      NodeAt(n, path).value.id == Dispatch(n, e, f, h, None).acceptedBy.value
    decreases n, 1
  {
    path := [];
    if IsEnabled(n) {
      var c := DispatchChildren(n, |n.children|, e, f, h, None);
      if c.0.acceptedBy.Some? {
        var i, p := ChildrenMoveRecordHasWindowRect(n, |n.children|, e, f, h);
        path := [i] + p;
        assert path[0] == i && path[1..] == p;
      }
    }
  }

  lemma {:induction false} ChildrenMoveRecordHasWindowRect(n: Node, upto: nat, e: Event, f: Filter, h: Handler)
    returns (i: nat, path: seq<nat>)
    requires e.Pointer? && e.kind == MouseMove && upto <= |n.children|
    ensures DispatchChildren(n, upto, e, f, h, None).0.acceptedBy.Some? ==>
      i < |n.children| && NodeAt(n.children[i], path).Some? && HasWindowRect(NodeAt(n.children[i], path).value) &&
      NodeAt(n.children[i], path).value.id == DispatchChildren(n, upto, e, f, h, None).0.acceptedBy.value
    decreases n, 0, upto
  {
    i, path := 0, [];
    if upto > 0 {
      var k := upto - 1;
      match ChildEvent(n, k, e)
      case None =>
        i, path := ChildrenMoveRecordHasWindowRect(n, k, e, f, h);
      case Some(ce) =>
        // the child is reached through its geometry, so it has a window
        // rectangle and takes the record itself if no descendant did
        i := k;
        path := MoveRecordHasWindowRect(n.children[k], ce, f, h);
    }
  }

  /**
   * A leaf with a window rectangle takes the record of a mouse move that
   * finds nothing recorded, enabled or not, whatever its handlers answer.
   */
  lemma LeafTakesMoveRecord(n: Node, e: Event, f: Filter, h: Handler)
    requires e.Pointer? && e.kind == MouseMove && |n.children| == 0 && HasWindowRect(n)
    ensures Dispatch(n, e, f, h, None).acceptedBy == Some(n.id)
  {
  }

  // ------------------------------------------------------- scroll to rect

  /**
   * The child a `ScrollToRect` event is passed to after `n` did not
   * accept it: only when the target lies strictly below `n`, the next
   * segment's key names a child, and that child has the segment's id.
   */
  function ScrollTarget(n: Node, target: KeyAddress): (r: Option<nat>)
    ensures r.Some? ==>
      r.value < |n.children| &&
      target != n.address && KeyStartsWith(target, n.address) &&
      ItemAt(target, |n.address.path|) == Some(Segment(n.children[r.value].key, n.children[r.value].id))
    ensures r.None? && target != n.address && KeyStartsWith(target, n.address) && KeysUnique(n.children) ==>
      forall i :: 0 <= i < |n.children| ==>
        ItemAt(target, |n.address.path|) != Some(Segment(n.children[i].key, n.children[i].id))
  {
    if target == n.address || !KeyStartsWith(target, n.address) then None
    else match ItemAt(target, |n.address.path|)
      case None => None
      case Some(seg) =>
        match IndexOfKey(n.children, seg.key)
        case None => None
        case Some(i) => if n.children[i].id == seg.id then Some(i) else None
  }

  /**
   * The widgets a `ScrollToRect` event reaches, in order, when it is
   * dispatched to `n`: the event is never gated, and it travels on only
   * while nobody accepts it.
   */
  function ScrollToRectPath(n: Node, target: KeyAddress, f: Filter, h: Handler): (r: seq<WidgetId>)
    ensures |r| >= 1 && r[0] == n.id
    ensures OwnHandlers(f, h, n.id, ScrollToRect(target)).accepted ==> r == [n.id]
    ensures ScrollTarget(n, target).None? ==> r == [n.id]
    decreases n
  {
    if OwnHandlers(f, h, n.id, ScrollToRect(target)).accepted then [n.id]
    else match ScrollTarget(n, target)
      case None => [n.id]
      case Some(i) => [n.id] + ScrollToRectPath(n.children[i], target, f, h)
  }

  /**
   * In a tree with consistent addresses, a `ScrollToRect` event that no
   * widget accepts ends at the widget living at the target address: the
   * one lookup finds.
   */
  lemma {:induction false} ScrollToRectReachesTarget(n: Node, target: KeyAddress, f: Filter, h: Handler)
    requires AddressConsistent(n)
    requires forall id :: !OwnHandlers(f, h, id, ScrollToRect(target)).accepted
    requires GetWidgetByAddress(n, target).Ok? && GetWidgetByAddress(n, target).value.address == target
    ensures ScrollToRectPath(n, target, f, h)[|ScrollToRectPath(n, target, f, h)| - 1] ==
            GetWidgetByAddress(n, target).value.id
    decreases n
  {
    var x := GetWidgetByAddress(n, target).value;
    var rest := target.path[|n.address.path|..];
    KeyStartsWithIsPrefixOrder(target, n.address, n.address);
    if target != n.address {
      assert |rest| > 0;
      var seg := rest[0];
      assert seg == target.path[|n.address.path|];
      var i := IndexOfKey(n.children, seg.key).value;
      var c := n.children[i];
      assert Walk(n, rest) == Walk(c, rest[1..]);
      WalkFollowsKeys(c, rest[1..]);
      KeyJoinDescends(n.address, c.key, c.id, target);
      assert ScrollTarget(n, target) == Some(i);
      assert rest[1..] == target.path[|c.address.path|..];
      KeyStartsWithIsPrefixOrder(target, c.address, c.address);
      assert GetWidgetByAddress(c, target) == Walk(c, rest[1..]);
      ScrollToRectReachesTarget(c, target, f, h);
    }
  }
}
