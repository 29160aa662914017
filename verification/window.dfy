/**
 * The first generation's window (`src/window.rs`): keyboard focus over
 * the list of focusable widgets, and the bookkeeping of mouse buttons,
 * click counts and the widget that grabbed the mouse.
 *
 * Widget lookup goes through the address book and the tree
 * (`get_widget_by_id_mut`); the focus events a call sends are returned in
 * order rather than applied to the widgets. Time is a number of
 * nanoseconds read from a monotonic clock and passed in.
 */
module Window {
  import opened Wrappers
  import opened Geometry
  import opened Address
  import System
  import Accessible
  import opened SrcWidget
  import SrcMount

  /** `DOUBLE_CLICK_TIMEOUT`, 300 ms, in nanoseconds. */
  const DoubleClickTimeout: int := 300_000_000

  datatype FocusReason = Mouse | Tab | Auto

  datatype FocusEvent = FocusOut(outId: WidgetId) | FocusIn(inId: WidgetId, reason: FocusReason)

  type MouseButton = nat

  datatype ElementState = Pressed | Released

  datatype WindowState = WindowState(
    root: Option<Widget>,
    focusable: seq<WidgetId>,
    focused: Option<WidgetId>,
    grabber: Option<WidgetId>,
    acc: Accessible.AccessibleNodes,
    cursorPosition: Option<Point>,
    pressedButtons: set<MouseButton>,
    numClicks: nat,
    lastClickButton: Option<MouseButton>,
    lastClickInstant: Option<int>)

  /** `get_widget_by_id_mut` on the window's root widget, if there is one. */
  function Find(s: WindowState, book: System.AddressBook<WidgetAddress>, id: WidgetId): Option<Widget> {
    match s.root
    case None => None
    case Some(root) => GetWidgetById(root, book, id).ToOption()
  }

  /** The accessibility tree's focus mirrors the window's: the focused widget, or the root node. */
  predicate AccessibleFocusAgrees(s: WindowState) {
    s.acc.focus == (if s.focused.Some? then s.focused.value else s.acc.root)
  }

  // ----------------------------------------------------------------- focus

  /** `unset_focus`. */
  function UnsetFocus(s: WindowState): (r: WindowState)
    ensures r.focused.None? && AccessibleFocusAgrees(r)
    ensures r.(focused := s.focused, acc := s.acc) == s
    ensures r.acc.root == s.acc.root
  {
    s.(focused := None, acc := Accessible.SetFocus(s.acc, None))
  }

  /**
   * `set_focus`: nothing happens without a root widget or when the target
   * exists but is not focusable. Otherwise the old focus is dropped (and
   * told so, if it can be found), and the target gets the focus if it can
   * be found; a target that cannot be found leaves no widget focused.
   */
  function SetFocus(s: WindowState, book: System.AddressBook<WidgetAddress>, id: WidgetId, reason: FocusReason)
    : (r: (WindowState, seq<FocusEvent>))
    ensures s.root.None? || (Find(s, book, id).Some? && !Find(s, book, id).value.isFocusable) ==> r == (s, [])
    ensures s.root.Some? && (Find(s, book, id).None? || Find(s, book, id).value.isFocusable) ==>
      r.0.focused == (if Find(s, book, id).Some? then Some(id) else None) &&
      (s.focused.Some? || Find(s, book, id).Some? ==> AccessibleFocusAgrees(r.0)) &&
      r.0.(focused := s.focused, acc := s.acc) == s && r.0.acc.root == s.acc.root &&
      r.1 == (if s.focused.Some? && Find(s, book, s.focused.value).Some? then [FocusOut(s.focused.value)] else []) +
             (if Find(s, book, id).Some? then [FocusIn(id, reason)] else [])
    ensures AccessibleFocusAgrees(s) ==> AccessibleFocusAgrees(r.0)
  {
    if s.root.None? then (s, [])
    else
      var target := Find(s, book, id);
      if target.Some? && !target.value.isFocusable then (s, [])
      else
        var out :=
          if s.focused.Some? && Find(s, book, s.focused.value).Some? then [FocusOut(s.focused.value)] else [];
        var s1 := if s.focused.Some? then UnsetFocus(s) else s;
        if target.Some? then
          (s1.(focused := Some(id), acc := Accessible.SetFocus(s1.acc, Some(id))), out + [FocusIn(id, reason)])
        else (s1, out)
  }

  /**
   * `check_auto_focus`: with nothing focused, the first focusable widget
   * is focused for reason `Auto`; otherwise nothing happens.
   */
  function CheckAutoFocus(s: WindowState, book: System.AddressBook<WidgetAddress>): (r: (WindowState, seq<FocusEvent>))
    ensures s.focused.Some? || |s.focusable| == 0 ==> r == (s, [])
    ensures s.focused.None? && |s.focusable| > 0 ==> r == SetFocus(s, book, s.focusable[0], Auto)
    ensures r.0.focusable == s.focusable
    ensures AccessibleFocusAgrees(s) ==> AccessibleFocusAgrees(r.0)
  {
    if s.focused.None? && |s.focusable| > 0 then SetFocus(s, book, s.focusable[0], Auto) else (s, [])
  }

  /** First position of `x` in `xs` (`iter().position`). */
  function Position(xs: seq<WidgetId>, x: WidgetId): (r: Option<nat>)
    ensures r.Some? ==> r.value < |xs| && xs[r.value] == x && forall j :: 0 <= j < r.value ==> xs[j] != x
    ensures r.None? <==> x !in xs
  {
    if |xs| == 0 then None
    else if xs[0] == x then Some(0)
    else match Position(xs[1..], x)
      case None => None
      case Some(i) => Some(i + 1)
  }

  /** The index Tab or Shift+Tab moves to: `(index + direction).rem_euclid(len)`. */
  function NextFocusIndex(index: nat, direction: int, len: nat): (r: nat)
    requires len > 0
    ensures r < len
    ensures 0 <= index + direction < len ==> r == index + direction
    ensures index + direction == len ==> r == 0
    ensures index + direction == -1 ==> r == len - 1
  {
    (index + direction) % len
  }

  /** Tab from the last widget wraps to the first and back again. */
  lemma FocusIndexWraps(index: nat, len: nat)
    requires index < len
    ensures NextFocusIndex(len - 1, 1, len) == 0
    ensures NextFocusIndex(0, -1, len) == len - 1
    ensures NextFocusIndex(NextFocusIndex(index, 1, len), -1, len) == index
  {
  }

  /**
   * `move_keyboard_focus`: nothing with an empty list. A focused widget
   * in the list hands the focus `direction` places on, cyclically; a
   * focused widget missing from the list loses the focus; then the
   * auto-focus check runs.
   */
  function MoveKeyboardFocus(s: WindowState, book: System.AddressBook<WidgetAddress>, direction: int)
    : (r: (WindowState, seq<FocusEvent>))
    ensures |s.focusable| == 0 ==> r == (s, [])
    ensures r.0.focusable == s.focusable
    ensures |s.focusable| > 0 && s.focused.Some? && s.focused.value !in s.focusable ==>
      r == CheckAutoFocus(UnsetFocus(s), book)
    ensures |s.focusable| > 0 && s.focused.None? ==> r == CheckAutoFocus(s, book)
    ensures |s.focusable| > 0 && s.focused.Some? && s.focused.value in s.focusable ==>
      var i := Position(s.focusable, s.focused.value).value;
      var next := s.focusable[NextFocusIndex(i, direction, |s.focusable|)];
      s.root.Some? && Find(s, book, next).Some? && Find(s, book, next).value.isFocusable ==>
        r.0.focused == Some(next)
    ensures AccessibleFocusAgrees(s) ==> AccessibleFocusAgrees(r.0)
  {
    if |s.focusable| == 0 then (s, [])
    else
      var (s1, ev1) :=
        match s.focused
        case None => (s, [])
        case Some(f) =>
          match Position(s.focusable, f)
          case None => (UnsetFocus(s), [])
          case Some(i) => SetFocus(s, book, s.focusable[NextFocusIndex(i, direction, |s.focusable|)], Tab);
      var (s2, ev2) := CheckAutoFocus(s1, book);
      assert |ev1| == 0 ==> ev1 + ev2 == ev2;
      (s2, ev1 + ev2)
  }

  /** `populate_focusable_widgets`: the focusable widgets' ids in pre-order. */
  function Populate(w: Widget): (r: seq<WidgetId>)
    ensures w.isFocusable ==> |r| > 0 && r[0] == w.id
    ensures forall x :: x in r <==>
      (w.isFocusable && x == w.id) ||
      exists i :: 0 <= i < |w.children| && x in Populate(w.children[i].widget)
    decreases w, 1
  {
    (if w.isFocusable then [w.id] else []) + PopulateChildren(w.children, |w.children|, w)
  }

  function PopulateChildren(cs: seq<Child>, upto: nat, ghost owner: Widget): (r: seq<WidgetId>)
    requires upto <= |cs|
    requires forall i :: 0 <= i < |cs| ==> cs[i].widget < owner
    ensures forall x :: x in r <==> exists i :: 0 <= i < upto && x in Populate(cs[i].widget)
    decreases owner, 0, upto
  {
    if upto == 0 then []
    else PopulateChildren(cs, upto - 1, owner) + Populate(cs[upto - 1].widget)
  }

  /**
   * Every focusable widget reachable from the root by child indices is
   * listed, and everything listed is such a widget.
   */
  lemma {:induction false} PopulateListsReachableFocusable(w: Widget, path: seq<nat>)
    ensures GetWidgetByAddress(w, path).Ok? && GetWidgetByAddress(w, path).value.isFocusable ==>
      GetWidgetByAddress(w, path).value.id in Populate(w)
    decreases |path|
  {
    if |path| > 0 && path[0] < |w.children| {
      PopulateListsReachableFocusable(w.children[path[0]].widget, path[1..]);
    }
  }

  lemma {:induction false} PopulateListsOnlyReachableFocusable(w: Widget, x: WidgetId)
    returns (path: seq<nat>)
    ensures x in Populate(w) ==>
      GetWidgetByAddress(w, path).Ok? &&
      GetWidgetByAddress(w, path).value.isFocusable && GetWidgetByAddress(w, path).value.id == x
    decreases w
  {
    path := [];
    if x in Populate(w) && !(w.isFocusable && x == w.id) {
      assert exists i :: 0 <= i < |w.children| && x in Populate(w.children[i].widget);
      var i: nat :| i < |w.children| && x in Populate(w.children[i].widget);
      var c := w.children[i].widget;
      var p := PopulateListsOnlyReachableFocusable(c, x);
      path := [i] + p;
      assert path[0] == i && path[1..] == p;
      assert GetWidgetByAddress(w, path) == GetWidgetByAddress(c, p);
    }
  }

  /** Every widget of the tree, each before its children, children in index order. */
  ghost function PreOrder(w: Widget): (r: seq<Widget>)
    decreases w, 1
  {
    [w] + PreOrderChildren(w.children, |w.children|, w)
  }

  ghost function PreOrderChildren(cs: seq<Child>, upto: nat, owner: Widget): (r: seq<Widget>)
    requires upto <= |cs|
    requires forall i :: 0 <= i < |cs| ==> cs[i].widget < owner
    decreases owner, 0, upto
  {
    if upto == 0 then [] else PreOrderChildren(cs, upto - 1, owner) + PreOrder(cs[upto - 1].widget)
  }

  /** The ids of the focusable widgets of a list, in list order. */
  ghost function FocusableIds(ws: seq<Widget>): seq<WidgetId> {
    if |ws| == 0 then [] else (if ws[0].isFocusable then [ws[0].id] else []) + FocusableIds(ws[1..])
  }

  lemma {:induction false} FocusableIdsAppend(a: seq<Widget>, b: seq<Widget>)
    ensures FocusableIds(a + b) == FocusableIds(a) + FocusableIds(b)
    decreases |a|
  {
    if |a| > 0 {
      assert (a + b)[1..] == a[1..] + b;
      FocusableIdsAppend(a[1..], b);
    } else {
      assert a + b == b;
    }
  }

  /**
   * The list is the pre-order walk of the whole tree with the widgets that
   * are not focusable left out: a widget comes before everything below
   * it, and an earlier child's subtree before a later one's.
   */
  lemma {:induction false} PopulateIsFocusablePreOrder(w: Widget)
    ensures Populate(w) == FocusableIds(PreOrder(w))
    decreases w, 1
  {
    PopulateChildrenIsFocusablePreOrder(w.children, |w.children|, w);
    FocusableIdsAppend([w], PreOrderChildren(w.children, |w.children|, w));
    assert [w][1..] == [];
  }

  lemma {:induction false} PopulateChildrenIsFocusablePreOrder(cs: seq<Child>, upto: nat, owner: Widget)
    requires upto <= |cs|
    requires forall i :: 0 <= i < |cs| ==> cs[i].widget < owner
    ensures PopulateChildren(cs, upto, owner) == FocusableIds(PreOrderChildren(cs, upto, owner))
    decreases owner, 0, upto
  {
    if upto > 0 {
      PopulateChildrenIsFocusablePreOrder(cs, upto - 1, owner);
      PopulateIsFocusablePreOrder(cs[upto - 1].widget);
      FocusableIdsAppend(PreOrderChildren(cs, upto - 1, owner), PreOrder(cs[upto - 1].widget));
    }
  }

  predicate NoDuplicates(xs: seq<WidgetId>) {
    forall i, j :: 0 <= i < j < |xs| ==> xs[i] != xs[j]
  }

  lemma NoDuplicatesAppend(a: seq<WidgetId>, b: seq<WidgetId>)
    requires NoDuplicates(a) && NoDuplicates(b)
    requires forall x :: x in a ==> x !in b
    ensures NoDuplicates(a + b)
  {
    forall i, j | 0 <= i < j < |a + b|
      ensures (a + b)[i] != (a + b)[j]
    {
      if i < |a| && j >= |a| {
        assert (a + b)[i] in a && (a + b)[j] == b[j - |a|];
      }
    }
  }

  /** Only ids of the tree are listed. */
  lemma {:induction false} PopulateWithinSubtree(w: Widget)
    ensures forall x :: x in Populate(w) ==> x in SrcMount.SubtreeIds(w)
    decreases w
  {
    forall i | 0 <= i < |w.children|
      ensures forall x :: x in Populate(w.children[i].widget) ==> x in SrcMount.SubtreeIds(w.children[i].widget)
    {
      PopulateWithinSubtree(w.children[i].widget);
    }
  }

  /** With ids that do not repeat in the tree, no widget is listed twice. */
  lemma {:induction false} PopulateHasNoDuplicates(w: Widget)
    requires SrcMount.DistinctIds(w)
    ensures NoDuplicates(Populate(w))
    decreases w, 1
  {
    PopulateChildrenHasNoDuplicates(w.children, |w.children|, w);
    var head: seq<WidgetId> := if w.isFocusable then [w.id] else [];
    var rest := PopulateChildren(w.children, |w.children|, w);
    forall x | x in rest
      ensures x != w.id
    {
      var i :| 0 <= i < |w.children| && x in Populate(w.children[i].widget);
      PopulateWithinSubtree(w.children[i].widget);
      assert x in SrcMount.ChildrenIdsFrom(w.children, 0);
    }
    NoDuplicatesAppend(head, rest);
  }

  lemma {:induction false} PopulateChildrenHasNoDuplicates(cs: seq<Child>, upto: nat, owner: Widget)
    requires upto <= |cs|
    requires forall i :: 0 <= i < |cs| ==> cs[i].widget < owner
    requires SrcMount.ChildrenDistinctFrom(cs, 0)
    ensures NoDuplicates(PopulateChildren(cs, upto, owner))
    decreases owner, 0, upto
  {
    if upto > 0 {
      var last := cs[upto - 1].widget;
      PopulateChildrenHasNoDuplicates(cs, upto - 1, owner);
      PopulateHasNoDuplicates(last);
      PopulateWithinSubtree(last);
      forall x | x in PopulateChildren(cs, upto - 1, owner)
        ensures x !in Populate(last)
      {
        var i :| 0 <= i < upto - 1 && x in Populate(cs[i].widget);
        PopulateWithinSubtree(cs[i].widget);
        assert SrcMount.SubtreeIds(cs[i].widget) !! SrcMount.SubtreeIds(last);
      }
      NoDuplicatesAppend(PopulateChildren(cs, upto - 1, owner), Populate(last));
    }
  }

  /**
   * `refresh_focusable_widgets`: the list is rebuilt from the tree, a
   * focused widget that is no longer in it loses the focus, then the
   * auto-focus check runs. Afterwards any focused widget is in the list.
   */
  function RefreshFocusableWidgets(s: WindowState, book: System.AddressBook<WidgetAddress>)
    : (r: (WindowState, seq<FocusEvent>))
    ensures r.0.focusable == (if s.root.Some? then Populate(s.root.value) else [])
    ensures r.0.focused.Some? ==> r.0.focused.value in r.0.focusable
    ensures s.focused.Some? && s.focused.value in r.0.focusable ==> r.0.focused == s.focused
    ensures AccessibleFocusAgrees(s) ==> AccessibleFocusAgrees(r.0)
  {
    var list := if s.root.Some? then Populate(s.root.value) else [];
    var s1 := s.(focusable := list);
    var s2 := if s1.focused.Some? && s1.focused.value !in list then UnsetFocus(s1) else s1;
    CheckAutoFocus(s2, book)
  }

  // ----------------------------------------------------------------- mouse

  /** Where the window sends a mouse event. */
  datatype MouseRoute =
    | NotRouted
    | ToGrabber(grabberId: WidgetId, posInWidget: Point)
    | ToRoot(posInWindow: Point)

  /** `Instant::elapsed`, which never goes below zero. */
  function Elapsed(since: int, now: int): nat {
    if now < since then 0 else now - since
  }

  /** The grabber gets the event in its own coordinates, if it can be found and has a rectangle. */
  function GrabberRoute(s: WindowState, book: System.AddressBook<WidgetAddress>, g: WidgetId, pos: Point): MouseRoute {
    match Find(s, book, g)
    case None => NotRouted
    case Some(w) =>
      match w.rectInWindow
      case None => NotRouted
      case Some(rect) => ToGrabber(g, Sub(pos, rect.topLeft))
  }

  /**
   * The button bookkeeping of a press: a press of the same button as last
   * time within the timeout counts one more click; any other press starts
   * again at one and remembers the button.
   */
  function RecordPress(s: WindowState, button: MouseButton, now: int): (r: WindowState)
    ensures r.pressedButtons == s.pressedButtons + {button}
    ensures r.lastClickInstant == Some(now) && r.lastClickButton == Some(button)
    ensures r.numClicks ==
      if s.lastClickInstant.Some? && Elapsed(s.lastClickInstant.value, now) < DoubleClickTimeout &&
         s.lastClickButton == Some(button)
      then s.numClicks + 1 else 1
    ensures r.(pressedButtons := s.pressedButtons, numClicks := s.numClicks,
               lastClickButton := s.lastClickButton, lastClickInstant := s.lastClickInstant) == s
  {
    var within := s.lastClickInstant.Some? && Elapsed(s.lastClickInstant.value, now) < DoubleClickTimeout;
    var s1 :=
      if within && s.lastClickButton == Some(button) then s.(numClicks := s.numClicks + 1)
      else s.(numClicks := 1, lastClickButton := Some(button));
    s1.(lastClickInstant := Some(now), pressedButtons := s.pressedButtons + {button})
  }

  /**
   * The window's `MouseInput` handling. `rootAcceptedBy` is the widget the
   * root dispatch reports as having accepted the event (it is only looked
   * at when the event goes to the root). With a grabber the event goes to
   * it, and the grab ends once no button is held; without one it goes to
   * the root, and an accepted press makes the accepting widget the grabber.
   */
  function MouseInput(s: WindowState, book: System.AddressBook<WidgetAddress>, state: ElementState,
                      button: MouseButton, now: int, rootAcceptedBy: Option<WidgetId>)
    : (r: (WindowState, MouseRoute))
    ensures r.0.pressedButtons ==
      if state == Pressed then s.pressedButtons + {button} else s.pressedButtons - {button}
    ensures state == Pressed ==> r.0.numClicks >= 1
    ensures state == Released ==> r.0.numClicks == s.numClicks
    ensures r.0.focused == s.focused && r.0.focusable == s.focusable && r.0.acc == s.acc
    ensures s.cursorPosition.None? || s.root.None? ==> r.1 == NotRouted && r.0.grabber == s.grabber
    ensures s.cursorPosition.Some? && s.root.Some? && s.grabber.None? ==>
      r.1 == ToRoot(s.cursorPosition.value) &&
      r.0.grabber == (if state == Pressed && rootAcceptedBy.Some? then rootAcceptedBy else None)
    ensures s.cursorPosition.Some? && s.root.Some? && s.grabber.Some? ==>
      r.1 == GrabberRoute(s, book, s.grabber.value, s.cursorPosition.value) &&
      r.0.grabber == (if r.0.pressedButtons == {} then None else s.grabber)
  {
    var s1 := if state == Pressed then RecordPress(s, button, now)
              else s.(pressedButtons := s.pressedButtons - {button});
    match s1.cursorPosition
    case None => (s1, NotRouted)
    case Some(pos) =>
      if s1.root.None? then (s1, NotRouted)
      else match s1.grabber
        case Some(g) =>
          var route := GrabberRoute(s1, book, g, pos);
          (if s1.pressedButtons == {} then s1.(grabber := None) else s1, route)
        case None =>
          (if state == Pressed && rootAcceptedBy.Some? then s1.(grabber := rootAcceptedBy) else s1, ToRoot(pos))
  }

  /**
   * A press that some widget accepts, followed by the release of that
   * button with no other button held, grabs the mouse for exactly that
   * widget in between and releases the grab at the end.
   */
  lemma PressReleaseGrabCycle(s: WindowState, book: System.AddressBook<WidgetAddress>, button: MouseButton,
                              t0: int, t1: int, a: WidgetId, any: Option<WidgetId>)
    requires s.cursorPosition.Some? && s.root.Some? && s.grabber.None? && s.pressedButtons == {}
    ensures
      var s1 := MouseInput(s, book, Pressed, button, t0, Some(a)).0;
      var s2 := MouseInput(s1, book, Released, button, t1, any);
      s1.grabber == Some(a) &&
      s2.1 == GrabberRoute(s1, book, a, s.cursorPosition.value) &&
      s2.0.grabber.None? && s2.0.pressedButtons == {}
  {
    var s1 := MouseInput(s, book, Pressed, button, t0, Some(a)).0;
    assert s1.pressedButtons - {button} == {};
  }

  /**
   * Two presses of the same button closer together than the timeout form
   * a double click; a press of another button starts a new count.
   */
  lemma DoubleClickCounting(s: WindowState, book: System.AddressBook<WidgetAddress>, b: MouseButton, other: MouseButton,
                            t0: int, t1: int, acc: Option<WidgetId>)
    requires s.lastClickInstant.None?
    requires t0 <= t1 < t0 + DoubleClickTimeout && other != b
    ensures
      var s1 := MouseInput(s, book, Pressed, b, t0, acc).0;
      var s2 := MouseInput(s1, book, Pressed, b, t1, acc).0;
      var s3 := MouseInput(s1, book, Pressed, other, t1, acc).0;
      s1.numClicks == 1 && s2.numClicks == 2 && s3.numClicks == 1
  {
  }

  /**
   * `CursorMoved`: a position equal to the stored one is ignored;
   * otherwise it is stored and the event goes to the grabber, or to the
   * root when there is none.
   */
  function CursorMoved(s: WindowState, book: System.AddressBook<WidgetAddress>, pos: Point)
    : (r: (WindowState, MouseRoute))
    ensures r.0.cursorPosition == Some(pos) && r.0.(cursorPosition := s.cursorPosition) == s
    ensures s.cursorPosition == Some(pos) || s.root.None? ==> r.1 == NotRouted
    ensures s.cursorPosition != Some(pos) && s.root.Some? && s.grabber.None? ==> r.1 == ToRoot(pos)
    ensures s.cursorPosition != Some(pos) && s.root.Some? && s.grabber.Some? ==>
              r.1 == GrabberRoute(s, book, s.grabber.value, pos)
  {
    if s.cursorPosition == Some(pos) then (s, NotRouted)
    else
      var s1 := s.(cursorPosition := Some(pos));
      if s1.root.None? then (s1, NotRouted)
      else match s1.grabber
        case Some(g) => (s1, GrabberRoute(s1, book, g, pos))
        case None => (s1, ToRoot(pos))
  }

  /** Moving to the same place twice dispatches once. */
  lemma CursorMovedIgnoresRepeat(s: WindowState, book: System.AddressBook<WidgetAddress>, pos: Point)
    ensures var s1 := CursorMoved(s, book, pos).0; CursorMoved(s1, book, pos) == (s1, NotRouted)
  {
  }
}
