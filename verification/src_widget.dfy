/**
 * The widget tree of the first generation (`src/widgets/mod.rs`): the
 * state every widget shares (`WidgetCommon`), how visibility, enabled
 * state and style flow from parent to child, the size-hint caches, and
 * lookup by address or id.
 */
module SrcWidget {
  import opened Wrappers
  import opened Geometry
  import opened Address
  import System

  /** A computed style is identified, not described. */
  type StyleId = nat

  /** What a parent hands down to its children. */
  datatype Scope = Scope(isVisible: bool, isEnabled: bool, style: StyleId)

  /** The system's default style. */
  const DefaultStyle: StyleId := 0

  const DefaultScope := Scope(true, true, DefaultStyle)

  datatype MountPoint = MountPoint(address: WidgetAddress, parentId: Option<WidgetId>, indexInParent: nat)

  datatype Widget = Widget(
    id: WidgetId,
    isFocusable: bool,
    isFocused: bool,
    isWindowFocused: bool,
    parentScope: Scope,
    isMouseOver: bool,
    mountPoint: Option<MountPoint>,
    rectInWindow: Option<Rect>,
    children: seq<Child>,
    sizeHintXCache: Option<SizeHint>,
    sizeHintYCache: map<int, SizeHint>,
    pendingAccessibleUpdate: bool,
    isExplicitlyEnabled: bool,
    isExplicitlyVisible: bool,
    explicitStyle: Option<StyleId>)

  datatype Child = Child(widget: Widget, rectInParent: Option<Rect>)

  /** `WidgetCommon::new` with a freshly allocated id. */
  function NewWidget(ids: System.IdCounter): (r: (Widget, System.IdCounter))
    ensures r.0.id == ids.next && r.1.next > r.0.id
    ensures r.0.mountPoint.None? && |r.0.children| == 0 && !r.0.isFocusable
    ensures IsVisible(r.0) && IsEnabled(r.0) && !IsFocused(r.0) && Style(r.0) == DefaultStyle
  {
    var (id, ids1) := System.NewId(ids);
    (Widget(id, false, false, false, DefaultScope, false, None, None, [], None, map[], false, true, true, None), ids1)
  }

  predicate IsVisible(w: Widget) {
    w.parentScope.isVisible && w.isExplicitlyVisible
  }

  predicate IsEnabled(w: Widget) {
    w.parentScope.isEnabled && w.isExplicitlyEnabled
  }

  /** Focused means the widget holds the focus and its window holds the system focus. */
  predicate IsFocused(w: Widget) {
    w.isFocused && w.isWindowFocused
  }

  function Style(w: Widget): StyleId {
    w.explicitStyle.UnwrapOr(w.parentScope.style)
  }

  function EffectiveScope(w: Widget): (s: Scope)
    ensures s.isVisible <==> w.parentScope.isVisible && w.isExplicitlyVisible
    ensures s.isEnabled <==> w.parentScope.isEnabled && w.isExplicitlyEnabled
    ensures w.explicitStyle.None? ==> s.style == w.parentScope.style
    ensures w.explicitStyle.Some? ==> s.style == w.explicitStyle.value
  {
    Scope(IsVisible(w), IsEnabled(w), Style(w))
  }

  // ------------------------------------------------------------ shape

  /** Same ids, same child rects, same nesting: only per-widget state may differ. */
  predicate SameShape(a: Widget, b: Widget)
    decreases a
  {
    a.id == b.id && |a.children| == |b.children| &&
    forall i :: 0 <= i < |a.children| ==>
      a.children[i].rectInParent == b.children[i].rectInParent &&
      SameShape(a.children[i].widget, b.children[i].widget)
  }

  lemma {:induction false} SameShapeReflexive(w: Widget)
    ensures SameShape(w, w)
    decreases w
  {
    forall i | 0 <= i < |w.children|
      ensures SameShape(w.children[i].widget, w.children[i].widget)
    {
      SameShapeReflexive(w.children[i].widget);
    }
  }

  lemma SameShapeReflexiveAll(cs: seq<Child>)
    ensures forall j :: 0 <= j < |cs| ==> SameShape(cs[j].widget, cs[j].widget)
  {
    forall j | 0 <= j < |cs|
      ensures SameShape(cs[j].widget, cs[j].widget)
    {
      SameShapeReflexive(cs[j].widget);
    }
  }

  lemma {:induction false} SameShapeTransitive(a: Widget, b: Widget, c: Widget)
    requires SameShape(a, b) && SameShape(b, c)
    ensures SameShape(a, c)
    decreases a
  {
    forall i | 0 <= i < |a.children|
      ensures SameShape(a.children[i].widget, c.children[i].widget)
    {
      SameShapeTransitive(a.children[i].widget, b.children[i].widget, c.children[i].widget);
    }
  }

  // ------------------------------------------------------------ scope

  /** Every child's parent scope is its parent's effective scope, all the way down. */
  predicate ScopeConsistent(w: Widget)
    decreases w
  {
    forall i :: 0 <= i < |w.children| ==>
      w.children[i].widget.parentScope == EffectiveScope(w) &&
      ScopeConsistent(w.children[i].widget)
  }

  /**
   * `set_parent_scope`: store the scope, then the scope-change event hands
   * each child this widget's new effective scope, recursively.
   */
  function SetParentScope(w: Widget, scope: Scope): (r: Widget)
    ensures r.parentScope == scope
    ensures ScopeConsistent(r) && SameShape(w, r)
    ensures r.isExplicitlyEnabled == w.isExplicitlyEnabled && r.isExplicitlyVisible == w.isExplicitlyVisible
    ensures r.explicitStyle == w.explicitStyle && r.mountPoint == w.mountPoint
    ensures MountConsistent(w) ==> MountConsistent(r)
    decreases w, 1
  {
    var w1 := w.(parentScope := scope);
    w1.(children := BroadcastScope(w1.children, EffectiveScope(w1), w))
  }

  function BroadcastScope(cs: seq<Child>, scope: Scope, ghost owner: Widget): (r: seq<Child>)
    requires forall i :: 0 <= i < |cs| ==> cs[i].widget < owner
    ensures |r| == |cs|
    ensures forall i :: 0 <= i < |cs| ==>
      r[i].rectInParent == cs[i].rectInParent &&
      r[i].widget == SetParentScope(cs[i].widget, scope)
    decreases owner, 0
  {
    seq(|cs|, i requires 0 <= i < |cs| => Child(SetParentScope(cs[i].widget, scope), cs[i].rectInParent))
  }

  function SetEnabled(w: Widget, enabled: bool): (r: Widget)
    ensures r.isExplicitlyEnabled == enabled
    ensures IsEnabled(r) <==> w.parentScope.isEnabled && enabled
    ensures ScopeConsistent(r) && SameShape(w, r)
  {
    SetParentScope(w.(isExplicitlyEnabled := enabled), w.parentScope)
  }

  function SetVisible(w: Widget, visible: bool): (r: Widget)
    ensures r.isExplicitlyVisible == visible
    ensures IsVisible(r) <==> w.parentScope.isVisible && visible
    ensures ScopeConsistent(r) && SameShape(w, r)
  {
    SetParentScope(w.(isExplicitlyVisible := visible), w.parentScope)
  }

  /** The style's scale comes from the parent style; styles are opaque here, so only the choice is modelled. */
  function SetStyle(w: Widget, style: Option<StyleId>): (r: Widget)
    ensures r.explicitStyle == style
    ensures Style(r) == (if style.Some? then style.value else w.parentScope.style)
    ensures ScopeConsistent(r) && SameShape(w, r)
  {
    SetParentScope(w.(explicitStyle := style), w.parentScope)
  }

  predicate AllDisabled(w: Widget)
    decreases w
  {
    !IsEnabled(w) && forall i :: 0 <= i < |w.children| ==> AllDisabled(w.children[i].widget)
  }

  predicate AllHidden(w: Widget)
    decreases w
  {
    !IsVisible(w) && forall i :: 0 <= i < |w.children| ==> AllHidden(w.children[i].widget)
  }

  /** In a consistent tree nothing below a disabled widget is enabled. */
  lemma {:induction false} DisabledCoversSubtree(w: Widget)
    requires ScopeConsistent(w) && !IsEnabled(w)
    ensures AllDisabled(w)
    decreases w
  {
    forall i | 0 <= i < |w.children|
      ensures AllDisabled(w.children[i].widget)
    {
      DisabledCoversSubtree(w.children[i].widget);
    }
  }

  /** In a consistent tree nothing below a hidden widget is visible. */
  lemma {:induction false} HiddenCoversSubtree(w: Widget)
    requires ScopeConsistent(w) && !IsVisible(w)
    ensures AllHidden(w)
    decreases w
  {
    forall i | 0 <= i < |w.children|
      ensures AllHidden(w.children[i].widget)
    {
      HiddenCoversSubtree(w.children[i].widget);
    }
  }

  // ------------------------------------------------------ size hints

  /**
   * `clear_size_hint_cache`: both caches are emptied and nothing else
   * changes, exactly as the keyed generation's cache is cleared.
   */
  function ClearSizeHintCache(w: Widget): (r: Widget)
    ensures r.sizeHintXCache.None? && r.sizeHintYCache == map[]
    ensures r.(sizeHintXCache := w.sizeHintXCache, sizeHintYCache := w.sizeHintYCache) == w
  {
    w.(sizeHintXCache := None, sizeHintYCache := map[])
  }

  /**
   * `size_hint_changed`: drop this widget's caches and, when mounted, queue
   * its address for the window's invalidation pass.
   */
  function SizeHintChanged(w: Widget, pending: seq<WidgetAddress>): (r: (Widget, seq<WidgetAddress>))
    ensures r.0.sizeHintXCache.None? && r.0.sizeHintYCache == map[]
    ensures r.0.(sizeHintXCache := w.sizeHintXCache, sizeHintYCache := w.sizeHintYCache) == w
    ensures |pending| <= |r.1| <= |pending| + 1 && r.1[..|pending|] == pending
    ensures |r.1| == |pending| + 1 <==> w.mountPoint.Some?
    ensures w.mountPoint.Some? ==> r.1[|pending|] == w.mountPoint.value.address
  {
    var w1 := ClearSizeHintCache(w);
    match w.mountPoint
    case None => (w1, pending)
    case Some(mp) => (w1, pending + [mp.address])
  }

  /**
   * After `size_hint_changed` the next question recomputes the hint, and
   * the queued address makes the widget and every mounted widget whose
   * address it starts with (its ancestors) match in the invalidation pass,
   * so the pass clears all of their caches.
   */
  lemma SizeHintChangedReachesAncestors(w: Widget, pending: seq<WidgetAddress>, v: Widget,
                                        a: SizeHint, sizeX: int)
    ensures CachedSizeHintX(SizeHintChanged(w, pending).0, a).0 == a
    ensures CachedSizeHintY(SizeHintChanged(w, pending).0, sizeX, a).0 == a
    ensures w.mountPoint.Some? ==> Matches(w, SizeHintChanged(w, pending).1)
    ensures w.mountPoint.Some? && v.mountPoint.Some? &&
            StartsWith(w.mountPoint.value.address, v.mountPoint.value.address) ==>
              Matches(v, SizeHintChanged(w, pending).1)
    ensures forall u :: Matches(u, pending) ==> Matches(u, SizeHintChanged(w, pending).1)
  {
    var r := SizeHintChanged(w, pending).1;
    if w.mountPoint.Some? {
      var k := |pending|;
      StartsWithIsPrefixOrder(r[k], r[k], r[k]);
      assert StartsWith(r[k], w.mountPoint.value.address);
    }
    forall u | Matches(u, pending)
      ensures Matches(u, r)
    {
      var i :| 0 <= i < |pending| && StartsWith(pending[i], u.mountPoint.value.address);
      assert r[i] == pending[i];
    }
  }

  /**
   * `cached_size_hint_x`: `computed` stands for the widget's own
   * `size_hint_x`, which is used only when nothing is cached. The returned
   * hint is what the widget caches afterwards.
   */
  function CachedSizeHintX(w: Widget, computed: SizeHint): (r: (SizeHint, Widget))
    ensures r.1.sizeHintXCache == Some(r.0)
    ensures r.0 == w.sizeHintXCache.UnwrapOr(computed)
    ensures r.1.(sizeHintXCache := w.sizeHintXCache) == w
  {
    match w.sizeHintXCache
    case Some(h) => (h, w)
    case None => (computed, w.(sizeHintXCache := Some(computed)))
  }

  /** `cached_size_hint_y`: the cache is keyed by the width the hint was asked for. */
  function CachedSizeHintY(w: Widget, sizeX: int, computed: SizeHint): (r: (SizeHint, Widget))
    ensures r.1.sizeHintYCache == w.sizeHintYCache[sizeX := r.0]
    ensures sizeX in w.sizeHintYCache ==> r.0 == w.sizeHintYCache[sizeX]
    ensures sizeX !in w.sizeHintYCache ==> r.0 == computed
    ensures r.1.(sizeHintYCache := w.sizeHintYCache) == w
  {
    if sizeX in w.sizeHintYCache then (w.sizeHintYCache[sizeX], w)
    else (computed, w.(sizeHintYCache := w.sizeHintYCache[sizeX := computed]))
  }

  /** Once a hint is cached, asking again returns it and changes nothing, whatever the widget would compute now. */
  lemma CachedHintsAreStable(w: Widget, a: SizeHint, b: SizeHint, sizeX: int, sizeX2: int)
    ensures var (h, w1) := CachedSizeHintX(w, a); CachedSizeHintX(w1, b) == (h, w1)
    ensures var (h, w1) := CachedSizeHintY(w, sizeX, a); CachedSizeHintY(w1, sizeX, b) == (h, w1)
    ensures var (h, w1) := CachedSizeHintY(w, sizeX, a);
            sizeX2 != sizeX ==> CachedSizeHintY(w1, sizeX2, b).1.sizeHintYCache[sizeX] == h
  {
  }

  /**
   * `invalidate_size_hint_cache`: a mounted widget whose address is a
   * prefix of some pending address drops its caches and passes the list to
   * all its children; any other widget is left alone together with its
   * subtree.
   */
  function InvalidateSizeHintCache(w: Widget, pending: seq<WidgetAddress>): (r: Widget)
    ensures SameShape(w, r)
    ensures !Matches(w, pending) ==> r == w
    ensures Matches(w, pending) ==> r.sizeHintXCache.None? && r.sizeHintYCache == map[]
    decreases w, 1
  {
    if !Matches(w, pending) then SameShapeReflexive(w); w
    else
      var w1 := ClearSizeHintCache(w);
      w1.(children := InvalidateChildren(w1.children, pending, w))
  }

  predicate Matches(w: Widget, pending: seq<WidgetAddress>) {
    w.mountPoint.Some? && exists i :: 0 <= i < |pending| && StartsWith(pending[i], w.mountPoint.value.address)
  }

  function InvalidateChildren(cs: seq<Child>, pending: seq<WidgetAddress>, ghost owner: Widget): (r: seq<Child>)
    requires forall i :: 0 <= i < |cs| ==> cs[i].widget < owner
    ensures |r| == |cs|
    ensures forall i :: 0 <= i < |cs| ==>
      r[i].rectInParent == cs[i].rectInParent &&
      r[i].widget == InvalidateSizeHintCache(cs[i].widget, pending)
    decreases owner, 0, |cs|
  {
    if |cs| == 0 then []
    else InvalidateChildren(cs[..|cs| - 1], pending, owner) +
         [Child(InvalidateSizeHintCache(cs[|cs| - 1].widget, pending), cs[|cs| - 1].rectInParent)]
  }

  // ------------------------------------------------------ addresses

  /**
   * Mount points follow the tree: a mounted widget's i-th child is mounted
   * at the parent's address joined with i, with the parent's id and index
   * i; an unmounted widget's children are unmounted.
   */
  predicate MountConsistent(w: Widget)
    decreases w
  {
    forall i :: 0 <= i < |w.children| ==>
      w.children[i].widget.mountPoint == ChildMountPoint(w, i) &&
      MountConsistent(w.children[i].widget)
  }

  function ChildMountPoint(w: Widget, i: nat): Option<MountPoint> {
    match w.mountPoint
    case None => None
    case Some(mp) => Some(MountPoint(Join(mp.address, i), Some(w.id), i))
  }

  /**
   * Reference for the pruning walk: clear exactly the mounted widgets whose
   * address is a prefix of a pending address, visiting every widget.
   */
  function ClearMatching(w: Widget, pending: seq<WidgetAddress>): (r: Widget)
    ensures SameShape(w, r)
    decreases w, 1
  {
    var w1 := if Matches(w, pending) then ClearSizeHintCache(w) else w;
    w1.(children := ClearMatchingChildren(w1.children, pending, w))
  }

  function ClearMatchingChildren(cs: seq<Child>, pending: seq<WidgetAddress>, ghost owner: Widget): (r: seq<Child>)
    requires forall i :: 0 <= i < |cs| ==> cs[i].widget < owner
    ensures |r| == |cs|
    ensures forall i :: 0 <= i < |cs| ==>
      r[i].rectInParent == cs[i].rectInParent &&
      r[i].widget == ClearMatching(cs[i].widget, pending)
    decreases owner, 0, |cs|
  {
    if |cs| == 0 then []
    else ClearMatchingChildren(cs[..|cs| - 1], pending, owner) +
         [Child(ClearMatching(cs[|cs| - 1].widget, pending), cs[|cs| - 1].rectInParent)]
  }

  /** Below a widget that matches no pending address, nothing matches either. */
  lemma {:induction false} NoMatchBelow(w: Widget, pending: seq<WidgetAddress>)
    requires MountConsistent(w) && !Matches(w, pending)
    ensures ClearMatching(w, pending) == w
    decreases w
  {
    var r := ClearMatching(w, pending);
    forall i | 0 <= i < |w.children|
      ensures r.children[i] == w.children[i]
    {
      var c := w.children[i].widget;
      if Matches(c, pending) {
        var k :| 0 <= k < |pending| && StartsWith(pending[k], c.mountPoint.value.address);
        JoinDescends(w.mountPoint.value.address, i, pending[k]);
        assert false;
      }
      NoMatchBelow(c, pending);
    }
    assert r.children == w.children;
  }

  /**
   * With consistent mount points, stopping at the first non-matching widget
   * loses nothing: the pruning walk clears exactly the widgets whose
   * address is a prefix of a pending address.
   */
  lemma {:induction false} InvalidateClearsExactlyMatching(w: Widget, pending: seq<WidgetAddress>)
    requires MountConsistent(w)
    ensures InvalidateSizeHintCache(w, pending) == ClearMatching(w, pending)
    decreases w
  {
    if !Matches(w, pending) {
      NoMatchBelow(w, pending);
    } else {
      var a := InvalidateSizeHintCache(w, pending);
      var b := ClearMatching(w, pending);
      forall i | 0 <= i < |w.children|
        ensures a.children[i] == b.children[i]
      {
        InvalidateClearsExactlyMatching(w.children[i].widget, pending);
      }
      assert a.children == b.children;
    }
  }

  // ------------------------------------------------------------ lookup

  datatype WidgetNotFound = WidgetNotFound

  /** `get_widget_by_address_mut`: follow each child index from the root. */
  function GetWidgetByAddress(root: Widget, path: seq<nat>): (r: Result<Widget, WidgetNotFound>)
    ensures |path| == 0 ==> r == Ok(root)
    ensures |path| > 0 && path[0] >= |root.children| ==> r == Err(WidgetNotFound)
    ensures |path| > 0 && path[0] < |root.children| ==>
              r == GetWidgetByAddress(root.children[path[0]].widget, path[1..])
    decreases |path|
  {
    if |path| == 0 then Ok(root)
    else if path[0] < |root.children| then GetWidgetByAddress(root.children[path[0]].widget, path[1..])
    else Err(WidgetNotFound)
  }

  /**
   * Lookup walks the path one index at a time: looking up `p + q` is
   * looking up `p` and then `q` from the widget found, and it fails
   * exactly when one of the two parts does.
   */
  lemma {:induction false} LookupComposes(root: Widget, p: seq<nat>, q: seq<nat>)
    ensures GetWidgetByAddress(root, p + q) ==
      (match GetWidgetByAddress(root, p)
       case Ok(x) => GetWidgetByAddress(x, q)
       case Err(e) => Err(e))
    decreases |p|
  {
    if |p| > 0 {
      assert (p + q)[0] == p[0] && (p + q)[1..] == p[1..] + q;
      if p[0] < |root.children| {
        LookupComposes(root.children[p[0]].widget, p[1..], q);
      }
    } else {
      assert p + q == q;
    }
  }

  /**
   * In a consistent tree the widget found at `path` is mounted at the
   * root's address extended by `path`: lookup and mounting agree.
   */
  lemma {:induction false} LookupFindsWidgetMountedThere(root: Widget, path: seq<nat>)
    requires MountConsistent(root) && root.mountPoint.Some?
    ensures GetWidgetByAddress(root, path).Ok? ==>
      var x := GetWidgetByAddress(root, path).value;
      x.mountPoint.Some? &&
      x.mountPoint.value.address ==
        WidgetAddress(root.mountPoint.value.address.windowId, root.mountPoint.value.address.path + path)
    decreases |path|
  {
    if |path| > 0 && path[0] < |root.children| {
      var c := root.children[path[0]].widget;
      LookupFindsWidgetMountedThere(c, path[1..]);
      assert root.mountPoint.value.address.path + [path[0]] + path[1..] ==
             root.mountPoint.value.address.path + path;
    } else if |path| == 0 {
      assert root.mountPoint.value.address.path + path == root.mountPoint.value.address.path;
    }
  }

  /** `get_widget_by_id_mut`: the address book gives the address, the walk does the rest. */
  function GetWidgetById(root: Widget, book: System.AddressBook<WidgetAddress>, id: WidgetId)
    : (r: Result<Widget, WidgetNotFound>)
    ensures id !in book ==> r == Err(WidgetNotFound)
    ensures id in book ==> r == GetWidgetByAddress(root, book[id].path)
  {
    match System.LookupAddress(book, id)
    case None => Err(WidgetNotFound)
    case Some(a) => GetWidgetByAddress(root, a.path)
  }
}
