/**
 * The widget tree of the later generations (`salvation/` and `widgem/`):
 * children live in a map from key to widget, every widget knows its
 * key-path address, and the effective enabled flag is the widget's own
 * flag AND the one pushed down by its parent. This module holds the
 * per-widget state changes of `salvation/src/widgets/ext_impl.rs` and the
 * tree walks of `widgem/src/widgets/mod.rs`.
 *
 * The per-widget record (`WidgetCommon` / `WidgetBase`) lives in a file
 * that is not part of this model; only the fields those two files read or
 * write appear here, and "is enabled" is taken to be "self enabled and
 * parent enabled", the reading both files rely on.
 */
module KeyedTree {
  import opened Wrappers
  import opened Geometry
  import opened Address
  import System

  /** Where the parent's layout put a widget; `None` means hidden. */
  datatype WidgetGeometry = WidgetGeometry(rectInParent: Rect, rectInWindow: Rect)

  /**
   * One widget. `children` lists the key map's values in iteration order;
   * each child remembers its own key.
   */
  datatype Node = Node(
    id: WidgetId,
    key: Key,
    address: KeyAddress,
    isSelfEnabled: bool,
    isParentEnabled: bool,
    isSelfVisible: bool,
    geometry: Option<WidgetGeometry>,
    receivesAllMouseEvents: bool,
    children: seq<Node>,
    sizeHintXCache: Option<SizeHint>,
    sizeHintYCache: map<int, SizeHint>)

  predicate IsEnabled(n: Node) {
    n.isSelfEnabled && n.isParentEnabled
  }

  function RectInParent(n: Node): Option<Rect> {
    match n.geometry
    case None => None
    case Some(g) => Some(g.rectInParent)
  }

  /** A key map holds each key at most once. */
  predicate KeysUnique(cs: seq<Node>) {
    forall i, j :: 0 <= i < j < |cs| ==> cs[i].key != cs[j].key
  }

  /** `children.get(key)`: the position of the child stored under `key`. */
  function IndexOfKey(cs: seq<Node>, key: Key): (r: Option<nat>)
    ensures r.Some? ==> r.value < |cs| && cs[r.value].key == key
    ensures r.Some? ==> forall j :: 0 <= j < r.value ==> cs[j].key != key
    ensures r.None? <==> forall j :: 0 <= j < |cs| ==> cs[j].key != key
  {
    if |cs| == 0 then None
    else if cs[0].key == key then Some(0)
    else match IndexOfKey(cs[1..], key)
      case None => None
      case Some(i) => Some(i + 1)
  }

  // ------------------------------------------------------------ visibility

  /**
   * `set_visible`: nothing happens when the flag already has the value;
   * otherwise the flag is stored and the widget reports a size-hint
   * change (the second component).
   */
  function SetVisible(n: Node, value: bool): (r: (Node, bool))
    ensures r.0.isSelfVisible == value
    ensures r.0.(isSelfVisible := n.isSelfVisible) == n
    ensures r.1 <==> n.isSelfVisible != value
  {
    if n.isSelfVisible == value then (n, false)
    else (n.(isSelfVisible := value), true)
  }

  /** Setting the same visibility twice reports a change at most once. */
  lemma SetVisibleIdempotent(n: Node, value: bool)
    ensures SetVisible(SetVisible(n, value).0, value) == (SetVisible(n, value).0, false)
  {
  }

  // --------------------------------------------------------------- enabled

  /**
   * The invariant the enabled propagation maintains: every child's
   * `is_parent_enabled` equals its parent's effective enabled flag.
   */
  predicate EnabledConsistent(n: Node)
    decreases n
  {
    forall i :: 0 <= i < |n.children| ==>
      n.children[i].isParentEnabled == IsEnabled(n) && EnabledConsistent(n.children[i])
  }

  /**
   * The loop body of the `EnabledChange` handler for one child: store the
   * parent's new value, and only if that flipped the child's effective
   * flag, send the child an `EnabledChange` of its own.
   */
  function Propagate(c: Node, isEnabled: bool): (r: Node)
    ensures r.isParentEnabled == isEnabled
    ensures r.(isParentEnabled := c.isParentEnabled, children := c.children) == c
    ensures IsEnabled(r) == (c.isSelfEnabled && isEnabled)
    ensures IsEnabled(r) == IsEnabled(c) ==> r == c.(isParentEnabled := isEnabled)
    ensures EnabledConsistent(c) ==> EnabledConsistent(r)
    decreases c, 1
  {
    var c1 := c.(isParentEnabled := isEnabled);
    if IsEnabled(c1) == IsEnabled(c) then c1
    else EnabledChange(c1, IsEnabled(c1), c)
  }

  /** `EnabledChange { is_enabled }` received by `n`: every child is updated. */
  function EnabledChange(n: Node, isEnabled: bool, ghost owner: Node): (r: Node)
    requires n.children == owner.children
    ensures r.(children := n.children) == n
    ensures |r.children| == |n.children|
    ensures forall i :: 0 <= i < |n.children| ==> r.children[i] == Propagate(n.children[i], isEnabled)
    decreases owner, 0
  {
    n.(children := seq(|n.children|, i requires 0 <= i < |n.children| => Propagate(n.children[i], isEnabled)))
  }

  /**
   * `set_enabled`: a no-op when the own flag already has the value;
   * otherwise the flag is stored, and the subtree hears about it only if
   * the effective value flipped. The parent-enabled invariant survives.
   */
  function SetEnabled(n: Node, enabled: bool): (r: Node)
    ensures r.isSelfEnabled == enabled && r.isParentEnabled == n.isParentEnabled
    ensures IsEnabled(r) == (enabled && n.isParentEnabled)
    ensures n.isSelfEnabled == enabled ==> r == n
    ensures IsEnabled(r) == IsEnabled(n) ==> r == n.(isSelfEnabled := enabled)
    ensures EnabledConsistent(n) ==> EnabledConsistent(r)
  {
    if n.isSelfEnabled == enabled then n
    else
      var n1 := n.(isSelfEnabled := enabled);
      if IsEnabled(n1) == IsEnabled(n) then n1
      else EnabledChange(n1, IsEnabled(n1), n)
  }

  /**
   * Reference reading of the invariant: in a consistent tree a widget at
   * `path` below `n` is enabled iff `n` is and every widget on the way
   * down enables itself.
   */
  predicate SelfEnabledAlong(n: Node, path: seq<nat>)
    decreases |path|
  {
    |path| == 0 ||
    (path[0] < |n.children| &&
     n.children[path[0]].isSelfEnabled && SelfEnabledAlong(n.children[path[0]], path[1..]))
  }

  function NodeAt(n: Node, path: seq<nat>): Option<Node>
    decreases |path|
  {
    if |path| == 0 then Some(n)
    else if path[0] < |n.children| then NodeAt(n.children[path[0]], path[1..])
    else None
  }

  lemma {:induction false} EnabledIsConjunctionAlongPath(n: Node, path: seq<nat>)
    requires EnabledConsistent(n)
    requires NodeAt(n, path).Some?
    ensures IsEnabled(NodeAt(n, path).value) <==> IsEnabled(n) && SelfEnabledAlong(n, path)
    decreases |path|
  {
    if |path| > 0 {
      EnabledIsConjunctionAlongPath(n.children[path[0]], path[1..]);
    }
  }

  // -------------------------------------------------------------- geometry

  /** `LayoutEvent::size_hints_changed_within`. */
  predicate SizeHintsChangedWithin(changed: seq<KeyAddress>, addr: KeyAddress) {
    exists i :: 0 <= i < |changed| && KeyStartsWith(changed[i], addr)
  }

  /** A change reported inside a widget is also inside each of its ancestors. */
  lemma ChangedWithinAncestor(changed: seq<KeyAddress>, addr: KeyAddress, ancestor: KeyAddress)
    requires KeyStartsWith(addr, ancestor)
    ensures SizeHintsChangedWithin(changed, addr) ==> SizeHintsChangedWithin(changed, ancestor)
    ensures !SizeHintsChangedWithin([], addr)
  {
    if SizeHintsChangedWithin(changed, addr) {
      var i :| 0 <= i < |changed| && KeyStartsWith(changed[i], addr);
      KeyStartsWithIsPrefixOrder(changed[i], addr, ancestor);
    }
  }

  /**
   * `set_geometry`: the geometry is always stored; the second component
   * says whether a `Layout` event was dispatched, which happens iff the
   * geometry changed or a changed size hint lies within the widget.
   */
  function SetGeometry(n: Node, geometry: Option<WidgetGeometry>, changed: seq<KeyAddress>): (r: (Node, bool))
    ensures r.0.geometry == geometry && r.0.(geometry := n.geometry) == n
    ensures r.1 <==> n.geometry != geometry || SizeHintsChangedWithin(changed, n.address)
  {
    (n.(geometry := geometry), n.geometry != geometry || SizeHintsChangedWithin(changed, n.address))
  }

  /** Repeating a geometry with no size-hint changes triggers no second layout. */
  lemma SetGeometryIdempotent(n: Node, geometry: Option<WidgetGeometry>, changed: seq<KeyAddress>)
    ensures
      var first := SetGeometry(n, geometry, changed).0;
      SetGeometry(first, geometry, []) == (first, false)
  {
  }

  // ------------------------------------------------------------ size hints

  datatype HandlerError = HandlerError

  /**
   * `size_hint_x`: the cached value when there is one; otherwise the
   * widget's own answer, or the fallback hints when it fails, which is
   * then cached.
   */
  function SizeHintX(n: Node, computed: Result<SizeHint, HandlerError>, fallback: SizeHint): (r: (SizeHint, Node))
    ensures r.1.sizeHintXCache == Some(r.0) && r.1.(sizeHintXCache := n.sizeHintXCache) == n
    ensures n.sizeHintXCache.Some? ==> r.0 == n.sizeHintXCache.value
    ensures n.sizeHintXCache.None? && computed.Ok? ==> r.0 == computed.value
    ensures n.sizeHintXCache.None? && computed.Err? ==> r.0 == fallback
  {
    match n.sizeHintXCache
    case Some(cached) => (cached, n)
    case None =>
      var h := if computed.Ok? then computed.value else fallback;
      (h, n.(sizeHintXCache := Some(h)))
  }

  /** `size_hint_y`: the same, one cache entry per width. */
  function SizeHintY(n: Node, sizeX: int, computed: Result<SizeHint, HandlerError>, fallback: SizeHint)
    : (r: (SizeHint, Node))
    ensures r.1.sizeHintYCache == n.sizeHintYCache[sizeX := r.0] && r.1.(sizeHintYCache := n.sizeHintYCache) == n
    ensures sizeX in n.sizeHintYCache ==> r.0 == n.sizeHintYCache[sizeX]
    ensures sizeX !in n.sizeHintYCache && computed.Ok? ==> r.0 == computed.value
    ensures sizeX !in n.sizeHintYCache && computed.Err? ==> r.0 == fallback
  {
    if sizeX in n.sizeHintYCache then (n.sizeHintYCache[sizeX], n)
    else
      var h := if computed.Ok? then computed.value else fallback;
      (h, n.(sizeHintYCache := n.sizeHintYCache[sizeX := h]))
  }

  /**
   * Once asked, a widget keeps giving the same answer whatever its hint
   * computation would now say, and asking for one width leaves the
   * other widths' entries alone.
   */
  lemma SizeHintsAreMemoised(n: Node, a: Result<SizeHint, HandlerError>, b: Result<SizeHint, HandlerError>,
                             fa: SizeHint, fb: SizeHint, sizeX: int, other: int)
    ensures var (h, n1) := SizeHintX(n, a, fa); SizeHintX(n1, b, fb) == (h, n1)
    ensures var (h, n1) := SizeHintY(n, sizeX, a, fa); SizeHintY(n1, sizeX, b, fb) == (h, n1)
    ensures other != sizeX ==>
      var n1 := SizeHintY(n, sizeX, a, fa).1;
      (other in n1.sizeHintYCache <==> other in n.sizeHintYCache) &&
      (other in n.sizeHintYCache ==> n1.sizeHintYCache[other] == n.sizeHintYCache[other])
  {
  }

  function ClearSizeHintCache(n: Node): (r: Node)
    ensures r.sizeHintXCache.None? && r.sizeHintYCache == map[]
    ensures r.(sizeHintXCache := n.sizeHintXCache, sizeHintYCache := n.sizeHintYCache) == n
  {
    n.(sizeHintXCache := None, sizeHintYCache := map[])
  }

  /** Some pending address lies within the widget. */
  predicate Matches(n: Node, pending: seq<KeyAddress>) {
    exists i :: 0 <= i < |pending| && KeyStartsWith(pending[i], n.address)
  }

  /**
   * `invalidate_size_hint_cache` (`widgem/`): a widget within which some
   * pending address lies drops its caches and passes the list on to every
   * child; any other widget is left alone with its whole subtree.
   */
  function InvalidateSizeHintCache(n: Node, pending: seq<KeyAddress>): (r: Node)
    ensures !Matches(n, pending) ==> r == n
    ensures Matches(n, pending) ==> r.sizeHintXCache.None? && r.sizeHintYCache == map[]
    ensures r.id == n.id && r.address == n.address && |r.children| == |n.children|
    decreases n, 1
  {
    if !Matches(n, pending) then n
    else InvalidateChildren(ClearSizeHintCache(n), pending, n)
  }

  function InvalidateChildren(n: Node, pending: seq<KeyAddress>, ghost owner: Node): (r: Node)
    requires n.children == owner.children
    ensures r.(children := n.children) == n
    ensures |r.children| == |n.children|
    ensures forall i :: 0 <= i < |n.children| ==> r.children[i] == InvalidateSizeHintCache(n.children[i], pending)
    decreases owner, 0
  {
    n.(children := seq(|n.children|, i requires 0 <= i < |n.children| =>
                     InvalidateSizeHintCache(n.children[i], pending)))
  }

  /**
   * Addresses follow the tree: each child sits at its parent's address
   * joined with its own key and id, and keys are unique among siblings.
   */
  predicate AddressConsistent(n: Node)
    decreases n
  {
    KeysUnique(n.children) &&
    forall i :: 0 <= i < |n.children| ==>
      n.children[i].address == KeyJoin(n.address, n.children[i].key, n.children[i].id) &&
      AddressConsistent(n.children[i])
  }

  /** Reference for the pruning walk: clear exactly the matching widgets, visiting all. */
  function ClearMatching(n: Node, pending: seq<KeyAddress>): (r: Node)
    ensures r.id == n.id && r.address == n.address && |r.children| == |n.children|
    decreases n, 1
  {
    var n1 := if Matches(n, pending) then ClearSizeHintCache(n) else n;
    ClearMatchingChildren(n1, pending, n)
  }

  function ClearMatchingChildren(n: Node, pending: seq<KeyAddress>, ghost owner: Node): (r: Node)
    requires n.children == owner.children
    ensures r.(children := n.children) == n
    ensures |r.children| == |n.children|
    ensures forall i :: 0 <= i < |n.children| ==> r.children[i] == ClearMatching(n.children[i], pending)
    decreases owner, 0
  {
    n.(children := seq(|n.children|, i requires 0 <= i < |n.children| =>
                     ClearMatching(n.children[i], pending)))
  }

  lemma {:induction false} NoMatchBelow(n: Node, pending: seq<KeyAddress>)
    requires AddressConsistent(n) && !Matches(n, pending)
    ensures ClearMatching(n, pending) == n
    decreases n
  {
    var r := ClearMatching(n, pending);
    forall i | 0 <= i < |n.children|
      ensures r.children[i] == n.children[i]
    {
      var c := n.children[i];
      if Matches(c, pending) {
        var k :| 0 <= k < |pending| && KeyStartsWith(pending[k], c.address);
        KeyJoinDescends(n.address, c.key, c.id, pending[k]);
        assert false;
      }
      NoMatchBelow(c, pending);
    }
    assert r.children == n.children;
  }

  /**
   * With consistent addresses the walk that stops at the first widget
   * without a pending address inside it clears exactly the widgets that
   * have one.
   */
  lemma {:induction false} InvalidateClearsExactlyMatching(n: Node, pending: seq<KeyAddress>)
    requires AddressConsistent(n)
    ensures InvalidateSizeHintCache(n, pending) == ClearMatching(n, pending)
    decreases n
  {
    if !Matches(n, pending) {
      NoMatchBelow(n, pending);
    } else {
      var a := InvalidateSizeHintCache(n, pending);
      var b := ClearMatching(n, pending);
      forall i | 0 <= i < |n.children|
        ensures a.children[i] == b.children[i]
      {
        InvalidateClearsExactlyMatching(n.children[i], pending);
      }
      assert a.children == b.children;
    }
  }

  // ---------------------------------------------------------------- lookup

  datatype WidgetNotFound = WidgetNotFound

  /** Follow the keys of `segments` down from `n`; the ids in them are not looked at. */
  function Walk(n: Node, segments: seq<Segment>): (r: Result<Node, WidgetNotFound>)
    ensures |segments| == 0 ==> r == Ok(n)
    ensures |segments| > 0 && (forall j :: 0 <= j < |n.children| ==> n.children[j].key != segments[0].key) ==>
              r == Err(WidgetNotFound)
    decreases |segments|
  {
    if |segments| == 0 then Ok(n)
    else match IndexOfKey(n.children, segments[0].key)
      case None => Err(WidgetNotFound)
      case Some(i) => Walk(n.children[i], segments[1..])
  }

  /**
   * `get_widget_by_address_mut` (`widgem/`): an address outside the root
   * fails; otherwise the segments after the root's own are followed by key.
   */
  function GetWidgetByAddress(root: Node, address: KeyAddress): (r: Result<Node, WidgetNotFound>)
    ensures !KeyStartsWith(address, root.address) ==> r == Err(WidgetNotFound)
    ensures address == root.address ==> r == Ok(root)
  {
    if !KeyStartsWith(address, root.address) then Err(WidgetNotFound)
    else Walk(root, address.path[|root.address.path|..])
  }

  /**
   * In a consistent tree the walk lands on a widget below `n` whose
   * address carries exactly the walked keys.
   */
  lemma {:induction false} WalkFollowsKeys(n: Node, segments: seq<Segment>)
    requires AddressConsistent(n)
    ensures Walk(n, segments).Ok? ==>
      var x := Walk(n, segments).value;
      KeyStartsWith(x.address, n.address) &&
      |x.address.path| == |n.address.path| + |segments| &&
      (forall k :: 0 <= k < |segments| ==> x.address.path[|n.address.path|..][k].key == segments[k].key) &&
      AddressConsistent(x)
    decreases |segments|
  {
    KeyStartsWithIsPrefixOrder(n.address, n.address, n.address);
    if |segments| > 0 && IndexOfKey(n.children, segments[0].key).Some? {
      var i := IndexOfKey(n.children, segments[0].key).value;
      var c := n.children[i];
      WalkFollowsKeys(c, segments[1..]);
      if Walk(n, segments).Ok? {
        assert Walk(n, segments) == Walk(c, segments[1..]);
        var x := Walk(n, segments).value;
        var p := |n.address.path|;
        assert c.address == KeyJoin(n.address, c.key, c.id);
        assert |c.address.path| == p + 1;
        KeyJoinDescends(n.address, c.key, c.id, x.address);
        var tail := x.address.path[p..];
        assert x.address.path[..p + 1] == c.address.path;
        assert tail[0] == c.address.path[p];
        assert tail[1..] == x.address.path[p + 1..];
        forall k | 0 <= k < |segments|
          ensures tail[k].key == segments[k].key
        {
          if k > 0 {
            assert tail[k] == tail[1..][k - 1];
            assert segments[1..][k - 1] == segments[k];
          }
        }
      }
    }
  }

  /**
   * What lookup promises: the widget found carries the requested window
   * and keys at every depth (its ids may differ, since they are not
   * compared on the way down).
   */
  lemma LookupMatchesKeys(root: Node, address: KeyAddress)
    requires AddressConsistent(root)
    ensures GetWidgetByAddress(root, address).Ok? ==>
      var x := GetWidgetByAddress(root, address).value;
      x.address.windowId == address.windowId &&
      |x.address.path| == |address.path| &&
      forall k :: 0 <= k < |address.path| ==> x.address.path[k].key == address.path[k].key
  {
    if KeyStartsWith(address, root.address) {
      var rest := address.path[|root.address.path|..];
      WalkFollowsKeys(root, rest);
      if Walk(root, rest).Ok? {
        var x := Walk(root, rest).value;
        forall k | 0 <= k < |address.path|
          ensures x.address.path[k].key == address.path[k].key
        {
          if k < |root.address.path| {
            assert x.address.path[k] == x.address.path[..|root.address.path|][k];
            assert address.path[k] == address.path[..|root.address.path|][k];
          } else {
            assert rest[k - |root.address.path|] == address.path[k];
          }
        }
      }
    }
  }

  /** `get_widget_by_id_mut`: an id without an address-book entry is not found. */
  function GetWidgetById(root: Node, book: System.AddressBook<KeyAddress>, id: WidgetId)
    : (r: Result<Node, WidgetNotFound>)
    ensures id !in book ==> r == Err(WidgetNotFound)
    ensures id in book ==> r == GetWidgetByAddress(root, book[id])
  {
    match System.LookupAddress(book, id)
    case None => Err(WidgetNotFound)
    case Some(a) => GetWidgetByAddress(root, a)
  }

  /** Whatever the walk finds is a widget of the tree, as many levels down as there were segments. */
  lemma {:induction false} WalkLandsInTree(n: Node, segments: seq<Segment>) returns (path: seq<nat>)
    ensures Walk(n, segments).Ok? ==> |path| == |segments| && NodeAt(n, path) == Some(Walk(n, segments).value)
    decreases |segments|
  {
    path := [];
    if |segments| > 0 && IndexOfKey(n.children, segments[0].key).Some? {
      var i := IndexOfKey(n.children, segments[0].key).value;
      var rest := WalkLandsInTree(n.children[i], segments[1..]);
      path := [i] + rest;
      assert path[1..] == rest;
    }
  }

  /**
   * In a consistent tree the walk along a widget's own address below `n`
   * reaches that widget: sibling keys are unique, so each key picks the
   * child the address went through.
   */
  lemma {:induction false} WalkReachesEveryNode(n: Node, path: seq<nat>)
    requires AddressConsistent(n) && NodeAt(n, path).Some?
    ensures var x := NodeAt(n, path).value;
            KeyStartsWith(x.address, n.address) && Walk(n, x.address.path[|n.address.path|..]) == Ok(x)
    decreases |path|
  {
    var x := NodeAt(n, path).value;
    if |path| == 0 {
      KeyStartsWithIsPrefixOrder(n.address, n.address, n.address);
      assert x.address.path[|n.address.path|..] == [];
    } else {
      var c := n.children[path[0]];
      WalkReachesEveryNode(c, path[1..]);
      KeyJoinDescends(n.address, c.key, c.id, x.address);
      KeyStartsWithIsPrefixOrder(x.address, c.address, n.address);
      var segs := x.address.path[|n.address.path|..];
      assert segs[0] == Segment(c.key, c.id);
      assert segs[1..] == x.address.path[|c.address.path|..];
      var k := IndexOfKey(n.children, c.key);
      assert k == Some(path[0]);
    }
  }

  /**
   * Lookup by address finds every widget of a consistent tree at its own
   * address, and whatever it finds is a widget of the tree.
   */
  lemma LookupFindsEveryNode(root: Node, path: seq<nat>, address: KeyAddress) returns (found: seq<nat>)
    ensures AddressConsistent(root) && NodeAt(root, path).Some? ==>
              GetWidgetByAddress(root, NodeAt(root, path).value.address) == Ok(NodeAt(root, path).value)
    ensures GetWidgetByAddress(root, address).Ok? ==> NodeAt(root, found) == Some(GetWidgetByAddress(root, address).value)
  {
    if AddressConsistent(root) && NodeAt(root, path).Some? {
      WalkReachesEveryNode(root, path);
    }
    found := [];
    if KeyStartsWith(address, root.address) {
      found := WalkLandsInTree(root, address.path[|root.address.path|..]);
    }
  }
}
