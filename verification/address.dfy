/**
 * Widget addresses: where a widget sits in a window's tree.
 *
 * The first generation (`src/`) addresses a widget by the indices of the
 * children on the way down; the later generations (`salvation/`, `widgem/`)
 * by (key, widget id) segments. Both compare addresses by "starts with",
 * a same-window prefix test.
 */
module Address {
  import opened Wrappers

  type WidgetId = nat
  type WindowId = nat
  type Key = nat

  /** `src/` address: window plus child indices from the root widget. */
  datatype WidgetAddress = WidgetAddress(windowId: WindowId, path: seq<nat>)

  function WindowRoot(windowId: WindowId): (a: WidgetAddress)
    ensures a.windowId == windowId && |a.path| == 0
  {
    WidgetAddress(windowId, [])
  }

  function Join(a: WidgetAddress, index: nat): (j: WidgetAddress)
    ensures j.windowId == a.windowId
    ensures |j.path| == |a.path| + 1 && j.path[|a.path|] == index
    ensures j.path[..|a.path|] == a.path
  {
    WidgetAddress(a.windowId, a.path + [index])
  }

  predicate StartsWith(a: WidgetAddress, base: WidgetAddress) {
    a.windowId == base.windowId &&
    |base.path| <= |a.path| &&
    base.path == a.path[..|base.path|]
  }

  lemma StartsWithIsPrefixOrder(a: WidgetAddress, b: WidgetAddress, c: WidgetAddress)
    ensures StartsWith(a, a)
    ensures StartsWith(a, b) && StartsWith(b, a) ==> a == b
    ensures StartsWith(a, b) && StartsWith(b, c) ==> StartsWith(a, c)
  {
    if StartsWith(a, b) && StartsWith(b, c) {
      assert a.path[..|c.path|] == a.path[..|b.path|][..|c.path|];
    }
  }

  /** A joined address lies strictly below its base, and so does everything below it. */
  lemma JoinDescends(a: WidgetAddress, index: nat, x: WidgetAddress)
    ensures StartsWith(Join(a, index), a)
    ensures !StartsWith(a, Join(a, index))
    ensures StartsWith(x, Join(a, index)) ==> StartsWith(x, a)
    ensures StartsWith(x, a) && |x.path| > |a.path| && x.path[|a.path|] == index ==>
              StartsWith(x, Join(a, index))
  {
    var j := Join(a, index);
    if StartsWith(x, j) {
      assert x.path[..|a.path|] == x.path[..|j.path|][..|a.path|];
    }
    if StartsWith(x, a) && |x.path| > |a.path| && x.path[|a.path|] == index {
      assert x.path[..|j.path|] == x.path[..|a.path|] + [index];
    }
  }

  /** One segment of a `salvation/` or `widgem/` address. */
  datatype Segment = Segment(key: Key, id: WidgetId)

  datatype KeyAddress = KeyAddress(windowId: WindowId, path: seq<Segment>)

  function KeyJoin(a: KeyAddress, key: Key, id: WidgetId): (j: KeyAddress)
    ensures j.windowId == a.windowId
    ensures |j.path| == |a.path| + 1 && j.path[|a.path|] == Segment(key, id)
    ensures j.path[..|a.path|] == a.path
  {
    KeyAddress(a.windowId, a.path + [Segment(key, id)])
  }

  predicate KeyStartsWith(a: KeyAddress, base: KeyAddress) {
    a.windowId == base.windowId &&
    |base.path| <= |a.path| &&
    base.path == a.path[..|base.path|]
  }

  function ItemAt(a: KeyAddress, i: nat): (r: Option<Segment>)
    ensures r.Some? <==> i < |a.path|
    ensures r.Some? ==> r.value in a.path
  {
    if i < |a.path| then Some(a.path[i]) else None
  }

  lemma KeyStartsWithIsPrefixOrder(a: KeyAddress, b: KeyAddress, c: KeyAddress)
    ensures KeyStartsWith(a, a)
    ensures KeyStartsWith(a, b) && KeyStartsWith(b, a) ==> a == b
    ensures KeyStartsWith(a, b) && KeyStartsWith(b, c) ==> KeyStartsWith(a, c)
  {
    if KeyStartsWith(a, b) && KeyStartsWith(b, c) {
      assert a.path[..|c.path|] == a.path[..|b.path|][..|c.path|];
    }
  }

  /** The key-path counterpart of `JoinDescends`, in both directions. */
  lemma KeyJoinDescends(a: KeyAddress, key: Key, id: WidgetId, x: KeyAddress)
    ensures KeyStartsWith(KeyJoin(a, key, id), a)
    ensures !KeyStartsWith(a, KeyJoin(a, key, id))
    ensures KeyStartsWith(x, KeyJoin(a, key, id)) <==>
              KeyStartsWith(x, a) && ItemAt(x, |a.path|) == Some(Segment(key, id))
  {
    var j := KeyJoin(a, key, id);
    if KeyStartsWith(x, j) {
      assert x.path[..|a.path|] == x.path[..|j.path|][..|a.path|];
      assert x.path[|a.path|] == x.path[..|j.path|][|a.path|];
    }
    if KeyStartsWith(x, a) && ItemAt(x, |a.path|) == Some(Segment(key, id)) {
      assert x.path[..|j.path|] == x.path[..|a.path|] + [Segment(key, id)];
    }
  }
}
