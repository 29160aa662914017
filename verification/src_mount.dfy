/**
 * Mounting and unmounting in the first generation (`src/widgets/mod.rs`):
 * how a widget subtree enters and leaves a window, and how `add_child` and
 * `remove_child` keep every child mounted at the address of its index.
 * The window-wide effects (address book, accessibility mirror, queued
 * size-hint invalidations) are threaded through as a `World` value.
 */
module SrcMount {
  import opened Wrappers
  import opened Address
  import System
  import Accessible
  import opened SrcWidget

  datatype World = World(
    book: System.AddressBook<WidgetAddress>,
    acc: Accessible.AccessibleNodes,
    pendingSizeHintInvalidations: seq<WidgetAddress>,
    widgetTreeChanged: bool)

  /** The widget's own `accessible_node`, by id; widget code is not modelled. */
  type NodeOf = WidgetId -> Option<Accessible.NodeBuilder>

  function SubtreeIds(w: Widget): set<WidgetId>
    decreases w
  {
    {w.id} + (set i, x | 0 <= i < |w.children| && x in SubtreeIds(w.children[i].widget) :: x)
  }

  function ChildrenIdsFrom(cs: seq<Child>, from: nat): set<WidgetId> {
    set j, x | from <= j < |cs| && x in SubtreeIds(cs[j].widget) :: x
  }

  lemma SubtreeIdsSplit(w: Widget)
    ensures SubtreeIds(w) == {w.id} + ChildrenIdsFrom(w.children, 0)
  {
  }

  /** The ids from `from` on are those of the child at `from` and those after it. */
  lemma ChildrenIdsFromSplit(cs: seq<Child>, from: nat)
    requires from < |cs|
    ensures ChildrenIdsFrom(cs, from) == SubtreeIds(cs[from].widget) + ChildrenIdsFrom(cs, from + 1)
  {
    ChildrenIdsFromStep(cs, from, cs[from]);
    assert cs[from := cs[from]] == cs;
  }

  lemma ChildrenIdsFromStep(cs: seq<Child>, from: nat, c: Child)
    requires from < |cs|
    ensures ChildrenIdsFrom(cs, from) == SubtreeIds(cs[from].widget) + ChildrenIdsFrom(cs[from := c], from + 1)
  {
    var cs1 := cs[from := c];
    forall x | x in ChildrenIdsFrom(cs, from)
      ensures x in SubtreeIds(cs[from].widget) + ChildrenIdsFrom(cs1, from + 1)
    {
      var j :| from <= j < |cs| && x in SubtreeIds(cs[j].widget);
      if j > from {
        assert cs1[j] == cs[j];
      }
    }
    forall x | x in ChildrenIdsFrom(cs1, from + 1)
      ensures x in ChildrenIdsFrom(cs, from)
    {
      var j :| from + 1 <= j < |cs1| && x in SubtreeIds(cs1[j].widget);
      assert cs1[j] == cs[j];
    }
  }

  predicate AllUnmounted(w: Widget)
    decreases w
  {
    w.mountPoint.None? && forall i :: 0 <= i < |w.children| ==> AllUnmounted(w.children[i].widget)
  }

  lemma {:induction false} SameShapeSameIds(a: Widget, b: Widget)
    requires SameShape(a, b)
    ensures SubtreeIds(a) == SubtreeIds(b)
    decreases a
  {
    forall i | 0 <= i < |a.children|
      ensures SubtreeIds(a.children[i].widget) == SubtreeIds(b.children[i].widget)
    {
      SameShapeSameIds(a.children[i].widget, b.children[i].widget);
    }
  }

  lemma {:induction false} AllUnmountedIsConsistent(w: Widget)
    ensures AllUnmounted(w) ==> MountConsistent(w)
    decreases w
  {
    if AllUnmounted(w) {
      forall i | 0 <= i < |w.children|
        ensures w.children[i].widget.mountPoint == ChildMountPoint(w, i)
        ensures MountConsistent(w.children[i].widget)
      {
        assert AllUnmounted(w.children[i].widget);
        assert w.children[i].widget.mountPoint == ChildMountPoint(w, i);
        AllUnmountedIsConsistent(w.children[i].widget);
      }
    }
  }

  /**
   * `WidgetCommon::mount`: the widget remembers its mount point and asks
   * for an accessible refresh, its id is registered at the mount address
   * and nothing else in the book changes, and the mirror links it under
   * its parent (the mirror's root for a top-level widget).
   */
  function MountCommon(w: Widget, mp: MountPoint, world: World): (r: (Widget, World))
    ensures r.0.mountPoint == Some(mp) && r.0.pendingAccessibleUpdate
    ensures r.0.(mountPoint := w.mountPoint, pendingAccessibleUpdate := w.pendingAccessibleUpdate) == w
    ensures System.LookupAddress(r.1.book, w.id) == Some(mp.address)
    ensures forall id :: id != w.id ==> System.LookupAddress(r.1.book, id) == System.LookupAddress(world.book, id)
    ensures r.1.book.Keys == world.book.Keys + {w.id} && r.1.widgetTreeChanged
    ensures r.1.acc.directParents == world.acc.directParents[w.id := mp.parentId.UnwrapOr(world.acc.root)]
    ensures var p := mp.parentId.UnwrapOr(world.acc.root); p in r.1.acc.directChildren && w.id in r.1.acc.directChildren[p]
    ensures r.1.acc == Accessible.Mount(world.acc, mp.parentId, w.id)
    ensures r.1.pendingSizeHintInvalidations == world.pendingSizeHintInvalidations
  {
    var (book, _) := System.RegisterAddress(world.book, w.id, mp.address);
    (w.(mountPoint := Some(mp), pendingAccessibleUpdate := true),
     world.(book := book, widgetTreeChanged := true, acc := Accessible.Mount(world.acc, mp.parentId, w.id)))
  }

  /** `WidgetCommon::unmount`: the reverse of `MountCommon`; focus flags are cleared either way. */
  function UnmountCommon(w: Widget, world: World): (r: (Widget, World))
    ensures r.0 == w.(mountPoint := None, isFocused := false, isWindowFocused := false)
    ensures w.mountPoint.None? ==> r.1 == world
    ensures w.mountPoint.Some? ==>
              r.1.book == world.book - {w.id} && r.1.widgetTreeChanged &&
              r.1.acc == Accessible.Unmount(Accessible.Update(world.acc, w.id, None), w.mountPoint.value.parentId, w.id)
    ensures r.1.pendingSizeHintInvalidations == world.pendingSizeHintInvalidations
  {
    var w1 := w.(mountPoint := None, isFocused := false, isWindowFocused := false);
    match w.mountPoint
    case None => (w1, world)
    case Some(mp) =>
      var (book, _) := System.UnregisterAddress(world.book, w.id);
      var acc := Accessible.Update(world.acc, w.id, None);
      (w1, world.(book := book, widgetTreeChanged := true, acc := Accessible.Unmount(acc, mp.parentId, w.id)))
  }

  /**
   * `update_accessible`, run at the end of every dispatch: a mounted widget
   * with a pending refresh hands its current node (or its absence) to the
   * mirror, which queues it, and the request is then settled; otherwise
   * nothing happens. Only the flag and the mirror change.
   */
  function UpdateAccessible(w: Widget, world: World, nodeOf: NodeOf): (r: (Widget, World))
    ensures r.0.(pendingAccessibleUpdate := w.pendingAccessibleUpdate) == w
    ensures r.1.(acc := world.acc) == world
    ensures r.0.pendingAccessibleUpdate <==> w.pendingAccessibleUpdate && w.mountPoint.None?
    ensures w.pendingAccessibleUpdate && w.mountPoint.Some? ==>
              w.id in r.1.acc.pending &&
              (nodeOf(w.id).Some? ==> w.id in r.1.acc.nodes && r.1.acc.nodes[w.id] == nodeOf(w.id).value) &&
              (nodeOf(w.id).None? ==> w.id !in r.1.acc.nodes) &&
              r.1.acc == Accessible.Update(world.acc, w.id, nodeOf(w.id))
    ensures !(w.pendingAccessibleUpdate && w.mountPoint.Some?) ==> r == (w, world)
  {
    if w.pendingAccessibleUpdate && w.mountPoint.Some? then
      (w.(pendingAccessibleUpdate := false), world.(acc := Accessible.Update(world.acc, w.id, nodeOf(w.id))))
    else (w, world)
  }

  /** A second refresh right after the first finds nothing pending. */
  lemma UpdateAccessibleSettles(w: Widget, world: World, nodeOf: NodeOf)
    ensures var r := UpdateAccessible(w, world, nodeOf);
            UpdateAccessible(r.0, r.1, nodeOf) == r
  {
  }

  /**
   * Mounting a widget whose id is not yet known and unmounting it again
   * restores the address book and both link maps of the mirror; the widget
   * is back to unmounted with its focus flags cleared.
   */
  lemma MountUnmountCommonRoundTrip(w: Widget, mp: MountPoint, world: World)
    requires w.id !in world.book && w.id !in world.acc.directParents
    requires Accessible.NoEmptyChildSets(world.acc)
    requires var p := mp.parentId.UnwrapOr(world.acc.root);
             p in world.acc.directChildren ==> w.id !in world.acc.directChildren[p]
    ensures var (w1, world1) := MountCommon(w, mp, world);
            var (w2, world2) := UnmountCommon(w1, world1);
            w2 == w.(mountPoint := None, pendingAccessibleUpdate := true, isFocused := false, isWindowFocused := false) &&
            world2.book == world.book &&
            world2.acc.directParents == world.acc.directParents &&
            world2.acc.directChildren == world.acc.directChildren
  {
    var (w1, world1) := MountCommon(w, mp, world);
    Accessible.MountUnmountRoundTrip(world.acc, mp.parentId, w.id);
    assert world1.book - {w.id} == world.book;
  }

  /**
   * Dispatching a mount event, as it changes the widgets: the widget and
   * each child i (at the widget's address joined with i) become mounted,
   * and every accessible refresh they request is carried out.
   */
  function MountTree(w: Widget, mp: MountPoint): (r: Widget)
    ensures r.mountPoint == Some(mp) && !r.pendingAccessibleUpdate
    ensures MountConsistent(r) && SameShape(w, r)
    ensures r.parentScope == w.parentScope
    decreases w, 1
  {
    var cs := MountTreeChildren(w.children, mp, w.id, w);
    assert forall i :: 0 <= i < |cs| ==> cs[i].widget.mountPoint == Some(MountPoint(Join(mp.address, i), Some(w.id), i));
    w.(mountPoint := Some(mp), pendingAccessibleUpdate := false, children := cs)
  }

  function MountTreeChildren(cs: seq<Child>, mp: MountPoint, parentId: WidgetId, ghost owner: Widget): (r: seq<Child>)
    requires forall j :: 0 <= j < |cs| ==> cs[j].widget < owner
    ensures |r| == |cs|
    ensures forall j :: 0 <= j < |cs| ==>
      r[j].rectInParent == cs[j].rectInParent &&
      r[j].widget == MountTree(cs[j].widget, MountPoint(Join(mp.address, j), Some(parentId), j))
    decreases owner, 0
  {
    seq(|cs|, j requires 0 <= j < |cs| =>
      Child(MountTree(cs[j].widget, MountPoint(Join(mp.address, j), Some(parentId), j)), cs[j].rectInParent))
  }

  /**
   * Dispatching a mount event, as it changes the window: the widget is
   * registered and mirrored first, then its children in index order, then
   * the widget's accessible node is refreshed.
   */
  function MountEffects(w: Widget, mp: MountPoint, world: World, nodeOf: NodeOf): (r: World)
    ensures world.book.Keys + SubtreeIds(w) == r.book.Keys
    ensures forall id :: id !in SubtreeIds(w) ==> System.LookupAddress(r.book, id) == System.LookupAddress(world.book, id)
    ensures r.pendingSizeHintInvalidations == world.pendingSizeHintInvalidations
    decreases w, 1
  {
    var (w1, world1) := MountCommon(w, mp, world);
    var world2 := MountChildrenEffects(w.children, 0, mp, w.id, world1, nodeOf, w);
    SubtreeIdsSplit(w);
    UpdateAccessible(w1, world2, nodeOf).1
  }

  function MountChildrenEffects(cs: seq<Child>, from: nat, mp: MountPoint, parentId: WidgetId,
                                world: World, nodeOf: NodeOf, ghost owner: Widget): (r: World)
    requires from <= |cs|
    requires forall j :: from <= j < |cs| ==> cs[j].widget < owner
    ensures world.book.Keys + ChildrenIdsFrom(cs, from) == r.book.Keys
    ensures forall id :: id !in ChildrenIdsFrom(cs, from) ==>
              System.LookupAddress(r.book, id) == System.LookupAddress(world.book, id)
    ensures r.pendingSizeHintInvalidations == world.pendingSizeHintInvalidations
    decreases owner, 0, |cs| - from
  {
    if from == |cs| then world
    else
      var world1 := MountEffects(cs[from].widget, MountPoint(Join(mp.address, from), Some(parentId), from), world, nodeOf);
      ChildrenIdsFromSplit(cs, from);
      MountChildrenEffects(cs, from + 1, mp, parentId, world1, nodeOf, owner)
  }

  /** Dispatching a mount event: both halves together. */
  function MountWidget(w: Widget, mp: MountPoint, world: World, nodeOf: NodeOf): (Widget, World) {
    (MountTree(w, mp), MountEffects(w, mp, world, nodeOf))
  }

  /**
   * Dispatching an unmount event, as it changes the widgets: the children
   * leave first, then the widget itself; focus flags are cleared. The
   * closing accessible refresh does nothing on an unmounted widget.
   */
  function UnmountTree(w: Widget): (r: Widget)
    ensures AllUnmounted(r) && SameShape(w, r)
    ensures !r.isFocused && !r.isWindowFocused && r.parentScope == w.parentScope
    decreases w, 1
  {
    var cs := UnmountTreeChildren(w.children, w);
    w.(children := cs, mountPoint := None, isFocused := false, isWindowFocused := false)
  }

  function UnmountTreeChildren(cs: seq<Child>, ghost owner: Widget): (r: seq<Child>)
    requires forall j :: 0 <= j < |cs| ==> cs[j].widget < owner
    ensures |r| == |cs|
    ensures forall j :: 0 <= j < |cs| ==>
      r[j].rectInParent == cs[j].rectInParent && r[j].widget == UnmountTree(cs[j].widget)
    decreases owner, 0
  {
    seq(|cs|, j requires 0 <= j < |cs| => Child(UnmountTree(cs[j].widget), cs[j].rectInParent))
  }

  /** Dispatching an unmount event, as it changes the window: children first, then the widget. */
  function UnmountEffects(w: Widget, world: World): (r: World)
    ensures r.book.Keys <= world.book.Keys
    ensures forall id :: id !in SubtreeIds(w) ==> System.LookupAddress(r.book, id) == System.LookupAddress(world.book, id)
    ensures MountConsistent(w) && w.mountPoint.Some? ==> SubtreeIds(w) !! r.book.Keys
    ensures r.pendingSizeHintInvalidations == world.pendingSizeHintInvalidations
    decreases w, 1
  {
    var world1 := UnmountChildrenEffects(w.children, 0, world, w);
    SubtreeIdsSplit(w);
    UnmountCommon(w, world1).1
  }

  function UnmountChildrenEffects(cs: seq<Child>, from: nat, world: World, ghost owner: Widget): (r: World)
    requires from <= |cs|
    requires forall j :: from <= j < |cs| ==> cs[j].widget < owner
    ensures r.book.Keys <= world.book.Keys
    ensures forall id :: id !in ChildrenIdsFrom(cs, from) ==>
              System.LookupAddress(r.book, id) == System.LookupAddress(world.book, id)
    ensures (forall j :: from <= j < |cs| ==> MountConsistent(cs[j].widget) && cs[j].widget.mountPoint.Some?) ==>
              ChildrenIdsFrom(cs, from) !! r.book.Keys
    ensures r.pendingSizeHintInvalidations == world.pendingSizeHintInvalidations
    decreases owner, 0, |cs| - from
  {
    if from == |cs| then world
    else
      var world1 := UnmountEffects(cs[from].widget, world);
      ChildrenIdsFromSplit(cs, from);
      UnmountChildrenEffects(cs, from + 1, world1, owner)
  }

  function UnmountWidget(w: Widget, world: World): (Widget, World) {
    (UnmountTree(w), UnmountEffects(w, world))
  }

  lemma {:induction false} UnmountedConsistentIsAllUnmounted(w: Widget)
    requires MountConsistent(w) && w.mountPoint.None?
    ensures AllUnmounted(w)
    decreases w
  {
    forall i | 0 <= i < |w.children|
      ensures AllUnmounted(w.children[i].widget)
    {
      UnmountedConsistentIsAllUnmounted(w.children[i].widget);
    }
  }

  // -------------------------------------------------- adding and removing

  /** One child of `remount_children`: unmounted, then mounted at `mp`. */
  function Remount(w: Widget, mp: MountPoint): (r: Widget)
    ensures r.mountPoint == Some(mp) && MountConsistent(r) && SameShape(w, r)
    ensures r.parentScope == w.parentScope
  {
    var u := UnmountTree(w);
    var m := MountTree(u, mp);
    SameShapeTransitive(w, u, m);
    m
  }

  /** `remount_children`, widget side: every child from `from` on is unmounted and mounted again at its index. */
  function RemountTree(cs: seq<Child>, from: nat, mp: MountPoint, parentId: WidgetId): (r: seq<Child>)
    ensures |r| == |cs|
    ensures forall j :: 0 <= j < |cs| && j < from ==> r[j] == cs[j]
    ensures forall j :: from <= j < |cs| ==>
      r[j].rectInParent == cs[j].rectInParent &&
      r[j].widget == Remount(cs[j].widget, MountPoint(Join(mp.address, j), Some(parentId), j))
  {
    seq(|cs|, j requires 0 <= j < |cs| =>
      if j < from then cs[j]
      else Child(Remount(cs[j].widget, MountPoint(Join(mp.address, j), Some(parentId), j)), cs[j].rectInParent))
  }

  /** Inserting into a child list: what `Vec::insert` does. */
  function InsertChild(cs: seq<Child>, index: nat, c: Child): (r: seq<Child>)
    requires index <= |cs|
    ensures |r| == |cs| + 1 && r[index] == c
    ensures forall j :: 0 <= j < index ==> r[j] == cs[j]
    ensures forall j :: index < j < |r| ==> r[j] == cs[j - 1]
  {
    cs[..index] + [c] + cs[index..]
  }

  /** Removing from a child list: what `Vec::remove` does. */
  function RemoveChildAt(cs: seq<Child>, index: nat): (r: seq<Child>)
    requires index < |cs|
    ensures |r| == |cs| - 1
    ensures forall j :: 0 <= j < index ==> r[j] == cs[j]
    ensures forall j :: index <= j < |r| ==> r[j] == cs[j + 1]
  {
    cs[..index] + cs[index + 1..]
  }

  /** `remount_children`, window side. */
  function RemountEffects(cs: seq<Child>, from: nat, mp: MountPoint, parentId: WidgetId, world: World, nodeOf: NodeOf)
    : (r: World)
    requires from <= |cs|
    ensures r.pendingSizeHintInvalidations == world.pendingSizeHintInvalidations
    decreases |cs| - from
  {
    if from == |cs| then world
    else
      var w := cs[from].widget;
      var world1 := UnmountEffects(w, world);
      var world2 := MountEffects(UnmountTree(w), MountPoint(Join(mp.address, from), Some(parentId), from), world1, nodeOf);
      RemountEffects(cs, from + 1, mp, parentId, world2, nodeOf)
  }

  /**
   * `add_child`, widget side: a mounted parent mounts the new child at
   * `index` and hands it its effective scope; the child is inserted with no
   * rect yet; the children after it move up one index and are remounted;
   * the parent's size-hint caches are dropped.
   */
  function AddChildTree(w: Widget, index: nat, child: Widget): (r: Widget)
    requires index <= |w.children|
    ensures r.id == w.id && r.mountPoint == w.mountPoint && |r.children| == |w.children| + 1
    ensures r.children[index].widget.id == child.id && r.children[index].rectInParent.None?
    ensures forall j :: 0 <= j < index ==> r.children[j] == w.children[j]
    ensures forall j :: index < j < |r.children| ==>
              SameShape(w.children[j - 1].widget, r.children[j].widget) &&
              r.children[j].rectInParent == w.children[j - 1].rectInParent
    ensures w.mountPoint.Some? ==> r.children[index].widget.parentScope == EffectiveScope(w)
    ensures MountConsistent(w) && AllUnmounted(child) ==> MountConsistent(r)
    ensures r.sizeHintXCache.None? && r.sizeHintYCache == map[]
  {
    if w.mountPoint.None? then AddChildUnmounted(w, index, child)
    else AddChildMounted(w, index, child)
  }

  function AddChildUnmounted(w: Widget, index: nat, child: Widget): (r: Widget)
    requires index <= |w.children| && w.mountPoint.None?
    ensures r.id == w.id && r.mountPoint == w.mountPoint && |r.children| == |w.children| + 1
    ensures r.children[index] == Child(child, None)
    ensures forall j :: 0 <= j < index ==> r.children[j] == w.children[j]
    ensures forall j :: index < j < |r.children| ==>
              SameShape(w.children[j - 1].widget, r.children[j].widget) &&
              r.children[j].rectInParent == w.children[j - 1].rectInParent
    ensures MountConsistent(w) && AllUnmounted(child) ==> MountConsistent(r)
    ensures r.sizeHintXCache.None? && r.sizeHintYCache == map[]
  {
    AllUnmountedIsConsistent(child);
    SameShapeReflexiveAll(w.children);
    var r := ClearSizeHintCache(w.(children := InsertChild(w.children, index, Child(child, None))));
    assert AllUnmounted(child) ==> child.mountPoint == ChildMountPoint(r, index);
    r
  }

  function AddChildMounted(w: Widget, index: nat, child: Widget): (r: Widget)
    requires index <= |w.children| && w.mountPoint.Some?
    ensures r.id == w.id && r.mountPoint == w.mountPoint && |r.children| == |w.children| + 1
    ensures r.children[index].widget.id == child.id && r.children[index].rectInParent.None?
    ensures forall j :: 0 <= j < index ==> r.children[j] == w.children[j]
    ensures forall j :: index < j < |r.children| ==>
              SameShape(w.children[j - 1].widget, r.children[j].widget) &&
              r.children[j].rectInParent == w.children[j - 1].rectInParent
    ensures r.children[index].widget.parentScope == EffectiveScope(w)
    ensures MountConsistent(w) ==> MountConsistent(r)
    ensures r.sizeHintXCache.None? && r.sizeHintYCache == map[]
  {
    var mp := w.mountPoint.value;
    var inserted := SetParentScope(MountTree(child, MountPoint(Join(mp.address, index), Some(w.id), index)), EffectiveScope(w));
    var ins := InsertChild(w.children, index, Child(inserted, None));
    var cs := RemountTree(ins, index + 1, mp, w.id);
    var r := w.(children := cs, sizeHintXCache := None, sizeHintYCache := map[]);
    assert r == ClearSizeHintCache(w.(children := cs));
    assert MountConsistent(w) ==> MountConsistent(r) by {
      if MountConsistent(w) {
        forall j | 0 <= j < |cs|
          ensures cs[j].widget.mountPoint == ChildMountPoint(r, j) && MountConsistent(cs[j].widget)
        {
          if j < index {
            assert cs[j] == w.children[j];
            assert ChildMountPoint(r, j) == ChildMountPoint(w, j);
          } else if j == index {
            assert cs[j] == ins[j];
          }
        }
      }
    }
    r
  }

  /** `add_child`, window side: mount the child, remount the ones after it, queue the size-hint invalidation. */
  function AddChildEffects(w: Widget, index: nat, child: Widget, world: World, nodeOf: NodeOf): (r: World)
    requires index <= |w.children|
    ensures w.mountPoint.None? ==> r == world
    ensures w.mountPoint.Some? ==>
              r.pendingSizeHintInvalidations == world.pendingSizeHintInvalidations + [w.mountPoint.value.address]
  {
    match w.mountPoint
    case None => world
    case Some(mp) =>
      var world1 := MountEffects(child, MountPoint(Join(mp.address, index), Some(w.id), index), world, nodeOf);
      var world2 := RemountEffects(AddedChildren(w, index, child), index + 1, mp, w.id, world1, nodeOf);
      world2.(pendingSizeHintInvalidations := world2.pendingSizeHintInvalidations + [mp.address])
  }

  /**
   * `remove_child`, widget side: the child leaves the list; a mounted
   * parent unmounts it and gives it the default scope; the children after
   * it move down one index and are remounted; the parent's caches are
   * dropped. The second component is the removed widget.
   */
  function RemoveChildTree(w: Widget, index: nat): (r: (Widget, Widget))
    requires index < |w.children|
    ensures r.0.id == w.id && r.0.mountPoint == w.mountPoint && |r.0.children| == |w.children| - 1
    ensures r.1.id == w.children[index].widget.id && SameShape(w.children[index].widget, r.1)
    ensures forall j :: 0 <= j < index ==> r.0.children[j] == w.children[j]
    ensures forall j :: index <= j < |r.0.children| ==>
              SameShape(w.children[j + 1].widget, r.0.children[j].widget) &&
              r.0.children[j].rectInParent == w.children[j + 1].rectInParent
    ensures w.mountPoint.Some? ==> AllUnmounted(r.1) && r.1.parentScope == DefaultScope
    ensures MountConsistent(w) ==> MountConsistent(r.0)
    ensures r.0.sizeHintXCache.None? && r.0.sizeHintYCache == map[]
  {
    if w.mountPoint.None? then
      SameShapeReflexive(w.children[index].widget);
      SameShapeReflexiveAll(w.children);
      (ClearSizeHintCache(w.(children := RemoveChildAt(w.children, index))), w.children[index].widget)
    else (RemoveChildMounted(w, index), DetachRemoved(w.children[index].widget))
  }

  /** What a mounted parent does to the widget it removes: unmount it and reset its scope. */
  function DetachRemoved(removed: Widget): (r: Widget)
    ensures r.id == removed.id && SameShape(removed, r)
    ensures AllUnmounted(r) && r.parentScope == DefaultScope
  {
    var u := UnmountTree(removed);
    var out := SetParentScope(u, DefaultScope);
    SameShapeTransitive(removed, u, out);
    AllUnmountedIsConsistent(u);
    UnmountedConsistentIsAllUnmounted(out);
    out
  }

  function RemoveChildMounted(w: Widget, index: nat): (r: Widget)
    requires index < |w.children| && w.mountPoint.Some?
    ensures r.id == w.id && r.mountPoint == w.mountPoint && |r.children| == |w.children| - 1
    ensures forall j :: 0 <= j < index ==> r.children[j] == w.children[j]
    ensures forall j :: index <= j < |r.children| ==>
              SameShape(w.children[j + 1].widget, r.children[j].widget) &&
              r.children[j].rectInParent == w.children[j + 1].rectInParent
    ensures MountConsistent(w) ==> MountConsistent(r)
    ensures r.sizeHintXCache.None? && r.sizeHintYCache == map[]
  {
    var cs1 := RemountTree(RemoveChildAt(w.children, index), index, w.mountPoint.value, w.id);
    var r := ClearSizeHintCache(w.(children := cs1));
    assert MountConsistent(w) ==> forall j :: 0 <= j < |cs1| ==> cs1[j].widget.mountPoint == ChildMountPoint(r, j);
    r
  }

  /** `remove_child`, window side: unmount the child, remount the ones after it, queue the size-hint invalidation. */
  function RemoveChildEffects(w: Widget, index: nat, world: World, nodeOf: NodeOf): (r: World)
    requires index < |w.children|
    ensures w.mountPoint.None? ==> r == world
    ensures w.mountPoint.Some? ==>
              r.pendingSizeHintInvalidations == world.pendingSizeHintInvalidations + [w.mountPoint.value.address]
    ensures w.mountPoint.Some? && MountConsistent(w) && index == |w.children| - 1 ==>
              SubtreeIds(w.children[index].widget) !! r.book.Keys
  {
    match w.mountPoint
    case None => world
    case Some(mp) =>
      var world1 := UnmountEffects(w.children[index].widget, world);
      var cs := RemoveChildAt(w.children, index);
      var world2 := RemountEffects(cs, index, mp, w.id, world1, nodeOf);
      world2.(pendingSizeHintInvalidations := world2.pendingSizeHintInvalidations + [mp.address])
  }

  // -------------------------------------------------------- registrations

  /** Every widget of `w` is registered at `addr` joined with its index path below `w`. */
  ghost predicate RegisteredAt(book: System.AddressBook<WidgetAddress>, w: Widget, addr: WidgetAddress)
    decreases w
  {
    System.LookupAddress(book, w.id) == Some(addr) &&
    forall i :: 0 <= i < |w.children| ==> RegisteredAt(book, w.children[i].widget, Join(addr, i))
  }

  /** No id occurs twice in the subtree: ids come from one counter. */
  ghost predicate DistinctIds(w: Widget)
    decreases w
  {
    w.id !in ChildrenIdsFrom(w.children, 0) &&
    (forall i, j :: 0 <= i < j < |w.children| ==>
       SubtreeIds(w.children[i].widget) !! SubtreeIds(w.children[j].widget)) &&
    (forall i :: 0 <= i < |w.children| ==> DistinctIds(w.children[i].widget))
  }

  /** The subtrees from `from` on have distinct ids inside and between them. */
  ghost predicate ChildrenDistinctFrom(cs: seq<Child>, from: nat) {
    (forall i, j :: from <= i < j < |cs| ==> SubtreeIds(cs[i].widget) !! SubtreeIds(cs[j].widget)) &&
    (forall i :: from <= i < |cs| ==> DistinctIds(cs[i].widget))
  }

  /** A registration survives any change of the book that leaves the subtree's ids alone. */
  lemma {:induction false} RegisteredAtFrame(b1: System.AddressBook<WidgetAddress>, b2: System.AddressBook<WidgetAddress>,
                                             w: Widget, addr: WidgetAddress)
    requires RegisteredAt(b1, w, addr)
    requires forall id :: id in SubtreeIds(w) ==> System.LookupAddress(b2, id) == System.LookupAddress(b1, id)
    ensures RegisteredAt(b2, w, addr)
    decreases w
  {
    forall i | 0 <= i < |w.children|
      ensures RegisteredAt(b2, w.children[i].widget, Join(addr, i))
    {
      RegisteredAtFrame(b1, b2, w.children[i].widget, Join(addr, i));
    }
  }

  /** Registration only looks at ids and nesting, which a same-shape tree shares. */
  lemma {:induction false} RegisteredAtSameShape(book: System.AddressBook<WidgetAddress>, a: Widget, b: Widget,
                                                 addr: WidgetAddress)
    requires SameShape(a, b)
    ensures RegisteredAt(book, a, addr) <==> RegisteredAt(book, b, addr)
    decreases a
  {
    forall i | 0 <= i < |b.children|
      ensures RegisteredAt(book, a.children[i].widget, Join(addr, i)) <==> RegisteredAt(book, b.children[i].widget, Join(addr, i))
    {
      RegisteredAtSameShape(book, a.children[i].widget, b.children[i].widget, Join(addr, i));
    }
  }

  lemma {:induction false} DistinctIdsSameShape(a: Widget, b: Widget)
    requires SameShape(a, b) && DistinctIds(a)
    ensures DistinctIds(b)
    decreases a
  {
    forall i | 0 <= i < |a.children|
      ensures SubtreeIds(a.children[i].widget) == SubtreeIds(b.children[i].widget)
      ensures DistinctIds(b.children[i].widget)
    {
      SameShapeSameIds(a.children[i].widget, b.children[i].widget);
      DistinctIdsSameShape(a.children[i].widget, b.children[i].widget);
    }
    SameShapeSameIds(a, b);
    SubtreeIdsSplit(a);
    SubtreeIdsSplit(b);
    assert ChildrenIdsFrom(a.children, 0) == ChildrenIdsFrom(b.children, 0);
  }

  lemma DisjointFromLater(cs: seq<Child>, from: nat)
    requires from < |cs| && ChildrenDistinctFrom(cs, from)
    ensures SubtreeIds(cs[from].widget) !! ChildrenIdsFrom(cs, from + 1)
    ensures ChildrenDistinctFrom(cs, from + 1)
  {
    forall x | x in ChildrenIdsFrom(cs, from + 1)
      ensures x !in SubtreeIds(cs[from].widget)
    {
      var j :| from + 1 <= j < |cs| && x in SubtreeIds(cs[j].widget);
      assert SubtreeIds(cs[from].widget) !! SubtreeIds(cs[j].widget);
    }
  }

  /**
   * Mounting a subtree with distinct ids registers every widget of it at
   * the mount address joined with its index path; together with the
   * frame of `MountEffects`, these are exactly the entries that change.
   */
  lemma {:induction false} MountRegistersSubtree(w: Widget, mp: MountPoint, world: World, nodeOf: NodeOf)
    requires DistinctIds(w)
    ensures RegisteredAt(MountEffects(w, mp, world, nodeOf).book, w, mp.address)
    decreases w, 1
  {
    var (w1, world1) := MountCommon(w, mp, world);
    var world2 := MountChildrenEffects(w.children, 0, mp, w.id, world1, nodeOf, w);
    MountChildrenRegister(w.children, 0, mp, w.id, world1, nodeOf, w);
    assert System.LookupAddress(world2.book, w.id) == Some(mp.address);
    assert MountEffects(w, mp, world, nodeOf).book == world2.book;
  }

  lemma {:induction false} MountChildrenRegister(cs: seq<Child>, from: nat, mp: MountPoint, parentId: WidgetId,
                                                 world: World, nodeOf: NodeOf, owner: Widget)
    requires from <= |cs|
    requires forall j :: from <= j < |cs| ==> cs[j].widget < owner
    requires ChildrenDistinctFrom(cs, from)
    ensures forall j :: from <= j < |cs| ==>
      RegisteredAt(MountChildrenEffects(cs, from, mp, parentId, world, nodeOf, owner).book, cs[j].widget, Join(mp.address, j))
    decreases owner, 0, |cs| - from
  {
    if from < |cs| {
      var c := cs[from].widget;
      var mpc := MountPoint(Join(mp.address, from), Some(parentId), from);
      var world1 := MountEffects(c, mpc, world, nodeOf);
      MountRegistersSubtree(c, mpc, world, nodeOf);
      DisjointFromLater(cs, from);
      MountChildrenRegister(cs, from + 1, mp, parentId, world1, nodeOf, owner);
      var r := MountChildrenEffects(cs, from, mp, parentId, world, nodeOf, owner);
      assert r == MountChildrenEffects(cs, from + 1, mp, parentId, world1, nodeOf, owner);
      RegisteredAtFrame(world1.book, r.book, c, Join(mp.address, from));
    }
  }

  /** Two child lists that agree from `i` and `j` on cover the same ids with the same distinctness. */
  lemma ChildrenIdsFromShift(cs: seq<Child>, i: nat, ds: seq<Child>, j: nat)
    requires i <= |cs| && j <= |ds| && cs[i..] == ds[j..]
    ensures ChildrenIdsFrom(cs, i) == ChildrenIdsFrom(ds, j)
    ensures ChildrenDistinctFrom(cs, i) <==> ChildrenDistinctFrom(ds, j)
  {
    forall x | x in ChildrenIdsFrom(cs, i)
      ensures x in ChildrenIdsFrom(ds, j)
    {
      var k :| i <= k < |cs| && x in SubtreeIds(cs[k].widget);
      assert cs[k] == cs[i..][k - i] == ds[j + (k - i)];
    }
    forall x | x in ChildrenIdsFrom(ds, j)
      ensures x in ChildrenIdsFrom(cs, i)
    {
      var k :| j <= k < |ds| && x in SubtreeIds(ds[k].widget);
      assert ds[k] == ds[j..][k - j] == cs[i + (k - j)];
    }
    forall k | i <= k < |cs|
      ensures cs[k] == ds[k - i + j]
    {
      assert cs[k] == cs[i..][k - i];
    }
    forall k | j <= k < |ds|
      ensures ds[k] == cs[k - j + i]
    {
      assert ds[k] == ds[j..][k - j];
    }
  }

  /**
   * `remount_children`, window side, in terms of registrations: only the
   * ids of the remounted subtrees change, and each child from `from` on
   * ends up registered at its index below the parent.
   */
  lemma {:induction false} RemountRegisters(cs: seq<Child>, from: nat, mp: MountPoint, parentId: WidgetId,
                                            world: World, nodeOf: NodeOf)
    requires from <= |cs|
    ensures forall id :: id !in ChildrenIdsFrom(cs, from) ==>
              System.LookupAddress(RemountEffects(cs, from, mp, parentId, world, nodeOf).book, id) ==
              System.LookupAddress(world.book, id)
    ensures ChildrenDistinctFrom(cs, from) ==> forall j :: from <= j < |cs| ==>
              RegisteredAt(RemountEffects(cs, from, mp, parentId, world, nodeOf).book, cs[j].widget, Join(mp.address, j))
    decreases |cs| - from
  {
    if from < |cs| {
      var w := cs[from].widget;
      var mpc := MountPoint(Join(mp.address, from), Some(parentId), from);
      var world1 := UnmountEffects(w, world);
      var u := UnmountTree(w);
      var world2 := MountEffects(u, mpc, world1, nodeOf);
      var r := RemountEffects(cs, from, mp, parentId, world, nodeOf);
      assert r == RemountEffects(cs, from + 1, mp, parentId, world2, nodeOf);
      RemountRegisters(cs, from + 1, mp, parentId, world2, nodeOf);
      assert forall id :: id !in SubtreeIds(w) ==>
               System.LookupAddress(world2.book, id) == System.LookupAddress(world.book, id) by {
        SameShapeSameIds(w, u);
      }
      ChildrenIdsFromSplit(cs, from);
      if ChildrenDistinctFrom(cs, from) {
        DisjointFromLater(cs, from);
        assert RegisteredAt(world2.book, w, mpc.address) by {
          SameShapeSameIds(w, u);
          DistinctIdsSameShape(w, u);
          MountRegistersSubtree(u, mpc, world1, nodeOf);
          RegisteredAtSameShape(world2.book, w, u, mpc.address);
        }
        RegisteredAtFrame(world2.book, r.book, w, mpc.address);
      }
    }
  }

  /** `add_child` on a mounted parent changes only the new subtree's and the later siblings' entries. */
  lemma AddChildKeepsOthers(w: Widget, index: nat, child: Widget, world: World, nodeOf: NodeOf)
    requires index <= |w.children| && w.mountPoint.Some?
    ensures forall id :: id !in SubtreeIds(child) + ChildrenIdsFrom(w.children, index) ==>
              System.LookupAddress(AddChildEffects(w, index, child, world, nodeOf).book, id) ==
              System.LookupAddress(world.book, id)
  {
    var mp := w.mountPoint.value;
    var mpc := MountPoint(Join(mp.address, index), Some(w.id), index);
    var world1 := MountEffects(child, mpc, world, nodeOf);
    var cs := AddedChildren(w, index, child);
    AddChildEffectsSteps(w, index, child, world, nodeOf);
    InsertChildShifts(w.children, index, cs[index]);
    RemountRegisters(cs, index + 1, mp, w.id, world1, nodeOf);
  }

  /** The child list `add_child` builds on a mounted parent. */
  function AddedChildren(w: Widget, index: nat, child: Widget): seq<Child>
    requires index <= |w.children| && w.mountPoint.Some?
  {
    var mpc := MountPoint(Join(w.mountPoint.value.address, index), Some(w.id), index);
    InsertChild(w.children, index, Child(SetParentScope(MountTree(child, mpc), EffectiveScope(w)), None))
  }

  /** On a mounted parent, `add_child` mounts the new subtree and then remounts the later siblings. */
  lemma AddChildEffectsSteps(w: Widget, index: nat, child: Widget, world: World, nodeOf: NodeOf)
    requires index <= |w.children| && w.mountPoint.Some?
    ensures var mp := w.mountPoint.value;
            var world1 := MountEffects(child, MountPoint(Join(mp.address, index), Some(w.id), index), world, nodeOf);
            AddChildEffects(w, index, child, world, nodeOf).book ==
            RemountEffects(AddedChildren(w, index, child), index + 1, mp, w.id, world1, nodeOf).book
  {
  }

  /** Inserting at `index` moves the children from `index` on one place up, ids and all. */
  lemma InsertChildShifts(cs: seq<Child>, index: nat, c: Child)
    requires index <= |cs|
    ensures ChildrenIdsFrom(InsertChild(cs, index, c), index + 1) == ChildrenIdsFrom(cs, index)
    ensures ChildrenDistinctFrom(InsertChild(cs, index, c), index + 1) <==> ChildrenDistinctFrom(cs, index)
  {
    var ds := InsertChild(cs, index, c);
    assert cs[index..] == ds[index + 1..];
    ChildrenIdsFromShift(cs, index, ds, index + 1);
  }

  /**
   * `add_child` on a mounted parent, in terms of registrations: when ids
   * do not repeat, the new subtree is registered below the parent at
   * `index` and every later sibling one index further on.
   */
  lemma AddChildRegisters(w: Widget, index: nat, child: Widget, world: World, nodeOf: NodeOf)
    requires index <= |w.children| && w.mountPoint.Some?
    ensures DistinctIds(child) && ChildrenDistinctFrom(w.children, index) &&
            SubtreeIds(child) !! ChildrenIdsFrom(w.children, index) ==>
              RegisteredAt(AddChildEffects(w, index, child, world, nodeOf).book, child, Join(w.mountPoint.value.address, index)) &&
              forall j :: index <= j < |w.children| ==>
                RegisteredAt(AddChildEffects(w, index, child, world, nodeOf).book, w.children[j].widget,
                             Join(w.mountPoint.value.address, j + 1))
  {
    if DistinctIds(child) && ChildrenDistinctFrom(w.children, index) &&
       SubtreeIds(child) !! ChildrenIdsFrom(w.children, index) {
      var mp := w.mountPoint.value;
      var mpc := MountPoint(Join(mp.address, index), Some(w.id), index);
      var world1 := MountEffects(child, mpc, world, nodeOf);
      var cs := AddedChildren(w, index, child);
      var rbook := RemountEffects(cs, index + 1, mp, w.id, world1, nodeOf).book;
      AddChildEffectsSteps(w, index, child, world, nodeOf);
      InsertChildShifts(w.children, index, cs[index]);
      RemountRegisters(cs, index + 1, mp, w.id, world1, nodeOf);
      assert RegisteredAt(rbook, child, mpc.address) by {
        MountRegistersSubtree(child, mpc, world, nodeOf);
        RegisteredAtFrame(world1.book, rbook, child, mpc.address);
      }
      forall j | index <= j < |w.children|
        ensures RegisteredAt(rbook, w.children[j].widget, Join(mp.address, j + 1))
      {
        assert cs[j + 1] == w.children[j];
      }
    }
  }

  /** Removing at `index` moves the children after it one place down, ids and all. */
  lemma RemoveChildAtShifts(cs: seq<Child>, index: nat)
    requires index < |cs|
    ensures ChildrenIdsFrom(RemoveChildAt(cs, index), index) == ChildrenIdsFrom(cs, index + 1)
    ensures ChildrenDistinctFrom(RemoveChildAt(cs, index), index) <==> ChildrenDistinctFrom(cs, index + 1)
  {
    var ds := RemoveChildAt(cs, index);
    assert cs[index + 1..] == ds[index..];
    ChildrenIdsFromShift(cs, index + 1, ds, index);
  }

  /** On a mounted parent, `remove_child` unmounts the removed subtree and then remounts the later siblings. */
  lemma RemoveChildEffectsSteps(w: Widget, index: nat, world: World, nodeOf: NodeOf)
    requires index < |w.children| && w.mountPoint.Some?
    ensures RemoveChildEffects(w, index, world, nodeOf).book ==
            RemountEffects(RemoveChildAt(w.children, index), index, w.mountPoint.value, w.id,
                           UnmountEffects(w.children[index].widget, world), nodeOf).book
  {
  }

  /**
   * `remove_child` on a mounted parent, in terms of registrations: only
   * the removed subtree and the later siblings change; the removed ids
   * leave the book, and every later sibling is registered one index lower.
   */
  lemma RemoveChildRegisters(w: Widget, index: nat, world: World, nodeOf: NodeOf)
    requires index < |w.children| && w.mountPoint.Some?
    ensures forall id :: id !in ChildrenIdsFrom(w.children, index) ==>
              System.LookupAddress(RemoveChildEffects(w, index, world, nodeOf).book, id) ==
              System.LookupAddress(world.book, id)
    ensures ChildrenDistinctFrom(w.children, index) ==>
              forall j :: index < j < |w.children| ==>
                RegisteredAt(RemoveChildEffects(w, index, world, nodeOf).book, w.children[j].widget,
                             Join(w.mountPoint.value.address, j - 1))
    ensures ChildrenDistinctFrom(w.children, index) && MountConsistent(w) ==>
              SubtreeIds(w.children[index].widget) !! RemoveChildEffects(w, index, world, nodeOf).book.Keys
  {
    var mp := w.mountPoint.value;
    var removed := w.children[index].widget;
    var world1 := UnmountEffects(removed, world);
    var cs := RemoveChildAt(w.children, index);
    var r := RemoveChildEffects(w, index, world, nodeOf);
    RemoveChildEffectsSteps(w, index, world, nodeOf);
    RemoveChildAtShifts(w.children, index);
    ChildrenIdsFromSplit(w.children, index);
    RemountRegisters(cs, index, mp, w.id, world1, nodeOf);
    if ChildrenDistinctFrom(w.children, index) {
      DisjointFromLater(w.children, index);
      forall j | index < j < |w.children|
        ensures RegisteredAt(r.book, w.children[j].widget, Join(mp.address, j - 1))
      {
        assert cs[j - 1] == w.children[j];
      }
      if MountConsistent(w) {
        assert removed.mountPoint == ChildMountPoint(w, index);
        forall x | x in SubtreeIds(removed)
          ensures x !in r.book.Keys
        {
          assert x !in world1.book.Keys;
          assert System.LookupAddress(r.book, x) == System.LookupAddress(world1.book, x);
        }
      }
    }
  }
}
