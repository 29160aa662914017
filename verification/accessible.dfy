/**
 * The window's mirror of its widget tree for the accessibility layer
 * (`AccessibleNodes`). Widgets that have no accessible node are
 * transparent: their children are attached to the nearest ancestor that
 * has one. Updates are collected in `pending` and drained by `TakeUpdate`.
 *
 * Both parent walks of the source (`mark_parent_as_pending` and
 * `find_children`) assume the parent links are acyclic; the model walks
 * with a shrinking set of not yet visited ids and gives up on a cycle.
 */
module Accessible {
  import opened Wrappers
  import System

  type NodeId = nat

  /** The content of a node (role, label, bounds…) is opaque here. */
  type NodeBuilder = nat

  /** The builder with the `Group` role that stands for the window itself. */
  const GroupNode: NodeBuilder := 0

  datatype AccessibleNodes = AccessibleNodes(
    nodes: map<NodeId, NodeBuilder>,
    directChildren: map<NodeId, set<NodeId>>,
    directParents: map<NodeId, NodeId>,
    pending: set<NodeId>,
    root: NodeId,
    focus: NodeId)

  /** The source never leaves an empty child set behind in `direct_children`. */
  predicate NoEmptyChildSets(a: AccessibleNodes) {
    forall p :: p in a.directChildren ==> a.directChildren[p] != {}
  }

  function New(ids: System.IdCounter): (r: (AccessibleNodes, System.IdCounter))
    ensures r.0.root == ids.next && r.0.focus == r.0.root
    ensures r.0.nodes == map[r.0.root := GroupNode] && r.0.pending == {r.0.root}
    ensures r.0.directChildren == map[] && r.0.directParents == map[]
    ensures r.1.next > ids.next
  {
    var (root, ids1) := System.NewId(ids);
    (Clear(AccessibleNodes(map[], map[], map[], {}, root, root)), ids1)
  }

  /** Forgets every node and pending update, then re-adds the root group. The parent links survive. */
  function Clear(a: AccessibleNodes): (r: AccessibleNodes)
    ensures r.nodes == map[a.root := GroupNode] && r.pending == {a.root}
    ensures r.directChildren == a.directChildren && r.directParents == a.directParents
    ensures r.root == a.root && r.focus == a.focus
  {
    Update(a.(nodes := map[], pending := {}), a.root, Some(GroupNode))
  }

  /**
   * The loop of `mark_parent_as_pending`: climbs from `p` to the first id
   * that has a node. None when the walk reaches a root without a node, an id
   * without a parent link, or (where the source would spin forever) an id
   * it has already visited.
   */
  function NearestPresent(a: AccessibleNodes, p: NodeId, unvisited: set<NodeId>): (r: Option<NodeId>)
    ensures p in a.nodes ==> r == Some(p)
    ensures r.Some? ==> r.value in a.nodes
    ensures p !in a.nodes && (p == a.root || p !in a.directParents) ==> r == None
    ensures p !in a.nodes && p != a.root && p in a.directParents && p in unvisited ==>
              r == NearestPresent(a, a.directParents[p], unvisited - {p})
    decreases unvisited
  {
    if p in a.nodes then Some(p)
    else if p == a.root then None
    else if p in a.directParents && p in unvisited then NearestPresent(a, a.directParents[p], unvisited - {p})
    else None
  }

  /**
   * A chain of parent links from `path[0]` to its last element: every id
   * but the last has no node, is not the root and links to the next one;
   * the last has a node. This is the walk `mark_parent_as_pending` makes.
   */
  ghost predicate IsParentChain(a: AccessibleNodes, path: seq<NodeId>) {
    |path| >= 1 && path[|path| - 1] in a.nodes &&
    forall k :: 0 <= k < |path| - 1 ==>
      path[k] !in a.nodes && path[k] != a.root &&
      path[k] in a.directParents && a.directParents[path[k]] == path[k + 1]
  }

  ghost predicate Distinct(path: seq<NodeId>) {
    forall i, j :: 0 <= i < j < |path| ==> path[i] != path[j]
  }

  /** No id repeats among all but the last. */
  ghost predicate InnerDistinct(path: seq<NodeId>) {
    forall i, j :: 0 <= i < j < |path| - 1 ==> path[i] != path[j]
  }

  /** The walk only ever lands at the end of a chain of parent links. */
  lemma {:induction false} NearestPresentEndsChain(a: AccessibleNodes, p: NodeId, unvisited: set<NodeId>)
    returns (path: seq<NodeId>)
    requires NearestPresent(a, p, unvisited).Some?
    ensures IsParentChain(a, path) && path[0] == p && path[|path| - 1] == NearestPresent(a, p, unvisited).value
    decreases unvisited
  {
    if p in a.nodes {
      path := [p];
    } else {
      var rest := NearestPresentEndsChain(a, a.directParents[p], unvisited - {p});
      path := [p] + rest;
      assert path[1..] == rest;
    }
  }

  /** Along a chain without repetitions the walk reaches the chain's end. */
  lemma {:induction false} ChainLeadsToNearestPresent(a: AccessibleNodes, path: seq<NodeId>, unvisited: set<NodeId>)
    requires IsParentChain(a, path) && Distinct(path)
    requires forall k :: 0 <= k < |path| - 1 ==> path[k] in unvisited
    ensures NearestPresent(a, path[0], unvisited) == Some(path[|path| - 1])
    decreases |path|
  {
    if |path| > 1 {
      var tail := path[1..];
      assert IsParentChain(a, tail);
      forall k | 0 <= k < |tail| - 1
        ensures tail[k] in unvisited - {path[0]}
      {
        assert tail[k] == path[k + 1];
      }
      ChainLeadsToNearestPresent(a, tail, unvisited - {path[0]});
    }
  }

  function MarkParentAsPending(a: AccessibleNodes, p: NodeId): (r: AccessibleNodes)
    ensures r == a.(pending := r.pending)
    ensures a.pending <= r.pending <= a.pending + a.nodes.Keys
    ensures p in a.nodes ==> r.pending == a.pending + {p}
    ensures p !in a.nodes && (p == a.root || p !in a.directParents) ==> r.pending == a.pending
  {
    match NearestPresent(a, p, a.directParents.Keys)
    case Some(q) => a.(pending := a.pending + {q})
    case None => a
  }

  /**
   * `mark_parent_as_pending` adds at most one id, and it is the end of a
   * chain of parent links from `p`; along a chain without repetitions it
   * adds exactly the chain's end.
   */
  lemma MarkParentMarksChainEnd(a: AccessibleNodes, p: NodeId, path: seq<NodeId>)
    ensures var added := MarkParentAsPending(a, p).pending - a.pending;
            added == {} || exists q :: added == {q}
    ensures IsParentChain(a, path) && Distinct(path) && path[0] == p ==>
              MarkParentAsPending(a, p).pending == a.pending + {path[|path| - 1]}
    ensures forall q :: q in MarkParentAsPending(a, p).pending - a.pending ==>
              exists chain :: IsParentChain(a, chain) && chain[0] == p && chain[|chain| - 1] == q
  {
    if IsParentChain(a, path) && Distinct(path) && path[0] == p {
      ChainLeadsToNearestPresent(a, path, a.directParents.Keys);
    }
    var found := NearestPresent(a, p, a.directParents.Keys);
    if found.Some? {
      var chain := NearestPresentEndsChain(a, p, a.directParents.Keys);
      assert MarkParentAsPending(a, p).pending - a.pending <= {found.value};
    }
  }

  /** Records that `child` now hangs below `parent` (the root when absent). */
  function Mount(a: AccessibleNodes, parent: Option<NodeId>, child: NodeId): (r: AccessibleNodes)
    ensures r.nodes == a.nodes && r.root == a.root && r.focus == a.focus
    ensures r.directParents == a.directParents[child := parent.UnwrapOr(a.root)]
    ensures var p := parent.UnwrapOr(a.root);
            p in r.directChildren && r.directChildren[p] ==
              (if p in a.directChildren then a.directChildren[p] else {}) + {child}
    ensures forall q :: q != parent.UnwrapOr(a.root) ==>
              (q in r.directChildren <==> q in a.directChildren) &&
              (q in a.directChildren ==> r.directChildren[q] == a.directChildren[q])
    ensures NoEmptyChildSets(a) ==> NoEmptyChildSets(r)
    ensures a.pending <= r.pending <= a.pending + a.nodes.Keys
  {
    var p := parent.UnwrapOr(a.root);
    var siblings := if p in a.directChildren then a.directChildren[p] else {};
    var a1 := a.(directParents := a.directParents[child := p],
                 directChildren := a.directChildren[p := siblings + {child}]);
    MarkParentAsPending(a1, p)
  }

  /** Drops `child` from the child set of `p`, removing the entry once it is empty. */
  function RemoveFromChildren(dc: map<NodeId, set<NodeId>>, p: NodeId, child: NodeId): (r: map<NodeId, set<NodeId>>)
    ensures p in r ==> p in dc && r[p] == dc[p] - {child} && r[p] != {}
    ensures p in dc && dc[p] - {child} != {} ==> p in r
    ensures forall q :: q != p ==> (q in r <==> q in dc) && (q in dc ==> r[q] == dc[q])
  {
    if p in dc then
      var rest := dc[p] - {child};
      if rest == {} then dc - {p} else dc[p := rest]
    else dc
  }

  /**
   * `unmount` exactly as the source writes it: it removes the parent
   * link of `parent` instead of that of `child`.
   */
  function UnmountAsWritten(a: AccessibleNodes, parent: Option<NodeId>, child: NodeId): (r: AccessibleNodes)
    ensures r.directParents == a.directParents - {parent.UnwrapOr(a.root)}
    ensures r.directChildren == RemoveFromChildren(a.directChildren, parent.UnwrapOr(a.root), child)
    ensures r.nodes == a.nodes && a.pending <= r.pending
  {
    var p := parent.UnwrapOr(a.root);
    var a1 := a.(directParents := a.directParents - {p},
                 directChildren := RemoveFromChildren(a.directChildren, p, child));
    MarkParentAsPending(a1, p)
  }

  /** `unmount` as evidently intended: the child's own parent link goes away. */
  function Unmount(a: AccessibleNodes, parent: Option<NodeId>, child: NodeId): (r: AccessibleNodes)
    ensures r.directParents == a.directParents - {child}
    ensures r.directChildren == RemoveFromChildren(a.directChildren, parent.UnwrapOr(a.root), child)
    ensures NoEmptyChildSets(a) ==> NoEmptyChildSets(r)
    ensures r.nodes == a.nodes && r.root == a.root && r.focus == a.focus
    ensures a.pending <= r.pending <= a.pending + a.nodes.Keys
  {
    var p := parent.UnwrapOr(a.root);
    var a1 := a.(directParents := a.directParents - {child},
                 directChildren := RemoveFromChildren(a.directChildren, p, child));
    MarkParentAsPending(a1, p)
  }

  /** Mounting a fresh child and unmounting it again restores both link maps. */
  lemma MountUnmountRoundTrip(a: AccessibleNodes, parent: Option<NodeId>, child: NodeId)
    requires child !in a.directParents
    requires NoEmptyChildSets(a)
    requires var p := parent.UnwrapOr(a.root); p in a.directChildren ==> child !in a.directChildren[p]
    ensures Unmount(Mount(a, parent, child), parent, child).directParents == a.directParents
    ensures Unmount(Mount(a, parent, child), parent, child).directChildren == a.directChildren
  {
    var p := parent.UnwrapOr(a.root);
    var m := Mount(a, parent, child);
    var u := Unmount(m, parent, child);
    assert m.directParents - {child} == a.directParents;
    if p in a.directChildren {
      assert m.directChildren[p] - {child} == a.directChildren[p];
    } else {
      assert m.directChildren[p] - {child} == {};
    }
    assert u.directChildren == a.directChildren;
  }

  /**
   * The source's `unmount` breaks the round trip: with root 1, a
   * transparent widget 2 under it and a child 3 under 2, unmounting 3
   * keeps 3's link and loses 2's link to the root, so a child mounted
   * under 2 afterwards no longer marks the root for an update.
   */
  lemma UnmountAsWrittenLosesParentLink()
    ensures var a0 := AccessibleNodes(map[1 := GroupNode], map[], map[], {}, 1, 1);
            var a1 := Mount(Mount(a0, None, 2), Some(2), 3);
            var b := UnmountAsWritten(a1, Some(2), 3);
            var bAfter := Mount(b.(pending := {}), Some(2), 4);
            var c := Unmount(a1, Some(2), 3);
            var cAfter := Mount(c.(pending := {}), Some(2), 4);
            3 in b.directParents && 2 !in b.directParents &&
            b.directParents != a0.directParents[2 := 1] &&
            1 !in bAfter.pending &&
            c.directParents == a0.directParents[2 := 1] &&
            1 in cAfter.pending
  {
    var a0 := AccessibleNodes(map[1 := GroupNode], map[], map[], {}, 1, 1);
    var a1 := Mount(Mount(a0, None, 2), Some(2), 3);
    assert a1.directParents == map[2 := 1, 3 := 2];
    var b := UnmountAsWritten(a1, Some(2), 3);
    assert b.directParents == map[3 := 2];
    var bAfter := Mount(b.(pending := {}), Some(2), 4);
    assert NearestPresent(b.(pending := {}).(directParents := map[3 := 2, 4 := 2]), 2, {3, 4}) == None;
    var c := Unmount(a1, Some(2), 3);
    assert c.directParents == map[2 := 1];
    var c1 := c.(pending := {}).(directParents := map[2 := 1, 4 := 2]);
    assert NearestPresent(c1, 1, {4}) == Some(1);
    assert NearestPresent(c1, 2, {2, 4}) == Some(1);
  }

  /** Replaces (`Some`) or removes (`None`) the node of `id` and schedules the affected updates. */
  function Update(a: AccessibleNodes, id: NodeId, node: Option<NodeBuilder>): (r: AccessibleNodes)
    ensures node.Some? ==> r.nodes == a.nodes[id := node.value]
    ensures node.None? ==> r.nodes == a.nodes - {id}
    ensures id in r.pending && a.pending <= r.pending <= a.pending + {id} + a.nodes.Keys + r.nodes.Keys
    ensures r.directChildren == a.directChildren && r.directParents == a.directParents
    ensures r.root == a.root && r.focus == a.focus
    ensures (id in a.nodes <==> node.Some?) || id == a.root ==> r.pending == a.pending + {id}
  {
    var addedOrRemoved := if node.Some? then id !in a.nodes else id in a.nodes;
    var nodes := if node.Some? then a.nodes[id := node.value] else a.nodes - {id};
    var a1 := a.(nodes := nodes, pending := a.pending + {id});
    if addedOrRemoved && id != a.root && id in a.directParents then
      MarkParentAsPending(a1, a.directParents[id])
    else a1
  }

  /**
   * A node that appears or disappears makes the nearest present ancestor
   * re-list its children: the end of the chain of parent links from its
   * parent, through any number of transparent ids. Nothing else becomes
   * pending besides the id itself.
   */
  lemma UpdateMarksNearestAncestor(a: AccessibleNodes, id: NodeId, node: Option<NodeBuilder>, path: seq<NodeId>)
    requires (id in a.nodes) != node.Some?
    requires id != a.root && id in a.directParents
    requires IsParentChain(Update(a, id, node), path) && Distinct(path) && path[0] == a.directParents[id]
    ensures Update(a, id, node).pending == a.pending + {id, path[|path| - 1]}
  {
    var nodes := if node.Some? then a.nodes[id := node.value] else a.nodes - {id};
    var a1 := a.(nodes := nodes, pending := a.pending + {id});
    assert IsParentChain(a1, path);
    MarkParentMarksChainEnd(a1, a.directParents[id], path);
  }

  function SetFocus(a: AccessibleNodes, focus: Option<NodeId>): (r: AccessibleNodes)
    ensures r.focus == (if focus.Some? then focus.value else a.root)
    ensures r == a.(focus := r.focus)
  {
    a.(focus := focus.UnwrapOr(a.root))
  }

  /**
   * The ids an update lists as children of `parent`: its direct children
   * that have a node, and, through each transparent child, that child's
   * listed children. Order is not modelled (the source iterates a hash set).
   */
  function FindChildren(dc: map<NodeId, set<NodeId>>, nodes: set<NodeId>, parent: NodeId, unvisited: set<NodeId>)
    : (r: set<NodeId>)
    ensures r <= nodes
    ensures parent in dc && parent in unvisited ==> dc[parent] * nodes <= r
    decreases unvisited
  {
    if parent !in dc || parent !in unvisited then {}
    else
      var rest := unvisited - {parent};
      (set c | c in dc[parent] && c in nodes) +
      (set c, d | c in dc[parent] && c !in nodes && d in FindChildren(dc, nodes, c, rest) :: d)
  }

  /**
   * A path down the child links from `path[0]` to a present id through
   * transparent ids only: the ancestry that puts the last id in the first
   * one's child list.
   */
  ghost predicate IsChildPath(dc: map<NodeId, set<NodeId>>, nodes: set<NodeId>, path: seq<NodeId>) {
    |path| >= 2 && path[|path| - 1] in nodes &&
    (forall k :: 0 <= k < |path| - 1 ==> path[k] in dc && path[k + 1] in dc[path[k]]) &&
    (forall k :: 0 < k < |path| - 1 ==> path[k] !in nodes)
  }

  /** Every listed child is reached by a child path whose inner ids are distinct and unvisited. */
  lemma {:induction false} FindChildrenSound(dc: map<NodeId, set<NodeId>>, nodes: set<NodeId>,
                                             p: NodeId, unvisited: set<NodeId>, x: NodeId)
    returns (path: seq<NodeId>)
    requires x in FindChildren(dc, nodes, p, unvisited)
    ensures IsChildPath(dc, nodes, path) && path[0] == p && path[|path| - 1] == x
    ensures forall k :: 0 <= k < |path| - 1 ==> path[k] in unvisited
    ensures InnerDistinct(path)
    decreases unvisited
  {
    if x in dc[p] && x in nodes {
      path := [p, x];
    } else {
      var c :| c in dc[p] && c !in nodes && x in FindChildren(dc, nodes, c, unvisited - {p});
      var tail := FindChildrenSound(dc, nodes, c, unvisited - {p}, x);
      path := [p] + tail;
      forall k | 0 <= k < |path| - 1
        ensures path[k] in dc && path[k + 1] in dc[path[k]]
      {
        if k > 0 { assert path[k] == tail[k - 1] && path[k + 1] == tail[k]; }
      }
      forall k | 0 < k < |path| - 1
        ensures path[k] !in nodes
      {
        assert path[k] == tail[k - 1];
      }
      forall i, j | 0 <= i < j < |path| - 1
        ensures path[i] != path[j]
      {
        assert path[j] == tail[j - 1] && tail[j - 1] in unvisited - {p};
        if i > 0 { assert path[i] == tail[i - 1]; }
      }
    }
  }

  /** Every child path with distinct, unvisited inner ids puts its last id in the list. */
  lemma {:induction false} FindChildrenComplete(dc: map<NodeId, set<NodeId>>, nodes: set<NodeId>,
                                                path: seq<NodeId>, unvisited: set<NodeId>)
    requires IsChildPath(dc, nodes, path)
    requires forall k :: 0 <= k < |path| - 1 ==> path[k] in unvisited
    requires InnerDistinct(path)
    ensures path[|path| - 1] in FindChildren(dc, nodes, path[0], unvisited)
    decreases |path|
  {
    if |path| > 2 {
      var tail := path[1..];
      assert IsChildPath(dc, nodes, tail) by {
        forall k | 0 <= k < |tail| - 1
          ensures tail[k] in dc && tail[k + 1] in dc[tail[k]]
        {
          assert tail[k] == path[k + 1];
        }
      }
      forall k | 0 <= k < |tail| - 1
        ensures tail[k] in unvisited - {path[0]}
      {
        assert path[0] != path[k + 1];
      }
      assert InnerDistinct(tail) by {
        forall i, j | 0 <= i < j < |tail| - 1
          ensures tail[i] != tail[j]
        {
          assert path[i + 1] != path[j + 1];
        }
      }
      FindChildrenComplete(dc, nodes, tail, unvisited - {path[0]});
      assert path[1] in dc[path[0]] && path[1] !in nodes;
    }
  }

  datatype TreeUpdate = TreeUpdate(nodes: map<NodeId, (NodeBuilder, set<NodeId>)>, root: NodeId, focus: NodeId)

  /** Drains the pending ids: every pending id that still has a node is sent with its current children. */
  function TakeUpdate(a: AccessibleNodes): (r: (TreeUpdate, AccessibleNodes))
    ensures r.0.nodes.Keys == a.pending * a.nodes.Keys
    ensures forall id :: id in r.0.nodes ==> r.0.nodes[id].0 == a.nodes[id] && r.0.nodes[id].1 <= a.nodes.Keys
    ensures forall id :: id in r.0.nodes ==>
              r.0.nodes[id].1 == FindChildren(a.directChildren, a.nodes.Keys, id, a.directChildren.Keys)
    ensures r.0.root == a.root && r.0.focus == a.focus
    ensures r.1 == a.(pending := {})
  {
    var listed := map id | id in a.pending && id in a.nodes ::
      (a.nodes[id], FindChildren(a.directChildren, a.nodes.Keys, id, a.directChildren.Keys));
    (TreeUpdate(listed, a.root, a.focus), a.(pending := {}))
  }

  /**
   * An update lists under `id` exactly the present ids reached from it by
   * a path down the child links through transparent ids, with no id
   * repeated on the way.
   */
  lemma TakeUpdateListsChildPaths(a: AccessibleNodes, id: NodeId, path: seq<NodeId>)
    requires id in TakeUpdate(a).0.nodes
    ensures IsChildPath(a.directChildren, a.nodes.Keys, path) && path[0] == id && InnerDistinct(path) ==>
              path[|path| - 1] in TakeUpdate(a).0.nodes[id].1
    ensures forall x :: x in TakeUpdate(a).0.nodes[id].1 ==>
              exists q :: IsChildPath(a.directChildren, a.nodes.Keys, q) && q[0] == id && q[|q| - 1] == x &&
                          InnerDistinct(q)
  {
    var dc := a.directChildren;
    if IsChildPath(dc, a.nodes.Keys, path) && path[0] == id && InnerDistinct(path) {
      FindChildrenComplete(dc, a.nodes.Keys, path, dc.Keys);
    }
    forall x | x in TakeUpdate(a).0.nodes[id].1
      ensures exists q :: IsChildPath(dc, a.nodes.Keys, q) && q[0] == id && q[|q| - 1] == x && InnerDistinct(q)
    {
      var q := FindChildrenSound(dc, a.nodes.Keys, id, dc.Keys, x);
    }
  }
}
