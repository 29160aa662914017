# Salvation widget engine in Dafny

This project models the core of the salvation GUI toolkit and proves
properties of the model. The toolkit exists in three code generations, and
each is modelled as its own module because their rules differ:

- `src/` is the first generation. It uses index-path addresses and visits
  children in forward order.
- `salvation/` is the second. It uses keyed children and visits them in
  reverse order.
- `widgem/` is the third. It uses key-path lookup.

The model covers:

- **Engine:**
  - widget addressing and lookup;
  - the process-wide address book;
  - scope (visible, enabled, style) derivation and enabled propagation;
  - event routing;
  - size-hint memoisation and invalidation;
  - mounting and unmounting;
  - the accessibility mirror;
  - window focus and mouse bookkeeping.
- **Containers and widgets:** the stack, padding box and image containers; the
  scroll area; both button state machines; the single-line text input.
- **Styling:** CSS element matching and the "last valid declaration wins"
  property scanners.
- **Tooling:** the snapshot reviewer used by the test kit.

Everything is an immutable datatype and a pure function, except where a loop
is the natural statement; those are methods with loop invariants. Widget
handlers, event filters, grid layout, scroll bars and text measurement are
code outside the model. They appear as function parameters. The clock is a
number passed in. File-system outcomes are booleans passed in.

Modules and files:

| module | file | models |
|---|---|---|
| `Wrappers` | wrappers.dfy | `Option` and `Result` |
| `Geometry` | geometry.dfy | points, rectangles, size hints |
| `Address` | address.dfy | index-path and key-path addresses (`WidgetAddress`) |
| `System` | system.dfy | id counter, address book, timers, `or_report_err` |
| `Accessible` | accessible.dfy | `src/accessible.rs` |
| `SrcWidget` | src_widget.dfy | `WidgetCommon`, scope, caches, lookup in `src/widgets/mod.rs` |
| `SrcMount` | src_mount.dfy | mount, unmount, `add_child`, `remove_child` in `src/widgets/mod.rs` |
| `SrcDispatch` | src_dispatch.dfy | mouse-input routing in `src/widgets/mod.rs` |
| `KeyedTree` | keyed_tree.dfy | `salvation/src/widgets/ext_impl.rs` state changes; `widgem/src/widgets/mod.rs` walks |
| `KeyedDispatch` | keyed_dispatch.dfy | `WidgetExt::dispatch` in `ext_impl.rs`; `salvation/src/event.rs` |
| `Window` | window.dfy | focus and mouse bookkeeping of `src/window.rs` |
| `StackHints`, `SrcStack`, `WidgemStack`, `SalvationStack` | stacks.dfy | the three `stack.rs` files |
| `PaddingBox` | padding_box.dfy | `src/widgets/padding_box.rs` |
| `Image` | image.dfy | `src/widgets/image.rs` |
| `ScrollBars`, `SalvationScrollArea`, `SrcScrollArea` | scroll_area.dfy | the two `scroll_area.rs` files |
| `Css` | css.dfy | `salvation/src/style/css.rs` |
| `SalvationButton`, `SrcButton` | button.dfy | the two `button.rs` files |
| `TextInput` | text_input.dfy | `salvation/src/widgets/text_input.rs` |
| `Review` | review.dfy | `test_kit/src/review.rs` |

Two rules of the code are easy to misread, and the model states them as the
code has them:

- **`adjust_scroll`** (salvation/src/widgets/text_input.rs:138-153). The offset
  first follows the cursor and is then clamped into the scroll range. Update
  is requested exactly when the clamp changed the cursor-adjusted offset, not
  whenever the stored offset changed. `TextInput.AdjustScroll` states this
  rule, and `set_text` and every accepted key run it through `after_change`.
- **`go_to_previous_snapshot` at snapshot 0** (test_kit/src/review.rs:402-408).
  The `u32` subtraction wraps to `u32::MAX`, a number no snapshot has, so the
  step fails like a missing number. A debug build would panic instead.

## Model

| member | source | states |
|---|---|---|
| Geometry.Translate | src/widgets/stack.rs:62-73 | Moving a rectangle keeps its size; a point is inside the original exactly when the moved point is inside the moved rectangle |
| Geometry.Intersect | src/widgets/stack.rs:62-73 | The overlap of two rectangles, as the stack's draw code uses it (its definition is assumed), contains exactly the points inside both and never has a negative extent |
| Geometry.MaxOrZero | src/widgets/stack.rs:140-152 | `max().unwrap_or(0)`: 0 for an empty list; otherwise an element of the list that is at least every element |
| Address.WindowRoot | src/widgets/mod.rs:798-802 | The root address of a window has that window and an empty path |
| Address.Join | src/widgets/mod.rs:804-807 | Joining appends exactly one index and keeps the window and the old path as a prefix |
| Address.StartsWithIsPrefixOrder | src/widgets/mod.rs:808-813 | `starts_with` is reflexive, antisymmetric and transitive |
| Address.JoinDescends | src/widgets/mod.rs:804-813 | `a.join(i)` starts with `a` but not the reverse; an address below `a.join(i)` is below `a`; an address below `a` whose next index is `i` is below `a.join(i)` |
| Address.KeyJoin | widgem/src/widgets/mod.rs:44-54 | A key-path join appends exactly one (key, id) segment and keeps the old path as a prefix |
| Address.ItemAt | widgem/src/widgets/mod.rs:44-54 | The segment at a depth exists exactly when the depth is inside the path, and is one of its segments |
| Address.KeyStartsWithIsPrefixOrder | salvation/src/event.rs:158-162 | Key-path `starts_with` is reflexive, antisymmetric and transitive |
| Address.KeyJoinDescends | salvation/src/widgets/ext_impl.rs:241-262 | An address is below `a` joined with (key, id) iff it is below `a` and its segment at `a`'s depth is (key, id); the join is strictly below `a` |
| System.NewId | src/widgets/mod.rs:43-49 | A new id is the counter's value and the counter moves past it |
| System.NewIds | src/widgets/mod.rs:43-49 | `n` allocations give `n` strictly increasing ids, all at least the old counter and below the new one |
| System.LookupAddress | src/system.rs:44-46 | `address(id)` is present exactly when the book has an entry for `id`, and is that entry |
| System.RegisterAddress | src/system.rs:48-50 | Registering returns the previous entry (`None` the first time), makes the new address the entry, and changes no other id |
| System.UnregisterAddress | src/system.rs:52-54 | Unregistering returns and removes the entry and changes no other id, so a second call returns `None` |
| System.RegisterUnregisterRoundTrip | salvation/src/system.rs:50-56 | Registering an unknown id and unregistering it returns the address and leaves the book as it was |
| System.AddTimerOrInterval | src/system.rs:82-108 | A new timer gets an id that was not in use; its deadline is now + duration and its repeat is the given interval |
| System.AddTimer | src/system.rs:68-73 | `add_timer` schedules a one-shot timer (no repeat) at now + duration under a new id |
| System.AddInterval | src/system.rs:75-80 | `add_interval` schedules the first firing at now + interval and repeats with that interval |
| System.CancelTimer | salvation/src/widgets/button.rs:133-139 | Cancelling removes exactly that timer and keeps every other one |
| System.OrReportErr | src/system.rs:120-129 | `Ok(v)` becomes `Some(v)` and any error becomes `None` |
| Accessible.New | src/accessible.rs:20-33 | A new mirror holds only the root group node; the root is pending and focused; there are no links |
| Accessible.Clear | src/accessible.rs:35-41 | Clearing forgets all nodes and pending updates except the root group, which is pending again; links and focus survive |
| Accessible.NearestPresent | src/accessible.rs:67-82 | The upward walk stops at the first id that has a node. It finds nothing at the root or at an id without a parent link, and whatever it finds has a node |
| Accessible.NearestPresentEndsChain | src/accessible.rs:67-82 | Whatever the walk finds ends a chain of parent links from `p` whose other ids have no node and are not the root |
| Accessible.ChainLeadsToNearestPresent | src/accessible.rs:67-82 | Along a chain of parent links with no repeated id, the walk finds the chain's end |
| Accessible.MarkParentAsPending | src/accessible.rs:67-82 | Only `pending` changes, and it only gains ids that have nodes: `p` itself when present, nothing when the walk cannot start |
| Accessible.MarkParentMarksChainEnd | src/accessible.rs:67-82 | At most one id becomes pending; it ends a chain of parent links from `p`; along a chain with no repeated id it is exactly the chain's end |
| Accessible.Mount | src/accessible.rs:43-52 | The child's parent link is set to the parent (the root when absent) and the child joins that parent's child set; other child sets are unchanged |
| Accessible.RemoveFromChildren | src/accessible.rs:58-63 | The child leaves `p`'s set, the entry disappears once it is empty, and other entries are untouched |
| Accessible.UnmountAsWritten | src/accessible.rs:54-65 | As written: the parent link of the parent, not of the child, is removed; the child set shrinks as intended |
| Accessible.Unmount | src/accessible.rs:54-65 | As intended: the child's own parent link is removed and the child leaves its parent's set; no empty sets are left behind |
| Accessible.MountUnmountRoundTrip | src/accessible.rs:43-65 | Mounting a fresh child and unmounting it with the corrected `unmount` restores both link maps |
| Accessible.UnmountAsWrittenLosesParentLink | src/accessible.rs:57 | Concrete case: after the as-written `unmount`, the child's stale link survives and the transparent parent loses its link to the root |
| Accessible.Update | src/accessible.rs:84-101 | `Some` inserts or replaces the node and `None` removes it; links, root and focus are kept. The id always becomes pending, and besides it only ids with nodes. When presence did not change, or the id is the root, nothing beyond the id becomes pending |
| Accessible.UpdateMarksNearestAncestor | src/accessible.rs:94-100 | When a non-root node appears or disappears, exactly the id and the end of the parent chain from its parent become pending, through any number of transparent ids |
| Accessible.SetFocus | src/accessible.rs:103-106 | `set_focus(None)` focuses the root, `set_focus(Some(x))` focuses `x`, and nothing else changes |
| Accessible.FindChildren | src/accessible.rs:127-142 | Listed children all have nodes, and every direct child with a node is listed |
| Accessible.FindChildrenSound | src/accessible.rs:127-142 | Every listed id is reached from the parent by a path down the child links whose inner ids have no node and do not repeat |
| Accessible.FindChildrenComplete | src/accessible.rs:127-142 | The last id of every such path is listed, so a present grandchild behind a transparent child is a child of the grandparent |
| Accessible.TakeUpdate | src/accessible.rs:108-124 | The update carries exactly the pending ids that have nodes, with their current nodes and present children, plus root and focus; pending is left empty |
| Accessible.TakeUpdateListsChildPaths | src/accessible.rs:108-142 | Each sent node lists exactly the present ids reachable from it through transparent ids along child paths with no repeated id |
| SrcWidget.NewWidget | src/widgets/mod.rs:130-152 | A new widget gets a fresh id; it is unmounted, childless, not focusable, visible, enabled, not focused, with the default style |
| SrcWidget.EffectiveScope | src/widgets/mod.rs:196-221 | Effective visible is parent flag AND own flag, same for enabled; style is the explicit style if set, else the parent's |
| SrcWidget.SameShapeTransitive | src/widgets/mod.rs:236-287 | Having the same ids, child rectangles and nesting is transitive, so operations that keep the shape compose |
| SrcWidget.SetParentScope | src/widgets/mod.rs:717-720 | The scope is stored and every descendant's parent scope becomes its parent's effective scope; explicit flags, style, mount state and shape are kept |
| SrcWidget.BroadcastScope | src/widgets/mod.rs:717-720 | Each child receives the given scope, recursively, and the list keeps its length |
| SrcWidget.SetEnabled | src/widgets/mod.rs:722-725 | The own flag is set; the widget is enabled iff its parent is and the flag is; the subtree stays consistent |
| SrcWidget.SetVisible | src/widgets/mod.rs:727-730 | The same for visibility |
| SrcWidget.SetStyle | src/widgets/mod.rs:732-738 | The explicit style is stored and the effective style is it, or the parent's when cleared; the subtree stays consistent |
| SrcWidget.DisabledCoversSubtree | src/widgets/mod.rs:200-202 | In a consistent tree nothing below a disabled widget is enabled |
| SrcWidget.HiddenCoversSubtree | src/widgets/mod.rs:196-198 | In a consistent tree nothing below a hidden widget is visible |
| SrcWidget.ClearSizeHintCache | src/widgets/mod.rs:302-305 | Afterwards no hint is remembered for any width, and every other field is kept |
| SrcWidget.SizeHintChanged | src/widgets/mod.rs:289-300 | No hint stays remembered and nothing else of the widget changes. The queue keeps its entries and gains one more, the widget's own address, exactly when the widget is mounted |
| SrcWidget.CachedSizeHintX | src/widgets/mod.rs:698-705 | The answer is the remembered hint when there is one and the fresh computation otherwise; afterwards the answer is remembered and nothing else changes |
| SrcWidget.CachedSizeHintY | src/widgets/mod.rs:707-715 | The same per width: only the entry for the asked width is set, to the answer |
| SrcWidget.CachedHintsAreStable | src/widgets/mod.rs:698-715 | Once cached, asking again returns the same hint and changes nothing, whatever the widget would compute now; other widths are unaffected |
| SrcWidget.SizeHintChangedReachesAncestors | src/widgets/mod.rs:289-305 | After `size_hint_changed` the next question gets a fresh answer, and the queue makes the widget and every mounted ancestor match the invalidation pass; earlier matches still match |
| SrcWidget.InvalidateSizeHintCache | src/widgets/mod.rs:775-795 | A widget no pending address lies within is left alone with its subtree; a matching one loses its caches and its children are visited |
| SrcWidget.InvalidateChildren | src/widgets/mod.rs:786-793 | Each child is invalidated with the same pending list |
| SrcWidget.ClearMatching | src/widgets/mod.rs:775-795 | Reference definition: clear every mounted widget whose address is a prefix of a pending address, visiting all widgets |
| SrcWidget.NoMatchBelow | src/widgets/mod.rs:775-795 | With consistent mount points, nothing below a non-matching widget matches |
| SrcWidget.InvalidateClearsExactlyMatching | src/widgets/mod.rs:775-795 | With consistent mount points the pruning walk equals the reference: exactly the matching widgets are cleared |
| SrcWidget.GetWidgetByAddress | src/widgets/mod.rs:325-340 | The empty path gives the root and an out-of-range index fails with `WidgetNotFound` |
| SrcWidget.LookupComposes | src/widgets/mod.rs:325-340 | Looking up `p + q` is looking up `p` and then `q` from the widget found, and it fails exactly when one step does |
| SrcWidget.LookupFindsWidgetMountedThere | src/widgets/mod.rs:236-259 | In a consistent tree the widget found at a path is mounted at the root's address extended by that path |
| SrcWidget.GetWidgetById | src/widgets/mod.rs:342-353 | An id without an address-book entry is not found; otherwise lookup follows the registered path |
| SrcMount.SubtreeIdsSplit | src/widgets/mod.rs:236-287 | A subtree's ids are the root's id plus its children's subtree ids |
| SrcMount.SameShapeSameIds | src/widgets/mod.rs:236-287 | Trees of the same shape have the same ids |
| SrcMount.AllUnmountedIsConsistent | src/widgets/mod.rs:173-194 | A fully unmounted tree has consistent mount points |
| SrcMount.MountCommon | src/widgets/mod.rs:154-171 | The widget remembers the mount point and requests an accessible update. Its id is registered at the mount address, no other entry changes, and the tree is marked changed. The mirror links it under its parent, or under the root when top-level |
| SrcMount.UnmountCommon | src/widgets/mod.rs:173-194 | Unmounting clears the focus flags either way; a mounted widget is unregistered, removed from the mirror and unmounted there |
| SrcMount.UpdateAccessible | src/widgets/mod.rs:669-696 | Only a mounted widget with a pending request acts: the mirror then holds its current node (or none), queues it, and the request is settled. Only the flag and the mirror change |
| SrcMount.UpdateAccessibleSettles | src/widgets/mod.rs:669-696 | A second refresh right after the first changes nothing |
| SrcMount.MountUnmountCommonRoundTrip | src/widgets/mod.rs:154-194 | Mounting a widget whose id is new, then unmounting it, restores the address book and, with the corrected unmount, both link maps of the mirror; the widget is unmounted and unfocused again |
| SrcMount.MountTree | src/widgets/mod.rs:154-171 | Dispatching a mount event leaves the widget mounted at the mount point, with consistent mount points below and the same shape |
| SrcMount.MountTreeChildren | src/widgets/mod.rs:236-259 | Child `j` is mounted at the parent's address joined with `j`, with the parent's id and index `j` |
| SrcMount.MountEffects | src/widgets/mod.rs:154-171 | Mounting adds exactly the subtree's ids to the book, leaves other ids' entries alone, and queues no invalidation |
| SrcMount.MountChildrenEffects | src/widgets/mod.rs:236-259 | Mounting children from `from` registers exactly their ids and leaves other ids' addresses alone |
| SrcMount.MountRegistersSubtree | src/widgets/mod.rs:154-171 | With distinct ids, every widget of the mounted subtree is registered at the mount address joined with its index path |
| SrcMount.MountChildrenRegister | src/widgets/mod.rs:236-259 | With distinct ids, each child `j` from `from` on is registered, with its subtree, at the parent's address joined with `j` |
| SrcMount.UnmountTree | src/widgets/mod.rs:173-194 | Dispatching an unmount event leaves every widget of the subtree unmounted and unfocused, with the same shape |
| SrcMount.UnmountTreeChildren | src/widgets/mod.rs:173-194 | Every child subtree is unmounted |
| SrcMount.UnmountEffects | src/widgets/mod.rs:173-194 | Unmounting only removes address-book entries, only the subtree's, and all of them when mounting was consistent |
| SrcMount.UnmountChildrenEffects | src/widgets/mod.rs:173-194 | The same for the children from `from` on |
| SrcMount.UnmountedConsistentIsAllUnmounted | src/widgets/mod.rs:173-194 | With consistent mount points, an unmounted widget has no mounted descendant |
| SrcMount.Remount | src/widgets/mod.rs:261-276 | A remounted child ends up mounted at the new point, consistently, with the same shape |
| SrcMount.RemountTree | src/widgets/mod.rs:261-276 | Children before `from` are untouched; each child from `from` on is mounted at the parent's address joined with its index |
| SrcMount.InsertChild | src/widgets/mod.rs:248-254 | `Vec::insert`: the new element sits at `index`, earlier ones are kept, later ones shift up one |
| SrcMount.RemoveChildAt | src/widgets/mod.rs:279 | `Vec::remove`: the element at `index` goes, earlier ones are kept, later ones shift down one |
| SrcMount.RemountEffects | src/widgets/mod.rs:261-276 | Remounting does not queue size-hint invalidations |
| SrcMount.RemountRegisters | src/widgets/mod.rs:261-276 | Remounting changes only the remounted subtrees' entries; with distinct ids, each child from `from` on is registered at its index below the parent |
| SrcMount.AddChildTree | src/widgets/mod.rs:236-259 | The child is inserted at `index` without a rectangle, receives the parent's effective scope when the parent is mounted, and later children shift up. Consistency survives and the parent's caches are cleared |
| SrcMount.AddChildUnmounted | src/widgets/mod.rs:236-259 | For an unmounted parent the child is inserted as it is |
| SrcMount.AddChildMounted | src/widgets/mod.rs:236-259 | For a mounted parent the child is mounted at its index with the parent's scope and consistency is kept |
| SrcMount.AddChildEffects | src/widgets/mod.rs:236-259 | An unmounted parent changes nothing in the window. A mounted one adds exactly the child's ids to the book and queues its own address for invalidation |
| SrcMount.AddChildKeepsOthers | src/widgets/mod.rs:236-259 | On a mounted parent only the new subtree's and the later siblings' entries change |
| SrcMount.AddChildRegisters | src/widgets/mod.rs:236-259 | On a mounted parent with distinct ids, the new subtree is registered at `index` below the parent and every later sibling one index further on |
| SrcMount.RemoveChildTree | src/widgets/mod.rs:278-287 | The child at `index` is returned. A mounted parent unmounts it and resets its scope to the default. Later children shift down, consistency survives and the caches are cleared |
| SrcMount.DetachRemoved | src/widgets/mod.rs:280-283 | The removed widget ends unmounted with the default scope and the same shape |
| SrcMount.RemoveChildMounted | src/widgets/mod.rs:278-287 | For a mounted parent the remaining children are remounted at their new indices and consistency is kept |
| SrcMount.RemoveChildEffects | src/widgets/mod.rs:278-287 | An unmounted parent changes nothing in the window. A mounted one removes the removed subtree's ids, remounts the later siblings and queues its own address |
| SrcMount.RemoveChildRegisters | src/widgets/mod.rs:278-287 | On a mounted parent only the removed and later subtrees' entries change. With distinct ids every later sibling is registered one index lower, and with consistent mounting the removed ids leave the book |
| SrcDispatch.MapToChild | src/widgets/mod.rs:524-535 | A child gets the event iff its rectangle contains the position; the child's position plus its top-left is the parent's position |
| SrcDispatch.DispatchMouseInput | src/widgets/mod.rs:524-535 | Children are tried first; `accepted_by` is set only when it was empty and the event was accepted, and a prior value is kept |
| SrcDispatch.DispatchToChildren | src/widgets/mod.rs:524-535 | Children are visited in forward order. The loop stops at the first child that accepts. Every earlier child the event reached refused |
| KeyedTree.IndexOfKey | widgem/src/widgets/mod.rs:44-54 | The position found holds the key and is the first such; none is found iff no child has the key |
| KeyedTree.SetVisible | salvation/src/widgets/ext_impl.rs:56-63 | The flag is set and nothing else changes; a size-hint change is reported iff the value changed |
| KeyedTree.SetVisibleIdempotent | salvation/src/widgets/ext_impl.rs:56-63 | Setting the same visibility again changes nothing and reports no change |
| KeyedTree.Propagate | salvation/src/widgets/ext_impl.rs:263-279 | The child's parent flag becomes the event value. Its effective flag is own AND parent. The child's subtree is touched only if its effective flag flipped |
| KeyedTree.EnabledChange | salvation/src/widgets/ext_impl.rs:263-279 | Every child is updated as `Propagate` says; the widget itself is unchanged |
| KeyedTree.SetEnabled | salvation/src/widgets/ext_impl.rs:390-408 | A no-op when the own flag already has the value. Otherwise the flag is stored and the subtree hears about it only if the effective value flipped. Consistency survives |
| KeyedTree.EnabledIsConjunctionAlongPath | salvation/src/widgets/ext_impl.rs:263-279 | In a consistent tree, a descendant is enabled iff the ancestor is and every widget on the way down enables itself |
| KeyedTree.ChangedWithinAncestor | salvation/src/event.rs:158-162 | A change within a widget is within each of its ancestors; the empty list has no change within anything |
| KeyedTree.SetGeometry | salvation/src/widgets/ext_impl.rs:436-456 | The new geometry is stored and nothing else changes; `Layout` is dispatched iff the geometry changed or a changed size hint lies within the widget |
| KeyedTree.SetGeometryIdempotent | salvation/src/widgets/ext_impl.rs:436-456 | Repeating the same geometry with no size-hint changes dispatches no second layout |
| KeyedTree.SizeHintX | salvation/src/widgets/ext_impl.rs:341-353 | The answer is the cached hint if any, else the widget's result, else the fallback when the widget fails; afterwards the answer is cached and nothing else changes |
| KeyedTree.SizeHintY | salvation/src/widgets/ext_impl.rs:354-366 | The same per width: only the asked width's entry is set |
| KeyedTree.SizeHintsAreMemoised | salvation/src/widgets/ext_impl.rs:341-366 | Once asked, the same answer comes back whatever the widget would now compute, and other widths' entries are untouched |
| KeyedTree.ClearSizeHintCache | widgem/src/widgets/mod.rs:65-76 | Both caches are emptied and nothing else changes |
| KeyedTree.InvalidateSizeHintCache | widgem/src/widgets/mod.rs:65-76 | A widget without a pending address inside it is left alone with its subtree; a matching one is cleared and its children are visited |
| KeyedTree.InvalidateChildren | widgem/src/widgets/mod.rs:70-73 | Each child is invalidated with the same list |
| KeyedTree.ClearMatching | widgem/src/widgets/mod.rs:65-76 | Reference definition: clear exactly the widgets within which a pending address lies, visiting all |
| KeyedTree.ClearMatchingChildren | widgem/src/widgets/mod.rs:65-76 | Each child is cleared by the reference definition |
| KeyedTree.NoMatchBelow | widgem/src/widgets/mod.rs:65-76 | With consistent addresses nothing below a non-matching widget matches |
| KeyedTree.InvalidateClearsExactlyMatching | widgem/src/widgets/mod.rs:65-76 | With consistent addresses the pruning walk equals the reference |
| KeyedTree.Walk | widgem/src/widgets/mod.rs:44-54 | No segments give the widget itself; a first key that no child has fails with `WidgetNotFound` |
| KeyedTree.WalkLandsInTree | widgem/src/widgets/mod.rs:44-54 | Whatever the walk finds is a widget of the tree, as many levels down as there were segments |
| KeyedTree.WalkReachesEveryNode | widgem/src/widgets/mod.rs:44-54 | In a tree with consistent addresses and unique sibling keys, the walk along a widget's own segments reaches it |
| KeyedTree.GetWidgetByAddress | widgem/src/widgets/mod.rs:34-55 | An address outside the root fails with `WidgetNotFound` and the root's own address gives the root |
| KeyedTree.LookupFindsEveryNode | widgem/src/widgets/mod.rs:34-55 | In a consistent tree, lookup finds every widget at its own address, and whatever it finds is a widget of the tree |
| KeyedTree.WalkFollowsKeys | widgem/src/widgets/mod.rs:44-54 | In a consistent tree the widget reached carries the walked keys at the walked depths |
| KeyedTree.LookupMatchesKeys | widgem/src/widgets/mod.rs:34-55 | A widget found carries the requested window and keys at every depth |
| KeyedTree.GetWidgetById | widgem/src/widgets/mod.rs:57-63 | An id without an address-book entry is not found; otherwise lookup uses the registered address |
| KeyedDispatch.MapToChild | salvation/src/event.rs:56-116 | A pointer event reaches a child iff forced or inside its rectangle. Only the position changes, and it becomes relative to the child. All three pointer events behave alike |
| KeyedDispatch.CreateEnterEvent | salvation/src/event.rs:118-123 | The enter event keeps the move's device and position |
| KeyedDispatch.OwnHandlers | salvation/src/widgets/ext_impl.rs:188-198 | The filter goes first and the handler runs iff the filter did not accept; the event is accepted iff either did |
| KeyedDispatch.DispatchToSelf | salvation/src/widgets/ext_impl.rs:140-142 | A disabled widget refuses mouse-enter, keyboard and input-method events without running filter or handler |
| KeyedDispatch.Dispatch | salvation/src/widgets/ext_impl.rs:104-220 | Acceptance agrees with the reference `Accepts`: a disabled widget never accepts. A record once made is never replaced. Accepted input and scroll events record the innermost acceptor, and a refused one records nothing. A mouse move is recorded for the first widget it reaches, innermost first, that has a window rectangle, even a disabled one and even when nobody accepts |
| KeyedDispatch.MoveRecordHasWindowRect | salvation/src/widgets/ext_impl.rs:15-31 | Whoever takes the record of a mouse move that found nothing recorded is a widget of the subtree with a window rectangle |
| KeyedDispatch.DispatchChildren | salvation/src/widgets/ext_impl.rs:104-121 | Children are visited in reverse order, handing the window record on, and the loop stops at the first that accepts. Whether a child accepts is given by `Accepts`, and every later child the event reached refused |
| KeyedDispatch.ScrollTarget | salvation/src/widgets/ext_impl.rs:241-262 | The event moves on only when its target lies strictly below the widget, the next key names a child, and that child has the segment's id |
| KeyedDispatch.ScrollToRectPath | salvation/src/widgets/ext_impl.rs:241-262 | The path starts at the widget and stops there when the widget accepts or has no matching child |
| KeyedDispatch.ScrollToRectReachesTarget | salvation/src/widgets/ext_impl.rs:241-262 | In a consistent tree an unaccepted `ScrollToRect` ends at the widget lookup finds at the target address |
| Window.UnsetFocus | src/window.rs:570-579 | No widget is focused and the mirror's focus is the root; nothing else changes |
| Window.SetFocus | src/window.rs:528-568 | Nothing happens without a root or for a found non-focusable target. Otherwise the old focus gets `FocusOut` and a found target gets `FocusIn` and the focus. The mirror agrees afterwards |
| Window.CheckAutoFocus | src/window.rs:520-526 | With nothing focused and a non-empty list, the first focusable widget is focused for reason `Auto`; otherwise nothing happens |
| Window.Position | src/window.rs:442-445 | `iter().position`: the first index holding the id, or none iff the id is absent |
| Window.NextFocusIndex | src/window.rs:446-447 | `rem_euclid` gives an index in range; stepping past either end wraps around |
| Window.FocusIndexWraps | src/window.rs:446-447 | Tab from the last widget goes to the first; Shift+Tab from the first goes to the last; Tab then Shift+Tab returns |
| Window.MoveKeyboardFocus | src/window.rs:438-460 | Nothing with an empty list. A focused widget in the list hands the focus `direction` places on, cyclically. A focused widget not in the list loses the focus. Auto-focus runs last |
| Window.Populate | src/window.rs:661-668 | Every id listed is a focusable widget of the tree |
| Window.PopulateChildren | src/window.rs:661-668 | The children's lists concatenated hold exactly their focusable widgets |
| Window.PopulateListsReachableFocusable | src/window.rs:661-668 | Every focusable widget reachable by child indices is listed |
| Window.PopulateListsOnlyReachableFocusable | src/window.rs:661-668 | Everything listed is a focusable widget reachable by some path |
| Window.PopulateIsFocusablePreOrder | src/window.rs:661-668 | The list is the tree's pre-order, parent before children and children in order, filtered to focusable widgets |
| Window.PopulateHasNoDuplicates | src/window.rs:661-668 | With distinct ids, no widget is listed twice |
| Window.RefreshFocusableWidgets | src/window.rs:507-518 | The list is rebuilt from the tree. A focused widget no longer listed loses the focus. Afterwards any focused widget is listed, and one still listed keeps the focus |
| Window.RecordPress | src/window.rs:272-289 | The button is added to the pressed set; the click count grows iff the same button was pressed last within the timeout, else it restarts at 1 |
| Window.MouseInput | src/window.rs:266-356 | Press adds and release removes the button. With a grabber the event goes to it and the grab ends once no button is held. Without one, an accepted press makes the acceptor the grabber |
| Window.PressReleaseGrabCycle | src/window.rs:266-356 | An accepted press followed by the release of that button grabs the mouse for exactly that widget in between and ends the grab |
| Window.DoubleClickCounting | src/window.rs:279-289 | Two presses of one button within the timeout count 2 clicks; a press of another button restarts at 1 |
| Window.CursorMoved | src/window.rs:209-262 | The new position is stored and nothing else changes. A move to the stored position, or a window without a root, is not routed. Otherwise the event goes to the grabber when there is one, else to the root |
| Window.CursorMovedIgnoresRepeat | src/window.rs:219-226 | Moving to the same place twice dispatches once |
| StackHints.Corners | src/widgets/stack.rs:140-166 | The corners listed are exactly those of the present rectangles |
| StackHints.StackHint | widgem/src/widgets/stack.rs:46-76 | Fixed, minimum = preferred, at least every present rectangle's far edge, equal to one of them, 0 when none is present |
| SrcStack.Add | src/widgets/stack.rs:34-54 | The child is appended with index = old child count and the given rectangle, and is mounted iff the stack is; earlier children are kept |
| SrcStack.OnMouseInput | src/widgets/stack.rs:75-92 | Children are tried in insertion order, each only if its rectangle holds the position. The result is true at the first acceptance and false if none accepts |
| SrcStack.DrawRect | src/widgets/stack.rs:62-73 | The draw rectangle is the child's rectangle moved to the parent's origin and cut to the parent, so it lies inside the parent |
| SrcStack.Layout | src/widgets/stack.rs:121-138 | Without a geometry nothing is laid out; otherwise each child gets its rectangle moved by the stack's top-left |
| SrcStack.SizeHintX | src/widgets/stack.rs:140-152 | The largest right edge over the children, 0 with none; fixed, with minimum = preferred |
| SrcStack.SizeHintY | src/widgets/stack.rs:154-166 | The largest bottom edge, independent of the offered width |
| WidgemStack.ChildGeometry | widgem/src/widgets/stack.rs:19-32 | The child is placed at the given rectangle with that size |
| WidgemStack.InsertKeyed | widgem/src/widgets/stack.rs:19-32 | After `add_child_with_key` the key holds the new child; keys stay unique; children under other keys are kept |
| WidgemStack.Add | widgem/src/widgets/stack.rs:19-32 | The child is stored under the key and placed at the rectangle only if the stack already has a geometry |
| WidgemStack.SizeHintX | widgem/src/widgets/stack.rs:46-60 | The largest right edge among children with a rectangle, attained by one of them, or 0; fixed, minimum = preferred |
| WidgemStack.SizeHintY | widgem/src/widgets/stack.rs:62-76 | The same for bottom edges, independent of the width |
| SalvationStack.Add | salvation/src/widgets/stack.rs:18-31 | The child is appended at index = old length with its rectangle, recorded under its id, and other entries are kept |
| SalvationStack.SizeHintX | salvation/src/widgets/stack.rs:48-58 | The largest right edge among children with a rectangle, or 0, whatever the mode |
| SalvationStack.SizeHintY | salvation/src/widgets/stack.rs:60-70 | The largest bottom edge among children with a rectangle, attained by one of them, or 0, ignoring width and mode |
| SalvationStack.AddGrowsHints | salvation/src/widgets/stack.rs:18-70 | Adding a child never shrinks the hints, and they cover the new rectangle |
| PaddingBox.SizeHintX | src/widgets/padding_box.rs:35-48 | The content's hint with 20 added to minimum and preferred, `is_fixed` kept; (20, 20, fixed) without content |
| PaddingBox.ContentWidth | src/widgets/padding_box.rs:50-64 | The content is asked at width `max(0, size_x - 20)` |
| PaddingBox.SizeHintY | src/widgets/padding_box.rs:50-64 | The content's height hint at that width plus 20 |
| PaddingBox.Layout | src/widgets/padding_box.rs:66-82 | No rectangles without content or geometry; otherwise one at (10, 10) of size `max(0, w-20)` × `max(0, h-20)` |
| PaddingBox.LayoutHonoursMinimum | src/widgets/padding_box.rs:35-82 | A box at least its minimum size gives the content at least the content's minimum, inside the box |
| Image.AsI32 | src/widgets/image.rs:45-63 | `u32 as i32`: values below 2^31 are kept, larger ones wrap negative |
| Image.New | src/widgets/image.rs:23-28 | The pixmap is always stored |
| Image.SizeHintX | src/widgets/image.rs:45-53 | Minimum = preferred = pixmap width (0 without one), fixed |
| Image.SizeHintY | src/widgets/image.rs:55-63 | Minimum = preferred = pixmap height (0 without one), fixed, whatever the width |
| Image.NewImageHintsArePixmapSize | src/widgets/image.rs:23-63 | A new image asks for exactly its pixmap's size |
| ScrollBars.MaxValue | salvation/src/widgets/scroll_area.rs:127-138 | `max(0, content - viewport)`: never negative, 0 when the content fits, exactly the overflow otherwise |
| ScrollBars.WithRange | salvation/src/widgets/scroll_area.rs:127-138 | The range becomes `0..=max` and the value is left to the scroll bar |
| ScrollBars.Clamp | salvation/src/widgets/scroll_area.rs:181-204 | `i32::clamp`: the result is in range, equal to the input when in range, the nearer bound otherwise |
| ScrollBars.ScrollBy | salvation/src/widgets/scroll_area.rs:181-204 | The value moves against the delta and stays in range: below the range it lands on the start, above on the end; the range is kept |
| ScrollBars.ScrolledContentCoversViewport | salvation/src/widgets/scroll_area.rs:121-138 | With the value in range, content placed at `-value` starts at or before the viewport and, when larger, reaches past its end |
| ScrollBars.ScrollStepsAdd | salvation/src/widgets/scroll_area.rs:181-204 | Two in-range scrolls equal one scroll by their sum |
| ScrollBars.ScrollIsMonotone | salvation/src/widgets/scroll_area.rs:181-204 | A larger delta never gives a larger value |
| SalvationScrollArea.SetContent | salvation/src/widgets/scroll_area.rs:43-55 | Existing content is removed before adding, so the viewport then has content, the new one last, and exactly one child when well formed |
| SalvationScrollArea.SetContentTwice | salvation/src/widgets/scroll_area.rs:35-55 | Setting content keeps the area well formed, and setting twice equals setting the second content once |
| SalvationScrollArea.Relayout | salvation/src/widgets/scroll_area.rs:90-141 | Fails without a size or grid layout. Ranges become `0..=max(0, content - viewport)`. The content is placed at `(-value_x, -value_y)` with its preferred size |
| SalvationScrollArea.LayoutOptions | salvation/src/widgets/scroll_area.rs:28-32 | The grid options the scroll area is built with, and that `relayout` hands to the grid, leave no padding and no spacing on either axis |
| SalvationScrollArea.ViewportSizeHintX | salvation/src/widgets/scroll_area.rs:225-239 | The viewport asks for no width, at the minimum or the preferred size, and is not fixed, so it may be stretched |
| SalvationScrollArea.ViewportSizeHintY | salvation/src/widgets/scroll_area.rs:225-239 | The viewport asks for no height at any width, in either mode, and is not fixed |
| SalvationScrollArea.HandleMouseScroll | salvation/src/widgets/scroll_area.rs:181-204 | Each value becomes the old value minus the delta, clamped into the bar's current range; ranges and children are kept; the event is accepted |
| SalvationScrollArea.RelayoutThenScrollStaysInRange | salvation/src/widgets/scroll_area.rs:90-204 | After a relayout, any scroll keeps both values within `0..=max(0, content - viewport)` |
| SrcScrollArea.SetContent | src/widgets/scroll_area.rs:39-44 | Child 3 is removed if present before appending; the first three children are kept and a well-formed area stays at four children |
| SrcScrollArea.SetContentTwice | src/widgets/scroll_area.rs:35-44 | Setting twice equals setting the second content once |
| SrcScrollArea.Relayout | src/widgets/scroll_area.rs:95-139 | Fails without a size or grid layout. Ranges start at 0 and end at `max(0, content - viewport)`. The content rectangle is `(-value_x, -value_y, preferred)` moved by the viewport's top-left |
| SrcScrollArea.LayoutOptions | src/widgets/scroll_area.rs:78-93 | `grid_options`, which `relayout` hands to the grid, leaves no padding and no spacing on either axis |
| SrcScrollArea.ViewportSizeHintX | src/widgets/scroll_area.rs:215-235 | The viewport asks for no width in either mode and is not fixed, so it may be stretched |
| SrcScrollArea.ViewportSizeHintY | src/widgets/scroll_area.rs:215-235 | The viewport asks for no height at any width, in either mode, and is not fixed |
| SrcScrollArea.LayoutInputsMatchSalvation | src/widgets/scroll_area.rs:78-93 | The two generations hand the grid the same inputs for the scroll area's fixed children: equal options and equal viewport hints at every width |
| SrcScrollArea.ContentCoversViewport | src/widgets/scroll_area.rs:119-135 | After a relayout with in-range values, content larger than the viewport covers it |
| Css.FromPseudoClass | salvation/src/style/css.rs:622-640 | Custom `"min"` maps to `Min`; every unlisted class to `Other`; `hover` and `active` to their own cases |
| Css.SelectorItems | salvation/src/style/css.rs:581-593 | A selector of one compound gives its components. A trailing empty second compound is allowed. Anything nested gives `None` |
| Css.IsRoot | salvation/src/style/css.rs:595-599 | True iff the selector's only component is `:root` |
| Css.NewElement | salvation/src/style/css.rs:650-656 | A new element has the tag and no classes |
| Css.WithClass | salvation/src/style/css.rs:658-661 | Adds the class and keeps everything else |
| Css.WithPseudoClass | salvation/src/style/css.rs:663-666 | Adds the pseudo-class and keeps everything else |
| Css.Matches | salvation/src/style/css.rs:668-694 | True iff the selector is not nested and every component is a held pseudo-class, a held class, or the tag; any other component fails; the empty list matches |
| Css.MatchesIsMonotone | salvation/src/style/css.rs:672-693 | An element with more classes and pseudo-classes matches every component the smaller one matches |
| Css.Last | salvation/src/style/css.rs:400-434 | The last present entry of a list, or none iff no entry is present |
| Css.LastOfSnoc | salvation/src/style/css.rs:400-434 | Appending a present entry makes it the last; appending an absent one changes nothing |
| Css.CollapseSettings | salvation/src/style/css.rs:400-434 | Each declaration's reading as a `border-collapse` value, position by position |
| Css.ContentUrlSettings | salvation/src/style/css.rs:436-460 | Each declaration's reading as a `content` URL, position by position |
| Css.GetBorderCollapse | salvation/src/style/css.rs:400-434 | The last valid `collapse`/`separate` wins and malformed entries are skipped; the default is `false` |
| Css.ConvertContentUrl | salvation/src/style/css.rs:436-460 | Never fails; the last URL declaration, or `None` iff there is none |
| Css.ColorSettings | salvation/src/style/css.rs:147-158 | Each declaration's reading as a colour, position by position |
| Css.ConvertMainColor | salvation/src/style/css.rs:147-158 | Fails iff some colour cannot be converted; otherwise the last colour, `None` iff there is no colour declaration |
| Css.Gather | salvation/src/style/css.rs:236-268 | Each border field is unset (style: `none`) when no declaration sets it, and otherwise the value of the last declaration that does, shorthand or longhand |
| Css.LastIsAtLastAt | salvation/src/style/css.rs:236-268 | The last present entry is the one at the position after which nothing is present |
| Css.BorderFromSettings | salvation/src/style/css.rs:269-278 | Style `none` gives the default (no border). Any style other than solid is an error. Solid gives a border whose missing colour is the text colour |
| Css.ConvertBorder | salvation/src/style/css.rs:236-278 | No border iff the gathered style is `none`; an error iff a declaration cannot be converted or the style is neither `none` nor solid; a solid border takes the gathered width, radius and colour, the colour defaulting to the text colour |
| Css.NoBorderDeclarationsGiveDefault | salvation/src/style/css.rs:236-278 | Without border-style declarations the result is the default |
| Css.LastBorderStyleDecides | salvation/src/style/css.rs:236-278 | A trailing `border-style` decides the style, whatever came before |
| SalvationButton.Then | salvation/src/widgets/button.rs:108-144 | Effects in sequence add their triggers and concatenate their cancellations |
| SalvationButton.TimerList | salvation/src/widgets/button.rs:133-139 | An optional timer as the list of timers to cancel |
| SalvationButton.New | salvation/src/widgets/button.rs:48-67 | A new button is unpressed, has no timers, shows its text, is leave-sensitive, triggers on release and is focusable |
| SalvationButton.SetPressed | salvation/src/widgets/button.rs:108-144 | A no-op when unchanged. `Active` follows the pressed state. A trigger fires iff the value changed, it is not suppressed, and the new value equals `trigger_on_press`. Release cancels and clears both timers |
| SalvationButton.SetPressedKeepsInvariants | salvation/src/widgets/button.rs:108-144 | `Active` present iff pressed, and no timers while unpressed, are kept |
| SalvationButton.PressReleaseTriggersOnce | salvation/src/widgets/button.rs:118-143 | An unsuppressed press then release triggers exactly once |
| SalvationButton.StartAutoRepeat | salvation/src/widgets/button.rs:146-162 | A disabled button does nothing; otherwise it triggers once and starts the interval |
| SalvationButton.AutoRepeatTick | salvation/src/widgets/button.rs:153-159 | Each interval tick triggers iff the button is enabled |
| SalvationButton.HandleMouseMove | salvation/src/widgets/button.rs:211-227 | Corrected: re-entering while moved-out presses again and clears the flag. Leaving while pressed and leave-sensitive unpresses without triggering and sets the flag. No rectangle is an error |
| SalvationButton.HandleMouseMoveAsWritten | salvation/src/widgets/button.rs:211-227 | As written: re-entering while moved-out presses again and sets the flag to true |
| SalvationButton.MousePress | salvation/src/widgets/button.rs:229-255 | A left press presses the button, triggers iff trigger-on-press and newly pressed, and requests focus when needed (an error without a window) |
| SalvationButton.MouseRelease | salvation/src/widgets/button.rs:229-255 | A left release unpresses the button, clears the moved-out flag and triggers iff it was pressed and triggers on release |
| SalvationButton.HandleMouseInput | salvation/src/widgets/button.rs:229-255 | Disabled, or not the left button: true and no change. Otherwise press or release as above |
| SalvationButton.HandleKeyboardInput | salvation/src/widgets/button.rs:257-272 | Space presses or releases. Enter triggers on press. Other keys are not handled |
| SalvationButton.HandleAccessibleAction | salvation/src/widgets/button.rs:274-290 | The default action triggers; focus requests the focus (an error without a window); other actions do nothing |
| SalvationButton.HandleScopeChange | salvation/src/widgets/button.rs:340-356 | Becoming disabled cancels the timers, unpresses without triggering and clears the moved-out flag; `Active` stays in agreement |
| SalvationButton.AxisHint | salvation/src/widgets/button.rs:301-338 | The content extent plus twice the padding: text if visible, else the icon, else nothing |
| SalvationButton.RecalculateSizeHintX | salvation/src/widgets/button.rs:301-317 | The content width plus twice the padding of the mode: text width if visible, else icon width, else 0 |
| SalvationButton.RecalculateSizeHintY | salvation/src/widgets/button.rs:319-336 | The content height plus twice the padding of the mode, whatever the offered width |
| SalvationButton.MinHintAtMostPreferred | salvation/src/widgets/button.rs:301-336 | Preferred minus minimum is twice the padding difference on each axis, so a smaller minimum padding gives a minimum no larger than the preferred hint |
| SalvationButton.ReentryPressesOnlyOnce | salvation/src/widgets/button.rs:211-227 | Corrected: after re-entry the moved-out flag is clear, so a later move inside does not press again |
| SalvationButton.ReentryRepressAsWritten | salvation/src/widgets/button.rs:215 | Concrete trace: with the flag set on re-entry, one mouse press cycle interleaved with a Space press triggers twice as written and once corrected |
| SrcButton.UpdateColor | src/widgets/button.rs:79-87 | The text colour is the foreground when enabled and the grey disabled colour otherwise |
| SrcButton.New | src/widgets/button.rs:41-55 | A new button is enabled, in state `Default`, has no callback, and uses the foreground |
| SrcButton.SetEnabled | src/widgets/button.rs:62-67 | The flag and colour are updated only when the value differs; state, text and callback are kept |
| SrcButton.SetEnabledRoundTrip | src/widgets/button.rs:62-67 | Disabling and re-enabling restores the button |
| SrcButton.OnMouseInput | src/widgets/button.rs:172-199 | Always true. An enabled left press gives `Pressed` and clicks once. An enabled left release gives `Hover`. Anything else changes nothing |
| SrcButton.OnCursorMoved | src/widgets/button.rs:201-204 | The state becomes `Hover` and the result is false |
| SrcButton.ClickCycle | src/widgets/button.rs:172-199 | A press then release clicks exactly once and ends in `Hover` |
| SrcButton.SizeHintX | src/widgets/button.rs:244-250 | (text width, text width + 20, fixed) |
| SrcButton.SizeHintY | src/widgets/button.rs:252-259 | (text height, text height + 10, fixed) |
| TextInput.Sanitize | salvation/src/widgets/text_input.rs:50-52 | Every newline becomes a space and every other character is kept, so the length is kept and no newline remains |
| TextInput.SanitizeKeepsSingleLine | salvation/src/widgets/text_input.rs:50-52 | Text without newlines is unchanged |
| TextInput.SanitizeIsIdempotent | salvation/src/widgets/text_input.rs:50-52 | Sanitizing twice equals sanitizing once |
| TextInput.New | salvation/src/widgets/text_input.rs:55-71 | The initial text is the sanitized argument, at scroll 0 |
| TextInput.SetText | salvation/src/widgets/text_input.rs:73-80 | The text becomes the sanitized argument and stays single-line, and the offset is re-adjusted to the cursor, ending within the scroll range |
| TextInput.SetTextSettles | salvation/src/widgets/text_input.rs:73-80 | With the cursor inside the text, setting the same text twice equals setting it once; of two texts set in a row the last wins |
| TextInput.FollowCursor | salvation/src/widgets/text_input.rs:140-147 | A cursor left of the viewport is brought to x = 0; one past the right edge to `viewport - 1`; a visible cursor leaves the offset alone |
| TextInput.AdjustScroll | salvation/src/widgets/text_input.rs:138-153 | The offset ends in `0..=max(0, editor - viewport)`: the cursor-adjusted value when in range, else the nearer end; update is requested iff the clamp changed it |
| TextInput.CursorStaysVisible | salvation/src/widgets/text_input.rs:138-153 | When the cursor is within the text, it is visible after adjusting |
| TextInput.AdjustScrollIsIdempotent | salvation/src/widgets/text_input.rs:138-153 | Adjusting twice gives the same offset as once |
| TextInput.UpdateViewportRect | salvation/src/widgets/text_input.rs:233-253 | No rectangle: untouched. Otherwise width `max(0, w - 2·pad)`, height `min(h, editor)`, y offset `max(0, h - editor)/2`, and the scroll is re-adjusted |
| TextInput.ViewportIsCentredHorizontally | salvation/src/widgets/text_input.rs:233-253 | The viewport starts at the padding and leaves the same padding on the right |
| TextInput.SizeHintX | salvation/src/widgets/text_input.rs:600-608 | Minimum and preferred width by mode, never fixed |
| TextInput.SizeHintY | salvation/src/widgets/text_input.rs:609-617 | The editor height plus twice the vertical padding |
| TextInput.InsertAt | salvation/src/widgets/text_input.rs:436-439 | Inserting adds the inserted length and introduces no newline |
| TextInput.EraseRange | salvation/src/widgets/text_input.rs:388-394 | Deleting keeps the text before the clamped range and after it, shortens the text by the range's length, and introduces no newline |
| TextInput.TypeThenEraseRestores | salvation/src/widgets/text_input.rs:388-439 | Erasing exactly the characters just inserted gives back the original text |
| TextInput.HandleKeyboardInput | salvation/src/widgets/text_input.rs:378-449 | A release returns true without editing, and text from Tab, Enter or Escape returns false. Typed or pasted text is sanitized before insertion. Delete, backspace, cut and word deletion remove the range the engine chose. Movement, selection, copy, undo and redo keep the text. Every accepted key re-adjusts the offset to the cursor, and the text stays single-line |
| TextInput.KeyboardKeepsSingleLine | salvation/src/widgets/text_input.rs:378-449 | Any sequence of key events keeps the text single-line |
| Review.CurrentSnapshots | test_kit/src/review.rs:465-473 | The current test case's snapshots exist iff the test index is set and in range |
| Review.CurrentSnapshot | test_kit/src/review.rs:465-473 | The current snapshot exists iff there is a current test case and the snapshot number is one of its keys |
| Review.PreviousSnapshot | test_kit/src/review.rs:449-463 | The snapshot numbered one less, found only when the number is at least 1 and present |
| Review.GoToSnapshot | test_kit/src/review.rs:415-437 | Without a test case: false, nothing changes. Missing number: false, mode `Confirmed`, index kept. Otherwise the index is set and the mode is `New` iff an unconfirmed file exists |
| Review.GoToNextSnapshot | test_kit/src/review.rs:410-413 | Goes to number 1 from none, else to the next number |
| Review.GoToPreviousSnapshot | test_kit/src/review.rs:402-408 | Refused at 1; number 0 from none; the previous number otherwise; at 0 the wrapped number is missing |
| Review.GoToTestCase | test_kit/src/review.rs:392-400 | The snapshot index is always cleared. An index past the end fails and keeps the test index. Otherwise the test index is set and the first snapshot tried. Validity is kept |
| Review.GoToNextTestCase | test_kit/src/review.rs:379-382 | Test case 0 from none, else the next |
| Review.GoToPreviousTestCase | test_kit/src/review.rs:384-390 | Refused at 0; test case 0 from none; else the previous |
| Review.NewReviewer | test_kit/src/review.rs:332-355 | Starts at test case 0 when there is one. Snapshot 1 is selected when it exists, in mode `New` iff it has an unconfirmed file and `Confirmed` otherwise; with no snapshot 1 nothing is selected and the mode is `Confirmed` |
| Review.GoToNextUnconfirmedFile | test_kit/src/review.rs:363-377 | True only on a snapshot with an unconfirmed file; false once the test cases are exhausted, with no snapshot selected; the data is unchanged |
| Review.IsModeAllowed | test_kit/src/review.rs:616-634 | `New` needs a new file; `Confirmed` a confirmed one; `DiffWithConfirmed` both; `DiffWithPreviousConfirmed` a new file and a confirmed previous snapshot |
| Review.SetMode | test_kit/src/review.rs:636-642 | The mode changes only to an allowed mode, and nothing else changes |
| Review.GoToSnapshotPicksAllowedMode | test_kit/src/review.rs:415-437 | When every snapshot has a file, landing on a snapshot picks a mode it allows |
| Review.StepPastLastMayDisallowMode | test_kit/src/review.rs:410-437 | Stepping past the last snapshot keeps the position but switches to `Confirmed`, which a snapshot with only a new file does not allow |
| Review.UnconfirmedCount | test_kit/src/review.rs:536-541 | The number of snapshots with an unconfirmed file, summed over all test cases |
| Review.UnconfirmedCountUpdate | test_kit/src/review.rs:536-541 | Replacing one test case's snapshots changes the count by exactly that test case's difference |
| Review.StripSuffix | test_kit/src/review.rs:657-660 | Succeeds iff the name ends with the suffix, and the result plus the suffix is the name |
| Review.Approve | test_kit/src/review.rs:644-676 | Success iff there is an unconfirmed file, the needed file calls succeed and the name ends in `.new.png`. The file then becomes the confirmed `x.png` and the unconfirmed count drops by one. Failures after taking the old confirmed file leave none |
| Review.PixelAt | test_kit/src/review.rs:692-708 | A pixel exists iff the position is inside the pixmap |
| Review.DiffPixel | test_kit/src/review.rs:696-720 | Equal pixels are copied (red where both are missing). A differing pixel of `a` gets R−50, G+50, B−50 saturating and opaque. A pixel only `b` has is red |
| Review.PixmapDiff | test_kit/src/review.rs:686-726 | The output is as wide and tall as the larger input, and each pixel is the per-pixel rule applied to the two inputs |
| Review.DiffWithItself | test_kit/src/review.rs:686-726 | Comparing a pixmap with itself gives it back |
| Review.DiffMarksChanges | test_kit/src/review.rs:686-726 | A differing pixel of `a` changes, unless it already is opaque pure green |

## Left out

- Platform glue in `src/window.rs` is left out because it is not logic of the engine:
  - windowing, redraw and pixel formats;
  - IME areas and cursor icons;
  - keyboard routing.
- Time is a number passed in, and the double-click timeout is 300 ms in nanoseconds.
- Drawing is left out: every `DrawEvent` handler, tiny-skia and text rendering.
  The only exception is the rectangle arithmetic of `SrcStack.DrawRect`.
- Text shaping and editing is left out. cosmic-text stands behind the text editor, so:
  - cursor geometry, selection and editor actions are parameters or left out;
  - the range a deleting action removes (a grapheme, a word run or the selection) is chosen by the text engine and is a parameter of `TextInput.Erase`;
  - the clipboard is a parameter;
  - `standard_shortcuts` is not part of this model, so a matched shortcut is an input.
- Floating point is left out:
  - CSS lengths and scale;
  - `unified_delta` rounding;
  - accessibility bounds.
  Scroll deltas arrive already as integer pixels.
- lightningcss internals are left out. Selectors and declarations are abstract
  datatypes. `replace_vars`, `print_selector` and `print_component` are not
  modelled.
- Ambient global state is not modelled as such:
  - the thread-local system, the event-loop proxy and window requests;
  - the timer queue's scheduling, which is not part of this model.
  Timers are ids with add and cancel.
- File-system work is left out:
  - `Reviewer::approve`'s file calls become the booleans `removeOk` and `renameOk`;
  - snapshot discovery, PNG loading and `make_pixmap`;
  - the reviewer's UI widget.
- Grid layout and `ScrollBar` are parameters, not part of this model:
  - the grid layout algorithm. `Relayout` receives it as a function of the
    options (`LayoutOptions`) and the size. The grid also reads every child's
    size hints: the viewport's are `ViewportSizeHintX`/`ViewportSizeHintY`,
    and the scroll bars' belong to the scroll bar widget;
  - the scroll area's own size hints, which the grid computes from the same
    options (src/widgets/scroll_area.rs:184-200);
  - the scroll bar widget, apart from its value and range.
- `SalvationScrollArea.LayoutOptions` assumes `GridOptions::ZERO`, whose
  definition is not part of this model, has every padding and spacing 0.
  It also takes `grid_options` to return the options `new` stored.
- Mouse enter, leave and hover bookkeeping is left out: the window's set
  of entered widgets, the cursor icon and `is_mouse_over`. A `MouseMove`
  that no child accepted sends the widget an enter event, whose answer the
  source discards. Its filter and handler are not modelled. The record it
  would make goes to the same widget under the same condition as the
  move's own record, which is modelled.
- KeyedDispatch.Dispatch: the widget is assumed to be in a window that has
  a current mouse event. The source looks both up and, when either is
  missing, logs the error and records nothing (ext_impl.rs:15-31, 201-212).
- `StyleChange` propagation and style computation are left out. Styles are
  opaque ids.
- The stacks' `handle_layout` is not modelled, because it does nothing and
  returns `Ok`.
- The first-generation `WidgetExt::dispatch` (src/widgets/mod.rs:482-637) is
  modelled per event kind, not as one function:
  - mouse input, with its forward child order, is `SrcDispatch`;
  - mount and unmount recursion is `SrcMount.MountTree` and `SrcMount.UnmountTree`;
  - scope propagation is `SrcWidget.SetParentScope`.
  The other kinds are left out: a geometry change, which stores the rectangle
  and re-runs layout; draw and window-focus events, which are forwarded to
  every child; focus and mouse-leave flags; and mouse-move routing with its
  mouse-enter follow-up, together with the hover bookkeeping above.
- Integer widths are not modelled: `i32`/`u32` arithmetic is unbounded here
  apart from `Image.AsI32`, and overflow is not modelled.
- Errors that the source logs and swallows (`or_report_err`, `warn!`) become
  `None`/`false` results, or are dropped when only logged.
- Some first-generation files come from an older revision than
  `src/widgets/mod.rs`: `src/widgets/stack.rs`, `padding_box.rs` and
  `src/window.rs`. They are modelled as written, in modules of their own.
- `SrcStack.Add` follows its file, which joins the child's id rather than its
  index into the address.
- The keyed per-widget record (`WidgetCommon`/`WidgetBase`) is not part of
  this model. `is_enabled` is taken to be "self enabled AND parent enabled".
  `FALLBACK_SIZE_HINTS` is a parameter.
- `Review.GoToNextUnconfirmedFile`: it does not state that no unconfirmed
  snapshot was skipped, only where it stops. The source steps through
  consecutive numbers and moves on to the next test case at the first gap.
- `TextInput.AdjustScrollIsIdempotent`: only the offset is idempotent. The
  update flag of a second call can differ, because the flag compares against
  the cursor-adjusted value.
- `Css.Gather` keeps a border colour or width set by the shorthand or a
  longhand, whichever is later. Length conversion is not modelled.
- `Review.PixmapDiff`: pixmaps are rows of pixels. The source's flat buffer
  indexed by `y * width + x` is the same data laid out row by row.
  Zero-sized pixmaps, which tiny-skia cannot create, are excluded.
- `Accessible.NearestPresent` stops when an id repeats. The loop of
  `mark_parent_as_pending` has no such guard and would spin forever on a cycle
  of transparent ids. On links without cycles both give the same answer.
- `Accessible.FindChildren` stops in the same way where `find_children` would
  recurse without bound on a cycle.
- `SrcMount.InsertChild` requires an index of at most the length, where
  `Vec::insert` panics on a larger one. The panic is not modelled.
- `SrcMount.RemoveChildAt` requires an index below the length, where
  `Vec::remove` panics otherwise.
- `SrcMount.AddChildTree` and the members built on it carry the same
  precondition as `SrcMount.InsertChild`.
- `SrcMount.RemoveChildTree` and the members built on it carry the same
  precondition as `SrcMount.RemoveChildAt`.
- `ScrollBars.Clamp` requires a range whose start is not past its end, because
  `i32::clamp` panics otherwise. Every range the model builds starts at 0 and
  ends at a non-negative maximum.
- `SrcWidget.SetParentScope` does not model the `update()` call that ends a
  scope change (src/widgets/mod.rs:228-234, 629), which requests a redraw and
  sets `pending_accessible_update` on a mounted widget, nor the accessible
  refresh at the end of that dispatch. Redraw requests are not part of this
  model.
- `SrcButton.OnMouseInput` takes the window of the button's mount point as a
  parameter, so it describes a mounted button. The panic of the `expect` on an
  unmounted button is not modelled.
- `SrcDispatch.MapToChild` assumes the first-generation
  `MouseInputEvent::map_to_child`, whose definition is not part of this model.
  It is taken to behave like salvation's (salvation/src/event.rs:56-116)
  without the `force` flag: the event reaches a child inside its rectangle, in
  the child's coordinates.
- `WidgemStack.InsertKeyed` assumes widgem's `add_child_with_key`, whose
  definition is not part of this model. It is taken to replace the child
  under an existing key in place, or else append the new child.
- `Geometry.Contains` assumes `Rect::contains` is half-open: the top and left
  edges are inside, the bottom and right edges are not. `types.rs`, which
  defines it, is not part of this model.
- `Geometry.Intersect` assumes `Rect::intersect` returns the exact overlap,
  with a zero extent when the rectangles do not overlap. `types.rs` is not
  part of this model; the stacks' draw code (src/widgets/stack.rs:62-73) is
  where it is used.
- `WidgemStack.ChildGeometry` assumes `WidgetGeometry::new`, called at
  widgem/src/widgets/stack.rs:23 but not part of this model. It is taken to
  keep the rectangle as the child's rectangle in the parent, and to place the
  child in the window by shifting that rectangle by the parent's window
  position.
- `ScrollBars.WithRange` assumes `ScrollBar::set_value_range`, whose definition
  is not part of this model. It is taken to store the range `0..=max` and keep
  the value as it is; clamping the value into the new range is not modelled.
- `SrcMount.UnmountCommon` calls the corrected `Accessible.Unmount`. The source
  calls the `unmount` whose defect is under "Findings"; the defect is shown
  on `Accessible.UnmountAsWritten` alone.
- `SrcMount.MountCommon` calls the two-argument `mount` of `src/accessible.rs`.
  That file is from an older revision than `src/widgets/mod.rs`, whose call at
  lines 163-167 also passes `index_in_parent`; the index is not recorded in the
  mirror, so child order there is not modelled.

## Findings

| source | as written | input that shows it | evidently intended | confidence | as-written member | corrected member |
|---|---|---|---|---|---|---|
| src/accessible.rs:57 | `unmount` removes `direct_parents[parent]` | Root 1, transparent widget 2 under it, child 3 under 2; unmount 3 from 2 | remove `direct_parents[child]`: 3's link goes, 2's link to the root stays | not executed | Accessible.UnmountAsWritten, Accessible.UnmountAsWrittenLosesParentLink | Accessible.Unmount, Accessible.MountUnmountRoundTrip |
| salvation/src/widgets/button.rs:215 | re-entry while moved-out sets `was_pressed_but_moved_out = true` | Press the mouse, leave, return; press and release Space; move inside; release the mouse: two triggers | clear the flag on re-entry, giving one trigger | not executed | SalvationButton.HandleMouseMoveAsWritten, SalvationButton.ReentryRepressAsWritten | SalvationButton.HandleMouseMove, SalvationButton.ReentryPressesOnlyOnce |
