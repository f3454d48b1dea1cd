# Tyro view tree, modelled in Dafny

Tyro is a small JavaScript UI framework. Its views form an ownership tree, and a page
controller reconciles that tree synchronously. This project models the framework's
lifecycle bookkeeping and proves properties of it. The DOM, templating and routing are
not modelled. The model has five parts.

- **Ownership tree** (`TreeShape`, `TreeNode`).
  - Nodes live in an arena `map<NodeId, Node>`. Each node has a parent link and a
    `children` list that is created lazily (`None` until the first `addChild`).
  - `Forest` is the class of `Tyro.TreeNode`. It models `setParent`,
    `removeFromParent`, `addChild` and its cycle check, `indexOfChild`, `removeChild`,
    `removeChildByIndex` and `traverseDescendants`.
  - `getHead` and `traverseUpwards` are pure recursions.
  - Calls to the `parentChanged` hook are recorded in a ghost trace.
- **Teardown cascade** (`AbstractView`).
  - `Views` extends a forest with the `id` and `active` fields.
  - `teardown` visits children in reverse index order before the node's own
    `doTeardown`. It is proved against `Cascade`, a pure function listing the nodes
    whose `doTeardown` runs.
- **Legacy tree** (`LegacyTree`). The older tree of `Tyro.View.js` has an eager
  `children` list, an `init` that pushes into the parent's list, a looping `getHead`,
  and `iterateUpwards` / `iterateChildren` with their own stop rule.
- **Items and the page controller** (`Items`, `Pages`).
  - Partial-view collection items carry an active flag, a view with a DOM container,
    and child views.
  - `PageController` keeps the id→item map plus the insertion order of its keys, which
    stands in for JavaScript `for…in` order.
  - `render` is proved step by step against `RenderSpec`, a pure function of a
    snapshot (flags, child views and the trace of `view.render()` / `view.teardown()`
    calls, in order).
  - Properties of `RenderSpec` are proved as lemmas. They cover what stays active,
    what is torn down, and the order of renders.
- **Root registry** (`ViewRegistry`). `ViewManager` holds the lazily created `views`
  list, the subscriptions it makes on views, and the teardowns it calls.
  - `_detachObservers`, as written, removes every entry other than its argument,
    except the entry at index 0.
  - On an empty list its `while (--i)` loop never ends. On a list that was never
    created it throws.

Calls into code outside this core are recorded in ghost traces. These are
`parentChanged`, `doTeardown`, `view.render()`, `view.teardown()`, `childView.teardown()`
and `view.on` / `view.detach`.

## Model

| member | source | states |
|---|---|---|
| `TreeShape.GetHead` | src/Tyro/Tyro.TreeNode.js:85-88 | the head has no parent and is reached from the node by parent links; a parentless node is its own head |
| `TreeShape.HeadUnique` | src/Tyro/Tyro.TreeNode.js:85-88 | any parentless ancestor of a node is its head, so the head is unique |
| `TreeShape.TraverseUpwardsStopsAtFirstFalse` | src/Tyro/Tyro.TreeNode.js:136-142 | the callback runs on the node and then on its ancestors in order; the point where calls stop is the first call that returns `false`, or the root when there is none |
| `TreeShape.ChainShape` | src/Tyro/Tyro.TreeNode.js:136-142 | the parent chain runs from the node to its head, each entry the parent of the one before |
| `TreeNode.Forest.NewNode` | src/Tyro/Tyro.TreeNode.js:34-39 | a node is created without a parent and then given one through `setParent`; a parent that is not a node throws `TypeError` with nothing changed; with a parent, the node is the last child of that parent |
| `TreeNode.Forest.SetParent` | src/Tyro/Tyro.TreeNode.js:44-64 | throws `TypeError` for a non-node parent and refuses to clear an existing parent, both with nothing changed; setting the current parent again is a no-op; otherwise the node is attached through `addChild` and `parentChanged` fires |
| `TreeNode.Forest.AddChild` | src/Tyro/Tyro.TreeNode.js:149-166 | throws `TypeError` for a non-node; does nothing if the child is already attached to this node; otherwise the child is appended and relinked, and "Recursive tree" is thrown exactly when this node was below the child, after the mutation |
| `TreeNode.AttachShape` | src/Tyro/Tyro.TreeNode.js:159-163 | after attaching, the child's parent is the new owner and appears last in its list; earlier siblings keep their order; no other node changes |
| `TreeNode.AttachLeavesStaleEntry` | src/Tyro/Tyro.TreeNode.js:65-73 | reparenting leaves the child listed in its old parent's `children`, because `removeFromParent()` passes no child to `removeChild` |
| `TreeNode.MoveUpBreaksDescending` | src/Tyro/Tyro.TreeNode.js:159-163 | `A.addChild(C)` on A→B→C keeps the tree rooted, but B's stale entry C now sits at B's own level, so the tree is no longer `Descending` |
| `TreeNode.AttachRootKeepsConsistent` | src/Tyro/Tyro.TreeNode.js:149-166 | attaching a parentless node that is not an ancestor of the new owner keeps the links consistent and acyclic |
| `TreeNode.Forest.RecursiveParentCheck` | src/Tyro/Tyro.TreeNode.js:118-127 | the upward walk from the parent finds this node exactly when the new link closed a cycle |
| `TreeNode.Forest.RemoveFromParent` | src/Tyro/Tyro.TreeNode.js:65-73 | a parentless node is left alone; otherwise `removeChild(child)` runs on the parent, and only if it does not throw is the link cleared and `parentChanged` fired |
| `TreeNode.Forest.IndexOfChild` | src/Tyro/Tyro.TreeNode.js:174-183 | the first index holding the child, or none (NaN) when there is none or `children` was never created |
| `TreeNode.Forest.RemoveChild` | src/Tyro/Tyro.TreeNode.js:190-194 | removes by the index `indexOfChild` finds, and does nothing when there is none |
| `TreeNode.Forest.RemoveChildByIndex` | src/Tyro/Tyro.TreeNode.js:195-202 | splices out the entry (with JavaScript's index rules) and then calls `setParent(null)` on it |
| `TreeNode.RemoveLinkedChildRaises` | src/Tyro/Tyro.TreeNode.js:195-202 | removing a linked child splices it out of the list but then throws, leaving its `parent` link in place |
| `TreeNode.Forest.TraverseDescendants` | src/Tyro/Tyro.TreeNode.js:103-114 | the calls made are those of the pure walk `Descend`; the method returns `false` exactly when some child's callback returns exactly `false` |
| `TreeNode.DescendStopAbandonsSiblings` | src/Tyro/Tyro.TreeNode.js:108-113 | the first `false` ends the walk at that level, and the call that returned it is the last one made there |
| `TreeNode.DescendVisitsAll` | src/Tyro/Tyro.TreeNode.js:103-114 | when no callback stops, `before` runs on exactly the descendants |
| `AbstractView.Views.NewView` | src/Tyro/Tyro.AbstractView.js:43-48 | a new view is inactive and keeps its id; the tree part is the tree node constructor, with its `TypeError` |
| `AbstractView.Views.IsLayout` | src/Tyro/Tyro.AbstractView.js:49-51 | a view is a layout exactly when its id is set and is not the empty string, the only falsy string; a new view is a layout exactly when it was given such an id |
| `AbstractView.Views.IsActive` | src/Tyro/Tyro.AbstractView.js:57-59 | the view's own active flag; a new view is not active |
| `AbstractView.Views.Teardown` | src/Tyro/Tyro.AbstractView.js:71-84 | flags and `doTeardown` calls are those of `Cascade`; the call throws `TypeError` exactly when the cascade meets a missing `children` list or a non-view child |
| `AbstractView.TeardownDeactivatesSubtree` | src/Tyro/Tyro.AbstractView.js:71-84 | a complete teardown clears `active` on the node and every descendant, active or not, and on nothing else |
| `AbstractView.CascadeComplete` | src/Tyro/Tyro.AbstractView.js:73-83 | the cascade tears down the whole subtree, the node itself last |
| `AbstractView.CascadeOrder` | src/Tyro/Tyro.AbstractView.js:73-80 | children are torn down before their parents |
| `AbstractView.CascadeOkIsTearable` | src/Tyro/Tyro.AbstractView.js:73-76 | the cascade finishes exactly when every node below is a view with a `children` list |
| `AbstractView.Views.TeardownDescendantsInContainer` | src/Tyro/Tyro.AbstractView.js:91-99 | always throws |
| `LegacyTree.LegacyForest.NewNode` | src/Tyro/Tyro.View.js:49-57 | without an argument the node stays unlinked; with `null` it is a root; with a node it is pushed onto that node's children; anything else throws `TypeError` |
| `LegacyTree.LegacyForest.Init` | src/Tyro/Tyro.View.js:59-67 | sets the parent and pushes onto its `children`, throwing `TypeError` for a non-node parent |
| `LegacyTree.LegacyForest.GetHead` | src/Tyro/Tyro.View.js:76-82 | the loop returns the head of the node |
| `LegacyTree.LegacyForest.IterateUpwards` | src/Tyro/Tyro.View.js:111-117 | the callback runs on the node and its ancestors, and stops after the first call that returns `false` |
| `LegacyTree.LegacyForest.IterateChildren` | src/Tyro/Tyro.View.js:93-100 | the callback runs in pre-order; `false` skips only that child's subtree, and later siblings are still visited |
| `LegacyTree.PreOrderMembership` | src/Tyro/Tyro.View.js:93-100 | a node is visited exactly when it is a child of the start node, or a child of a visited node whose callback did not stop |
| `LegacyTree.PreOrderVisitsEveryChild` | src/Tyro/Tyro.View.js:94-97 | every direct child is visited whatever the callback returns |
| `Items.ItemStore.ActiveDescendantPartials` | src/Tyro/Tyro.View.js:174-188 | the loop of `unshift` and `concat` computes `Below` over the active flags |
| `Items.ItemStore.PrependActive` | src/Tyro/Tyro.View.js:178-186 | one round of the loop adds the block of the i-th child when it is active, and nothing otherwise |
| `Items.ItemStore.PrependBlock` | src/Tyro/Tyro.View.js:179-184 | an active child goes in front, and its own active descendants in front of it |
| `Items.ActiveDescendantsMeaning` | src/Tyro/Tyro.View.js:174-188 | the result is exactly the active children, and their active children in turn, each before its parent, never the item itself; it is empty exactly when no child is active |
| `Items.ItemStore.InactiveParents` | src/Tyro/Tyro.View.js:197-206 | the loop computes `InactiveChain` |
| `Items.InactiveChainShape` | src/Tyro/Tyro.View.js:197-206 | the chain is the maximal run of inactive items ending at the item, parents first; it is empty exactly when the item is active, and above its top there is no item or an active one |
| `Items.ItemStore.TeardownViews` | src/Tyro/Tyro.View.js:214-223 | each child view is torn down in list order and the list emptied, then the item's own view, then the item is made inactive |
| `Items.ItemStore.TeardownChildViews` | src/Tyro/Tyro.View.js:216-220 | the loop tears the child views down in list order, leaves the list empty and changes no flag |
| `Items.ChildTeardownsMeaning` | src/Tyro/Tyro.View.js:216-220 | the k-th call of that loop tears down the k-th child view |
| `Items.ItemStore.TeardownChildView` | src/Tyro/Tyro.View.js:236-244 | only the first child view with the container is torn down and spliced out; with none, nothing changes |
| `Pages.KeepMeaning` | src/Tyro/Tyro.PageController.js:10-35 | `filter` keeps exactly the items that match, in collection order |
| `Pages.ValuesMembership` | src/Tyro/Tyro.PageController.js:27 | the for-in walk over the item map visits an item exactly when it is stored under one of the listed ids |
| `Pages.ValuesNoDup` | src/Tyro/Tyro.PageController.js:27 | when every stored item carries the id it is stored under, the for-in walk visits no item twice |
| `Pages.Matches` | src/Tyro/Tyro.PageController.js:11-23 | a predicate query is applied; a property query holds when every listed property equals its value |
| `Pages.Filter` | src/Tyro/Tyro.PageController.js:24-34 | the loop pushes exactly the matching items, in order |
| `Pages.TopLevelMeaning` | src/Tyro/Tyro.PageController.js:67-69 | the query `{parent: null, active: true}` selects exactly the active parentless items |
| `Pages.PageController.GetActiveTopLevelItems` | src/Tyro/Tyro.PageController.js:67-69 | returns exactly the registered active top-level items, in registration order |
| `Pages.UnrelatedMeaning` | src/Tyro/Tyro.PageController.js:79-99 | the result holds exactly the active top-level items of other trees and their active descendants; all of them are active and have a different head |
| `Pages.RevBlocksOrder` | src/Tyro/Tyro.PageController.js:93-97 | for roots listed once each, the collected blocks put every item before its parent |
| `Pages.UnrelatedOrder` | src/Tyro/Tyro.PageController.js:77-99 | over a listing without repeats, `Unrelated` is in teardown order: every item comes before its parent |
| `Pages.PageController.GetActiveItemsUnrelatedTo` | src/Tyro/Tyro.PageController.js:77-99 | no item gives the empty list; otherwise the result is `Unrelated`, whose members are active and in other trees, and it is in teardown order, every item before its parent |
| `Pages.TeardownStepFlag` | src/Tyro/Tyro.PageController.js:108-112 | after `teardownItems` an item is inactive exactly when it was listed, and otherwise unchanged |
| `Pages.TeardownStepQuiet` | src/Tyro/Tyro.PageController.js:108-112 | `teardownItems` only appends teardown calls and renders nothing |
| `Pages.PageController.TeardownItems` | src/Tyro/Tyro.PageController.js:108-112 | runs `teardownViews` on each listed item in order |
| `Pages.PageController.AddChildView` | src/Tyro/Tyro.PageController.js:124-139 | throws `TypeError` for a falsy view, a non-string container or a missing teardown, with nothing changed; an unknown parent id does nothing; otherwise the parent's child view in that container is torn down and the view pushed |
| `Pages.ChildViewAddedReplaces` | src/Tyro/Tyro.PageController.js:134-138 | with one child view per container, the new view replaces the one in its container and goes last; the others stay; flags are unchanged |
| `Pages.PageController.constructor` | src/Tyro/Tyro.PageController.js:56-58 | a new controller holds no items and no ids, and its registry is well formed |
| `Pages.PageController.AddItem` | src/Tyro/Tyro.PageController.js:150-157 | a non-item throws `TypeError` with nothing changed; otherwise the item is stored under its id, replacing an earlier item with that id, and a new id joins the key order at the end |
| `Pages.AddKeepsRegistry` | src/Tyro/Tyro.PageController.js:156 | storing an item keeps the map, the key order and the items' ids in agreement |
| `Pages.RenderStepEffect` | src/Tyro/Tyro.PageController.js:166-171 | `renderItems` renders the listed items in order and makes exactly them active as well |
| `Pages.PageController.RenderItems` | src/Tyro/Tyro.PageController.js:166-171 | calls `view.render()` and sets `active` for each listed item in order |
| `Pages.PageController.GetPartialViewActiveWithDomContainer` | src/Tyro/Tyro.PageController.js:223-225 | returns exactly the registered active items whose view container is the given one |
| `Pages.WithContainerMeaning` | src/Tyro/Tyro.PageController.js:223-225 | the query `{active: true, getViewContainer: c}` selects exactly the active items in container c |
| `Pages.PageController.Render` | src/Tyro/Tyro.PageController.js:182-213 | a falsy or unregistered id throws `TypeError` with nothing changed; otherwise the new state is `RenderSpec` of the old one |
| `Pages.RenderActiveItem` | src/Tyro/Tyro.PageController.js:190-194 | rendering an active item tears down exactly its active descendants, renders nothing and keeps it active |
| `Pages.RenderInactiveItem` | src/Tyro/Tyro.PageController.js:194-212 | rendering an inactive item issues only teardowns, reaching a state s5, then renders `getInactiveParents()` taken in s5, parents first, ending with the item; every rendered item was inactive in s5, so no active item is rendered again; the chain is active afterwards, hangs below an item already active or is a whole tree; the teardowns switch nothing on, and every item active afterwards is in the chain or was active before `render` |
| `Pages.RenderShowsOneTree` | src/Tyro/Tyro.PageController.js:195 | after rendering an inactive item, no registered top-level item of another tree is active |
| `Pages.RenderClearsDescendants` | src/Tyro/Tyro.PageController.js:191 | every descendant that was active before render is inactive after it |
| `ViewRegistry.ViewManager.constructor` | src/Tyro/Tyro.ViewManager.js:27-28 | a new manager has no list yet, no subscriptions and no teardowns |
| `ViewRegistry.ViewManager.EnsureViews` | src/Tyro/Tyro.ViewManager.js:29-32 | only a missing list becomes empty; an existing list is kept, so a second call changes nothing |
| `ViewRegistry.ViewManager.AddTopLevelView` | src/Tyro/Tyro.ViewManager.js:33-41 | a view with a parent throws with nothing changed; otherwise the view is appended at the end and subscribed to Activating and Rendering (teardown handler) and to ParentChanged (detach handler); an object that is not a tree node is appended and then `view.on` throws `TypeError`, with no subscription |
| `ViewRegistry.ViewManager.DetachObserversOf` | src/Tyro/Tyro.ViewManager.js:43-56 | a missing list throws `TypeError`; an empty list never returns; otherwise the list becomes `Survivors`, and the Activating and Rendering subscriptions are dropped only when the view has a parent; the ParentChanged one always stays |
| `ViewRegistry.ViewManager.PruneOthers` | src/Tyro/Tyro.ViewManager.js:45-50 | the descending splice loop leaves `Survivors` of the list |
| `ViewRegistry.SurvivorsMeaning` | src/Tyro/Tyro.ViewManager.js:45-50 | the first entry always stays; every later survivor is the view itself, with its multiplicity; nothing else remains |
| `ViewRegistry.SurvivorsOfRegistry` | src/Tyro/Tyro.ViewManager.js:45-50 | on a list without duplicates only the first entry stays, followed by the view when it is registered after it |
| `ViewRegistry.ViewManager.TeardownViewsOtherThanAsWritten` | src/Tyro/Tyro.ViewManager.js:57-63 | as written: a missing list throws `TypeError`; otherwise one teardown per other entry, each on the argument |
| `ViewRegistry.TeardownsAsWrittenMeaning` | src/Tyro/Tyro.ViewManager.js:57-63 | the as-written loop tears down only its argument, as often as there are other entries |
| `ViewRegistry.TeardownsAsWrittenCounterexample` | src/Tyro/Tyro.ViewManager.js:57-63 | with views [0, 1] and view 1 shown, the as-written loop tears down view 1 once and view 0 never |
| `ViewRegistry.ViewManager.TeardownViewsOtherThan` | src/Tyro/Tyro.ViewManager.js:57-63 | corrected: each entry other than the argument is torn down, in list order |
| `ViewRegistry.OthersMeaning` | src/Tyro/Tyro.ViewManager.js:57-63 | the corrected loop tears down a view exactly when it is registered and not the argument, as many times as it is registered; on a list without duplicates, each view exactly once |

## Left out

- The DOM, templates, jQuery, routing (`Tyro.Controller`), the demo views and `Tyro.Utils` (`klass`, `inherited`) are not part of this model. Inheritance is modelled as composition: `Views` holds a `Forest`.
- The event-driven `Tyro.View` (`on`, `once`, `fire`, `detach`, `activate`) is not part of this model. `ViewRegistry` records subscriptions as `Subscription` values, and `detach` drops every matching record.
- The bodies of `parentChanged`, `doTeardown`, `view.render()`, `view.teardown()` and `childView.teardown()` are outside the core. Their calls are ghost trace entries, in call order. The cascade a manager's `view.teardown()` starts is not re-modelled in `ViewRegistry`.
- `_nodeDepth` and `_nodeDepthString`: debugging helpers, not modelled.
- Object identity is a `NodeId`. An id outside the arena stands for an object that is not a tree node, which is where the duck-typing checks (`isFunc(p.addChild)`, `instanceof`) throw `TypeError`.
- `Tyro.PartialViewCollectionItem` is not part of this model. Its fields (`parent`, `childCollectionItems`, `active`, `view.container`, `childViews`, `id`) are read from how the item helpers use them.
- `getViewContainer` is not part of this model. It is taken to return `view.container`.
- `for…in` over the items map is taken to follow key insertion order. That holds for ids that are not array-index-like strings.
- Ids that name members of `Object.prototype` (`toString`, `constructor`, `__proto__` and the like) are not modelled. `this.items` is a plain object, so `this.items[id]` finds such a member even when no item was stored under the id, and storing under `__proto__` is not a map write. The model treats the item map as a map with no inherited entries.
- The old `AbstractView.init` and `teardown` of `Tyro.View.js` (lines 133-165) are not modelled. `init` always throws, because of the typo `TreeNode.prototyp`, and `teardown` visits grandchildren twice.
- Lines 265-434 of `Tyro.View.js` duplicate the page controller and are modelled once, from `Tyro.PageController.js`.
- The callbacks passed to `TreeShape.TraverseUpwards`, `TreeNode.Forest.TraverseDescendants`, `LegacyTree.LegacyForest.IterateUpwards` and `LegacyTree.LegacyForest.IterateChildren` are modelled as side-effect-free functions of the node. In the source they run arbitrary code, which may reparent or add nodes in the middle of the walk. A callback that changes the tree is not modelled, and the promised visit order assumes the tree stays unchanged.
- `TreeNode.Forest.TraverseDescendants`: requires that every child entry sits deeper than its owner (`Descending`). The source has no such guard, and a stale entry left by reparenting can make the walk recurse forever. The requirement also excludes trees on which the walk ends. For example, `A.addChild(C)` on A→B→C leaves B's stale entry C at B's own level, yet the children graph stays acyclic (`TreeNode.MoveUpBreaksDescending`). On such trees a node is reached twice, once through the stale entry, and the model does not cover that second visit.
- `AbstractView.Views.Teardown`: requires `Descending` too, with the same gap. After a node moves up or sideways, the source tears the node's subtree down a second time through the stale entry, and this is not modelled.
- `LegacyTree.LegacyForest.IterateChildren`: requires `Descending` too, with the same gap. The repeated visit through a stale entry on an acyclic tree is not modelled.
- `Items.ItemStore.ActiveDescendantPartials`: requires `Descending` too, with the same gap. An item reached both through a stale entry and through its real parent, which the source would return twice, is not modelled.
- `Pages.PageController.Render`: requires a consistent, acyclic item tree. The source has no such guard, and its walks need it to terminate.
- `Pages.PageController.GetActiveItemsUnrelatedTo`: requires a consistent, acyclic item tree, for the same reason.
- `TreeNode.Forest.AddChild`: after a "Recursive tree" error the arena is cyclic, so the forest invariant is promised only on the other paths. This is what the code does.
- `TreeNode.Forest.SetParent`: promises the invariant on the same terms as `addChild`.
- `ViewRegistry.ViewManager.DetachObserversOf`: the non-terminating case is reported as the outcome `Hangs` instead of being run. On an empty list the counter `--i` passes zero and decreases forever.

## Findings

| source | as written | input that shows it | evidently intended | confidence | as-written member | corrected member |
|---|---|---|---|---|---|---|
| src/Tyro/Tyro.ViewManager.js:57-62 | inside the loop over `views`, each entry other than `view` triggers `view.teardown()`, so the view being shown is torn down | `views` = [a, b] and `_teardownViewsOtherThan(b)` (b is activated): b is torn down once, a never; tests/View/Tests.Unit.js:262-279 expects a torn down and b not | `this.views[i].teardown()`: each other registered view is torn down once, and the argument never | not executed | `ViewRegistry.TeardownsAsWrittenCounterexample` | `ViewRegistry.OthersMeaning` |
