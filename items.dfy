/**
 * The partial-view collection items of Tyro.View.js that the page controller manages:
 * a tree of items (parent and childCollectionItems links), each with an active flag,
 * its own view (with a DOM container) and a list of child views.  The views' render
 * and teardown, which live outside the core, are recorded in a ghost trace.
 */
module Items {
  import opened Common
  import opened TreeShape

  /** A child view: an object identity and the selector of its container. */
  datatype ChildView = ChildView(ref: nat, container: string)

  /** The calls the item helpers make into views. */
  datatype Effect =
    | ViewTeardown(item: NodeId)          // item.view.teardown()
    | ViewRender(item: NodeId)            // item.view.render()
    | ChildViewTeardown(view: ChildView)  // childView.teardown()

  /** The item is active according to the flags a. */
  predicate On(a: map<NodeId, bool>, n: NodeId) {
    n in a && a[n]
  }

  function IsOn(a: map<NodeId, bool>): NodeId -> bool {
    (n: NodeId) => On(a, n)
  }

  /** The teardown calls of the child views cvs, in list order. */
  function ChildTeardowns(cvs: seq<ChildView>): (e: seq<Effect>)
    ensures |e| == |cvs|
  {
    if cvs == [] then [] else ChildTeardowns(cvs[..|cvs| - 1]) + [ChildViewTeardown(cvs[|cvs| - 1])]
  }

  /** Entry k of the trace is the teardown of child view k. */
  lemma {:induction false} ChildTeardownsMeaning(cvs: seq<ChildView>)
    ensures forall k :: 0 <= k < |cvs| ==> ChildTeardowns(cvs)[k] == ChildViewTeardown(cvs[k])
    decreases |cvs|
  {
    if cvs != [] {
      ChildTeardownsMeaning(cvs[..|cvs| - 1]);
    }
  }

  /** The index of the first child view of cvs, from index i on, whose container is c. */
  function FirstWithContainer(cvs: seq<ChildView>, c: string, i: nat): (k: Option<nat>)
    requires i <= |cvs|
    ensures k.None? ==> forall j :: i <= j < |cvs| ==> cvs[j].container != c
    ensures k.Some? ==>
      i <= k.value < |cvs| && cvs[k.value].container == c &&
      forall j :: i <= j < k.value ==> cvs[j].container != c
    decreases |cvs| - i
  {
    if i == |cvs| then None
    else if cvs[i].container == c then Some(i)
    else FirstWithContainer(cvs, c, i + 1)
  }

  /** item.getInactiveParents(): the items from the topmost inactive ancestor down to x,
      climbing from x while the items are inactive. */
  function InactiveChain(m: Arena, a: map<NodeId, bool>, x: NodeId): seq<NodeId>
    requires Rooted(m) && x in m
    decreases Level(m, x)
  {
    if On(a, x) then []
    else match m[x].parent
      case None => [x]
      case Some(p) => LevelParent(m, x); InactiveChain(m, a, p) + [x]
  }

  /** Splicing out the first of the remaining child views advances the loop of
      teardownViews by one. */
  lemma TeardownRound(cvs: seq<ChildView>, k: nat)
    requires k < |cvs|
    ensures cvs[k..][..0] + cvs[k..][1..] == cvs[k + 1..] && cvs[k..][0] == cvs[k]
    ensures ChildTeardowns(cvs[..k + 1]) == ChildTeardowns(cvs[..k]) + [ChildViewTeardown(cvs[k])]
  {
    assert cvs[..k + 1][..k] == cvs[..k];
  }

  /** The chain is the maximal run of inactive items that ends at x: empty exactly when x
      is active, each entry the parent of the next, all inactive, and above its first
      entry there is no item or an active one. */
  lemma {:induction false} InactiveChainShape(m: Arena, a: map<NodeId, bool>, x: NodeId)
    requires Rooted(m) && x in m
    ensures var c := InactiveChain(m, a, x);
      && (c == [] <==> On(a, x))
      && (c != [] ==> c[|c| - 1] == x)
      && (forall i :: 0 <= i < |c| ==> c[i] in m && !On(a, c[i]) && Under(m, x, c[i]))
      && (forall i :: 0 <= i < |c| - 1 ==> m[c[i + 1]].parent == Some(c[i]))
      && (c != [] ==> m[c[0]].parent.None? || On(a, m[c[0]].parent.value))
    decreases Level(m, x)
  {
    if !On(a, x) && m[x].parent.Some? {
      var p := m[x].parent.value;
      LevelParent(m, x);
      InactiveChainShape(m, a, p);
      var c := InactiveChain(m, a, x);
      var cp := InactiveChain(m, a, p);
      assert c == cp + [x];
      forall i | 0 <= i < |c|
        ensures c[i] in m && !On(a, c[i]) && Under(m, x, c[i])
      {
        if i < |cp| {
          assert c[i] == cp[i];
        }
      }
      forall i | 0 <= i < |c| - 1
        ensures m[c[i + 1]].parent == Some(c[i])
      {
        if i + 1 < |cp| {
          assert c[i + 1] == cp[i + 1] && c[i] == cp[i];
        }
      }
    }
  }

  /** What getActiveDescendantPartials returns, in the tree's terms: exactly the active
      children of x and the active children of nodes already returned, each node ahead
      of its parent, x itself never; empty exactly when x has no active child. */
  lemma ActiveDescendantsMeaning(m: Arena, a: map<NodeId, bool>, x: NodeId, y: NodeId)
    requires Consistent(m) && x in m
    ensures y in Below(m, IsOn(a), x) <==>
      y in m && On(a, y) && m[y].parent.Some? &&
      (m[y].parent.value == x || m[y].parent.value in Below(m, IsOn(a), x))
    ensures y in Below(m, IsOn(a), x) ==> y != x && Under(m, y, x)
    ensures ChildBeforeParent(m, Below(m, IsOn(a), x))
    ensures Below(m, IsOn(a), x) == [] <==> forall c :: c in Kids(m, x) ==> !On(a, c)
  {
    BelowMembership(m, IsOn(a), x, y);
    if y in Below(m, IsOn(a), x) {
      BelowUnder(m, IsOn(a), x, y);
    }
    BelowOrder(m, IsOn(a), x);
    BelowEmpty(m, IsOn(a), x);
  }

  /** The items of one page, with the calls made into their views. */
  class ItemStore {
    /** The item tree: parent links and childCollectionItems. */
    const tree: Arena
    /** item.view.container of each item. */
    const viewContainer: map<NodeId, string>
    /** item.id of each item. */
    const idOf: map<NodeId, string>
    var active: map<NodeId, bool>
    var childViews: map<NodeId, seq<ChildView>>
    ghost var trace: seq<Effect>

    /** Every item has its flag, child views, container and id, and a childCollectionItems
        list.  (The shape of the tree itself, which nothing here changes, is required
        separately by the walks that need it.) */
    ghost predicate Valid()
      reads this
    {
      && (forall n :: n in tree ==> tree[n].children.Some?)
      && active.Keys == tree.Keys && childViews.Keys == tree.Keys
      && viewContainer.Keys == tree.Keys && idOf.Keys == tree.Keys
    }

    constructor (m: Arena, vc: map<NodeId, string>, ids: map<NodeId, string>,
                 a: map<NodeId, bool>, cvs: map<NodeId, seq<ChildView>>)
      requires forall n :: n in m ==> m[n].children.Some?
      requires a.Keys == m.Keys && cvs.Keys == m.Keys && vc.Keys == m.Keys && ids.Keys == m.Keys
      ensures Valid() && tree == m && viewContainer == vc && idOf == ids
      ensures active == a && childViews == cvs && trace == []
    {
      tree := m;
      viewContainer := vc;
      idOf := ids;
      active := a;
      childViews := cvs;
      trace := [];
    }

    /** x.getActiveDescendantPartials(): for each child in index order that is active,
        the child is prepended and then the child's own result in front of it. */
    method ActiveDescendantPartials(x: NodeId) returns (arr: seq<NodeId>)
      requires Valid() && Descending(tree) && x in tree
      ensures arr == Below(tree, IsOn(active), x)
      decreases |tree| - Level(tree, x), 1
    {
      var cs := tree[x].children.value;
      arr := [];
      for i := 0 to |cs|
        invariant cs == Kids(tree, x) && arr == BelowList(tree, IsOn(active), x, i)
      {
        arr := PrependActive(x, i, arr);
      }
    }

    /** One round of the loop of getActiveDescendantPartials. */
    method PrependActive(x: NodeId, i: nat, arr: seq<NodeId>) returns (arr': seq<NodeId>)
      requires Valid() && Descending(tree) && x in tree && i < |Kids(tree, x)| && arr == BelowList(tree, IsOn(active), x, i)
      ensures arr' == BelowList(tree, IsOn(active), x, i + 1)
      decreases |tree| - Level(tree, x), 0
    {
      var child := tree[x].children.value[i];
      BelowListStep(tree, IsOn(active), x, i);
      if active[child] {
        arr' := PrependBlock(child, arr);
      } else {
        arr' := arr;
      }
    }

    /** The active branch of that round: arr.unshift(child), then the child's own result
        concatenated in front. */
    method PrependBlock(child: NodeId, arr: seq<NodeId>) returns (arr': seq<NodeId>)
      requires Valid() && Descending(tree) && child in tree
      ensures arr' == Below(tree, IsOn(active), child) + [child] + arr
      decreases |tree| - Level(tree, child), 2
    {
      arr' := [child] + arr;
      var sub := ActiveDescendantPartials(child);
      arr' := sub + arr';
    }

    /** x.getInactiveParents(). */
    method InactiveParents(x: NodeId) returns (result: seq<NodeId>)
      requires Valid() && Rooted(tree) && x in tree
      ensures result == InactiveChain(tree, active, x)
    {
      var pv: Option<NodeId> := Some(x);
      result := [];
      while pv.Some? && !active[pv.value]
        invariant pv.Some? ==> pv.value in tree
        invariant (if pv.Some? then InactiveChain(tree, active, pv.value) else []) + result == InactiveChain(tree, active, x)
        decreases if pv.Some? then Level(tree, pv.value) + 1 else 0
      {
        if tree[pv.value].parent.Some? {
          LevelParent(tree, pv.value);
        }
        result := [pv.value] + result;
        pv := tree[pv.value].parent;
      }
    }

    /** x.teardownViews(): the child views are torn down and spliced out one by one from
        the front, then the item's own view is torn down and the item made inactive. */
    method TeardownViews(x: NodeId)
      requires Valid() && x in tree
      modifies this
      ensures Valid() && active == old(active)[x := false] && childViews == old(childViews)[x := []]
      ensures trace == old(trace) + ChildTeardowns(old(childViews)[x]) + [ViewTeardown(x)]
    {
      TeardownChildViews(x);
      trace := trace + [ViewTeardown(x)];
      active := active[x := false];
    }

    /** The loop of teardownViews: the child views are torn down and spliced out one by
        one from the front. */
    method TeardownChildViews(x: NodeId)
      requires Valid() && x in tree
      modifies this
      ensures Valid() && active == old(active) && childViews == old(childViews)[x := []]
      ensures trace == old(trace) + ChildTeardowns(old(childViews)[x])
    {
      ghost var cvs := childViews[x];
      ghost var k := 0;
      var i: int := 0;
      while i < |childViews[x]|
        invariant i == 0 && 0 <= k <= |cvs| && Valid() && active == old(active)
        invariant childViews == old(childViews)[x := cvs[k..]]
        invariant trace == old(trace) + ChildTeardowns(cvs[..k])
        decreases |childViews[x]|
      {
        TeardownRound(cvs, k);
        TeardownChildViewAt(x, i);
        i := i - 1;
        k := k + 1;
        i := i + 1;                                        // the for loop's i++
      }
      assert cvs[..k] == cvs;
    }

    /** childViews[i].teardown(); childViews.splice(i, 1), on the child views of x. */
    method TeardownChildViewAt(x: NodeId, i: nat)
      requires Valid() && x in tree && i < |childViews[x]|
      modifies this
      ensures Valid() && active == old(active)
      ensures childViews == old(childViews)[x := old(childViews)[x][..i] + old(childViews)[x][i + 1..]]
      ensures trace == old(trace) + [ChildViewTeardown(old(childViews)[x][i])]
    {
      trace := trace + [ChildViewTeardown(childViews[x][i])];
      childViews := childViews[x := childViews[x][..i] + childViews[x][i + 1..]];
    }

    /** x.teardownChildView(container): tears down and splices out the first child view
        with that container, if any. */
    method TeardownChildView(x: NodeId, container: string)
      requires Valid() && x in tree
      modifies this
      ensures Valid() && active == old(active)
      ensures var cvs := old(childViews)[x];
        match FirstWithContainer(cvs, container, 0)
        case None => childViews == old(childViews) && trace == old(trace)
        case Some(k) =>
          && childViews == old(childViews)[x := cvs[..k] + cvs[k + 1..]]
          && trace == old(trace) + [ChildViewTeardown(cvs[k])]
    {
      var i := 0;
      while i < |childViews[x]|
        invariant 0 <= i <= |childViews[x]| && childViews == old(childViews) && trace == old(trace)
        invariant FirstWithContainer(childViews[x], container, i) == FirstWithContainer(childViews[x], container, 0)
        decreases |childViews[x]| - i
      {
        if childViews[x][i].container == container {
          TeardownChildViewAt(x, i);
          return;                                          // break
        }
        i := i + 1;
      }
    }
  }
}
