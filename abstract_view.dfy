/**
 * Tyro.AbstractView: a tree node that is also a view, with an id (set only for
 * layouts), an active flag and the teardown cascade.  The views are a subset of the
 * nodes of one Forest; doTeardown, which concrete views override, is recorded in a
 * ghost trace.
 */
module AbstractView {
  import opened Common
  import opened TreeShape
  import opened TreeNode

  /** A call of view.doTeardown(), with the view's active flag at the moment of the call. */
  datatype Call = DoTeardown(view: NodeId, activeAtCall: bool)

  /** The outcome of x.teardown(): whether it completed, and the views whose doTeardown
      ran, in call order. */
  datatype Cascaded = Cascaded(ok: bool, order: seq<NodeId>)

  /** x.teardown() on the arena m whose views are `views`: the children from the last
      index to the first, each one completely, then x itself.  Reading the length of a
      list that was never created, or calling teardown on a child that is not a view,
      raises a TypeError and abandons the cascade. */
  function Cascade(m: Arena, views: set<NodeId>, x: NodeId): Cascaded
    requires Descending(m) && x in m
    decreases |m| - Level(m, x), 1, 0
  {
    if m[x].children.None? then Cascaded(false, [])
    else
      var l := CascadeList(m, views, x, |Kids(m, x)|);
      if l.ok then Cascaded(true, l.order + [x]) else l
  }

  /** The loop of x.teardown() over the children with indices n-1 down to 0. */
  function CascadeList(m: Arena, views: set<NodeId>, x: NodeId, n: nat): Cascaded
    requires Descending(m) && x in m && n <= |Kids(m, x)|
    decreases |m| - Level(m, x), 0, n
  {
    if n == 0 then Cascaded(true, [])
    else
      var c := Kids(m, x)[n - 1];
      if c !in views then Cascaded(false, [])
      else
        var sub := Cascade(m, views, c);
        if !sub.ok then sub
        else
          var rest := CascadeList(m, views, x, n - 1);
          Cascaded(rest.ok, sub.order + rest.order)
  }

  /** The rounds of the loop of teardown: a child that is not a view, a child whose own
      teardown raises, and a child torn down completely. */
  lemma StepNotView(m: Arena, views: set<NodeId>, x: NodeId, i: nat)
    requires Descending(m) && x in m && i < |Kids(m, x)| && Kids(m, x)[i] !in views
    ensures CascadeList(m, views, x, i + 1) == Cascaded(false, [])
  {
  }

  lemma StepFails(m: Arena, views: set<NodeId>, x: NodeId, i: nat)
    requires Descending(m) && x in m && i < |Kids(m, x)| && Kids(m, x)[i] in views
    requires Kids(m, x)[i] in m && !Cascade(m, views, Kids(m, x)[i]).ok
    ensures CascadeList(m, views, x, i + 1) == Cascade(m, views, Kids(m, x)[i])
  {
  }

  lemma StepOk(m: Arena, views: set<NodeId>, x: NodeId, i: nat)
    requires Descending(m) && x in m && i < |Kids(m, x)| && Kids(m, x)[i] in views
    requires Kids(m, x)[i] in m && Cascade(m, views, Kids(m, x)[i]).ok
    ensures CascadeList(m, views, x, i + 1) ==
      Cascaded(CascadeList(m, views, x, i).ok, Cascade(m, views, Kids(m, x)[i]).order + CascadeList(m, views, x, i).order)
  {
  }

  /** A loop that stopped is the outcome of the whole teardown; one that completed is
      followed by x's own doTeardown. */
  lemma CascadeStopped(m: Arena, views: set<NodeId>, x: NodeId)
    requires Descending(m) && x in m && m[x].children.Some?
    requires !CascadeList(m, views, x, |Kids(m, x)|).ok
    ensures Cascade(m, views, x) == CascadeList(m, views, x, |Kids(m, x)|)
  {
  }

  lemma CascadeFinished(m: Arena, views: set<NodeId>, x: NodeId)
    requires Descending(m) && x in m && m[x].children.Some?
    requires CascadeList(m, views, x, |Kids(m, x)|).ok
    ensures Cascade(m, views, x) == Cascaded(true, CascadeList(m, views, x, |Kids(m, x)|).order + [x])
  {
  }

  /** Every node of x's subtree is a view whose children list exists. */
  ghost predicate Tearable(m: Arena, views: set<NodeId>, x: NodeId)
    requires Descending(m) && x in m
  {
    forall y :: (y == x || y in Below(m, Everyone, x)) ==> y in views && y in m && m[y].children.Some?
  }

  /** The flags after the views in s have been set inactive, one after the other. */
  function Deactivate(a: map<NodeId, bool>, s: seq<NodeId>): map<NodeId, bool>
    decreases |s|
  {
    if s == [] then a
    else Deactivate(if s[0] in a then a[s[0] := false] else a, s[1..])
  }

  /** Exactly the views named in s are inactive afterwards; the others keep their flag. */
  lemma {:induction false} DeactivateAt(a: map<NodeId, bool>, s: seq<NodeId>)
    ensures Deactivate(a, s).Keys == a.Keys
    ensures forall k :: k in a ==> Deactivate(a, s)[k] == (if k in s then false else a[k])
    decreases |s|
  {
    if s != [] {
      var a' := if s[0] in a then a[s[0] := false] else a;
      DeactivateAt(a', s[1..]);
      forall k | k in a
        ensures Deactivate(a, s)[k] == (if k in s then false else a[k])
      {
        assert k in s <==> k == s[0] || k in s[1..];
      }
    }
  }

  lemma {:induction false} DeactivateTwice(a: map<NodeId, bool>, s: seq<NodeId>, t: seq<NodeId>)
    ensures Deactivate(Deactivate(a, s), t) == Deactivate(a, s + t)
    decreases |s|
  {
    if s == [] {
      assert s + t == t;
    } else {
      assert (s + t)[1..] == s[1..] + t;
      DeactivateTwice(if s[0] in a then a[s[0] := false] else a, s[1..], t);
    }
  }

  lemma DeactivateSnoc(a: map<NodeId, bool>, s: seq<NodeId>, x: NodeId)
    requires x in a
    ensures Deactivate(a, s + [x]) == Deactivate(a, s)[x := false]
  {
    DeactivateTwice(a, s, [x]);
    DeactivateAt(a, s);
    assert [x][1..] == [];
  }

  /** The flags and calls after a round of the loop, told from before the loop. */
  lemma RoundTrace(a0: map<NodeId, bool>, c0: seq<Call>, done: seq<NodeId>, sub: seq<NodeId>,
                   a: map<NodeId, bool>, c: seq<Call>)
    requires a == Deactivate(Deactivate(a0, done), sub)
    requires c == c0 + TeardownCalls(done) + TeardownCalls(sub)
    ensures a == Deactivate(a0, done + sub) && c == c0 + TeardownCalls(done + sub)
  {
    DeactivateTwice(a0, done, sub);
    TeardownCallsAppend(done, sub);
  }

  /** Regrouping the views of the rounds so far, of this round and of the rounds to come;
      kept apart from the round's own proof, whose context makes it expensive. */
  lemma Regroup(done: seq<NodeId>, sub: seq<NodeId>, rest: seq<NodeId>)
    ensures done + (sub + rest) == (done + sub) + rest
  {
  }

  /** The doTeardown calls for the views s, each made with the view already inactive. */
  function TeardownCalls(s: seq<NodeId>): seq<Call> {
    if s == [] then [] else [DoTeardown(s[0], false)] + TeardownCalls(s[1..])
  }

  lemma {:induction false} TeardownCallsAppend(s: seq<NodeId>, t: seq<NodeId>)
    ensures TeardownCalls(s + t) == TeardownCalls(s) + TeardownCalls(t)
  {
    if s == [] {
      assert s + t == t;
    } else {
      assert (s + t)[1..] == s[1..] + t;
      TeardownCallsAppend(s[1..], t);
    }
  }

  /** The k-th call is the doTeardown of the k-th view of s, which is inactive by then. */
  lemma {:induction false} TeardownCallsAt(s: seq<NodeId>)
    ensures |TeardownCalls(s)| == |s|
    ensures forall k :: 0 <= k < |s| ==> TeardownCalls(s)[k] == DoTeardown(s[k], false)
  {
    if s != [] {
      TeardownCallsAt(s[1..]);
      forall k | 0 <= k < |s|
        ensures TeardownCalls(s)[k] == DoTeardown(s[k], false)
      {
        if k > 0 {
          assert TeardownCalls(s)[k] == TeardownCalls(s[1..])[k - 1];
        }
      }
    }
  }

  /** After a complete teardown, x and its descendants are exactly the views that
      changed: all inactive, every other view keeps its flag. */
  lemma TeardownDeactivatesSubtree(m: Arena, a: map<NodeId, bool>, x: NodeId)
    requires Descending(m) && x in m && Tearable(m, a.Keys, x)
    ensures var a' := Deactivate(a, Cascade(m, a.Keys, x).order);
      && a'.Keys == a.Keys
      && forall y :: y in a ==> a'[y] == (if y == x || y in Below(m, Everyone, x) then false else a[y])
  {
    CascadeComplete(m, a.Keys, x);
    DeactivateAt(a, Below(m, Everyone, x) + [x]);
  }

  /** When the whole subtree can be torn down, teardown runs doTeardown on every
      descendant, active or not, in the walk order that takes the last child first and
      finishes each child's subtree before the child, and ends with x. */
  lemma {:induction false} CascadeComplete(m: Arena, views: set<NodeId>, x: NodeId)
    requires Descending(m) && x in m && Tearable(m, views, x)
    ensures Cascade(m, views, x) == Cascaded(true, Below(m, Everyone, x) + [x])
    decreases |m| - Level(m, x), 1, 0
  {
    CascadeListComplete(m, views, x, |Kids(m, x)|);
  }

  lemma {:induction false} CascadeListComplete(m: Arena, views: set<NodeId>, x: NodeId, n: nat)
    requires Descending(m) && x in m && n <= |Kids(m, x)| && Tearable(m, views, x)
    ensures CascadeList(m, views, x, n) == Cascaded(true, BelowList(m, Everyone, x, n))
    decreases |m| - Level(m, x), 0, n
  {
    if n > 0 {
      var c := Kids(m, x)[n - 1];
      assert c in Kids(m, x);
      TearableChild(m, views, x, n - 1);
      CascadeComplete(m, views, c);
      CascadeListComplete(m, views, x, n - 1);
    }
  }

  /** The subtree of a child lies inside the subtree of its owner. */
  lemma TearableChild(m: Arena, views: set<NodeId>, x: NodeId, k: nat)
    requires Descending(m) && x in m && k < |Kids(m, x)| && Tearable(m, views, x)
    ensures Kids(m, x)[k] in m && Tearable(m, views, Kids(m, x)[k])
  {
    var c := Kids(m, x)[k];
    assert c in Kids(m, x);
    forall y | y == c || y in Below(m, Everyone, c)
      ensures y in Below(m, Everyone, x)
    {
      BelowListHas(m, Everyone, x, |Kids(m, x)|, k, y);
    }
  }

  /** A teardown completes exactly when the whole subtree can be torn down: it raises
      on the first node, in its order, that is not a view or never had a child. */
  lemma {:induction false} CascadeOkIsTearable(m: Arena, views: set<NodeId>, x: NodeId)
    requires Descending(m) && x in m && x in views
    ensures Cascade(m, views, x).ok <==> Tearable(m, views, x)
    decreases |m| - Level(m, x), 1, 0
  {
    if Tearable(m, views, x) {
      CascadeComplete(m, views, x);
    } else if m[x].children.Some? {
      CascadeListOk(m, views, x, |Kids(m, x)|);
      if Cascade(m, views, x).ok {
        forall y | y in Below(m, Everyone, x)
          ensures y in views && y in m && m[y].children.Some?
        {
          var k := BelowListBlock(m, Everyone, x, |Kids(m, x)|, y);
          InBlockTearable(m, views, x, k, y);
        }
        assert false;
      }
    }
  }

  lemma InBlockTearable(m: Arena, views: set<NodeId>, x: NodeId, k: nat, y: NodeId)
    requires Descending(m) && x in m && k < |Kids(m, x)| && Kids(m, x)[k] in m
    requires Tearable(m, views, Kids(m, x)[k])
    requires y == Kids(m, x)[k] || y in Below(m, Everyone, Kids(m, x)[k])
    ensures y in views && y in m && m[y].children.Some?
  {
  }

  /** A completed loop tore down every child completely. */
  lemma {:induction false} CascadeListOk(m: Arena, views: set<NodeId>, x: NodeId, n: nat)
    requires Descending(m) && x in m && n <= |Kids(m, x)|
    ensures CascadeList(m, views, x, n).ok ==>
      forall k :: 0 <= k < n ==> Kids(m, x)[k] in m && Tearable(m, views, Kids(m, x)[k])
    decreases |m| - Level(m, x), 0, n
  {
    if n > 0 {
      var c := Kids(m, x)[n - 1];
      assert c in Kids(m, x);
      CascadeListOk(m, views, x, n - 1);
      if c in views {
        CascadeOkIsTearable(m, views, c);
      }
    }
  }

  /** With links that agree, every node is torn down before its parent. */
  lemma CascadeOrder(m: Arena, views: set<NodeId>, x: NodeId)
    requires Consistent(m) && x in m && Tearable(m, views, x)
    ensures ChildBeforeParent(m, Cascade(m, views, x).order)
  {
    CascadeComplete(m, views, x);
    BelowOrder(m, Everyone, x);
    forall y, z | y in [x] && z in Below(m, Everyone, x) && y in m
      ensures m[y].parent != Some(z)
    {
      BelowDeeper(m, Everyone, x, z);
      if m[x].parent.Some? {
        LevelParent(m, x);
      }
    }
    ConcatOrder(m, Below(m, Everyone, x), [x]);
  }

  /** The views of one forest. */
  class Views {
    const tree: Forest
    /** The active flag of each view; a node of the tree without one is not a view. */
    var active: map<NodeId, bool>
    /** The id of each view: set (a string) only for layouts. */
    var ids: map<NodeId, Option<string>>
    /** doTeardown calls, in order. */
    ghost var calls: seq<Call>

    ghost predicate Valid()
      reads this, tree
    {
      tree.Valid() && active.Keys <= tree.nodes.Keys && ids.Keys == active.Keys
    }

    constructor (t: Forest)
      requires t.Valid()
      ensures Valid() && tree == t && active == map[] && ids == map[] && calls == []
    {
      tree := t;
      active := map[];
      ids := map[];
      calls := [];
    }

    /** new AbstractView(parent, id) allocated as the fresh node v: the id and an
        inactive flag are set, then the tree node is constructed; when that raises,
        the half-built view is unreachable. */
    method NewView(v: NodeId, parent: Ref, id: Option<string>) returns (r: Outcome)
      requires Valid() && v !in tree.nodes
      modifies this, tree
      ensures Valid() && calls == old(calls)
      ensures r.Fail? <==> !(parent == Null || IsNode(old(tree.nodes), parent))
      ensures r.Fail? ==>
        r.error == TypeError && active == old(active) && ids == old(ids) &&
        tree.nodes == old(tree.nodes) && tree.hooks == old(tree.hooks)
      ensures r.Pass? ==> active == old(active)[v := false] && ids == old(ids)[v := id]
      ensures r.Pass? ==> v in active && !IsActive(v) && (IsLayout(v) <==> id.Some? && id.value != "")
      ensures parent == Null ==> tree.nodes == old(tree.nodes)[v := Node(None, None)] && tree.hooks == old(tree.hooks)
      ensures IsNode(old(tree.nodes), parent) ==>
        && tree.nodes == Attach(old(tree.nodes)[v := Node(None, None)], parent.id, v)
        && tree.hooks == old(tree.hooks) + [ParentChanged(v, None), ParentChanged(v, None)]
    {
      r := tree.NewNode(v, parent);
      if r.Pass? {
        ids := ids[v := id];
        active := active[v := false];
      }
    }

    /** v.isLayout(): !!this.id, the id is set and, being a string, truthy. Its meaning
        for a given view comes from NewView, which ties the id to the one constructed with. */
    predicate IsLayout(v: NodeId)
      reads this
      requires v in ids
      ensures IsLayout(v) <==> ids[v].Some? && |ids[v].value| > 0
    {
      ids[v].Some? && ids[v].value != ""
    }

    /** v.isActive(): the view's own flag, which only render and teardown change. NewView
        states that it is false for a new view, Teardown how it changes. */
    function IsActive(v: NodeId): (b: bool)
      reads this
      requires v in active
      ensures b <==> v in active.Keys && active[v]
    {
      active[v]
    }

    /** x.teardown(). */
    method Teardown(x: NodeId) returns (r: Outcome)
      requires Valid() && Descending(tree.nodes) && x in active
      modifies this
      decreases |tree.nodes| - Level(tree.nodes, x), 1, 0
      ensures Valid() && ids == old(ids)
      ensures var c := Cascade(tree.nodes, old(active).Keys, x);
        && (r.Pass? <==> c.ok)
        && (r.Fail? ==> r.error == TypeError)
        && active == Deactivate(old(active), c.order)
        && calls == old(calls) + TeardownCalls(c.order)
    {
      ghost var views := active.Keys;
      ghost var m := tree.nodes;
      if tree.nodes[x].children.None? {
        assert calls + [] == calls;
        return Fail(TypeError);        // this.children.length on null
      }
      var cs := tree.nodes[x].children.value;
      var i := |cs|;
      ghost var done: seq<NodeId> := [];
      while i > 0
        invariant 0 <= i <= |cs| && cs == Kids(m, x)
        invariant active.Keys == views && ids == old(ids) && tree.nodes == m && Valid()
        invariant CascadeList(m, views, x, |cs|) == Cascaded(CascadeList(m, views, x, i).ok, done + CascadeList(m, views, x, i).order)
        invariant active == Deactivate(old(active), done)
        invariant calls == old(calls) + TeardownCalls(done)
        decreases i
      {
        i := i - 1;
        r, done := TeardownRound(x, i, old(active), old(calls), done);
        if r.Fail? {
          CascadeStopped(m, views, x);
          return;
        }
      }
      assert done + [] == done;
      assert CascadeList(m, views, x, |cs|) == Cascaded(true, done);
      CascadeFinished(m, views, x);
      DeactivateSnoc(old(active), done, x);
      TeardownCallsAppend(done, [x]);
      active := active[x := false];
      calls := calls + [DoTeardown(x, active[x])];
      r := Pass;
    }

    /** The bookkeeping of one round of the loop of x.teardown(): `done` holds the views
        torn down by the rounds before, a0 and c0 the flags and calls before the loop. */
    method TeardownRound(x: NodeId, i: nat, ghost a0: map<NodeId, bool>, ghost c0: seq<Call>, ghost done: seq<NodeId>)
      returns (r: Outcome, ghost done': seq<NodeId>)
      requires Valid() && Descending(tree.nodes) && x in tree.nodes && i < |Kids(tree.nodes, x)|
      requires var l := CascadeList(tree.nodes, active.Keys, x, |Kids(tree.nodes, x)|);
        var here := CascadeList(tree.nodes, active.Keys, x, i + 1);
        l == Cascaded(here.ok, done + here.order)
      requires active == Deactivate(a0, done) && calls == c0 + TeardownCalls(done)
      modifies this
      decreases |tree.nodes| - Level(tree.nodes, x), 0, 1
      ensures Valid() && ids == old(ids) && active.Keys == old(active).Keys
      ensures active == Deactivate(a0, done') && calls == c0 + TeardownCalls(done')
      ensures var l := CascadeList(tree.nodes, old(active).Keys, x, |Kids(tree.nodes, x)|);
        var rest := CascadeList(tree.nodes, old(active).Keys, x, i);
        && (r.Fail? ==> r.error == TypeError && l == Cascaded(false, done'))
        && (r.Pass? ==> l == Cascaded(rest.ok, done' + rest.order))
    {
      ghost var sub;
      ghost var before := active;
      r, sub := TeardownChild(x, i);
      RoundTrace(a0, c0, done, sub, active, calls);
      Regroup(done, sub, CascadeList(tree.nodes, before.Keys, x, i).order);
      done' := done + sub;
    }

    /** One round of the loop of x.teardown(): this.children[i].teardown(); `sub` is the
        views it tore down, in order. */
    method TeardownChild(x: NodeId, i: nat) returns (r: Outcome, ghost sub: seq<NodeId>)
      requires Valid() && Descending(tree.nodes) && x in tree.nodes && i < |Kids(tree.nodes, x)|
      modifies this
      decreases |tree.nodes| - Level(tree.nodes, x), 0, 0
      ensures Valid() && ids == old(ids) && active.Keys == old(active).Keys
      ensures active == Deactivate(old(active), sub) && calls == old(calls) + TeardownCalls(sub)
      ensures r.Fail? ==>
        r.error == TypeError && CascadeList(tree.nodes, old(active).Keys, x, i + 1) == Cascaded(false, sub)
      ensures r.Pass? ==>
        var rest := CascadeList(tree.nodes, old(active).Keys, x, i);
        CascadeList(tree.nodes, old(active).Keys, x, i + 1) == Cascaded(rest.ok, sub + rest.order)
    {
      ghost var m := tree.nodes;
      ghost var views := active.Keys;
      var c := tree.nodes[x].children.value[i];
      StepChild(m, x, i);
      if c !in active {
        StepNotView(m, views, x, i);
        return Fail(TypeError), [];      // a child that is not a view has no teardown
      }
      r := Teardown(c);
      sub := Cascade(m, views, c).order;
      if r.Fail? {
        StepFails(m, views, x, i);
      } else {
        StepOk(m, views, x, i);
      }
    }

    /** v.teardownDescendantsInContainer(container): raises at once, before any state is touched. */
    method TeardownDescendantsInContainer(v: NodeId, container: string) returns (r: Outcome)
      requires v in active
      ensures r == Fail(Unsupported)
    {
      r := Fail(Unsupported);
    }
  }
}
