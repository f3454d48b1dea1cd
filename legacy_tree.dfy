/**
 * The older TreeNode of Tyro.View.js: every node is created with an empty children list,
 * init(parent) links a node under a parent without any cycle check, getHead is a loop,
 * and the two walks take a callback whose exact false stops them.  In iterateChildren a
 * false skips only the subtree of that child; later siblings are still visited.
 */
module LegacyTree {
  import opened Common
  import opened TreeShape
  import opened TreeNode

  /** The nodes handed to the callback of x.iterateChildren(callback), in call order:
      each child in index order, then (unless the callback returned false for it) its
      own walk.  stops(n) holds when the callback returns exactly false for n. */
  function PreOrder(m: Arena, stops: NodeId -> bool, x: NodeId): seq<NodeId>
    requires Descending(m) && x in m
    decreases |m| - Level(m, x), 1, 0
  {
    PreOrderFrom(m, stops, x, 0)
  }

  /** The calls made by the loop of x.iterateChildren from child index i on. */
  function PreOrderFrom(m: Arena, stops: NodeId -> bool, x: NodeId, i: nat): seq<NodeId>
    requires Descending(m) && x in m && i <= |Kids(m, x)|
    decreases |m| - Level(m, x), 0, |Kids(m, x)| - i
  {
    if i == |Kids(m, x)| then []
    else
      var c := Kids(m, x)[i];
      [c] + (if stops(c) then [] else PreOrder(m, stops, c)) + PreOrderFrom(m, stops, x, i + 1)
  }

  /** The calls made for the child c of some node: c itself, then its walk unless it stops. */
  function Branch(m: Arena, stops: NodeId -> bool, c: NodeId): seq<NodeId>
    requires Descending(m) && c in m
  {
    [c] + (if stops(c) then [] else PreOrder(m, stops, c))
  }

  lemma PreOrderStep(m: Arena, stops: NodeId -> bool, x: NodeId, i: nat)
    requires Descending(m) && x in m && i < |Kids(m, x)|
    ensures Kids(m, x)[i] in m && Level(m, x) < Level(m, Kids(m, x)[i])
    ensures PreOrderFrom(m, stops, x, i) == Branch(m, stops, Kids(m, x)[i]) + PreOrderFrom(m, stops, x, i + 1)
  {
    StepChild(m, x, i);
  }

  /** The calls after round i of the loop, told with the rounds still to come. */
  lemma PreOrderRound(m: Arena, stops: NodeId -> bool, x: NodeId, i: nat, before: seq<NodeId>, after: seq<NodeId>)
    requires Descending(m) && x in m && i < |Kids(m, x)| && Kids(m, x)[i] in m
    requires after == before + Branch(m, stops, Kids(m, x)[i])
    ensures after + PreOrderFrom(m, stops, x, i + 1) == before + PreOrderFrom(m, stops, x, i)
  {
    PreOrderStep(m, stops, x, i);
  }

  /** A node met by the loop from index i belongs to the branch of one child k >= i. */
  lemma {:induction false} PreOrderFromBlock(m: Arena, stops: NodeId -> bool, x: NodeId, i: nat, y: NodeId) returns (k: nat)
    requires Descending(m) && x in m && i <= |Kids(m, x)| && y in PreOrderFrom(m, stops, x, i)
    ensures i <= k < |Kids(m, x)| && Kids(m, x)[k] in m
    ensures y == Kids(m, x)[k] || (!stops(Kids(m, x)[k]) && y in PreOrder(m, stops, Kids(m, x)[k]))
    decreases |Kids(m, x)| - i
  {
    PreOrderStep(m, stops, x, i);
    if y in Branch(m, stops, Kids(m, x)[i]) {
      k := i;
    } else {
      k := PreOrderFromBlock(m, stops, x, i + 1, y);
    }
  }

  lemma {:induction false} PreOrderFromHas(m: Arena, stops: NodeId -> bool, x: NodeId, i: nat, k: nat, y: NodeId)
    requires Descending(m) && x in m && i <= k < |Kids(m, x)| && Kids(m, x)[k] in m
    requires y == Kids(m, x)[k] || (!stops(Kids(m, x)[k]) && y in PreOrder(m, stops, Kids(m, x)[k]))
    ensures y in PreOrderFrom(m, stops, x, i)
    decreases k - i
  {
    PreOrderStep(m, stops, x, i);
    if i < k {
      PreOrderFromHas(m, stops, x, i + 1, k, y);
    }
  }

  /**
   * iterateChildren hands the callback exactly the children of x and the children of
   * already visited nodes for which the callback did not return false: a false prunes
   * that child's subtree and nothing else.
   */
  lemma {:induction false} PreOrderMembership(m: Arena, stops: NodeId -> bool, x: NodeId, y: NodeId)
    requires Consistent(m) && x in m
    ensures y in PreOrder(m, stops, x) <==>
      y in m && m[y].parent.Some? &&
      (m[y].parent.value == x || (m[y].parent.value in PreOrder(m, stops, x) && !stops(m[y].parent.value)))
    decreases |m| - Level(m, x)
  {
    if y in PreOrder(m, stops, x) {
      var k := PreOrderFromBlock(m, stops, x, 0, y);
      VisitedForward(m, stops, x, k, y);
    }
    if y in m && m[y].parent.Some? {
      var p := m[y].parent.value;
      if p == x {
        var k :| 0 <= k < |Kids(m, x)| && Kids(m, x)[k] == y;
        PreOrderFromHas(m, stops, x, 0, k, y);
      } else if p in PreOrder(m, stops, x) && !stops(p) {
        var k := PreOrderFromBlock(m, stops, x, 0, p);
        VisitedBackward(m, stops, x, k, y);
      }
    }
  }

  /** The forward half of the membership for a node met in the branch of child k. */
  lemma {:induction false} VisitedForward(m: Arena, stops: NodeId -> bool, x: NodeId, k: nat, y: NodeId)
    requires Consistent(m) && x in m && k < |Kids(m, x)| && Kids(m, x)[k] in m
    requires y == Kids(m, x)[k] || (!stops(Kids(m, x)[k]) && y in PreOrder(m, stops, Kids(m, x)[k]))
    ensures y in m && m[y].parent.Some?
    ensures m[y].parent.value == x || (m[y].parent.value in PreOrder(m, stops, x) && !stops(m[y].parent.value))
    decreases |m| - Level(m, x), 0
  {
    var c := Kids(m, x)[k];
    assert c in Kids(m, x);
    if y != c {
      PreOrderMembership(m, stops, c, y);
      var p := m[y].parent.value;
      if p == c {
        PreOrderFromHas(m, stops, x, 0, k, c);
      } else {
        PreOrderFromHas(m, stops, x, 0, k, p);
      }
    }
  }

  /** The backward half: a child of a visited, unpruned node in the branch of child k. */
  lemma {:induction false} VisitedBackward(m: Arena, stops: NodeId -> bool, x: NodeId, k: nat, y: NodeId)
    requires Consistent(m) && x in m && k < |Kids(m, x)| && Kids(m, x)[k] in m
    requires y in m && m[y].parent.Some? && !stops(m[y].parent.value)
    requires var p := m[y].parent.value;
      p == Kids(m, x)[k] || (!stops(Kids(m, x)[k]) && p in PreOrder(m, stops, Kids(m, x)[k]))
    ensures y in PreOrder(m, stops, x)
    decreases |m| - Level(m, x), 0
  {
    var c := Kids(m, x)[k];
    var p := m[y].parent.value;
    assert c in Kids(m, x);
    if p == c {
      var i :| 0 <= i < |Kids(m, c)| && Kids(m, c)[i] == y;
      PreOrderFromHas(m, stops, c, 0, i, y);
    } else {
      PreOrderMembership(m, stops, c, y);
    }
    PreOrderFromHas(m, stops, x, 0, k, y);
  }

  /** Every child of x is handed to the callback, whatever it returned for its siblings. */
  lemma PreOrderVisitsEveryChild(m: Arena, stops: NodeId -> bool, x: NodeId, k: nat)
    requires Descending(m) && x in m && k < |Kids(m, x)|
    ensures Kids(m, x)[k] in PreOrder(m, stops, x)
  {
    StepChild(m, x, k);
    PreOrderFromHas(m, stops, x, 0, k, Kids(m, x)[k]);
  }

  /** A fresh parentless node with an empty list is nobody's ancestor. */
  lemma {:induction false} FreshLeafNotAncestor(m: Arena, id: NodeId, q: NodeId)
    requires Rooted(m) && id !in m && q in m
    ensures Rooted(m[id := Node(None, Some([]))]) && !Under(m[id := Node(None, Some([]))], q, id)
    decreases Level(m, q)
  {
    AddRootRooted(m, id);
    SameParentsRooted(m[id := Node(None, None)], m[id := Node(None, Some([]))]);
    if m[q].parent.Some? {
      LevelParent(m, q);
      FreshLeafNotAncestor(m, id, m[q].parent.value);
    }
  }

  /** The nodes of the older tree, with the calls its walks make into their callbacks. */
  class LegacyForest {
    var nodes: Arena
    /** The nodes handed to walk callbacks, in call order. */
    ghost var visits: seq<NodeId>

    /** Parent links reach a root, and every node has a children list. */
    ghost predicate Valid()
      reads this
    {
      Rooted(nodes) && forall n :: n in nodes ==> nodes[n].children.Some?
    }

    constructor ()
      ensures Valid() && nodes == map[] && visits == []
    {
      nodes := map[];
      visits := [];
    }

    /** x.init(parent): a TypeError for anything but null or a tree node; otherwise the
        parent link is overwritten (the old parent keeps its entry) and x is pushed onto
        the parent's list.  Nothing stops the new link from closing a cycle. */
    method Init(x: NodeId, parent: Ref) returns (r: Outcome)
      requires Valid() && x in nodes
      modifies this
      ensures visits == old(visits)
      ensures r.Fail? <==> !(parent == Null || IsNode(old(nodes), parent))
      ensures r.Fail? ==> r.error == TypeError && nodes == old(nodes)
      ensures parent == Null ==> nodes == old(nodes)[x := old(nodes)[x].(parent := None)] && Valid()
      ensures IsNode(old(nodes), parent) ==> nodes == Attach(old(nodes), parent.id, x)
      ensures IsNode(old(nodes), parent) && !Under(old(nodes), parent.id, x) ==> Valid()
    {
      if parent != Null && !IsNode(nodes, parent) {
        return Fail(TypeError);
      }
      r := Pass;
      if parent == Null {
        ClearParentRooted(nodes, x);
        nodes := nodes[x := nodes[x].(parent := None)];
      } else {
        ghost var before := nodes;
        var p := parent.id;
        nodes := nodes[x := nodes[x].(parent := Some(p))];
        nodes := nodes[p := nodes[p].(children := Some(nodes[p].children.value + [x]))];
        assert nodes == Attach(before, p, x);
        if !Under(before, p, x) {
          AttachRooted(before, p, x);
        }
      }
    }

    /** new TreeNode(parent) as the fresh node v: a parentless node with an empty list,
        then init(parent) when an argument was given (None: no argument at all). */
    method NewNode(v: NodeId, arg: Option<Ref>) returns (r: Outcome)
      requires Valid() && v !in nodes
      modifies this
      ensures visits == old(visits)
      ensures r.Fail? <==> arg.Some? && !(arg.value == Null || IsNode(old(nodes), arg.value))
      ensures r.Fail? ==> r.error == TypeError && nodes == old(nodes)
      ensures r.Pass? ==> Valid()
      ensures arg.None? || arg == Some(Null) ==> nodes == old(nodes)[v := Node(None, Some([]))]
      ensures arg.Some? && IsNode(old(nodes), arg.value) ==>
        nodes == Attach(old(nodes)[v := Node(None, Some([]))], arg.value.id, v)
    {
      if arg.Some? && !(arg.value == Null || IsNode(nodes, arg.value)) {
        return Fail(TypeError);
      }
      ghost var before := nodes;
      if arg.Some? && arg.value.Obj? {
        FreshLeafNotAncestor(nodes, v, arg.value.id);
      } else {
        AddRootRooted(nodes, v);
        SameParentsRooted(nodes[v := Node(None, None)], nodes[v := Node(None, Some([]))]);
      }
      nodes := nodes[v := Node(None, Some([]))];
      if arg.None? {
        return Pass;
      }
      r := Init(v, arg.value);
      if arg.value == Null {
        assert nodes == before[v := Node(None, Some([]))];
      }
    }

    /** x.getHead(): climb parent links until a node without a parent. */
    method GetHead(x: NodeId) returns (h: NodeId)
      requires Valid() && x in nodes
      ensures h == TreeShape.GetHead(nodes, x)
      ensures h in nodes && nodes[h].parent.None? && Under(nodes, x, h)
    {
      h := x;
      while nodes[h].parent.Some?
        invariant h in nodes && TreeShape.GetHead(nodes, h) == TreeShape.GetHead(nodes, x)
        decreases Level(nodes, h)
      {
        LevelParent(nodes, h);
        h := nodes[h].parent.value;
      }
    }

    /** x.iterateUpwards(callback): the callback sees x, then, unless it returned false,
        the walk goes on from the parent. */
    method IterateUpwards(x: NodeId, stops: NodeId -> bool)
      requires Valid() && x in nodes
      modifies this
      ensures nodes == old(nodes)
      ensures visits == old(visits) + TraverseUpwards(nodes, x, Some(stops))
      decreases Level(nodes, x)
    {
      visits := visits + [x];
      if !stops(x) && nodes[x].parent.Some? {
        LevelParent(nodes, x);
        ghost var before := visits;
        IterateUpwards(nodes[x].parent.value, stops);
        assert visits == old(visits) + ([x] + TraverseUpwards(nodes, nodes[x].parent.value, Some(stops)));
      }
    }

    /** x.iterateChildren(callback). */
    method IterateChildren(x: NodeId, stops: NodeId -> bool)
      requires Valid() && Descending(nodes) && x in nodes
      modifies this
      ensures nodes == old(nodes)
      ensures visits == old(visits) + PreOrder(nodes, stops, x)
      decreases |nodes| - Level(nodes, x), 1
    {
      var cs := nodes[x].children.value;
      var i := 0;
      while i < |cs|
        invariant nodes == old(nodes) && Valid() && 0 <= i <= |cs| && cs == Kids(nodes, x)
        invariant visits + PreOrderFrom(nodes, stops, x, i) == old(visits) + PreOrder(nodes, stops, x)
        decreases |cs| - i
      {
        ghost var before := visits;
        IterateChild(x, i, stops);
        PreOrderRound(nodes, stops, x, i, before, visits);
        i := i + 1;
      }
    }

    /** One round of the loop of x.iterateChildren: callback(child), then the child's
        own walk unless the callback returned false. */
    method IterateChild(x: NodeId, i: nat, stops: NodeId -> bool)
      requires Valid() && Descending(nodes) && x in nodes && i < |Kids(nodes, x)|
      modifies this
      ensures nodes == old(nodes) && Kids(nodes, x)[i] in nodes
      ensures visits == old(visits) + Branch(nodes, stops, Kids(nodes, x)[i])
      decreases |nodes| - Level(nodes, x), 0
    {
      StepChild(nodes, x, i);
      var c := nodes[x].children.value[i];
      assert c == Kids(nodes, x)[i];
      visits := visits + [c];
      if !stops(c) {
        IterateChildren(c, stops);
        assert visits == old(visits) + ([c] + PreOrder(nodes, stops, c));
      }
    }
  }
}
