/**
 * Tyro.TreeNode (the current ownership tree).  Every node object lives in one arena;
 * the class Forest holds that arena and its methods are the node methods, with the
 * receiver passed as the first argument.  The parentChanged hook is recorded in a ghost
 * trace instead of being run.
 */
module TreeNode {
  import opened Common
  import opened TreeShape

  /** What a caller passes where a node is expected: null, undefined (an omitted
      argument), or an object, which is a tree node exactly when it is in the arena. */
  datatype Ref = Null | Undefined | Obj(id: NodeId)

  /** The argument is a tree node of the arena. */
  predicate IsNode(m: Arena, r: Ref) {
    r.Obj? && r.id in m
  }

  function RefOf(p: Option<NodeId>): Ref {
    match p
    case None => Null
    case Some(q) => Obj(q)
  }

  /** A call of node.parentChanged(oldParent). */
  datatype Hook = ParentChanged(node: NodeId, oldParent: Option<NodeId>)

  /** A traverseDescendants callback call. */
  datatype Visit = Before(node: NodeId) | After(node: NodeId)

  /** The optional before/after callbacks; a callback maps a node to true when it returns exactly false. */
  datatype Callbacks = Callbacks(before: Option<NodeId -> bool>, after: Option<NodeId -> bool>)

  /** What traverseDescendants returns: false, or nothing at all (undefined); both are falsy. */
  datatype Returned = False | Void

  // ---------------------------------------------------------------------------------
  // addChild's mutation and the cycle it may create
  // ---------------------------------------------------------------------------------

  /** The arena after addChild(c) on x has mutated it, before its cycle check runs. */
  function Attach(m: Arena, x: NodeId, c: NodeId): Arena
    requires x in m && c in m
  {
    var m1 := m[c := m[c].(parent := None)];               // child.removeFromParent() with no argument
    var m2 := m1[x := m1[x].(children := Some(Kids(m1, x) + [c]))];
    m2[c := m2[c].(parent := Some(x))]
  }

  /** addChild appends the child at the end of this's list and links it to this; every
      other node, including the child's old parent with its entry for the child, is as before. */
  lemma AttachShape(m: Arena, x: NodeId, c: NodeId)
    requires x in m && c in m
    ensures var m' := Attach(m, x, c);
      && m'.Keys == m.Keys
      && m'[c].parent == Some(x)
      && m'[x].children == Some(Kids(m, x) + [c])
      && (c != x ==> m'[x].parent == m[x].parent && m'[c].children == m[c].children)
      && (forall y :: y in m && y != x && y != c ==> m'[y] == m[y])
  {
  }

  /** Moving a node up keeps the tree rooted and its children graph acyclic, yet the
      stale entry sits at its owner's own level: A.addChild(C) on A -> B -> C. */
  lemma MoveUpBreaksDescending()
    ensures var m := map[0 := Node(None, Some([1])), 1 := Node(Some(0), Some([2])), 2 := Node(Some(1), Some([]))];
      var m' := Attach(m, 0, 2);
      Rooted(m') && 2 in Kids(m', 1) && Level(m', 1) == Level(m', 2) && !Descending(m')
  {
    var m := map[0 := Node(None, Some([1])), 1 := Node(Some(0), Some([2])), 2 := Node(Some(1), Some([]))];
    var m' := Attach(m, 0, 2);
    assert [1] + [2] == [1, 2];
    assert m'.Keys == {0, 1, 2} && m'[0] == Node(None, Some([1, 2]));
    assert m'[1] == Node(Some(0), Some([2])) && m'[2] == Node(Some(0), Some([]));
    assert Depth(m', 0, 3) == Some(0);
    assert Depth(m', 1, 3) == Some(1);
    assert Depth(m', 2, 3) == Some(1);
    assert 2 in Kids(m', 1);
  }

  /** Reparenting leaves a stale entry: the old parent still lists the child, so the links no longer agree. */
  lemma AttachLeavesStaleEntry(m: Arena, x: NodeId, c: NodeId)
    requires LinksAgree(m) && x in m && c in m
    requires m[c].parent.Some? && m[c].parent.value != x
    ensures var p := m[c].parent.value;
      p in Attach(m, x, c) && c in Kids(Attach(m, x, c), p) && !LinksAgree(Attach(m, x, c))
  {
    var p := m[c].parent.value;
    var m' := Attach(m, x, c);
    if p == c {
      LevelParent(m, c);
    }
    assert m'[p] == m[p];
    assert c in Kids(m', p) && m'[c].parent != Some(p);
  }

  /** Nodes whose walk to the head avoids c keep their depth. */
  lemma {:induction false} AttachAwayDepth(m: Arena, x: NodeId, c: NodeId, y: NodeId)
    requires Rooted(m) && x in m && c in m && y in m && !Under(m, x, c) && !Under(m, y, c)
    ensures Depth(Attach(m, x, c), y, Level(m, y)) == Some(Level(m, y))
    decreases Level(m, y)
  {
    var m' := Attach(m, x, c);
    match m[y].parent
    case None =>
      assert m'[y].parent == None;
    case Some(p) =>
      LevelParent(m, y);
      assert m'[y].parent == Some(p);
      AttachAwayDepth(m, x, c, p);
  }

  /** Nodes under c now hang below x. */
  lemma {:induction false} AttachUnderDepth(m: Arena, x: NodeId, c: NodeId, y: NodeId)
    requires Rooted(m) && x in m && c in m && y in m && !Under(m, x, c) && Under(m, y, c)
    ensures Level(m, c) <= Level(m, y) &&
      Depth(Attach(m, x, c), y, Level(m, y) - Level(m, c) + 1 + Level(m, x)) ==
        Some(Level(m, y) - Level(m, c) + 1 + Level(m, x))
    decreases Level(m, y)
  {
    UnderLevel(m, y, c);
    var m' := Attach(m, x, c);
    if y == c {
      AttachAwayDepth(m, x, c, x);
    } else {
      LevelParent(m, y);
      var p := m[y].parent.value;
      assert y != x;
      assert m'[y].parent == Some(p);
      AttachUnderDepth(m, x, c, p);
    }
  }

  /** An addChild that raises no cycle error keeps every node rooted. */
  lemma AttachRooted(m: Arena, x: NodeId, c: NodeId)
    requires Rooted(m) && x in m && c in m && !Under(m, x, c)
    ensures Rooted(Attach(m, x, c))
  {
    var m' := Attach(m, x, c);
    forall y | y in m'
      ensures Depth(m', y, |m'|).Some?
    {
      if Under(m, y, c) {
        AttachUnderDepth(m, x, c, y);
        UnderLevel(m, y, c);
        DepthRooted(m', y, Level(m, y) - Level(m, c) + 1 + Level(m, x));
      } else {
        AttachAwayDepth(m, x, c, y);
        DepthRooted(m', y, Level(m, y));
      }
    }
  }

  /** Attaching a parentless node keeps the links agreeing. */
  lemma AttachRootKeepsConsistent(m: Arena, x: NodeId, c: NodeId)
    requires Consistent(m) && x in m && c in m && m[c].parent.None? && !Under(m, x, c)
    ensures Consistent(Attach(m, x, c))
  {
    AttachRootAgree(m, x, c);
    AgreeingLinksDescend(Attach(m, x, c));
  }

  lemma AttachRootAgree(m: Arena, x: NodeId, c: NodeId)
    requires LinksAgree(m) && x in m && c in m && m[c].parent.None? && !Under(m, x, c)
    ensures LinksAgree(Attach(m, x, c))
  {
    AttachRooted(m, x, c);
    AttachShape(m, x, c);
    assert c !in Kids(m, x);
    AttachPointBack(m, x, c);
    AttachListsChild(m, x, c);
    AttachNoDup(m, x, c);
  }

  lemma AttachPointBack(m: Arena, x: NodeId, c: NodeId)
    requires ChildrenPointBack(m) && ParentsListChild(m) && x in m && c in m && m[c].parent.None?
    ensures ChildrenPointBack(Attach(m, x, c))
  {
    var m' := Attach(m, x, c);
    AttachShape(m, x, c);
    forall y, d | y in m' && d in Kids(m', y)
      ensures d in m' && m'[d].parent == Some(y)
    {
      if !(y == x && d == c) {
        assert Kids(m', y) == Kids(m, y) || Kids(m', y) == Kids(m, y) + [c];
        assert d in Kids(m, y);
      }
    }
  }

  lemma AttachListsChild(m: Arena, x: NodeId, c: NodeId)
    requires ParentsListChild(m) && x in m && c in m
    ensures ParentsListChild(Attach(m, x, c))
  {
    var m' := Attach(m, x, c);
    AttachShape(m, x, c);
    forall d | d in m' && m'[d].parent.Some?
      ensures m'[d].parent.value in m' && d in Kids(m', m'[d].parent.value)
    {
      if d != c {
        var p := m[d].parent.value;
        assert d in Kids(m, p);
        assert Kids(m', p) == Kids(m, p) || Kids(m', p) == Kids(m, p) + [c];
      }
    }
  }

  lemma AttachNoDup(m: Arena, x: NodeId, c: NodeId)
    requires ListsNoDup(m) && x in m && c in m && c !in Kids(m, x)
    ensures ListsNoDup(Attach(m, x, c))
  {
    var m' := Attach(m, x, c);
    AttachShape(m, x, c);
    forall y | y in m'
      ensures NoDup(Kids(m', y))
    {
      if y == x {
        assert NoDup(Kids(m, x));
      } else {
        assert Kids(m', y) == Kids(m, y);
      }
    }
  }

  /** A fresh parentless node does not disturb the rest of the arena. */
  lemma {:induction false} AddRootDepth(m: Arena, id: NodeId, y: NodeId, f: nat)
    requires id !in m && Depth(m, y, f).Some?
    ensures Depth(m[id := Node(None, None)], y, f) == Depth(m, y, f)
    decreases f
  {
    match m[y].parent
    case None =>
    case Some(p) => AddRootDepth(m, id, p, f - 1);
  }

  lemma AddRootRooted(m: Arena, id: NodeId)
    requires Rooted(m) && id !in m
    ensures Rooted(m[id := Node(None, None)])
  {
    var m' := m[id := Node(None, None)];
    forall y | y in m'
      ensures Depth(m', y, |m'|).Some?
    {
      if y != id {
        AddRootDepth(m, id, y, |m|);
        DepthRooted(m', y, |m|);
      }
    }
  }

  lemma AddRootConsistent(m: Arena, id: NodeId)
    requires Consistent(m) && id !in m
    ensures Consistent(m[id := Node(None, None)])
  {
    AddRootAgree(m, id);
    AgreeingLinksDescend(m[id := Node(None, None)]);
  }

  lemma AddRootAgree(m: Arena, id: NodeId)
    requires LinksAgree(m) && id !in m
    ensures LinksAgree(m[id := Node(None, None)])
  {
    AddRootRooted(m, id);
    AddRootLinks(m, id);
  }

  lemma AddRootLinks(m: Arena, id: NodeId)
    requires ChildrenPointBack(m) && ParentsListChild(m) && ListsNoDup(m) && id !in m
    ensures var m' := m[id := Node(None, None)];
      ChildrenPointBack(m') && ParentsListChild(m') && ListsNoDup(m')
  {
    var m' := m[id := Node(None, None)];
    forall y | y in m' && y != id
      ensures Kids(m', y) == Kids(m, y)
    {
    }
  }

  // ---------------------------------------------------------------------------------
  // traverseDescendants
  // ---------------------------------------------------------------------------------

  function CallIf(cb: Option<NodeId -> bool>, v: Visit): seq<Visit> {
    if cb.Some? then [v] else []
  }

  predicate Stops(cb: Option<NodeId -> bool>, n: NodeId) {
    cb.Some? && cb.value(n)
  }

  /** The callback calls made by x.traverseDescendants(cbs). */
  function Descend(m: Arena, cbs: Callbacks, x: NodeId): seq<Visit>
    requires Descending(m) && x in m
    decreases |m| - Level(m, x), 1, 0
  {
    DescendFrom(m, cbs, x, 0)
  }

  /** The calls made by the loop of x.traverseDescendants from child index i on. */
  function DescendFrom(m: Arena, cbs: Callbacks, x: NodeId, i: nat): seq<Visit>
    requires Descending(m) && x in m && i <= |Kids(m, x)|
    decreases |m| - Level(m, x), 0, |Kids(m, x)| - i
  {
    if i == |Kids(m, x)| then []
    else
      var c := Kids(m, x)[i];
      if Stops(cbs.before, c) then CallIf(cbs.before, Before(c))
      else
        CallIf(cbs.before, Before(c)) + Descend(m, cbs, c) + CallIf(cbs.after, After(c)) +
        (if Stops(cbs.after, c) then [] else DescendFrom(m, cbs, x, i + 1))
  }

  /** Admits every node. */
  function Everyone(n: NodeId): bool { true }

  /** The calls for one child c whose before callback does not stop the walk. */
  function Block(m: Arena, cbs: Callbacks, c: NodeId): seq<Visit>
    requires Descending(m) && c in m
  {
    CallIf(cbs.before, Before(c)) + Descend(m, cbs, c) + CallIf(cbs.after, After(c))
  }

  /** The steps of the loop of traverseDescendants: a child whose before callback stops
      the walk, a child whose after callback does, and a child where neither does. */
  lemma StepBeforeStops(m: Arena, cbs: Callbacks, x: NodeId, i: nat)
    requires Descending(m) && x in m && i < |Kids(m, x)| && Stops(cbs.before, Kids(m, x)[i])
    ensures DescendFrom(m, cbs, x, i) == [Before(Kids(m, x)[i])]
  {
  }

  lemma StepAfterStops(m: Arena, cbs: Callbacks, x: NodeId, i: nat)
    requires Descending(m) && x in m && i < |Kids(m, x)|
    requires !Stops(cbs.before, Kids(m, x)[i]) && Stops(cbs.after, Kids(m, x)[i])
    ensures Kids(m, x)[i] in m && DescendFrom(m, cbs, x, i) == Block(m, cbs, Kids(m, x)[i])
  {
    StepChild(m, x, i);
  }

  lemma StepOn(m: Arena, cbs: Callbacks, x: NodeId, i: nat)
    requires Descending(m) && x in m && i < |Kids(m, x)| && NoStops(cbs, Kids(m, x)[i])
    ensures Kids(m, x)[i] in m &&
      DescendFrom(m, cbs, x, i) == Block(m, cbs, Kids(m, x)[i]) + DescendFrom(m, cbs, x, i + 1)
  {
    StepChild(m, x, i);
  }

  predicate NoStops(cbs: Callbacks, n: NodeId) {
    !Stops(cbs.before, n) && !Stops(cbs.after, n)
  }

  /** A round of the loop of traverseDescendants whose callbacks do not stop keeps its
      invariant for the next index. */
  lemma LoopGoesOn(m: Arena, cbs: Callbacks, x: NodeId, i: nat, calls: seq<Visit>, step: seq<Visit>)
    requires Descending(m) && x in m && i < |Kids(m, x)|
    requires calls + DescendFrom(m, cbs, x, i) == Descend(m, cbs, x)
    requires forall k :: 0 <= k < i ==> NoStops(cbs, Kids(m, x)[k])
    requires NoStops(cbs, Kids(m, x)[i]) && step + DescendFrom(m, cbs, x, i + 1) == DescendFrom(m, cbs, x, i)
    ensures (calls + step) + DescendFrom(m, cbs, x, i + 1) == Descend(m, cbs, x)
    ensures forall k :: 0 <= k < i + 1 ==> NoStops(cbs, Kids(m, x)[k])
  {
    assert (calls + step) + DescendFrom(m, cbs, x, i + 1) == calls + (step + DescendFrom(m, cbs, x, i + 1));
  }

  /** A round whose callback stops ends the walk with every call made. */
  lemma LoopStops(m: Arena, cbs: Callbacks, x: NodeId, i: nat, calls: seq<Visit>, step: seq<Visit>)
    requires Descending(m) && x in m && i < |Kids(m, x)|
    requires calls + DescendFrom(m, cbs, x, i) == Descend(m, cbs, x)
    requires !NoStops(cbs, Kids(m, x)[i]) && step == DescendFrom(m, cbs, x, i)
    ensures calls + step == Descend(m, cbs, x)
    ensures !forall k :: 0 <= k < |Kids(m, x)| ==> NoStops(cbs, Kids(m, x)[k])
  {
  }

  /** s is non-empty and its last call is v. */
  predicate EndsWith(s: seq<Visit>, v: Visit) {
    |s| > 0 && s[|s| - 1] == v
  }

  /** The call of child c that returned false: before's when it stopped, else after's. */
  function StopCall(cbs: Callbacks, c: NodeId): Visit {
    if Stops(cbs.before, c) then Before(c) else After(c)
  }

  /** A false from a callback on child k abandons the siblings after k, and nothing more
      at that level: the level's last call is that callback's call. */
  lemma {:induction false} DescendStopAbandonsSiblings(m: Arena, cbs: Callbacks, x: NodeId, i: nat, k: nat)
    requires Descending(m) && x in m && i <= k < |Kids(m, x)|
    requires forall j :: i <= j < k ==> NoStops(cbs, Kids(m, x)[j])
    requires !NoStops(cbs, Kids(m, x)[k])
    ensures EndsWith(DescendFrom(m, cbs, x, i), StopCall(cbs, Kids(m, x)[k]))
    decreases k - i
  {
    if i < k {
      DescendStopAbandonsSiblings(m, cbs, x, i + 1, k);
      DescendFromSuffix(m, cbs, x, i, StopCall(cbs, Kids(m, x)[k]));
    } else {
      DescendFromStop(m, cbs, x, i);
    }
  }

  /** A child whose callbacks do not stop is followed by the rest of the level. */
  lemma DescendFromSuffix(m: Arena, cbs: Callbacks, x: NodeId, i: nat, v: Visit)
    requires Descending(m) && x in m && i < |Kids(m, x)| && NoStops(cbs, Kids(m, x)[i])
    requires EndsWith(DescendFrom(m, cbs, x, i + 1), v)
    ensures EndsWith(DescendFrom(m, cbs, x, i), v)
  {
    var c := Kids(m, x)[i];
    StepChild(m, x, i);
    var rest := DescendFrom(m, cbs, x, i + 1);
    var block := CallIf(cbs.before, Before(c)) + Descend(m, cbs, c) + CallIf(cbs.after, After(c));
    assert DescendFrom(m, cbs, x, i) == block + rest;
  }

  /** A child whose callback stops ends the level with that callback's call. */
  lemma DescendFromStop(m: Arena, cbs: Callbacks, x: NodeId, k: nat)
    requires Descending(m) && x in m && k < |Kids(m, x)| && !NoStops(cbs, Kids(m, x)[k])
    ensures EndsWith(DescendFrom(m, cbs, x, k), StopCall(cbs, Kids(m, x)[k]))
  {
    var c := Kids(m, x)[k];
    StepChild(m, x, k);
    if !Stops(cbs.before, c) {
      var block := CallIf(cbs.before, Before(c)) + Descend(m, cbs, c);
      assert DescendFrom(m, cbs, x, k) == block + [After(c)];
    }
  }

  /** With a before callback that never stops the walk, it is called on exactly the
      descendants of x: neither a subtree nor a sibling is skipped. */
  lemma {:induction false} DescendVisitsAll(m: Arena, cbs: Callbacks, x: NodeId, y: NodeId)
    requires Descending(m) && x in m && cbs.before.Some?
    requires forall n :: n in m ==> NoStops(cbs, n)
    ensures Before(y) in Descend(m, cbs, x) <==> y in Below(m, Everyone, x)
    decreases |m| - Level(m, x), 1
  {
    DescendFromVisits(m, cbs, x, 0, y);
    BelowByChild(m, x, y);
  }

  lemma {:induction false} DescendFromVisits(m: Arena, cbs: Callbacks, x: NodeId, i: nat, y: NodeId)
    requires Descending(m) && x in m && cbs.before.Some? && i <= |Kids(m, x)|
    requires forall n :: n in m ==> NoStops(cbs, n)
    ensures Before(y) in DescendFrom(m, cbs, x, i) <==> InBlocksFrom(m, x, i, y)
    decreases |m| - Level(m, x), 0, |Kids(m, x)| - i
  {
    if i < |Kids(m, x)| {
      var c := Kids(m, x)[i];
      assert c in Kids(m, x);
      DescendVisitsAll(m, cbs, c, y);
      DescendFromVisits(m, cbs, x, i + 1, y);
      DescendFromUnfold(m, cbs, x, i, y);
      BlocksFromSplit(m, x, i, y);
    }
  }

  /** y lies in the block of a child with index i or later. */
  ghost predicate InBlocksFrom(m: Arena, x: NodeId, i: nat, y: NodeId)
    requires Descending(m) && x in m
  {
    exists k :: i <= k < |Kids(m, x)| && InBlock(m, Kids(m, x)[k], y)
  }

  lemma BlocksFromSplit(m: Arena, x: NodeId, i: nat, y: NodeId)
    requires Descending(m) && x in m && i < |Kids(m, x)|
    ensures Kids(m, x)[i] in m
    ensures InBlocksFrom(m, x, i, y) <==> InBlock(m, Kids(m, x)[i], y) || InBlocksFrom(m, x, i + 1, y)
  {
    assert Kids(m, x)[i] in Kids(m, x);
    if InBlocksFrom(m, x, i, y) {
      var k :| i <= k < |Kids(m, x)| && InBlock(m, Kids(m, x)[k], y);
      assert k == i || (i + 1 <= k < |Kids(m, x)| && InBlock(m, Kids(m, x)[k], y));
    }
  }

  lemma DescendFromUnfold(m: Arena, cbs: Callbacks, x: NodeId, i: nat, y: NodeId)
    requires Descending(m) && x in m && cbs.before.Some? && i < |Kids(m, x)|
    requires NoStops(cbs, Kids(m, x)[i])
    ensures Kids(m, x)[i] in m
    ensures Before(y) in DescendFrom(m, cbs, x, i) <==>
      y == Kids(m, x)[i] || Before(y) in Descend(m, cbs, Kids(m, x)[i]) || Before(y) in DescendFrom(m, cbs, x, i + 1)
  {
    var c := Kids(m, x)[i];
    assert c in Kids(m, x);
    assert DescendFrom(m, cbs, x, i) ==
      [Before(c)] + Descend(m, cbs, c) + CallIf(cbs.after, After(c)) + DescendFrom(m, cbs, x, i + 1);
  }

  /** y is the child c or one of its descendants. */
  ghost predicate InBlock(m: Arena, c: NodeId, y: NodeId)
    requires Descending(m) && c in m
  {
    y == c || y in Below(m, Everyone, c)
  }

  /** Membership in Below, spelled out per child. */
  lemma BelowByChild(m: Arena, x: NodeId, y: NodeId)
    requires Descending(m) && x in m
    ensures y in Below(m, Everyone, x) <==> InBlocksFrom(m, x, 0, y)
  {
    var keep := Everyone;
    if y in Below(m, keep, x) {
      var k := BelowListBlock(m, keep, x, |Kids(m, x)|, y);
    }
    if exists k :: 0 <= k < |Kids(m, x)| && InBlock(m, Kids(m, x)[k], y) {
      var k :| 0 <= k < |Kids(m, x)| && InBlock(m, Kids(m, x)[k], y);
      assert Kids(m, x)[k] in Kids(m, x);
      BelowListHas(m, keep, x, |Kids(m, x)|, k, y);
    }
  }

  /** Parent links alone decide rootedness. */
  lemma {:induction false} SameParentsDepth(m: Arena, m': Arena, y: NodeId, f: nat)
    requires m.Keys == m'.Keys && forall z :: z in m ==> m'[z].parent == m[z].parent
    ensures Depth(m', y, f) == Depth(m, y, f)
    decreases f
  {
    if y in m && m[y].parent.Some? && f > 0 {
      SameParentsDepth(m, m', m[y].parent.value, f - 1);
    }
  }

  lemma SameParentsRooted(m: Arena, m': Arena)
    requires Rooted(m) && m.Keys == m'.Keys && forall z :: z in m ==> m'[z].parent == m[z].parent
    ensures Rooted(m')
  {
    assert |m'| == |m| by { assert m'.Keys == m.Keys; }
    forall y | y in m' ensures Depth(m', y, |m'|).Some? {
      SameParentsDepth(m, m', y, |m|);
    }
  }

  /** Cutting one parent link keeps every node rooted. */
  lemma {:induction false} ClearParentDepth(m: Arena, x: NodeId, y: NodeId)
    requires Rooted(m) && x in m && y in m
    ensures Depth(m[x := m[x].(parent := None)], y, Level(m, y)).Some?
    decreases Level(m, y)
  {
    if y != x && m[y].parent.Some? {
      LevelParent(m, y);
      ClearParentDepth(m, x, m[y].parent.value);
    }
  }

  lemma ClearParentRooted(m: Arena, x: NodeId)
    requires Rooted(m) && x in m
    ensures Rooted(m[x := m[x].(parent := None)])
  {
    var m' := m[x := m[x].(parent := None)];
    forall y | y in m' ensures Depth(m', y, |m'|).Some? {
      ClearParentDepth(m, x, y);
      DepthRooted(m', y, Level(m, y));
    }
  }

  // ---------------------------------------------------------------------------------
  // indexOfChild, removeChild, removeChildByIndex
  // ---------------------------------------------------------------------------------

  /** The first index holding c, searching from k; None stands for the NaN of the source. */
  function FirstIndexFrom(s: seq<NodeId>, c: Ref, k: nat): (r: Option<nat>)
    requires k <= |s|
    ensures r.Some? ==>
      k <= r.value < |s| && Obj(s[r.value]) == c && forall j :: k <= j < r.value ==> Obj(s[j]) != c
    ensures r.None? <==> forall j :: k <= j < |s| ==> Obj(s[j]) != c
    decreases |s| - k
  {
    if k == |s| then None
    else if Obj(s[k]) == c then Some(k)
    else FirstIndexFrom(s, c, k + 1)
  }

  function FirstIndex(s: seq<NodeId>, c: Ref): Option<nat> {
    FirstIndexFrom(s, c, 0)
  }

  /** Where splice(index, 1) starts on a list of length len (negative indices count from the end). */
  function SpliceStart(len: nat, index: int): (k: nat)
    ensures k <= len
  {
    if index < 0 then (if len + index < 0 then 0 else len + index)
    else if index > len then len else index
  }

  /** The list after splice(index, 1). */
  function SpliceOne(s: seq<NodeId>, index: int): seq<NodeId> {
    var k := SpliceStart(|s|, index);
    if k < |s| then s[..k] + s[k + 1..] else s
  }

  /** An arena and the value removeChildByIndex / removeChild answer, or the error they raise. */
  datatype Removal = Removal(arena: Arena, result: Result<Option<NodeId>>)

  /** owner.removeChildByIndex(index): the splice happens first; then child.setParent(null)
      raises on a missing entry (TypeError) and on a child that still has a parent. */
  function RemoveAt(m: Arena, owner: NodeId, index: int): (rm: Removal)
    requires owner in m
    ensures rm.arena.Keys == m.Keys && rm.arena[owner].parent == m[owner].parent
    ensures forall y :: y in m ==> rm.arena[y].parent == m[y].parent
    ensures forall y :: y in m && y != owner ==> rm.arena[y] == m[y]
  {
    match m[owner].children
    case None => Removal(m, Ok(None))
    case Some(cs) =>
      var m' := m[owner := m[owner].(children := Some(SpliceOne(cs, index)))];
      if !(0 <= index < |cs|) || cs[index] !in m then Removal(m', Err(TypeError))
      else if m[cs[index]].parent.Some? then Removal(m', Err(ParentRemoval))
      else Removal(m', Ok(Some(cs[index])))
  }

  /** owner.removeChild(c). */
  function RemoveChildSpec(m: Arena, owner: NodeId, c: Ref): (rm: Removal)
    requires owner in m
    ensures rm.arena.Keys == m.Keys && rm.arena[owner].parent == m[owner].parent
    ensures forall y :: y in m ==> rm.arena[y].parent == m[y].parent
    ensures forall y :: y in m && y != owner ==> rm.arena[y] == m[y]
  {
    match FirstIndex(Kids(m, owner), c)
    case None => Removal(m, Ok(None))
    case Some(i) => RemoveAt(m, owner, i)
  }

  /** Removing a properly linked child always raises, and only after it has left the
      list: the child keeps pointing at its old owner, whose list no longer holds it,
      and the other entries keep their order. */
  lemma RemoveLinkedChildRaises(m: Arena, owner: NodeId, c: NodeId)
    requires LinksAgree(m) && owner in m && c in Kids(m, owner)
    ensures var rm := RemoveChildSpec(m, owner, Obj(c));
      && rm.result == Err(ParentRemoval)
      && rm.arena.Keys == m.Keys
      && (forall y :: y in m && y != owner ==> rm.arena[y] == m[y])
      && c !in Kids(rm.arena, owner) && rm.arena[c].parent == Some(owner)
      && exists i :: 0 <= i < |Kids(m, owner)| && Kids(m, owner)[i] == c &&
           Kids(rm.arena, owner) == Kids(m, owner)[..i] + Kids(m, owner)[i + 1..]
  {
    var cs := Kids(m, owner);
    var i := FirstIndex(cs, Obj(c));
    assert i.Some? by {
      var j :| 0 <= j < |cs| && cs[j] == c;
      assert Obj(cs[j]) == Obj(c);
    }
    var k := i.value;
    assert cs[k] == c;
    var rest := cs[..k] + cs[k + 1..];
    assert c !in rest by {
      assert NoDup(cs);
      forall j | 0 <= j < |rest| ensures rest[j] != c {
        if j < k { assert rest[j] == cs[j]; } else { assert rest[j] == cs[j + 1]; }
      }
    }
    if owner == c {
      LevelParent(m, c);
    }
  }

  /** A fresh parentless node is nobody's ancestor. */
  lemma {:induction false} FreshNotAncestor(m: Arena, id: NodeId, q: NodeId)
    requires Rooted(m) && id !in m && q in m
    ensures Rooted(m[id := Node(None, None)]) && !Under(m[id := Node(None, None)], q, id)
    decreases Level(m, q)
  {
    AddRootRooted(m, id);
    var m0 := m[id := Node(None, None)];
    if m[q].parent.Some? {
      LevelParent(m, q);
      FreshNotAncestor(m, id, m[q].parent.value);
    }
  }

  /** The parentChanged call made when child.removeFromParent() unlinks a child from its old parent. */
  function DetachHooks(m: Arena, c: NodeId): seq<Hook>
    requires c in m
  {
    if m[c].parent.Some? then [ParentChanged(c, m[c].parent)] else []
  }

  // ---------------------------------------------------------------------------------
  // The node objects
  // ---------------------------------------------------------------------------------

  /** All tree nodes; each method takes its receiver node first. */
  class Forest {
    var nodes: Arena
    /** parentChanged calls, in order. */
    ghost var hooks: seq<Hook>

    ghost predicate Valid()
      reads this
    {
      Rooted(nodes)
    }

    constructor ()
      ensures Valid() && nodes == map[] && hooks == []
    {
      nodes := map[];
      hooks := [];
    }

    /** x.indexOfChild(c). */
    method IndexOfChild(x: NodeId, c: Ref) returns (i: Option<nat>)
      requires x in nodes
      ensures i == FirstIndex(Kids(nodes, x), c)
    {
      var len := if nodes[x].children.Some? then |nodes[x].children.value| else -1;
      var k := 0;
      while k < len
        invariant 0 <= k <= |Kids(nodes, x)| && (len == -1 || len == |Kids(nodes, x)|)
        invariant FirstIndexFrom(Kids(nodes, x), c, k) == FirstIndex(Kids(nodes, x), c)
        decreases len - k
      {
        if Obj(nodes[x].children.value[k]) == c {
          return Some(k);
        }
        k := k + 1;
      }
      return None;
    }

    /** x._recursiveParentCheck(), run by addChild right after it linked c below x (so
        the arena is Attach(before, x, c)): it walks up from x's parent and reports the
        cycle it meets when x is among its own ancestors. */
    method RecursiveParentCheck(x: NodeId, ghost before: Arena, ghost c: NodeId) returns (cycle: bool)
      requires Rooted(before) && x in before && c in before && nodes == Attach(before, x, c)
      ensures cycle <==> Under(before, x, c)
    {
      AttachShape(before, x, c);
      var cur := nodes[x].parent;
      if c != x && before[x].parent.Some? {
        LevelParent(before, x);
      }
      while cur.Some? && cur.value != x
        invariant cur.Some? ==> cur.value in nodes
        invariant c == x ==> cur == Some(x)
        invariant cur.Some? && cur.value != x ==> Under(before, x, cur.value)
        invariant cur.Some? && cur.value != x ==> Level(before, cur.value) < Level(before, x)
        invariant c != x ==> (Under(before, x, c) <==> cur.Some? && (cur.value == x || Under(before, cur.value, c)))
        decreases if cur.Some? && cur.value != x && cur.value in before then Level(before, cur.value) + 1 else 0
      {
        var a := cur.value;
        if a != c && before[a].parent.Some? {
          LevelParent(before, a);
          UnderTrans(before, x, a, before[a].parent.value);
        }
        cur := nodes[a].parent;
      }
      cycle := cur.Some?;
    }

    /** x.addChild(c): c is unlinked from its old parent with removeFromParent() (no
        argument, so the old parent's list keeps its entry), appended to x's list and
        linked to x; the cycle check runs after this mutation. */
    method AddChild(x: NodeId, c: Ref) returns (r: Outcome)
      requires Valid() && x in nodes
      modifies this
      decreases 4
      ensures r != Fail(RecursiveTree) ==> Valid()
      ensures !IsNode(old(nodes), c) ==> r == Fail(TypeError) && nodes == old(nodes) && hooks == old(hooks)
      ensures IsNode(old(nodes), c) && old(nodes)[c.id].parent == Some(x) ==>
        r == Pass && nodes == old(nodes) && hooks == old(hooks)
      ensures IsNode(old(nodes), c) && old(nodes)[c.id].parent != Some(x) ==>
        && nodes == Attach(old(nodes), x, c.id)
        && (r.Fail? <==> Under(old(nodes), x, c.id))
        && (r.Fail? ==> r.error == RecursiveTree)
        && hooks == old(hooks) + DetachHooks(old(nodes), c.id) +
             (if r.Pass? then [ParentChanged(c.id, old(nodes)[c.id].parent)] else [])
    {
      if !IsNode(nodes, c) {
        return Fail(TypeError);
      }
      var child := c.id;
      var oldParent := nodes[child].parent;
      if oldParent == Some(x) {
        return Pass;
      }
      ghost var before := nodes;
      var unlinked := RemoveFromParent(child, Undefined);
      nodes := nodes[x := nodes[x].(children := Some(Kids(nodes, x) + [child]))];
      nodes := nodes[child := nodes[child].(parent := Some(x))];
      assert nodes == Attach(before, x, child);
      var cycle := RecursiveParentCheck(x, before, child);
      if cycle {
        return Fail(RecursiveTree);
      }
      AttachRooted(before, x, child);
      hooks := hooks + [ParentChanged(child, oldParent)];
      r := Pass;
    }

    /** x.removeFromParent(child): asks the parent to remove child (which is meant to be
        x itself but need not be), then unlinks x. */
    method RemoveFromParent(x: NodeId, child: Ref) returns (r: Outcome)
      requires Valid() && x in nodes
      modifies this
      decreases 3
      ensures Valid()
      ensures old(nodes)[x].parent.None? ==> r == Pass && nodes == old(nodes) && hooks == old(hooks)
      ensures old(nodes)[x].parent.Some? ==>
        var p := old(nodes)[x].parent.value;
        p in old(nodes) &&
        var rm := RemoveChildSpec(old(nodes), p, child);
        if rm.result.Err? then
          r == Fail(rm.result.error) && nodes == rm.arena && hooks == old(hooks)
        else
          r == Pass && nodes == rm.arena[x := rm.arena[x].(parent := None)] &&
          hooks == old(hooks) + [ParentChanged(x, Some(p))]
    {
      var oldParent := nodes[x].parent;
      if oldParent.None? {
        return Pass;
      }
      LevelParent(nodes, x);
      var res := RemoveChild(oldParent.value, child);
      if res.Err? {
        return Fail(res.error);
      }
      ClearParentRooted(nodes, x);
      nodes := nodes[x := nodes[x].(parent := None)];
      hooks := hooks + [ParentChanged(x, oldParent)];
      r := Pass;
    }

    /** owner.removeChild(c). */
    method RemoveChild(owner: NodeId, c: Ref) returns (r: Result<Option<NodeId>>)
      requires Valid() && owner in nodes
      modifies this
      decreases 2
      ensures Valid()
      ensures nodes == RemoveChildSpec(old(nodes), owner, c).arena
      ensures r == RemoveChildSpec(old(nodes), owner, c).result
      ensures hooks == old(hooks)
    {
      var i := IndexOfChild(owner, c);
      if i.Some? {
        r := RemoveChildByIndex(owner, i.value);
      } else {
        r := Ok(None);
      }
    }

    /** owner.removeChildByIndex(index). */
    method RemoveChildByIndex(owner: NodeId, index: int) returns (r: Result<Option<NodeId>>)
      requires Valid() && owner in nodes
      modifies this
      decreases 1
      ensures Valid()
      ensures nodes == RemoveAt(old(nodes), owner, index).arena
      ensures r == RemoveAt(old(nodes), owner, index).result
      ensures hooks == old(hooks)
    {
      if nodes[owner].children.None? {
        return Ok(None);
      }
      var cs := nodes[owner].children.value;
      var child: Ref := if 0 <= index < |cs| then Obj(cs[index]) else Undefined;
      ghost var before := nodes;
      nodes := nodes[owner := nodes[owner].(children := Some(SpliceOne(cs, index)))];
      SameParentsRooted(before, nodes);
      if !IsNode(nodes, child) {
        return Err(TypeError);              // undefined (or a non-node entry) has no setParent
      }
      var res := SetParent(child.id, Null);
      if res.Fail? {
        return Err(res.error);
      }
      r := Ok(Some(child.id));
    }

    /** x.setParent(p). */
    method SetParent(x: NodeId, p: Ref) returns (r: Outcome)
      requires Valid() && x in nodes
      modifies this
      decreases if p.Obj? then 5 else 0
      ensures r != Fail(RecursiveTree) ==> Valid()
      ensures !(p == Null || IsNode(old(nodes), p)) ==>
        r == Fail(TypeError) && nodes == old(nodes) && hooks == old(hooks)
      ensures p == Null && old(nodes)[x].parent.Some? ==>
        r == Fail(ParentRemoval) && nodes == old(nodes) && hooks == old(hooks)
      ensures (p == Null || IsNode(old(nodes), p)) && p == RefOf(old(nodes)[x].parent) ==>
        r == Pass && nodes == old(nodes) && hooks == old(hooks)
      ensures IsNode(old(nodes), p) && p != RefOf(old(nodes)[x].parent) ==>
        && nodes == Attach(old(nodes), p.id, x)
        && (r.Fail? <==> Under(old(nodes), p.id, x))
        && (r.Fail? ==> r.error == RecursiveTree)
        && hooks == old(hooks) + DetachHooks(old(nodes), x) +
             (if r.Pass? then [ParentChanged(x, old(nodes)[x].parent), ParentChanged(x, old(nodes)[x].parent)] else [])
    {
      if !(p == Null || IsNode(nodes, p)) {
        return Fail(TypeError);
      }
      var oldParent := nodes[x].parent;
      if oldParent.Some? && p == Null {
        return Fail(ParentRemoval);
      }
      if p == RefOf(oldParent) {
        return Pass;
      }
      r := AddChild(p.id, Obj(x));
      if r.Fail? {
        return;
      }
      // addChild has already set x's parent to p
      hooks := hooks + [ParentChanged(x, oldParent)];
    }

    /** new TreeNode(parent), allocated as the fresh id; when the constructor raises, the
        half-built object is unreachable and the arena is as before. */
    method NewNode(id: NodeId, parent: Ref) returns (r: Outcome)
      requires Valid() && id !in nodes
      modifies this
      ensures Valid()
      ensures !(parent == Null || IsNode(old(nodes), parent)) ==>
        r == Fail(TypeError) && nodes == old(nodes) && hooks == old(hooks)
      ensures parent == Null ==>
        r == Pass && nodes == old(nodes)[id := Node(None, None)] && hooks == old(hooks)
      ensures IsNode(old(nodes), parent) ==>
        && r == Pass
        && nodes == Attach(old(nodes)[id := Node(None, None)], parent.id, id)
        && hooks == old(hooks) + [ParentChanged(id, None), ParentChanged(id, None)]
      ensures r.Pass? && Consistent(old(nodes)) ==> Consistent(nodes)
    {
      ghost var before := nodes;
      ghost var h0 := hooks;
      if !(parent == Null || IsNode(nodes, parent)) {
        return Fail(TypeError);
      }
      AddRootRooted(nodes, id);
      nodes := nodes[id := Node(None, None)];
      if parent.Obj? {
        FreshNotAncestor(before, id, parent.id);
      }
      r := SetParent(id, parent);
      if Consistent(before) {
        AddRootConsistent(before, id);
        if parent.Obj? {
          AttachRootKeepsConsistent(before[id := Node(None, None)], parent.id, id);
        }
      }
    }

    /** x.traverseDescendants(cbs). */
    method TraverseDescendants(x: NodeId, cbs: Callbacks) returns (calls: seq<Visit>, ret: Returned)
      requires Descending(nodes) && x in nodes
      ensures calls == Descend(nodes, cbs, x)
      ensures ret == Void <==> forall k :: 0 <= k < |Kids(nodes, x)| ==> NoStops(cbs, Kids(nodes, x)[k])
      decreases |nodes| - Level(nodes, x), 1
    {
      var len := if nodes[x].children.Some? then |nodes[x].children.value| else -1;
      var i := 0;
      calls := [];
      while i < len
        invariant 0 <= i <= |Kids(nodes, x)| && (len == -1 || len == |Kids(nodes, x)|)
        invariant calls + DescendFrom(nodes, cbs, x, i) == Descend(nodes, cbs, x)
        invariant forall k :: 0 <= k < i ==> NoStops(cbs, Kids(nodes, x)[k])
        decreases len - i
      {
        var step, stopped := VisitChild(x, i, cbs);
        if stopped {
          LoopStops(nodes, cbs, x, i, calls, step);
          return calls + step, False;
        }
        LoopGoesOn(nodes, cbs, x, i, calls, step);
        calls := calls + step;
        i := i + 1;
      }
      ret := Void;
    }

    /** One round of the loop of x.traverseDescendants(cbs), on the child at index i:
        its calls, and whether a callback returned false (which ends the loop). */
    method VisitChild(x: NodeId, i: nat, cbs: Callbacks) returns (step: seq<Visit>, stopped: bool)
      requires Descending(nodes) && x in nodes && i < |Kids(nodes, x)|
      ensures stopped <==> !NoStops(cbs, Kids(nodes, x)[i])
      ensures stopped ==> step == DescendFrom(nodes, cbs, x, i)
      ensures !stopped ==> step + DescendFrom(nodes, cbs, x, i + 1) == DescendFrom(nodes, cbs, x, i)
      decreases |nodes| - Level(nodes, x), 0
    {
      var child := nodes[x].children.value[i];
      assert child == Kids(nodes, x)[i];
      StepChild(nodes, x, i);
      var pre := if cbs.before.Some? then [Before(child)] else [];
      if cbs.before.Some? && cbs.before.value(child) {
        StepBeforeStops(nodes, cbs, x, i);
        return pre, true;
      }
      // the nested call answers false or undefined, never a truthy value, so its
      // result never ends the loop
      var sub, nested := TraverseDescendants(child, cbs);
      var post := if cbs.after.Some? then [After(child)] else [];
      step := pre + sub + post;
      if cbs.after.Some? && cbs.after.value(child) {
        StepAfterStops(nodes, cbs, x, i);
        return step, true;
      }
      StepOn(nodes, cbs, x, i);
      stopped := false;
    }
  }
}
