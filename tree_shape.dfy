/**
 * The shape of a Tyro ownership tree, as a value: an arena mapping every node object
 * to its parent link and its (lazily created) list of children.  Read-only walks over
 * that shape (getHead, traverseUpwards, the post-order walks the teardown cascade and
 * the reconciler use) are functions here; the operations that change the shape are the
 * methods of TreeNode.Forest.
 */
module TreeShape {
  import opened Common

  /** parent is null for a head node; children stays null until the first addChild. */
  datatype Node = Node(parent: Option<NodeId>, children: Option<seq<NodeId>>)

  type Arena = map<NodeId, Node>

  /** The children list, with a never-created list read as empty. */
  function Kids(m: Arena, x: NodeId): seq<NodeId>
    requires x in m
  {
    m[x].children.GetOr([])
  }

  // ---------------------------------------------------------------------------------
  // Depth: how many parent hops lead from x to a parentless node
  // ---------------------------------------------------------------------------------

  /** The number of parent hops from x to a parentless node, when that walk stays in
      the arena and needs at most fuel hops. */
  function Depth(m: Arena, x: NodeId, fuel: nat): Option<nat>
    decreases fuel
  {
    if x !in m then None
    else match m[x].parent
      case None => Some(0)
      case Some(p) =>
        if fuel == 0 then None
        else match Depth(m, p, fuel - 1)
          case None => None
          case Some(d) => Some(d + 1)
  }

  lemma {:induction false} DepthAtMostFuel(m: Arena, x: NodeId, f: nat)
    requires Depth(m, x, f).Some?
    ensures Depth(m, x, f).value <= f
    decreases f
  {
    match m[x].parent
    case None =>
    case Some(p) => DepthAtMostFuel(m, p, f - 1);
  }

  /** A depth needs exactly that much fuel: any fuel at least as large gives the same answer. */
  lemma {:induction false} DepthFuel(m: Arena, x: NodeId, f: nat, f': nat)
    requires Depth(m, x, f).Some? && f' >= Depth(m, x, f).value
    ensures Depth(m, x, f') == Depth(m, x, f)
    decreases f
  {
    match m[x].parent
    case None =>
    case Some(p) => DepthFuel(m, p, f - 1, f' - 1);
  }

  /** The nodes met on the walk from x to its head are distinct members of the arena. */
  lemma {:induction false} ChainSet(m: Arena, x: NodeId, f: nat) returns (s: set<NodeId>)
    requires Depth(m, x, f).Some?
    ensures s <= m.Keys && |s| == Depth(m, x, f).value + 1
    ensures forall y :: y in s ==> Depth(m, y, f).Some? && Depth(m, y, f).value <= Depth(m, x, f).value
    decreases f
  {
    match m[x].parent
    case None =>
      s := {x};
    case Some(p) =>
      var t := ChainSet(m, p, f - 1);
      var d := Depth(m, x, f).value;
      forall y | y in t
        ensures Depth(m, y, f).Some? && Depth(m, y, f).value <= d - 1
      {
        DepthAtMostFuel(m, y, f - 1);
        DepthFuel(m, y, f - 1, f);
      }
      assert x !in t;
      s := {x} + t;
  }

  lemma SubsetCard<T>(a: set<T>, b: set<T>)
    requires a <= b
    ensures |a| <= |b|
  {
    if a != {} {
      var e :| e in a;
      SubsetCard(a - {e}, b - {e});
    }
  }

  /** Pigeonhole: a walk that reaches a head is shorter than the arena. */
  lemma DepthBelowSize(m: Arena, x: NodeId, f: nat)
    requires Depth(m, x, f).Some?
    ensures Depth(m, x, f).value < |m|
  {
    var s := ChainSet(m, x, f);
    SubsetCard(s, m.Keys);
  }

  /** Every node reaches a parentless node by parent links: no cycle, no dangling parent. */
  ghost predicate Rooted(m: Arena) {
    forall x {:trigger Depth(m, x, |m|)} :: x in m ==> Depth(m, x, |m|).Some?
  }

  /** Any finite walk to a head shows the node is rooted within the arena's size. */
  lemma DepthRooted(m: Arena, x: NodeId, f: nat)
    requires Depth(m, x, f).Some?
    ensures Depth(m, x, |m|) == Depth(m, x, f)
  {
    DepthBelowSize(m, x, f);
    DepthFuel(m, x, f, |m|);
  }

  /** The number of ancestors of x. */
  function Level(m: Arena, x: NodeId): (d: nat)
    requires Rooted(m) && x in m
    ensures d < |m|
  {
    DepthBelowSize(m, x, |m|);
    Depth(m, x, |m|).value
  }

  lemma LevelParent(m: Arena, x: NodeId)
    requires Rooted(m) && x in m && m[x].parent.Some?
    ensures m[x].parent.value in m && Level(m, m[x].parent.value) + 1 == Level(m, x)
  {
    var p := m[x].parent.value;
    assert Depth(m, x, |m|).Some?;
    DepthAtMostFuel(m, p, |m| - 1);
    DepthFuel(m, p, |m| - 1, |m|);
  }

  lemma LevelRoot(m: Arena, x: NodeId)
    requires Rooted(m) && x in m
    ensures Level(m, x) == 0 <==> m[x].parent.None?
  {
    if m[x].parent.Some? { LevelParent(m, x); }
  }

  // ---------------------------------------------------------------------------------
  // Ancestry
  // ---------------------------------------------------------------------------------

  /** a is y or one of y's ancestors. */
  predicate Under(m: Arena, y: NodeId, a: NodeId)
    requires Rooted(m) && y in m
    decreases Level(m, y)
  {
    y == a || (m[y].parent.Some? && (LevelParent(m, y); Under(m, m[y].parent.value, a)))
  }

  lemma {:induction false} UnderLevel(m: Arena, y: NodeId, a: NodeId)
    requires Rooted(m) && y in m && Under(m, y, a)
    ensures a in m && Level(m, a) <= Level(m, y)
    ensures a != y ==> Level(m, a) < Level(m, y)
    decreases Level(m, y)
  {
    if y != a {
      LevelParent(m, y);
      UnderLevel(m, m[y].parent.value, a);
    }
  }

  lemma {:induction false} UnderTrans(m: Arena, y: NodeId, a: NodeId, b: NodeId)
    requires Rooted(m) && y in m && a in m && Under(m, y, a) && Under(m, a, b)
    ensures Under(m, y, b)
    decreases Level(m, y)
  {
    UnderLevel(m, y, a);
    if y != a {
      LevelParent(m, y);
      UnderTrans(m, m[y].parent.value, a, b);
    }
  }

  /** Two ancestors-or-self of y on the same level are the same node. */
  lemma {:induction false} UnderSameLevel(m: Arena, y: NodeId, a: NodeId, b: NodeId)
    requires Rooted(m) && y in m && Under(m, y, a) && Under(m, y, b)
    requires a in m && b in m && Level(m, a) == Level(m, b)
    ensures a == b
    decreases Level(m, y)
  {
    UnderLevel(m, y, a);
    UnderLevel(m, y, b);
    if y != a && y != b {
      LevelParent(m, y);
      UnderSameLevel(m, m[y].parent.value, a, b);
    }
  }

  /** getHead: the head of x's tree. */
  function GetHead(m: Arena, x: NodeId): (h: NodeId)
    requires Rooted(m) && x in m
    ensures h in m && m[h].parent.None? && Under(m, x, h)
    ensures m[x].parent.None? ==> h == x
    decreases Level(m, x)
  {
    match m[x].parent
    case None => x
    case Some(p) => LevelParent(m, x); GetHead(m, p)
  }

  /** x has exactly one head: every parentless node above x is GetHead(x). */
  lemma {:induction false} HeadUnique(m: Arena, x: NodeId, h: NodeId)
    requires Rooted(m) && x in m && Under(m, x, h) && h in m && m[h].parent.None?
    ensures h == GetHead(m, x)
  {
    var g := GetHead(m, x);
    LevelRoot(m, h);
    LevelRoot(m, g);
    UnderSameLevel(m, x, h, g);
  }

  /** Nodes in one tree share the head. */
  lemma SameTreeSameHead(m: Arena, y: NodeId, a: NodeId)
    requires Rooted(m) && y in m && Under(m, y, a)
    ensures a in m && GetHead(m, y) == GetHead(m, a)
  {
    UnderLevel(m, y, a);
    var h := GetHead(m, a);
    UnderLevel(m, y, a);
    UnderTrans(m, y, a, h);
    HeadUnique(m, y, h);
  }

  /** x followed by its ancestors, ending at the head. */
  function Chain(m: Arena, x: NodeId): (c: seq<NodeId>)
    requires Rooted(m) && x in m
    decreases Level(m, x)
  {
    match m[x].parent
    case None => [x]
    case Some(p) => LevelParent(m, x); [x] + Chain(m, p)
  }

  lemma {:induction false} ChainShape(m: Arena, x: NodeId)
    requires Rooted(m) && x in m
    ensures |Chain(m, x)| == Level(m, x) + 1 && Chain(m, x)[0] == x
    ensures Chain(m, x)[|Chain(m, x)| - 1] == GetHead(m, x)
    ensures forall i :: 0 <= i < |Chain(m, x)| ==> Chain(m, x)[i] in m && Under(m, x, Chain(m, x)[i])
    ensures forall i :: 0 <= i < |Chain(m, x)| - 1 ==> m[Chain(m, x)[i]].parent == Some(Chain(m, x)[i + 1])
    decreases Level(m, x)
  {
    match m[x].parent
    case None =>
      LevelRoot(m, x);
    case Some(p) =>
      LevelParent(m, x);
      ChainShape(m, p);
  }

  /**
   * traverseUpwards(callback): the nodes handed to the callback, in call order.
   * stops(n) holds when the callback returns exactly false for n.  Without a callback
   * the walk still climbs to the head but calls nothing.
   */
  function TraverseUpwards(m: Arena, x: NodeId, callback: Option<NodeId -> bool>): (calls: seq<NodeId>)
    requires Rooted(m) && x in m
    decreases Level(m, x)
  {
    match callback
    case None => []
    case Some(stops) =>
      if stops(x) then [x]
      else match m[x].parent
        case None => [x]
        case Some(p) => LevelParent(m, x); [x] + TraverseUpwards(m, p, callback)
  }

  /** The callback sees x and then its ancestors, up to and including the first call that
      returns false, or up to the head when none does. */
  lemma {:induction false} TraverseUpwardsStopsAtFirstFalse(m: Arena, x: NodeId, stops: NodeId -> bool)
    requires Rooted(m) && x in m
    ensures var calls := TraverseUpwards(m, x, Some(stops));
      && 1 <= |calls| <= |Chain(m, x)|
      && calls == Chain(m, x)[..|calls|]
      && (forall i :: 0 <= i < |calls| - 1 ==> !stops(calls[i]))
      && (|calls| < |Chain(m, x)| ==> stops(calls[|calls| - 1]))
    decreases Level(m, x)
  {
    match m[x].parent
    case None =>
    case Some(p) =>
      LevelParent(m, x);
      if !stops(x) {
        TraverseUpwardsStopsAtFirstFalse(m, p, stops);
      }
  }

  // ---------------------------------------------------------------------------------
  // Downward walks
  // ---------------------------------------------------------------------------------

  /** Every entry of s is a node of m. */
  predicate AllIn(s: seq<NodeId>, m: Arena) {
    forall v :: v in s ==> v in m
  }

  predicate NoDup<T(==)>(s: seq<T>) {
    forall i, j :: 0 <= i < j < |s| ==> s[i] != s[j]
  }

  /** Every child entry names a node deeper than its owner: what makes a walk down the
      children lists terminate.  (A stale entry left by reparenting can break it.) */
  ghost predicate Descending(m: Arena) {
    Rooted(m) && forall x, c :: x in m && c in Kids(m, x) ==> c in m && Level(m, x) < Level(m, c)
  }

  /** The i-th child entry of x names a node deeper than x. */
  lemma StepChild(m: Arena, x: NodeId, i: nat)
    requires Descending(m) && x in m && i < |Kids(m, x)|
    ensures Kids(m, x)[i] in m && Level(m, x) < Level(m, Kids(m, x)[i])
  {
    assert Kids(m, x)[i] in Kids(m, x);
  }

  /** Parent links and children lists agree both ways and no list repeats a node. */
  ghost predicate LinksAgree(m: Arena) {
    Rooted(m) && ChildrenPointBack(m) && ParentsListChild(m) && ListsNoDup(m)
  }

  /** Every child entry names a node whose parent is the owner of the list. */
  ghost predicate ChildrenPointBack(m: Arena) {
    forall x, c :: x in m && c in Kids(m, x) ==> c in m && m[c].parent == Some(x)
  }

  /** Every node with a parent appears in that parent's list. */
  ghost predicate ParentsListChild(m: Arena) {
    forall c :: c in m && m[c].parent.Some? ==> m[c].parent.value in m && c in Kids(m, m[c].parent.value)
  }

  ghost predicate ListsNoDup(m: Arena) {
    forall x :: x in m ==> NoDup(Kids(m, x))
  }

  ghost predicate Consistent(m: Arena) {
    LinksAgree(m) && Descending(m)
  }

  /** Agreeing links already place every child one level below its owner. */
  lemma AgreeingLinksDescend(m: Arena)
    requires LinksAgree(m)
    ensures Consistent(m)
  {
    forall x, c | x in m && c in Kids(m, x)
      ensures c in m && Level(m, x) < Level(m, c)
    {
      LevelParent(m, c);
    }
  }

  /**
   * The descendants of x reached through children admitted by keep, as the walks of the
   * source collect them: the children are taken from the last to the first (or, for a
   * loop that prepends, from the first to the last), and each child comes right after
   * its own result.
   */
  function Below(m: Arena, keep: NodeId -> bool, x: NodeId): seq<NodeId>
    requires Descending(m) && x in m
    decreases |m| - Level(m, x), 1, 0
  {
    BelowList(m, keep, x, |Kids(m, x)|)
  }

  /** Below, restricted to the first n children of x. */
  function BelowList(m: Arena, keep: NodeId -> bool, x: NodeId, n: nat): seq<NodeId>
    requires Descending(m) && x in m && n <= |Kids(m, x)|
    decreases |m| - Level(m, x), 0, n
  {
    if n == 0 then []
    else
      var c := Kids(m, x)[n - 1];
      (if keep(c) then Below(m, keep, c) + [c] else []) + BelowList(m, keep, x, n - 1)
  }

  /** Each entry of BelowList comes from the block of one admitted child. */
  lemma {:induction false} BelowListBlock(m: Arena, keep: NodeId -> bool, x: NodeId, n: nat, y: NodeId) returns (k: nat)
    requires Descending(m) && x in m && n <= |Kids(m, x)| && y in BelowList(m, keep, x, n)
    ensures k < n && keep(Kids(m, x)[k]) && Kids(m, x)[k] in m
    ensures y == Kids(m, x)[k] || y in Below(m, keep, Kids(m, x)[k])
    decreases n
  {
    var c := Kids(m, x)[n - 1];
    if keep(c) && y in Below(m, keep, c) + [c] {
      k := n - 1;
    } else {
      k := BelowListBlock(m, keep, x, n - 1, y);
    }
  }

  /** ... and every member of an admitted child's block is in BelowList. */
  lemma {:induction false} BelowListHas(m: Arena, keep: NodeId -> bool, x: NodeId, n: nat, k: nat, y: NodeId)
    requires Descending(m) && x in m && n <= |Kids(m, x)| && k < n
    requires keep(Kids(m, x)[k]) && Kids(m, x)[k] in m
    requires y == Kids(m, x)[k] || y in Below(m, keep, Kids(m, x)[k])
    ensures y in BelowList(m, keep, x, n)
    decreases n
  {
    if k < n - 1 {
      BelowListHas(m, keep, x, n - 1, k, y);
    }
  }

  /** Everything Below x is deeper than x. */
  lemma {:induction false} BelowDeeper(m: Arena, keep: NodeId -> bool, x: NodeId, y: NodeId)
    requires Descending(m) && x in m && y in Below(m, keep, x)
    ensures y in m && Level(m, x) < Level(m, y)
    decreases |m| - Level(m, x)
  {
    var k := BelowListBlock(m, keep, x, |Kids(m, x)|, y);
    var c := Kids(m, x)[k];
    if y != c {
      BelowDeeper(m, keep, c, y);
    }
  }

  /** Everything Below x has x as a strict ancestor. */
  lemma {:induction false} BelowUnder(m: Arena, keep: NodeId -> bool, x: NodeId, y: NodeId)
    requires Consistent(m) && x in m && y in Below(m, keep, x)
    ensures y in m && y != x && Under(m, y, x)
    decreases |m| - Level(m, x)
  {
    var k := BelowListBlock(m, keep, x, |Kids(m, x)|, y);
    var c := Kids(m, x)[k];
    assert c in Kids(m, x);
    assert Under(m, c, x);
    if y != c {
      BelowUnder(m, keep, c, y);
      UnderTrans(m, y, c, x);
    }
    BelowDeeper(m, keep, x, y);
  }

  /** One more child of x: its block goes in front. */
  lemma BelowListStep(m: Arena, keep: NodeId -> bool, x: NodeId, n: nat)
    requires Descending(m) && x in m && n < |Kids(m, x)|
    ensures Kids(m, x)[n] in m && Level(m, x) < Level(m, Kids(m, x)[n])
    ensures BelowList(m, keep, x, n + 1) ==
      (if keep(Kids(m, x)[n]) then Below(m, keep, Kids(m, x)[n]) + [Kids(m, x)[n]] else []) + BelowList(m, keep, x, n)
  {
    StepChild(m, x, n);
  }

  /** Below x holds exactly the admitted children of x and the admitted children of nodes
      already Below x: the walk descends only through admitted nodes, and through all of them. */
  lemma {:induction false} BelowMembership(m: Arena, keep: NodeId -> bool, x: NodeId, y: NodeId)
    requires Consistent(m) && x in m
    ensures y in Below(m, keep, x) <==>
        y in m && keep(y) && m[y].parent.Some? &&
        (m[y].parent.value == x || m[y].parent.value in Below(m, keep, x))
    decreases |m| - Level(m, x)
  {
    var n := |Kids(m, x)|;
    if y in Below(m, keep, x) {
      var k := BelowListBlock(m, keep, x, n, y);
      var c := Kids(m, x)[k];
      assert c in Kids(m, x);
      if y != c {
        BelowMembership(m, keep, c, y);
        var p := m[y].parent.value;
        if p != c {
          BelowListHas(m, keep, x, n, k, p);
        } else {
          BelowListHas(m, keep, x, n, k, c);
        }
      }
    }
    if y in m && keep(y) && m[y].parent.Some? {
      var p := m[y].parent.value;
      if p == x {
        var k :| 0 <= k < n && Kids(m, x)[k] == y;
        BelowListHas(m, keep, x, n, k, y);
      } else if p in Below(m, keep, x) {
        var k := BelowListBlock(m, keep, x, n, p);
        var c := Kids(m, x)[k];
        assert c in Kids(m, x);
        if p == c {
          var i :| 0 <= i < |Kids(m, c)| && Kids(m, c)[i] == y;
          BelowListHas(m, keep, c, |Kids(m, c)|, i, y);
        } else {
          BelowMembership(m, keep, c, y);
        }
        BelowListHas(m, keep, x, n, k, y);
      }
    }
  }

  /** The walk admits nothing exactly when x has no admitted child. */
  lemma {:induction false} BelowEmpty(m: Arena, keep: NodeId -> bool, x: NodeId)
    requires Descending(m) && x in m
    ensures Below(m, keep, x) == [] <==> forall c :: c in Kids(m, x) ==> !keep(c)
  {
    var n := |Kids(m, x)|;
    if Below(m, keep, x) != [] {
      var k := BelowListBlock(m, keep, x, n, Below(m, keep, x)[0]);
      assert Kids(m, x)[k] in Kids(m, x);
    }
    if c :| c in Kids(m, x) && keep(c) {
      var k :| 0 <= k < n && Kids(m, x)[k] == c;
      BelowListHas(m, keep, x, n, k, c);
    }
  }

  /** Every node of r comes before its parent, wherever both occur. */
  ghost predicate ChildBeforeParent(m: Arena, r: seq<NodeId>) {
    forall i, j :: 0 <= i < |r| && 0 <= j < |r| && r[i] in m && m[r[i]].parent == Some(r[j]) ==> i < j
  }

  lemma ConcatOrder(m: Arena, b: seq<NodeId>, t: seq<NodeId>)
    requires ChildBeforeParent(m, b) && ChildBeforeParent(m, t)
    requires forall y, z :: y in t && z in b && y in m ==> m[y].parent != Some(z)
    ensures ChildBeforeParent(m, b + t)
  {
    var r := b + t;
    forall i, j | 0 <= i < |r| && 0 <= j < |r| && r[i] in m && m[r[i]].parent == Some(r[j])
      ensures i < j
    {
      if i >= |b| && j >= |b| {
        assert r[i] == t[i - |b|] && r[j] == t[j - |b|];
      } else if i < |b| && j < |b| {
        assert r[i] == b[i] && r[j] == b[j];
      }
    }
  }

  /** A child's block: its walk result followed by the child itself. */
  lemma BlockOrder(m: Arena, keep: NodeId -> bool, x: NodeId, c: NodeId)
    requires Consistent(m) && x in m && c in Kids(m, x)
    ensures ChildBeforeParent(m, Below(m, keep, c) + [c])
    decreases |m| - Level(m, c), 2
  {
    BelowOrder(m, keep, c);
    forall z | z in Below(m, keep, c)
      ensures m[c].parent != Some(z)
    {
      BelowDeeper(m, keep, c, z);
      LevelParent(m, c);
    }
    ConcatOrder(m, Below(m, keep, c), [c]);
  }

  /** No node from an earlier child's block has its parent in a later child's block. */
  lemma CrossBlock(m: Arena, keep: NodeId -> bool, x: NodeId, n: nat, y: NodeId, z: NodeId)
    requires Consistent(m) && x in m && 0 < n <= |Kids(m, x)|
    requires y in BelowList(m, keep, x, n - 1) && y in m
    requires z == Kids(m, x)[n - 1] || z in Below(m, keep, Kids(m, x)[n - 1])
    ensures m[y].parent != Some(z)
  {
    var c := Kids(m, x)[n - 1];
    assert c in Kids(m, x);
    var k := BelowListBlock(m, keep, x, n - 1, y);
    var d := Kids(m, x)[k];
    assert d in Kids(m, x);
    if m[y].parent == Some(z) {
      assert Under(m, y, d) by {
        if y != d { BelowUnder(m, keep, d, y); }
      }
      assert Under(m, z, c) by {
        if z != c { BelowUnder(m, keep, c, z); }
      }
      assert Under(m, y, z);
      UnderTrans(m, y, z, c);
      LevelParent(m, c);
      LevelParent(m, d);
      UnderSameLevel(m, y, c, d);
      assert false;
    }
  }

  /** In the walk's result every node comes before its parent (hence before all its ancestors). */
  lemma {:induction false} BelowOrder(m: Arena, keep: NodeId -> bool, x: NodeId)
    requires Consistent(m) && x in m
    ensures ChildBeforeParent(m, Below(m, keep, x))
    decreases |m| - Level(m, x), 1
  {
    BelowListOrder(m, keep, x, |Kids(m, x)|);
  }

  lemma {:induction false} BelowListOrder(m: Arena, keep: NodeId -> bool, x: NodeId, n: nat)
    requires Consistent(m) && x in m && n <= |Kids(m, x)|
    ensures ChildBeforeParent(m, BelowList(m, keep, x, n))
    decreases |m| - Level(m, x), 0, n, 1
  {
    if n > 0 {
      var c := Kids(m, x)[n - 1];
      assert c in Kids(m, x);
      BelowListOrder(m, keep, x, n - 1);
      var t := BelowList(m, keep, x, n - 1);
      if keep(c) {
        PrependBlockOrder(m, keep, x, n);
      }
    }
  }

  /** The block of the n-th child may be put in front of the blocks of the earlier children. */
  lemma PrependBlockOrder(m: Arena, keep: NodeId -> bool, x: NodeId, n: nat)
    requires Consistent(m) && x in m && 0 < n <= |Kids(m, x)| && keep(Kids(m, x)[n - 1])
    requires ChildBeforeParent(m, BelowList(m, keep, x, n - 1))
    ensures ChildBeforeParent(m, BelowList(m, keep, x, n))
    decreases |m| - Level(m, x), 0, n, 0
  {
    var c := Kids(m, x)[n - 1];
    assert c in Kids(m, x);
    var t := BelowList(m, keep, x, n - 1);
    var b := Below(m, keep, c) + [c];
    BlockOrder(m, keep, x, c);
    forall y, z | y in t && z in b && y in m
      ensures m[y].parent != Some(z)
    {
      CrossBlock(m, keep, x, n, y, z);
    }
    ConcatOrder(m, b, t);
  }
}
