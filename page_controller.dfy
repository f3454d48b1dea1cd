/**
 * Tyro.PageController: a registry of items by id and the reconciler that, given the id
 * of an item to show, tears down what conflicts with it and renders the inactive
 * chain above it.  The queries are pure functions of a snapshot of the items; render
 * is proved against RenderSpec, which composes the steps in the order the source
 * issues them.
 */
module Pages {
  import opened Common
  import opened TreeShape
  import opened Items

  // ---------------------------------------------------------------------------------
  // Utils.matches and Utils.filter
  // ---------------------------------------------------------------------------------

  /** One property of a query object: item.parent, item.active, item.getViewContainer(). */
  datatype Prop = ParentIs(p: Option<NodeId>) | ActiveIs(b: bool) | ContainerIs(c: string)

  /** The second argument of matches/filter: a function, or an object of properties. */
  datatype Query = Test(f: NodeId -> bool) | Props(ps: seq<Prop>)

  /** The item fields a query reads. */
  datatype Fields = Fields(tree: Arena, active: map<NodeId, bool>, container: map<NodeId, string>)

  /** itemprop === query[prop], for one property (a missing field reads as undefined). */
  predicate Holds(f: Fields, x: NodeId, p: Prop) {
    match p
    case ParentIs(q) => x in f.tree && f.tree[x].parent == q
    case ActiveIs(b) => x in f.active && f.active[x] == b
    case ContainerIs(c) => x in f.container && f.container[x] == c
  }

  /** Utils.matches(item, query). */
  predicate Satisfies(f: Fields, x: NodeId, q: Query) {
    match q
    case Test(g) => g(x)
    case Props(ps) => forall k :: 0 <= k < |ps| ==> Holds(f, x, ps[k])
  }

  /** Utils.filter(collection, query), told from the last element. */
  function Keep(f: Fields, s: seq<NodeId>, q: Query): seq<NodeId> {
    if s == [] then []
    else Keep(f, s[..|s| - 1], q) + (if Satisfies(f, s[|s| - 1], q) then [s[|s| - 1]] else [])
  }

  /** r is s with some elements left out, the others in their order. */
  predicate Subseq<T(==)>(r: seq<T>, s: seq<T>)
    decreases |s|
  {
    if r == [] then true
    else if s == [] then false
    else (r[|r| - 1] == s[|s| - 1] && Subseq(r[..|r| - 1], s[..|s| - 1])) || Subseq(r, s[..|s| - 1])
  }

  /** filter keeps exactly the matching elements, in collection order. */
  lemma {:induction false} KeepMeaning(f: Fields, s: seq<NodeId>, q: Query)
    ensures forall y :: y in Keep(f, s, q) <==> y in s && Satisfies(f, y, q)
    ensures Subseq(Keep(f, s, q), s)
    decreases |s|
  {
    if s != [] {
      var init := s[..|s| - 1];
      KeepMeaning(f, init, q);
      assert s == init + [s[|s| - 1]];
      var r := Keep(f, s, q);
      if Satisfies(f, s[|s| - 1], q) {
        assert r[..|r| - 1] == Keep(f, init, q);
      } else {
        assert r == Keep(f, init, q);
        SubseqOfInit(r, s);
      }
    }
  }

  lemma SubseqOfInit<T>(r: seq<T>, s: seq<T>)
    requires s != [] && Subseq(r, s[..|s| - 1])
    ensures Subseq(r, s)
  {
  }

  /** A subsequence of a list without repeats has none. */
  lemma {:induction false} SubseqNoDup<T>(r: seq<T>, s: seq<T>)
    requires Subseq(r, s) && NoDup(s)
    ensures NoDup(r) && forall y :: y in r ==> y in s
    decreases |s|
  {
    if r != [] {
      var init := s[..|s| - 1];
      assert NoDup(init) by {
        forall i, j | 0 <= i < j < |init| ensures init[i] != init[j] {
          assert init[i] == s[i] && init[j] == s[j];
        }
      }
      if r[|r| - 1] == s[|s| - 1] && Subseq(r[..|r| - 1], init) {
        SubseqNoDup(r[..|r| - 1], init);
        var rr := r[..|r| - 1];
        forall i, j | 0 <= i < j < |r| ensures r[i] != r[j] {
          if j == |r| - 1 {
            assert r[i] == rr[i] && rr[i] in init;
            var k :| 0 <= k < |init| && init[k] == r[i];
            assert s[k] == r[i] && s[|s| - 1] == r[j];
          } else {
            assert r[i] == rr[i] && r[j] == rr[j];
          }
        }
        forall y | y in r ensures y in s {
          if y == r[|r| - 1] {
            assert s[|s| - 1] == y;
          } else {
            var k :| 0 <= k < |r| && r[k] == y;
            assert y == rr[k] && y in init;
            var j :| 0 <= j < |init| && init[j] == y;
            assert s[j] == y;
          }
        }
      } else {
        SubseqNoDup(r, init);
      }
    }
  }

  // ---------------------------------------------------------------------------------
  // The queries of the page controller
  // ---------------------------------------------------------------------------------

  /** The registry's items in for-in order: the order in which their ids were first added. */
  function Values(items: map<string, NodeId>, keys: seq<string>): seq<NodeId> {
    if keys == [] then []
    else Values(items, keys[..|keys| - 1]) + (if keys[|keys| - 1] in items then [items[keys[|keys| - 1]]] else [])
  }

  const TopLevel := Props([ParentIs(None), ActiveIs(true)])

  function WithContainer(c: string): Query {
    Props([ActiveIs(true), ContainerIs(c)])
  }

  /** The filter of getActiveItemsUnrelatedTo: any item but the given head. */
  function NotHead(h: NodeId): Query {
    Test((i: NodeId) => i != h)
  }

  /** returnVal after the loop of getActiveItemsUnrelatedTo over u: for each view in
      order, its active descendants and then itself are put in front. */
  function RevBlocks(m: Arena, a: map<NodeId, bool>, u: seq<NodeId>): seq<NodeId>
    requires Descending(m) && AllIn(u, m)
  {
    if u == [] then []
    else
      var v := u[|u| - 1];
      Below(m, IsOn(a), v) + [v] + RevBlocks(m, a, u[..|u| - 1])
  }

  /** The top-level active items whose tree is not x's. */
  function UnrelatedTops(f: Fields, listing: seq<NodeId>, x: NodeId): seq<NodeId>
    requires Rooted(f.tree) && x in f.tree
  {
    Keep(f, Keep(f, listing, TopLevel), NotHead(GetHead(f.tree, x)))
  }

  /** getActiveItemsUnrelatedTo(x) over the registry listing. */
  function Unrelated(f: Fields, listing: seq<NodeId>, x: NodeId): seq<NodeId>
    requires Descending(f.tree) && x in f.tree && AllIn(listing, f.tree)
  {
    var u := UnrelatedTops(f, listing, x);
    KeepMeaning(f, listing, TopLevel);
    KeepMeaning(f, Keep(f, listing, TopLevel), NotHead(GetHead(f.tree, x)));
    RevBlocks(f.tree, f.active, u)
  }

  /** A node of RevBlocks lies in the block of one view of u. */
  lemma {:induction false} RevBlocksMembership(m: Arena, a: map<NodeId, bool>, u: seq<NodeId>, y: NodeId)
    requires Descending(m) && AllIn(u, m)
    ensures y in RevBlocks(m, a, u) <==> exists v :: v in u && (y == v || y in Below(m, IsOn(a), v))
    decreases |u|
  {
    if u != [] {
      var v := u[|u| - 1];
      var init := u[..|u| - 1];
      assert u == init + [v];
      RevBlocksMembership(m, a, init, y);
      if y in RevBlocks(m, a, u) {
        if y in Below(m, IsOn(a), v) + [v] {
          assert v in u && (y == v || y in Below(m, IsOn(a), v));
        } else {
          assert y in RevBlocks(m, a, init);
          var w :| w in init && (y == w || y in Below(m, IsOn(a), w));
          assert w in u;
        }
      }
      if exists w :: w in u && (y == w || y in Below(m, IsOn(a), w)) {
        var w :| w in u && (y == w || y in Below(m, IsOn(a), w));
        if w != v {
          assert w in init;
        }
      }
    }
  }

  /** The top-level items of the result are exactly the active, parentless, registered
      items of other trees. */
  lemma UnrelatedTopsMeaning(f: Fields, listing: seq<NodeId>, x: NodeId, v: NodeId)
    requires Rooted(f.tree) && x in f.tree
    ensures v in UnrelatedTops(f, listing, x) <==>
      v in listing && v in f.tree && f.tree[v].parent.None? && On(f.active, v) && v != GetHead(f.tree, x)
  {
    KeepMeaning(f, listing, TopLevel);
    KeepMeaning(f, Keep(f, listing, TopLevel), NotHead(GetHead(f.tree, x)));
    var h := GetHead(f.tree, x);
    if v in Keep(f, listing, TopLevel) {
      assert Holds(f, v, TopLevel.ps[0]) && Holds(f, v, TopLevel.ps[1]);
    }
    if v in listing && v in f.tree && f.tree[v].parent.None? && On(f.active, v) {
      assert Holds(f, v, TopLevel.ps[0]) && Holds(f, v, TopLevel.ps[1]);
      assert Satisfies(f, v, TopLevel);
    }
    assert Satisfies(f, v, NotHead(h)) <==> v != h;
  }

  /**
   * getActiveItemsUnrelatedTo(x) returns exactly the active top-level items of the other
   * trees and their active descendants; everything it returns is active and has a head
   * other than x's.
   */
  lemma UnrelatedMeaning(f: Fields, listing: seq<NodeId>, x: NodeId, y: NodeId)
    requires Consistent(f.tree) && x in f.tree && AllIn(listing, f.tree)
    ensures y in Unrelated(f, listing, x) <==>
      exists v :: v in UnrelatedTops(f, listing, x) && v in f.tree && (y == v || y in Below(f.tree, IsOn(f.active), v))
    ensures y in Unrelated(f, listing, x) ==>
      y in f.tree && On(f.active, y) && GetHead(f.tree, y) != GetHead(f.tree, x)
  {
    var u := UnrelatedTops(f, listing, x);
    KeepMeaning(f, listing, TopLevel);
    KeepMeaning(f, Keep(f, listing, TopLevel), NotHead(GetHead(f.tree, x)));
    RevBlocksMembership(f.tree, f.active, u, y);
    if y in Unrelated(f, listing, x) {
      var v :| v in u && (y == v || y in Below(f.tree, IsOn(f.active), v));
      UnrelatedTopsMeaning(f, listing, x, v);
      if y != v {
        BelowMembership(f.tree, IsOn(f.active), v, y);
        BelowUnder(f.tree, IsOn(f.active), v, y);
        SameTreeSameHead(f.tree, y, v);
      }
    }
  }

  lemma UnrelatedActive(f: Fields, listing: seq<NodeId>, x: NodeId)
    requires Consistent(f.tree) && x in f.tree && AllIn(listing, f.tree)
    ensures forall y :: y in Unrelated(f, listing, x) ==>
      y in f.tree && On(f.active, y) && GetHead(f.tree, y) != GetHead(f.tree, x)
  {
    forall y | y in Unrelated(f, listing, x)
      ensures y in f.tree && On(f.active, y) && GetHead(f.tree, y) != GetHead(f.tree, x)
    {
      UnrelatedMeaning(f, listing, x, y);
    }
  }

  /** Each returned descendant comes before its parent, and so before its top-level item. */
  lemma {:induction false} RevBlocksOrder(m: Arena, a: map<NodeId, bool>, u: seq<NodeId>)
    requires Consistent(m) && NoDup(u) && forall v :: v in u ==> v in m && m[v].parent.None?
    ensures ChildBeforeParent(m, RevBlocks(m, a, u))
    decreases |u|
  {
    if u != [] {
      var v := u[|u| - 1];
      var init := u[..|u| - 1];
      assert NoDup(init) by {
        forall i, j | 0 <= i < j < |init| ensures init[i] != init[j] {
          assert init[i] == u[i] && init[j] == u[j];
        }
      }
      RevBlocksOrder(m, a, init);
      RootBlockOrder(m, a, v);
      forall y, z | y in RevBlocks(m, a, init) && z in Below(m, IsOn(a), v) + [v] && y in m
        ensures m[y].parent != Some(z)
      {
        CrossTrees(m, a, init, v, y, z);
      }
      ConcatOrder(m, Below(m, IsOn(a), v) + [v], RevBlocks(m, a, init));
    }
  }

  /** getActiveItemsUnrelatedTo(x) over a listing without repeats is in teardown order:
      every item comes before its parent. */
  lemma UnrelatedOrder(f: Fields, listing: seq<NodeId>, x: NodeId)
    requires Consistent(f.tree) && x in f.tree && AllIn(listing, f.tree) && NoDup(listing)
    ensures ChildBeforeParent(f.tree, Unrelated(f, listing, x))
  {
    var tops := Keep(f, listing, TopLevel);
    var u := UnrelatedTops(f, listing, x);
    KeepMeaning(f, listing, TopLevel);
    SubseqNoDup(tops, listing);
    KeepMeaning(f, tops, NotHead(GetHead(f.tree, x)));
    SubseqNoDup(u, tops);
    forall v | v in u ensures v in f.tree && f.tree[v].parent.None? {
      UnrelatedTopsMeaning(f, listing, x, v);
    }
    RevBlocksOrder(f.tree, f.active, u);
  }

  /** The block of a root: its active descendants, each ahead of its parent, then the root. */
  lemma RootBlockOrder(m: Arena, a: map<NodeId, bool>, v: NodeId)
    requires Consistent(m) && v in m && m[v].parent.None?
    ensures ChildBeforeParent(m, Below(m, IsOn(a), v) + [v])
  {
    BelowOrder(m, IsOn(a), v);
    ConcatOrder(m, Below(m, IsOn(a), v), [v]);
  }

  /** No node of the blocks of init has its parent in the block of a root v outside init. */
  lemma CrossTrees(m: Arena, a: map<NodeId, bool>, init: seq<NodeId>, v: NodeId, y: NodeId, z: NodeId)
    requires Consistent(m) && v in m && m[v].parent.None? && v !in init
    requires forall w :: w in init ==> w in m && m[w].parent.None?
    requires y in RevBlocks(m, a, init) && z in Below(m, IsOn(a), v) + [v] && y in m
    ensures m[y].parent != Some(z)
  {
    RevBlocksMembership(m, a, init, y);
    var w :| w in init && (y == w || y in Below(m, IsOn(a), w));
    if m[y].parent == Some(z) {
      if y == w {
        assert false;
      }
      BelowUnder(m, IsOn(a), w, y);
      SameTreeSameHead(m, y, w);
      LevelParent(m, y);
      SameTreeSameHead(m, y, z) by {
        assert Under(m, y, z) by { assert z == m[y].parent.value; }
      }
      if z != v {
        BelowUnder(m, IsOn(a), v, z);
        SameTreeSameHead(m, z, v);
      }
      assert false;
    }
  }

  /** The top-level items of getActiveTopLevelItems: registered, parentless and active. */
  lemma TopLevelMeaning(f: Fields, listing: seq<NodeId>, v: NodeId)
    ensures v in Keep(f, listing, TopLevel) <==>
      v in listing && v in f.tree && f.tree[v].parent.None? && On(f.active, v)
  {
    KeepMeaning(f, listing, TopLevel);
    if v in Keep(f, listing, TopLevel) {
      assert Holds(f, v, TopLevel.ps[0]) && Holds(f, v, TopLevel.ps[1]);
    }
    if v in listing && v in f.tree && f.tree[v].parent.None? && On(f.active, v) {
      assert Holds(f, v, TopLevel.ps[0]) && Holds(f, v, TopLevel.ps[1]);
      assert Satisfies(f, v, TopLevel);
    }
  }

  /** getPartialViewActiveWithDomContainer(c): the registered active items whose view
      sits in container c. */
  lemma WithContainerMeaning(f: Fields, listing: seq<NodeId>, c: string, v: NodeId)
    ensures v in Keep(f, listing, WithContainer(c)) <==>
      v in listing && On(f.active, v) && v in f.container && f.container[v] == c
  {
    KeepMeaning(f, listing, WithContainer(c));
    var q := WithContainer(c);
    if v in Keep(f, listing, q) {
      assert Holds(f, v, q.ps[0]) && Holds(f, v, q.ps[1]);
    }
    if v in listing && On(f.active, v) && v in f.container && f.container[v] == c {
      assert Holds(f, v, q.ps[0]) && Holds(f, v, q.ps[1]);
      assert Satisfies(f, v, q);
    }
  }

  /** An id's item is listed exactly when the id is a registered key. */
  lemma {:induction false} ValuesMembership(items: map<string, NodeId>, keys: seq<string>, v: NodeId)
    ensures v in Values(items, keys) <==> exists k :: k in keys && k in items && items[k] == v
    decreases |keys|
  {
    if keys != [] {
      var init := keys[..|keys| - 1];
      var last := keys[|keys| - 1];
      assert keys == init + [last];
      ValuesMembership(items, init, v);
      if exists k :: k in keys && k in items && items[k] == v {
        var k :| k in keys && k in items && items[k] == v;
        if k != last {
          assert k in init;
        }
      }
    }
  }

  /** Distinct ids of distinct items list each item once. */
  lemma {:induction false} ValuesNoDup(items: map<string, NodeId>, keys: seq<string>, idOf: map<NodeId, string>)
    requires NoDup(keys)
    requires forall k :: k in items ==> items[k] in idOf && idOf[items[k]] == k
    ensures NoDup(Values(items, keys))
    decreases |keys|
  {
    if keys != [] {
      var init := keys[..|keys| - 1];
      var last := keys[|keys| - 1];
      assert NoDup(init) by {
        forall i, j | 0 <= i < j < |init| ensures init[i] != init[j] {
          assert init[i] == keys[i] && init[j] == keys[j];
        }
      }
      ValuesNoDup(items, init, idOf);
      var r := Values(items, init);
      if last in items {
        var w := items[last];
        assert last !in init by {
          forall i | 0 <= i < |init| ensures init[i] != last {
            assert init[i] == keys[i] && last == keys[|keys| - 1];
          }
        }
        forall k | k in init && k in items ensures items[k] != w {
          assert idOf[items[k]] == k && idOf[w] == last;
        }
        ValuesMembership(items, init, w);
        var r' := r + [w];
        forall i, j | 0 <= i < j < |r'| ensures r'[i] != r'[j] {
          assert r'[i] == r[i];
          if j < |r| {
            assert r'[j] == r[j];
          }
        }
      }
    }
  }

  // ---------------------------------------------------------------------------------
  // The state the page controller changes
  // ---------------------------------------------------------------------------------

  /** What the page controller changes: the items' active flags and child views, and the
      calls it makes into views. */
  datatype Snapshot = Snapshot(active: map<NodeId, bool>, cvs: map<NodeId, seq<ChildView>>, trace: seq<Effect>)

  /** The snapshot covers exactly the items of m. */
  predicate Fits(m: Arena, s: Snapshot) {
    s.active.Keys == m.Keys && s.cvs.Keys == m.Keys
  }

  /** No call in t renders a view. */
  predicate NoRenders(t: seq<Effect>) {
    forall k :: 0 <= k < |t| ==> !t[k].ViewRender?
  }

  /** r extends s's calls with calls that render nothing. */
  predicate Quiet(s: Snapshot, r: Snapshot) {
    |s.trace| <= |r.trace| && r.trace[..|s.trace|] == s.trace && NoRenders(r.trace[|s.trace|..])
  }

  lemma QuietTrans(a: Snapshot, b: Snapshot, c: Snapshot)
    requires Quiet(a, b) && Quiet(b, c)
    ensures Quiet(a, c)
  {
    assert c.trace[..|a.trace|] == c.trace[..|b.trace|][..|a.trace|];
    forall k | 0 <= k < |c.trace| - |a.trace| ensures !c.trace[|a.trace|..][k].ViewRender? {
      if |a.trace| + k < |b.trace| {
        assert c.trace[|a.trace| + k] == b.trace[|a.trace| + k] == b.trace[|a.trace|..][k];
      } else {
        assert c.trace[|a.trace| + k] == c.trace[|b.trace|..][|a.trace| + k - |b.trace|];
      }
    }
  }

  /** item.teardownViews() on the snapshot. */
  function Cleared(s: Snapshot, x: NodeId): Snapshot
    requires x in s.cvs
  {
    Snapshot(s.active[x := false], s.cvs[x := []], s.trace + ChildTeardowns(s.cvs[x]) + [ViewTeardown(x)])
  }

  /** teardownItems(list): teardownViews on each item in list order. */
  function TeardownStep(m: Arena, s: Snapshot, list: seq<NodeId>): (r: Snapshot)
    requires Fits(m, s) && AllIn(list, m)
    ensures Fits(m, r)
  {
    if list == [] then s
    else Cleared(TeardownStep(m, s, list[..|list| - 1]), list[|list| - 1])
  }

  /** The render calls of renderItems(list). */
  function Renders(list: seq<NodeId>): (t: seq<Effect>)
    ensures |t| == |list| && forall k :: 0 <= k < |list| ==> t[k] == ViewRender(list[k])
  {
    if list == [] then [] else Renders(list[..|list| - 1]) + [ViewRender(list[|list| - 1])]
  }

  /** renderItems(list): each item's view rendered and the item made active, in order. */
  function RenderStep(m: Arena, s: Snapshot, list: seq<NodeId>): (r: Snapshot)
    requires Fits(m, s) && AllIn(list, m)
    ensures Fits(m, r)
  {
    if list == [] then s
    else
      var t := RenderStep(m, s, list[..|list| - 1]);
      var x := list[|list| - 1];
      Snapshot(t.active[x := true], t.cvs, t.trace + [ViewRender(x)])
  }

  /** parent.teardownChildView(c) on the snapshot. */
  function ChildViewStep(m: Arena, s: Snapshot, x: NodeId, c: string): (r: Snapshot)
    requires Fits(m, s) && x in m
    ensures Fits(m, r)
  {
    var cvs := s.cvs[x];
    match FirstWithContainer(cvs, c, 0)
    case None => s
    case Some(k) => Snapshot(s.active, s.cvs[x := cvs[..k] + cvs[k + 1..]], s.trace + [ChildViewTeardown(cvs[k])])
  }

  /** Tearing items down clears exactly their flags. */
  lemma {:induction false} TeardownStepFlag(m: Arena, s: Snapshot, list: seq<NodeId>, y: NodeId)
    requires Fits(m, s) && (AllIn(list, m)) && y in m
    ensures TeardownStep(m, s, list).active[y] == (if y in list then false else s.active[y])
    decreases |list|
  {
    if list != [] {
      var init := list[..|list| - 1];
      assert list == init + [list[|list| - 1]];
      TeardownStepFlag(m, s, init, y);
    }
  }

  /** Tearing items down renders nothing. */
  lemma {:induction false} TeardownStepQuiet(m: Arena, s: Snapshot, list: seq<NodeId>)
    requires Fits(m, s) && AllIn(list, m)
    ensures Quiet(s, TeardownStep(m, s, list))
    decreases |list|
  {
    if list == [] {
      QuietSame(s);
    } else {
      var init := list[..|list| - 1];
      TeardownStepQuiet(m, s, init);
      var t := TeardownStep(m, s, init);
      var r := TeardownStep(m, s, list);
      var e := ChildTeardowns(t.cvs[list[|list| - 1]]) + [ViewTeardown(list[|list| - 1])];
      ChildTeardownsMeaning(t.cvs[list[|list| - 1]]);
      assert r.trace == t.trace + e;
      assert Quiet(t, r) by {
        assert r.trace[..|t.trace|] == t.trace && r.trace[|t.trace|..] == e;
      }
      QuietTrans(s, t, r);
    }
  }

  /** Tearing down never makes an item active. */
  lemma TeardownStepOff(m: Arena, s: Snapshot, list: seq<NodeId>, y: NodeId)
    requires Fits(m, s) && (AllIn(list, m))
    ensures On(TeardownStep(m, s, list).active, y) ==> On(s.active, y)
  {
    if y in m {
      TeardownStepFlag(m, s, list, y);
    }
  }

  /** Rendering items sets exactly their flags and appends their render calls. */
  lemma {:induction false} RenderStepEffect(m: Arena, s: Snapshot, list: seq<NodeId>, y: NodeId)
    requires Fits(m, s) && (AllIn(list, m)) && y in m
    ensures RenderStep(m, s, list).active[y] == (y in list || s.active[y])
    ensures RenderStep(m, s, list).trace == s.trace + Renders(list)
    ensures RenderStep(m, s, list).cvs == s.cvs
    decreases |list|
  {
    if list != [] {
      var init := list[..|list| - 1];
      assert list == init + [list[|list| - 1]];
      RenderStepEffect(m, s, init, y);
    }
  }

  /** teardownChildView leaves every flag alone and renders nothing. */
  lemma ChildViewStepEffect(m: Arena, s: Snapshot, x: NodeId, c: string)
    requires Fits(m, s) && x in m
    ensures ChildViewStep(m, s, x, c).active == s.active
    ensures Quiet(s, ChildViewStep(m, s, x, c))
  {
    var r := ChildViewStep(m, s, x, c);
    if FirstWithContainer(s.cvs[x], c, 0).Some? {
      assert r.trace[..|s.trace|] == s.trace;
    }
  }

  // ---------------------------------------------------------------------------------
  // render(itemId)
  // ---------------------------------------------------------------------------------

  /** this.teardownItems(this.getActiveItemsUnrelatedTo(item)). */
  function UnrelatedStep(m: Arena, vc: map<NodeId, string>, listing: seq<NodeId>, s: Snapshot, x: NodeId): (r: Snapshot)
    requires Consistent(m) && x in m && Fits(m, s) && AllIn(listing, m)
    ensures Fits(m, r)
  {
    UnrelatedIn(Fields(m, s.active, vc), listing, x);
    TeardownStep(m, s, Unrelated(Fields(m, s.active, vc), listing, x))
  }

  /** The active descendants of the parent of the topmost inactive ancestor of x, if it
      has one, torn down. */
  function AncestorStep(m: Arena, s: Snapshot, x: NodeId): (r: Snapshot)
    requires Consistent(m) && x in m && Fits(m, s)
    ensures Fits(m, r)
  {
    var c := InactiveChain(m, s.active, x);
    InactiveChainShape(m, s.active, x);
    if c != [] && m[c[0]].parent.Some? then
      var p := m[c[0]].parent.value;
      LevelParent(m, c[0]);
      BelowIn(m, s.active, p);
      TeardownStep(m, s, Below(m, IsOn(s.active), p))
    else s
  }

  /** parent.teardownChildView(item.view.container), if the item has a parent. */
  function ParentViewStep(m: Arena, vc: map<NodeId, string>, s: Snapshot, x: NodeId): (r: Snapshot)
    requires Rooted(m) && x in m && x in vc && Fits(m, s)
    ensures Fits(m, r)
  {
    if m[x].parent.Some? then (LevelParent(m, x); ChildViewStep(m, s, m[x].parent.value, vc[x])) else s
  }

  /** this.teardownItems(this.getPartialViewActiveWithDomContainer(item.view.container)). */
  function ContainerStep(m: Arena, vc: map<NodeId, string>, listing: seq<NodeId>, s: Snapshot, x: NodeId): (r: Snapshot)
    requires x in vc && Fits(m, s) && AllIn(listing, m)
    ensures Fits(m, r)
  {
    KeepMeaning(Fields(m, s.active, vc), listing, WithContainer(vc[x]));
    TeardownStep(m, s, Keep(Fields(m, s.active, vc), listing, WithContainer(vc[x])))
  }

  /** The teardowns render makes for an item x that is still inactive once its own
      descendants are gone, in the order it makes them. */
  function Prepared(m: Arena, vc: map<NodeId, string>, listing: seq<NodeId>, s1: Snapshot, x: NodeId): (r: Snapshot)
    requires Consistent(m) && x in m && x in vc && Fits(m, s1) && AllIn(listing, m)
    ensures Fits(m, r)
  {
    AfterUnrelated(m, vc, listing, UnrelatedStep(m, vc, listing, s1, x), x)
  }

  function AfterUnrelated(m: Arena, vc: map<NodeId, string>, listing: seq<NodeId>, s2: Snapshot, x: NodeId): (r: Snapshot)
    requires Consistent(m) && x in m && x in vc && Fits(m, s2) && AllIn(listing, m)
    ensures Fits(m, r)
  {
    ContainerStep(m, vc, listing, ParentViewStep(m, vc, AncestorStep(m, s2, x), x), x)
  }

  /** The tail of render for such an item: the teardowns, then the inactive chain ending at
      x, computed again, rendered. */
  function RenderTail(m: Arena, vc: map<NodeId, string>, listing: seq<NodeId>, s1: Snapshot, x: NodeId): Snapshot
    requires Consistent(m) && x in m && x in vc && Fits(m, s1) && AllIn(listing, m)
  {
    var s5 := Prepared(m, vc, listing, s1, x);
    InactiveChainShape(m, s5.active, x);
    RenderStep(m, s5, InactiveChain(m, s5.active, x))
  }

  /** render(x) for a registered item x, from snapshot s. */
  function RenderSpec(m: Arena, vc: map<NodeId, string>, listing: seq<NodeId>, s: Snapshot, x: NodeId): Snapshot
    requires Consistent(m) && x in m && x in vc && Fits(m, s) && AllIn(listing, m)
  {
    BelowIn(m, s.active, x);
    var s1 := TeardownStep(m, s, Below(m, IsOn(s.active), x));
    if On(s1.active, x) then s1 else RenderTail(m, vc, listing, s1, x)
  }

  lemma BelowIn(m: Arena, a: map<NodeId, bool>, x: NodeId)
    requires Descending(m) && x in m
    ensures AllIn(Below(m, IsOn(a), x), m)
  {
    forall y | y in Below(m, IsOn(a), x) ensures y in m {
      BelowDeeper(m, IsOn(a), x, y);
    }
  }

  lemma UnrelatedIn(f: Fields, listing: seq<NodeId>, x: NodeId)
    requires Consistent(f.tree) && x in f.tree && AllIn(listing, f.tree)
    ensures AllIn(Unrelated(f, listing, x), f.tree)
  {
    forall y | y in Unrelated(f, listing, x) ensures y in f.tree {
      UnrelatedMeaning(f, listing, x, y);
    }
  }

  lemma QuietSame(s: Snapshot)
    ensures Quiet(s, s)
  {
    assert s.trace[..|s.trace|] == s.trace;
  }

  /** r follows s by calls that render nothing and switch no item on. */
  ghost predicate Calmer(s: Snapshot, r: Snapshot) {
    Quiet(s, r) && forall y :: On(r.active, y) ==> On(s.active, y)
  }

  lemma CalmerTrans(a: Snapshot, b: Snapshot, c: Snapshot)
    requires Calmer(a, b) && Calmer(b, c)
    ensures Calmer(a, c)
  {
    QuietTrans(a, b, c);
  }

  lemma TeardownCalmer(m: Arena, s: Snapshot, list: seq<NodeId>)
    requires Fits(m, s) && AllIn(list, m)
    ensures Calmer(s, TeardownStep(m, s, list))
  {
    TeardownStepQuiet(m, s, list);
    forall y ensures On(TeardownStep(m, s, list).active, y) ==> On(s.active, y) {
      TeardownStepOff(m, s, list, y);
    }
  }

  lemma AncestorCalmer(m: Arena, s2: Snapshot, x: NodeId)
    requires Consistent(m) && x in m && Fits(m, s2)
    ensures Calmer(s2, AncestorStep(m, s2, x))
  {
    var c := InactiveChain(m, s2.active, x);
    InactiveChainShape(m, s2.active, x);
    if c != [] && m[c[0]].parent.Some? {
      var p := m[c[0]].parent.value;
      LevelParent(m, c[0]);
      BelowIn(m, s2.active, p);
      TeardownCalmer(m, s2, Below(m, IsOn(s2.active), p));
    } else {
      QuietSame(s2);
    }
  }

  lemma ParentViewCalmer(m: Arena, vc: map<NodeId, string>, s3: Snapshot, x: NodeId)
    requires Rooted(m) && x in m && x in vc && Fits(m, s3)
    ensures Calmer(s3, ParentViewStep(m, vc, s3, x))
  {
    if m[x].parent.Some? {
      LevelParent(m, x);
      ChildViewStepEffect(m, s3, m[x].parent.value, vc[x]);
    } else {
      QuietSame(s3);
    }
  }

  lemma ContainerCalmer(m: Arena, vc: map<NodeId, string>, listing: seq<NodeId>, s4: Snapshot, x: NodeId)
    requires x in vc && Fits(m, s4) && AllIn(listing, m)
    ensures Calmer(s4, ContainerStep(m, vc, listing, s4, x))
  {
    KeepMeaning(Fields(m, s4.active, vc), listing, WithContainer(vc[x]));
    TeardownCalmer(m, s4, Keep(Fields(m, s4.active, vc), listing, WithContainer(vc[x])));
  }

  lemma AfterUnrelatedCalmer(m: Arena, vc: map<NodeId, string>, listing: seq<NodeId>, s2: Snapshot, x: NodeId)
    requires Consistent(m) && x in m && x in vc && Fits(m, s2) && AllIn(listing, m)
    ensures Calmer(s2, AfterUnrelated(m, vc, listing, s2, x))
  {
    var s3 := AncestorStep(m, s2, x);
    AncestorCalmer(m, s2, x);
    var s4 := ParentViewStep(m, vc, s3, x);
    ParentViewCalmer(m, vc, s3, x);
    CalmerTrans(s2, s3, s4);
    ContainerCalmer(m, vc, listing, s4, x);
    CalmerTrans(s2, s4, ContainerStep(m, vc, listing, s4, x));
  }

  lemma PreparedCalmer(m: Arena, vc: map<NodeId, string>, listing: seq<NodeId>, s1: Snapshot, x: NodeId)
    requires Consistent(m) && x in m && x in vc && Fits(m, s1) && AllIn(listing, m)
    ensures Calmer(s1, Prepared(m, vc, listing, s1, x))
  {
    var s2 := UnrelatedStep(m, vc, listing, s1, x);
    UnrelatedIn(Fields(m, s1.active, vc), listing, x);
    TeardownCalmer(m, s1, Unrelated(Fields(m, s1.active, vc), listing, x));
    AfterUnrelatedCalmer(m, vc, listing, s2, x);
    CalmerTrans(s1, s2, Prepared(m, vc, listing, s1, x));
  }

  /** getActiveItemsUnrelatedTo(x) lists, so tears down, every active registered top-level
      item of another tree. */
  lemma UnrelatedStepClears(m: Arena, vc: map<NodeId, string>, listing: seq<NodeId>, s1: Snapshot, x: NodeId, v: NodeId)
    requires Consistent(m) && x in m && Fits(m, s1) && AllIn(listing, m)
    requires v in listing && m[v].parent.None? && v != GetHead(m, x)
    ensures !On(UnrelatedStep(m, vc, listing, s1, x).active, v)
  {
    var f := Fields(m, s1.active, vc);
    UnrelatedIn(f, listing, x);
    TeardownStepFlag(m, s1, Unrelated(f, listing, x), v);
    if On(s1.active, v) {
      UnrelatedTopsMeaning(f, listing, x, v);
      UnrelatedMeaning(f, listing, x, v);
    }
  }

  /** After the teardowns, every registered top-level item of another tree is inactive. */
  lemma PreparedOneTree(m: Arena, vc: map<NodeId, string>, listing: seq<NodeId>, s1: Snapshot, x: NodeId, v: NodeId)
    requires Consistent(m) && x in m && x in vc && Fits(m, s1) && AllIn(listing, m)
    requires v in listing && m[v].parent.None? && v != GetHead(m, x)
    ensures !On(Prepared(m, vc, listing, s1, x).active, v)
  {
    UnrelatedStepClears(m, vc, listing, s1, x, v);
    AfterUnrelatedCalmer(m, vc, listing, UnrelatedStep(m, vc, listing, s1, x), x);
  }

  /** Rendering the inactive chain that ends at x, from snapshot s5. */
  lemma ChainRender(m: Arena, s5: Snapshot, x: NodeId)
    requires Rooted(m) && x in m && Fits(m, s5) && !On(s5.active, x)
    ensures AllIn(InactiveChain(m, s5.active, x), m)
    ensures var c := InactiveChain(m, s5.active, x);
      var r := RenderStep(m, s5, c);
      && r.trace == s5.trace + Renders(c)
      && c != [] && c[|c| - 1] == x
      && (forall i :: 0 <= i < |c| ==> c[i] in m && Under(m, x, c[i]) && On(r.active, c[i]))
      && (forall i :: 0 <= i < |c| - 1 ==> m[c[i + 1]].parent == Some(c[i]))
      && (m[c[0]].parent.None? || On(r.active, m[c[0]].parent.value))
      && (forall y :: y in m && On(r.active, y) ==> y in c || On(s5.active, y))
  {
    var c := InactiveChain(m, s5.active, x);
    InactiveChainShape(m, s5.active, x);
    var r := RenderStep(m, s5, c);
    RenderStepEffect(m, s5, c, x);
    forall i | 0 <= i < |c| ensures On(r.active, c[i]) {
      RenderStepEffect(m, s5, c, c[i]);
    }
    if m[c[0]].parent.Some? {
      LevelParent(m, c[0]);
      RenderStepEffect(m, s5, c, m[c[0]].parent.value);
    }
    forall y | y in m && On(r.active, y) ensures y in c || On(s5.active, y) {
      RenderStepEffect(m, s5, c, y);
    }
  }

  /**
   * render(x) on an already active item only tears down x's active descendants: each of
   * them, and nothing else, becomes inactive, and no view is rendered.
   */
  lemma RenderActiveItem(m: Arena, vc: map<NodeId, string>, listing: seq<NodeId>, s: Snapshot, x: NodeId)
    requires Consistent(m) && x in m && x in vc && Fits(m, s) && AllIn(listing, m)
    requires On(s.active, x)
    ensures var r := RenderSpec(m, vc, listing, s, x);
      && Quiet(s, r) && On(r.active, x)
      && forall y :: y in m ==> r.active[y] == (if y in Below(m, IsOn(s.active), x) then false else s.active[y])
  {
    var b := Below(m, IsOn(s.active), x);
    BelowIn(m, s.active, x);
    if x in b {
      BelowUnder(m, IsOn(s.active), x, x);
    }
    TeardownStepFlag(m, s, b, x);
    TeardownStepQuiet(m, s, b);
    forall y | y in m ensures TeardownStep(m, s, b).active[y] == (if y in b then false else s.active[y]) {
      TeardownStepFlag(m, s, b, y);
    }
  }

  /** render first tears down the item's active descendants, then stops if it is active. */
  lemma RenderSpecUnfold(m: Arena, vc: map<NodeId, string>, listing: seq<NodeId>, s: Snapshot, x: NodeId)
    returns (s1: Snapshot)
    requires Consistent(m) && x in m && x in vc && Fits(m, s) && AllIn(listing, m)
    ensures AllIn(Below(m, IsOn(s.active), x), m)
    ensures s1 == TeardownStep(m, s, Below(m, IsOn(s.active), x)) && Fits(m, s1) && Calmer(s, s1)
    ensures RenderSpec(m, vc, listing, s, x) == if On(s1.active, x) then s1 else RenderTail(m, vc, listing, s1, x)
  {
    var b := Below(m, IsOn(s.active), x);
    BelowIn(m, s.active, x);
    s1 := TeardownStep(m, s, b);
    TeardownCalmer(m, s, b);
  }

  /** render(x) on an inactive item goes through the tail. */
  lemma InactiveTakesTail(m: Arena, vc: map<NodeId, string>, listing: seq<NodeId>, s: Snapshot, x: NodeId)
    returns (s1: Snapshot)
    requires Consistent(m) && x in m && x in vc && Fits(m, s) && AllIn(listing, m)
    requires !On(s.active, x)
    ensures Fits(m, s1) && Calmer(s, s1) && !On(s1.active, x)
    ensures RenderSpec(m, vc, listing, s, x) == RenderTail(m, vc, listing, s1, x)
  {
    s1 := RenderSpecUnfold(m, vc, listing, s, x);
  }

  /** After b's calls, a's calls are followed by the rest of b's. */
  lemma QuietSplit(a: Snapshot, b: Snapshot)
    requires Quiet(a, b)
    ensures b.trace == a.trace + b.trace[|a.trace|..] && NoRenders(b.trace[|a.trace|..])
  {
    assert b.trace == b.trace[..|a.trace|] + b.trace[|a.trace|..];
  }

  /** The inactive chain stays in x's tree: a parentless item on it is x's head. */
  lemma ChainHead(m: Arena, a: map<NodeId, bool>, x: NodeId, v: NodeId)
    requires Rooted(m) && x in m && v in m && m[v].parent.None? && v != GetHead(m, x)
    ensures v !in InactiveChain(m, a, x)
  {
    InactiveChainShape(m, a, x);
    var c := InactiveChain(m, a, x);
    if v in c {
      var i :| 0 <= i < |c| && c[i] == v;
      HeadUnique(m, x, v);
    }
  }

  /** The inactive chain holds x and ancestors of x only, so no strict descendant of x. */
  lemma ChainAbove(m: Arena, a: map<NodeId, bool>, x: NodeId, y: NodeId)
    requires Rooted(m) && x in m && y in m && y != x && Under(m, y, x)
    ensures y !in InactiveChain(m, a, x)
  {
    InactiveChainShape(m, a, x);
    var c := InactiveChain(m, a, x);
    if y in c {
      var i :| 0 <= i < |c| && c[i] == y;
      UnderLevel(m, x, y);
      UnderLevel(m, y, x);
    }
  }

  /** Rendering the chain leaves an inactive top-level item of another tree inactive. */
  lemma ChainSkipsOtherTrees(m: Arena, s5: Snapshot, x: NodeId, v: NodeId)
    requires Rooted(m) && x in m && Fits(m, s5) && v in m && m[v].parent.None? && v != GetHead(m, x)
    requires !On(s5.active, v)
    ensures AllIn(InactiveChain(m, s5.active, x), m)
    ensures !On(RenderStep(m, s5, InactiveChain(m, s5.active, x)).active, v)
  {
    InactiveChainShape(m, s5.active, x);
    RenderStepEffect(m, s5, InactiveChain(m, s5.active, x), v);
    ChainHead(m, s5.active, x, v);
  }

  /** Rendering the chain leaves an inactive strict descendant of x inactive. */
  lemma ChainSkipsDescendants(m: Arena, s5: Snapshot, x: NodeId, y: NodeId)
    requires Rooted(m) && x in m && Fits(m, s5) && y in m && y != x && Under(m, y, x)
    requires !On(s5.active, y)
    ensures AllIn(InactiveChain(m, s5.active, x), m)
    ensures !On(RenderStep(m, s5, InactiveChain(m, s5.active, x)).active, y)
  {
    InactiveChainShape(m, s5.active, x);
    RenderStepEffect(m, s5, InactiveChain(m, s5.active, x), y);
    ChainAbove(m, s5.active, x, y);
  }

  lemma ChainIn(m: Arena, a: map<NodeId, bool>, x: NodeId)
    requires Rooted(m) && x in m
    ensures AllIn(InactiveChain(m, a, x), m)
  {
    InactiveChainShape(m, a, x);
  }

  /** The tail is the chain render from the snapshot the teardowns leave. */
  lemma TailUnfold(m: Arena, vc: map<NodeId, string>, listing: seq<NodeId>, s1: Snapshot, x: NodeId)
    returns (s5: Snapshot)
    requires Consistent(m) && x in m && x in vc && Fits(m, s1) && AllIn(listing, m)
    ensures s5 == Prepared(m, vc, listing, s1, x) && Fits(m, s5) && Calmer(s1, s5)
    ensures AllIn(InactiveChain(m, s5.active, x), m)
    ensures RenderTail(m, vc, listing, s1, x) == RenderStep(m, s5, InactiveChain(m, s5.active, x))
  {
    s5 := Prepared(m, vc, listing, s1, x);
    PreparedCalmer(m, vc, listing, s1, x);
    InactiveChainShape(m, s5.active, x);
  }

  /**
   * render(x) on an inactive item: after calls that render nothing, which lead to the
   * state s5, it renders a chain of items, from the topmost inactive ancestor down to x,
   * each the parent of the next.  Every item of the chain was inactive in s5, so no active
   * item is rendered again; all of them end up active, the item above the chain, if any,
   * was already active, and no other item is switched on.
   */
  lemma RenderInactiveItem(m: Arena, vc: map<NodeId, string>, listing: seq<NodeId>, s: Snapshot, x: NodeId)
    returns (t: seq<Effect>, c: seq<NodeId>, s5: Snapshot)
    requires Consistent(m) && x in m && x in vc && Fits(m, s) && AllIn(listing, m)
    requires !On(s.active, x)
    ensures s5.trace == s.trace + t && NoRenders(t) && c == InactiveChain(m, s5.active, x)
    ensures Calmer(s, s5)
    ensures var r := RenderSpec(m, vc, listing, s, x);
      && r.trace == s.trace + t + Renders(c)
      && c != [] && c[|c| - 1] == x
      && (forall i :: 0 <= i < |c| ==> c[i] in m && Under(m, x, c[i]) && !On(s5.active, c[i]) && On(r.active, c[i]))
      && (forall i :: 0 <= i < |c| - 1 ==> m[c[i + 1]].parent == Some(c[i]))
      && (m[c[0]].parent.None? || On(s5.active, m[c[0]].parent.value))
      && (forall y :: y in m && On(r.active, y) ==> y in c || On(s5.active, y))
      && (forall y :: y in m && On(r.active, y) ==> y in c || On(s.active, y))
  {
    var s1 := InactiveTakesTail(m, vc, listing, s, x);
    s5 := TailUnfold(m, vc, listing, s1, x);
    CalmerTrans(s, s1, s5);
    ChainRender(m, s5, x);
    InactiveChainShape(m, s5.active, x);
    c := InactiveChain(m, s5.active, x);
    QuietSplit(s, s5);
    t := s5.trace[|s.trace|..];
  }

  /** After render(x) on an inactive item, no registered top-level item of another tree is
      active: one page tree is shown at a time. */
  lemma RenderShowsOneTree(m: Arena, vc: map<NodeId, string>, listing: seq<NodeId>, s: Snapshot, x: NodeId, v: NodeId)
    requires Consistent(m) && x in m && x in vc && Fits(m, s) && AllIn(listing, m)
    requires !On(s.active, x)
    requires v in listing && m[v].parent.None? && v != GetHead(m, x)
    ensures !On(RenderSpec(m, vc, listing, s, x).active, v)
  {
    var s1 := InactiveTakesTail(m, vc, listing, s, x);
    var s5 := TailUnfold(m, vc, listing, s1, x);
    PreparedOneTree(m, vc, listing, s1, x, v);
    ChainSkipsOtherTrees(m, s5, x, v);
  }

  /** After render(x), every item that was an active descendant of x is inactive. */
  lemma RenderClearsDescendants(m: Arena, vc: map<NodeId, string>, listing: seq<NodeId>, s: Snapshot, x: NodeId, y: NodeId)
    requires Consistent(m) && x in m && x in vc && Fits(m, s) && AllIn(listing, m)
    requires y in Below(m, IsOn(s.active), x)
    ensures !On(RenderSpec(m, vc, listing, s, x).active, y)
  {
    var s1 := RenderSpecUnfold(m, vc, listing, s, x);
    DescendantTornDown(m, s, x, y);
    if !On(s1.active, x) {
      TailSkipsDescendants(m, vc, listing, s1, x, y);
    }
  }

  /** The first teardown of render(x) switches off each active descendant of x. */
  lemma DescendantTornDown(m: Arena, s: Snapshot, x: NodeId, y: NodeId)
    requires Consistent(m) && x in m && Fits(m, s) && y in Below(m, IsOn(s.active), x)
    ensures AllIn(Below(m, IsOn(s.active), x), m)
    ensures y in m && y != x && Under(m, y, x)
    ensures !On(TeardownStep(m, s, Below(m, IsOn(s.active), x)).active, y)
  {
    BelowIn(m, s.active, x);
    BelowUnder(m, IsOn(s.active), x, y);
    TeardownStepFlag(m, s, Below(m, IsOn(s.active), x), y);
  }

  lemma TailSkipsDescendants(m: Arena, vc: map<NodeId, string>, listing: seq<NodeId>, s1: Snapshot, x: NodeId, y: NodeId)
    requires Consistent(m) && x in m && x in vc && Fits(m, s1) && AllIn(listing, m)
    requires y in m && y != x && Under(m, y, x) && !On(s1.active, y)
    ensures !On(RenderTail(m, vc, listing, s1, x).active, y)
  {
    var s5 := TailUnfold(m, vc, listing, s1, x);
    ChainSkipsDescendants(m, s5, x, y);
  }

  // ---------------------------------------------------------------------------------
  // addChildView
  // ---------------------------------------------------------------------------------

  /** The view argument of addChildView: a falsy value, or an object with an identity, a
      container when view.container is a string, and whether view.teardown is a function. */
  datatype ViewArg = Falsy | ViewObj(ref: nat, container: Option<string>, hasTeardown: bool)

  /** addChildView(parentId, view) for a registered parent p: the child view in the same
      container is torn down and removed, then the new one is pushed. */
  function ChildViewAdded(m: Arena, s: Snapshot, p: NodeId, v: ChildView): (r: Snapshot)
    requires Fits(m, s) && p in m
    ensures Fits(m, r)
  {
    var t := ChildViewStep(m, s, p, v.container);
    Snapshot(t.active, t.cvs[p := t.cvs[p] + [v]], t.trace)
  }

  /** No two child views share a container. */
  predicate DistinctContainers(cvs: seq<ChildView>) {
    forall i, j :: 0 <= i < j < |cvs| ==> cvs[i].container != cvs[j].container
  }

  /**
   * addChildView keeps one child view per container: the new view comes last, it replaces
   * the one that had its container, every other child view stays, and the calls made are
   * at most that one teardown.
   */
  lemma ChildViewAddedReplaces(m: Arena, s: Snapshot, p: NodeId, v: ChildView)
    requires Fits(m, s) && p in m && DistinctContainers(s.cvs[p])
    ensures var r := ChildViewAdded(m, s, p, v);
      && DistinctContainers(r.cvs[p]) && r.cvs[p] != [] && r.cvs[p][|r.cvs[p]| - 1] == v
      && (forall w :: w in r.cvs[p] ==> w == v || (w in s.cvs[p] && w.container != v.container))
      && (forall w :: w in s.cvs[p] && w.container != v.container ==> w in r.cvs[p])
      && r.active == s.active && Quiet(s, r)
  {
    var cvs := s.cvs[p];
    ChildViewStepEffect(m, s, p, v.container);
    var rest := ChildViewStep(m, s, p, v.container).cvs[p];
    match FirstWithContainer(cvs, v.container, 0)
    case None =>
      assert rest == cvs;
      AppendFresh(rest, v);
    case Some(k) =>
      assert rest == cvs[..k] + cvs[k + 1..];
      RemoveOneContainer(cvs, k, v.container);
      AppendFresh(rest, v);
  }

  /** Taking out the one child view with container c leaves every other one. */
  lemma RemoveOneContainer(cvs: seq<ChildView>, k: nat, c: string)
    requires DistinctContainers(cvs) && k < |cvs| && cvs[k].container == c
    ensures var rest := cvs[..k] + cvs[k + 1..];
      && DistinctContainers(rest)
      && (forall w :: w in rest ==> w in cvs && w.container != c)
      && (forall w :: w in cvs && w.container != c ==> w in rest)
  {
    var rest := cvs[..k] + cvs[k + 1..];
    forall i | 0 <= i < |rest| ensures rest[i] == cvs[if i < k then i else i + 1] {
    }
    forall w | w in cvs && w.container != c ensures w in rest {
      var i :| 0 <= i < |cvs| && cvs[i] == w;
      assert rest[if i < k then i else i - 1] == w;
    }
  }

  /** Appending a view whose container no listed view has keeps containers distinct. */
  lemma AppendFresh(rest: seq<ChildView>, v: ChildView)
    requires DistinctContainers(rest) && forall w :: w in rest ==> w.container != v.container
    ensures DistinctContainers(rest + [v]) && (rest + [v])[|rest|] == v
    ensures forall w :: w in rest + [v] ==> w == v || w in rest
  {
    var r := rest + [v];
    forall i, j | 0 <= i < j < |r| ensures r[i].container != r[j].container {
      assert r[i] == rest[i];
      if j < |rest| {
        assert r[j] == rest[j];
      }
    }
  }

  // ---------------------------------------------------------------------------------
  // The loops of Utils
  // ---------------------------------------------------------------------------------

  /** Utils.matches(item, queryOrFunction). */
  method Matches(f: Fields, x: NodeId, q: Query) returns (b: bool)
    ensures b == Satisfies(f, x, q)
  {
    match q
    case Test(g) =>
      b := g(x);
    case Props(ps) =>
      var i := 0;
      while i < |ps|
        invariant 0 <= i <= |ps| && forall k :: 0 <= k < i ==> Holds(f, x, ps[k])
      {
        if !Holds(f, x, ps[i]) {
          return false;
        }
        i := i + 1;
      }
      b := true;
  }

  /** Utils.filter(collection, queryOrFunction). */
  method Filter(f: Fields, collection: seq<NodeId>, q: Query) returns (results: seq<NodeId>)
    ensures results == Keep(f, collection, q)
  {
    results := [];
    for i := 0 to |collection|
      invariant results == Keep(f, collection[..i], q)
    {
      assert collection[..i + 1][..i] == collection[..i];
      var ok := Matches(f, collection[i], q);
      if ok {
        results := results + [collection[i]];
      }
    }
    assert collection[..|collection|] == collection;
  }

  // ---------------------------------------------------------------------------------
  // The page controller
  // ---------------------------------------------------------------------------------

  /** The registry maps each of its ids, listed once each in keys, to an item of the
      tree whose id it is. */
  ghost predicate Registry(items: map<string, NodeId>, keys: seq<string>, m: Arena, idOf: map<NodeId, string>) {
    && NoDup(keys)
    && (forall k :: k in items <==> k in keys)
    && (forall k :: k in items ==> items[k] in m && items[k] in idOf && idOf[items[k]] == k)
    && (AllIn(Values(items, keys), m))
  }

  /** Appending a fresh id keeps the ids distinct. */
  lemma AppendNoDup(keys: seq<string>, id: string)
    requires NoDup(keys) && id !in keys
    ensures NoDup(keys + [id])
  {
    var keys' := keys + [id];
    forall i, j | 0 <= i < j < |keys'| ensures keys'[i] != keys'[j] {
      assert keys'[i] == keys[i];
      if j < |keys| {
        assert keys'[j] == keys[j];
      }
    }
  }

  /** addItem keeps the registry well formed. */
  lemma AddKeepsRegistry(items: map<string, NodeId>, keys: seq<string>, m: Arena, idOf: map<NodeId, string>, n: NodeId)
    requires Registry(items, keys, m, idOf) && n in m && n in idOf
    ensures var id := idOf[n];
      Registry(items[id := n], if id in keys then keys else keys + [id], m, idOf)
  {
    var id := idOf[n];
    var items' := items[id := n];
    var keys' := if id in keys then keys else keys + [id];
    AddKeepsKeys(items, keys, id, n);
    AddKeepsIds(items, m, idOf, n);
    RegistryIntro(items', keys', m, idOf);
  }

  /** The listing of a map onto ids it holds exactly stays inside the tree. */
  lemma RegistryIntro(items: map<string, NodeId>, keys: seq<string>, m: Arena, idOf: map<NodeId, string>)
    requires NoDup(keys) && forall k :: k in items <==> k in keys
    requires forall k :: k in items ==> items[k] in m && items[k] in idOf && idOf[items[k]] == k
    ensures Registry(items, keys, m, idOf)
  {
    ValuesIn(items, keys, m);
  }

  /** The ids stay distinct and stay those the map holds. */
  lemma AddKeepsKeys(items: map<string, NodeId>, keys: seq<string>, id: string, n: NodeId)
    requires NoDup(keys) && forall k :: k in items <==> k in keys
    ensures var keys' := if id in keys then keys else keys + [id];
      NoDup(keys') && forall k :: k in items[id := n] <==> k in keys'
  {
    if id !in keys {
      AppendNoDup(keys, id);
    }
  }

  /** Every entry still names a node carrying its id. */
  lemma AddKeepsIds(items: map<string, NodeId>, m: Arena, idOf: map<NodeId, string>, n: NodeId)
    requires forall k :: k in items ==> items[k] in m && items[k] in idOf && idOf[items[k]] == k
    requires n in m && n in idOf
    ensures var items' := items[idOf[n] := n];
      forall k :: k in items' ==> items'[k] in m && items'[k] in idOf && idOf[items'[k]] == k
  {
  }

  /** Listing a map whose values are all nodes lists only nodes. */
  lemma {:induction false} ValuesIn(items: map<string, NodeId>, keys: seq<string>, m: Arena)
    requires forall k :: k in items ==> items[k] in m
    ensures AllIn(Values(items, keys), m)
    decreases |keys|
  {
    if keys != [] {
      ValuesIn(items, keys[..|keys| - 1], m);
    }
  }

  class PageController {
    /** The items the controller can reach: the registered ones and their relatives. */
    const store: ItemStore
    /** this.items: id to item. */
    var items: map<string, NodeId>
    /** The ids of items in the order they were first added, the order for-in visits them. */
    var keys: seq<string>

    ghost predicate Valid()
      reads this, store
    {
      store.Valid() && Registry(items, keys, store.tree, store.idOf)
    }

    /** new Tyro.PageController(): no items. */
    constructor (s: ItemStore)
      requires s.Valid()
      ensures Valid() && store == s && items == map[] && keys == []
    {
      store := s;
      items := map[];
      keys := [];
    }

    /** The registered items in for-in order. */
    function Listing(): seq<NodeId>
      reads this
    {
      Values(items, keys)
    }

    /** The item fields the queries read. */
    function Current(): Fields
      reads store
    {
      Fields(store.tree, store.active, store.viewContainer)
    }

    ghost function Snap(): Snapshot
      reads store
    {
      Snapshot(store.active, store.childViews, store.trace)
    }

    /** getActiveTopLevelItems(). */
    method GetActiveTopLevelItems() returns (r: seq<NodeId>)
      requires Valid()
      ensures r == Keep(Current(), Listing(), TopLevel)
      ensures forall v :: v in r <==>
        v in Listing() && v in store.tree && store.tree[v].parent.None? && On(store.active, v)
    {
      r := Filter(Current(), Listing(), TopLevel);
      forall v ensures v in r <==> v in Listing() && v in store.tree && store.tree[v].parent.None? && On(store.active, v) {
        TopLevelMeaning(Current(), Listing(), v);
      }
    }

    /** getPartialViewActiveWithDomContainer(container). */
    method GetPartialViewActiveWithDomContainer(container: string) returns (r: seq<NodeId>)
      requires Valid()
      ensures r == Keep(Current(), Listing(), WithContainer(container))
      ensures forall v :: v in r <==>
        v in Listing() && On(store.active, v) && v in store.viewContainer && store.viewContainer[v] == container
    {
      r := Filter(Current(), Listing(), WithContainer(container));
      forall v ensures v in r <==> v in Listing() && On(store.active, v) && v in store.viewContainer && store.viewContainer[v] == container {
        WithContainerMeaning(Current(), Listing(), container, v);
      }
    }

    /** getActiveItemsUnrelatedTo(item); None stands for a falsy argument. */
    method GetActiveItemsUnrelatedTo(item: Option<NodeId>) returns (r: seq<NodeId>)
      requires Valid() && Consistent(store.tree) && (item.Some? ==> item.value in store.tree)
      ensures item.None? ==> r == []
      ensures item.Some? ==> r == Unrelated(Current(), Listing(), item.value)
      ensures item.Some? ==> forall y :: y in r ==>
        y in store.tree && On(store.active, y) && GetHead(store.tree, y) != GetHead(store.tree, item.value)
      ensures item.Some? ==> ChildBeforeParent(store.tree, r)
    {
      if item.None? {
        return [];
      }
      var x := item.value;
      var unrelated := UnrelatedTopLevel(x);
      r := CollectBlocks(unrelated);
      UnrelatedActive(Current(), Listing(), x);
      ValuesNoDup(items, keys, store.idOf);
      UnrelatedOrder(Current(), Listing(), x);
    }

    /** The active top-level items whose head is not x's head. */
    method UnrelatedTopLevel(x: NodeId) returns (u: seq<NodeId>)
      requires Valid() && Rooted(store.tree) && x in store.tree
      ensures u == UnrelatedTops(Current(), Listing(), x) && AllIn(u, store.tree)
    {
      var head := GetHead(store.tree, x);                  // item.getHead()
      var tops := GetActiveTopLevelItems();
      u := Filter(Current(), tops, NotHead(head));
      KeepMeaning(Current(), tops, NotHead(head));
    }

    /** The loop of getActiveItemsUnrelatedTo: each view's active descendants and the view
        are put in front of what was collected. */
    method CollectBlocks(u: seq<NodeId>) returns (r: seq<NodeId>)
      requires store.Valid() && Descending(store.tree) && AllIn(u, store.tree)
      ensures r == RevBlocks(store.tree, store.active, u)
    {
      r := [];
      for i := 0 to |u|
        invariant r == RevBlocks(store.tree, store.active, u[..i])
      {
        assert u[..i + 1][..i] == u[..i];
        var view := u[i];
        var d := store.ActiveDescendantPartials(view);
        r := d + [view] + r;
      }
      assert u[..|u|] == u;
    }

    /** teardownItems(list). */
    method TeardownItems(list: seq<NodeId>)
      requires Valid() && AllIn(list, store.tree)
      modifies store
      ensures Valid() && Snap() == TeardownStep(store.tree, old(Snap()), list)
    {
      for i := 0 to |list|
        invariant store.Valid() && Snap() == TeardownStep(store.tree, old(Snap()), list[..i])
      {
        assert list[..i + 1][..i] == list[..i];
        store.TeardownViews(list[i]);
      }
      assert list[..|list|] == list;
    }

    /** renderItems(list). */
    method RenderItems(list: seq<NodeId>)
      requires Valid() && AllIn(list, store.tree)
      modifies store
      ensures Valid() && Snap() == RenderStep(store.tree, old(Snap()), list)
    {
      for i := 0 to |list|
        invariant store.Valid() && Snap() == RenderStep(store.tree, old(Snap()), list[..i])
      {
        assert list[..i + 1][..i] == list[..i];
        store.trace := store.trace + [ViewRender(list[i])];    // items[i].view.render()
        store.active := store.active[list[i] := true];
      }
      assert list[..|list|] == list;
    }

    /** addChildView(parentId, view). */
    method AddChildView(parentId: string, view: ViewArg) returns (r: Outcome)
      requires Valid()
      modifies store
      ensures Valid()
      ensures r.Fail? <==> view.Falsy? || view.container.None? || !view.hasTeardown
      ensures r.Fail? ==> r.error == TypeError && Snap() == old(Snap())
      ensures r.Pass? && parentId in items ==>
        Snap() == ChildViewAdded(store.tree, old(Snap()), items[parentId], ChildView(view.ref, view.container.value))
      ensures r.Pass? && parentId !in items ==> Snap() == old(Snap())
    {
      if view.Falsy? {
        return Fail(TypeError);
      }
      if view.container.None? {
        return Fail(TypeError);
      }
      if !view.hasTeardown {
        return Fail(TypeError);
      }
      if parentId in items {
        var parent := items[parentId];
        store.TeardownChildView(parent, view.container.value);
        store.childViews := store.childViews[parent := store.childViews[parent] + [ChildView(view.ref, view.container.value)]];
      }
      r := Pass;
    }

    /** addItem(item): n outside the store stands for an argument that is not a
        PartialViewCollectionItem. */
    method AddItem(n: NodeId) returns (r: Outcome)
      requires Valid()
      modifies this
      ensures Valid()
      ensures n !in store.tree ==> r == Fail(TypeError) && items == old(items) && keys == old(keys)
      ensures n in store.tree ==> r == Pass && items == old(items)[store.idOf[n] := n]
      ensures n in store.tree ==> keys == if store.idOf[n] in old(keys) then old(keys) else old(keys) + [store.idOf[n]]
    {
      if n !in store.tree {
        return Fail(TypeError);
      }
      var id := store.idOf[n];
      AddKeepsRegistry(items, keys, store.tree, store.idOf, n);
      items := items[id := n];
      if id !in keys {
        keys := keys + [id];
      }
      r := Pass;
    }
  
    /** render(itemId). */
    method Render(itemId: string) returns (r: Outcome)
      requires Valid() && Consistent(store.tree)
      modifies store
      ensures Valid()
      ensures itemId == "" || itemId !in items ==> r == Fail(TypeError) && Snap() == old(Snap())
      ensures itemId != "" && itemId in items ==>
        r == Pass && Snap() == RenderSpec(store.tree, store.viewContainer, Listing(), old(Snap()), items[itemId])
    {
      if itemId == "" {
        return Fail(TypeError);                            // !itemId
      }
      if itemId !in items {
        return Fail(TypeError);                            // item.parent of undefined
      }
      RenderItem(items[itemId]);
      r := Pass;
    }

    /** The body of render once the item is found. */
    method RenderItem(item: NodeId)
      requires Valid() && Consistent(store.tree) && item in store.tree
      modifies store
      ensures Valid() && Snap() == RenderSpec(store.tree, store.viewContainer, Listing(), old(Snap()), item)
    {
      ghost var s1 := RenderSpecUnfold(store.tree, store.viewContainer, Listing(), Snap(), item);
      var parent := store.tree[item].parent;
      TeardownDescendants(item);
      if !store.active[item] {
        RenderInactive(item, parent);
      }
    }

    /** this.teardownItems(item.getActiveDescendantPartials()). */
    method TeardownDescendants(x: NodeId)
      requires Valid() && Descending(store.tree) && x in store.tree
      modifies store
      ensures AllIn(Below(store.tree, IsOn(old(store.active)), x), store.tree)
      ensures Valid() && Snap() == TeardownStep(store.tree, old(Snap()), Below(store.tree, IsOn(old(store.active)), x))
    {
      var descendants := store.ActiveDescendantPartials(x);
      BelowIn(store.tree, store.active, x);
      TeardownItems(descendants);
    }

    /** The part of render after `if (!item.active)`. */
    method RenderInactive(x: NodeId, parent: Option<NodeId>)
      requires Valid() && Consistent(store.tree) && x in store.tree && parent == store.tree[x].parent
      modifies store
      ensures Valid() && Snap() == RenderTail(store.tree, store.viewContainer, Listing(), old(Snap()), x)
    {
      ghost var l0 := Listing();
      ghost var s1 := Snap();
      PrepareRender(x, parent);
      assert Listing() == l0;
      ghost var s5 := Snap();
      assert s5 == Prepared(store.tree, store.viewContainer, l0, s1, x);
      RenderChain(x);
      assert Listing() == l0;
      ghost var t := TailUnfold(store.tree, store.viewContainer, l0, s1, x);
      assert Snap() == RenderStep(store.tree, s5, InactiveChain(store.tree, s5.active, x));
    }

    /** this.renderItems(item.getInactiveParents()). */
    method RenderChain(x: NodeId)
      requires Valid() && Rooted(store.tree) && x in store.tree
      modifies store
      ensures AllIn(InactiveChain(store.tree, old(store.active), x), store.tree)
      ensures Valid() && Snap() == RenderStep(store.tree, old(Snap()), InactiveChain(store.tree, old(store.active), x))
    {
      var again := store.InactiveParents(x);
      ChainIn(store.tree, store.active, x);
      RenderItems(again);
    }

    /** The teardowns of render for an item that is still inactive, in order. */
    method PrepareRender(x: NodeId, parent: Option<NodeId>)
      requires Valid() && Consistent(store.tree) && x in store.tree && parent == store.tree[x].parent
      modifies store
      ensures Valid() && Snap() == Prepared(store.tree, store.viewContainer, Listing(), old(Snap()), x)
    {
      ghost var l0 := Listing();
      ghost var s0 := Snap();
      TeardownUnrelated(x);
      assert Listing() == l0;
      ghost var s2 := Snap();
      assert s2 == UnrelatedStep(store.tree, store.viewContainer, l0, s0, x);
      FinishPrepare(x, parent);
      assert Listing() == l0;
      assert Snap() == AfterUnrelated(store.tree, store.viewContainer, l0, s2, x);
    }

    method FinishPrepare(x: NodeId, parent: Option<NodeId>)
      requires Valid() && Consistent(store.tree) && x in store.tree && parent == store.tree[x].parent
      modifies store
      ensures Valid() && Snap() == AfterUnrelated(store.tree, store.viewContainer, Listing(), old(Snap()), x)
    {
      TeardownAboveChain(x);
      ReplaceAndClear(x, parent);
    }

    method ReplaceAndClear(x: NodeId, parent: Option<NodeId>)
      requires Valid() && Rooted(store.tree) && x in store.tree && parent == store.tree[x].parent
      modifies store
      ensures Valid()
      ensures Snap() == ContainerStep(store.tree, store.viewContainer, Listing(),
        ParentViewStep(store.tree, store.viewContainer, old(Snap()), x), x)
    {
      ReplaceParentView(x, parent);
      TeardownSameContainer(x);
    }

    /** this.teardownItems(this.getActiveItemsUnrelatedTo(item)). */
    method TeardownUnrelated(x: NodeId)
      requires Valid() && Consistent(store.tree) && x in store.tree
      modifies store
      ensures Valid() && Snap() == UnrelatedStep(store.tree, store.viewContainer, Listing(), old(Snap()), x)
    {
      var u := GetActiveItemsUnrelatedTo(Some(x));
      TeardownItems(u);
    }

    /** The teardown of the active descendants of inactiveParents[0].parent. */
    method TeardownAboveChain(x: NodeId)
      requires Valid() && Consistent(store.tree) && x in store.tree
      modifies store
      ensures Valid() && Snap() == AncestorStep(store.tree, old(Snap()), x)
    {
      var inactiveParents := store.InactiveParents(x);
      InactiveChainShape(store.tree, store.active, x);
      if |inactiveParents| > 0 && store.tree[inactiveParents[0]].parent.Some? {
        var p := store.tree[inactiveParents[0]].parent.value;
        LevelParent(store.tree, inactiveParents[0]);
        var childrenToTeardown := store.ActiveDescendantPartials(p);
        BelowIn(store.tree, store.active, p);
        TeardownItems(childrenToTeardown);
      }
    }

    /** if (parent) parent.teardownChildView(item.view.container). */
    method ReplaceParentView(x: NodeId, parent: Option<NodeId>)
      requires Valid() && Rooted(store.tree) && x in store.tree && parent == store.tree[x].parent
      modifies store
      ensures Valid() && Snap() == ParentViewStep(store.tree, store.viewContainer, old(Snap()), x)
    {
      if parent.Some? {
        LevelParent(store.tree, x);
        store.TeardownChildView(parent.value, store.viewContainer[x]);
      }
    }

    /** this.teardownItems(this.getPartialViewActiveWithDomContainer(item.view.container)). */
    method TeardownSameContainer(x: NodeId)
      requires Valid() && x in store.tree
      modifies store
      ensures Valid() && Snap() == ContainerStep(store.tree, store.viewContainer, Listing(), old(Snap()), x)
    {
      var w := GetPartialViewActiveWithDomContainer(store.viewContainer[x]);
      KeepMeaning(Current(), Listing(), WithContainer(store.viewContainer[x]));
      TeardownItems(w);
    }
  }
}
