/**
 * Tyro.ViewManager: the registry of top-level views.  A view added here is pushed onto a
 * lazily created list and subscribed to three of its own events; the handlers prune the
 * list when the view gains a parent and tear down views when another one is shown.  The
 * views' subscription lists and their teardown lie outside the core and are recorded in
 * ghost state.
 */
module ViewRegistry {
  import opened Common
  import opened TreeShape

  /** The view events the manager listens to. */
  datatype Event = Activating | Rendering | ParentChanged

  /** The manager's handlers: _teardownViewsOtherThan and _detachObservers. */
  datatype Handler = TeardownOthers | DetachObservers

  /** view.on(event, handler, manager), as a record. */
  datatype Subscription = Subscription(view: NodeId, event: Event, handler: Handler)

  /** How a call ends: it returns, it throws, or it never returns. */
  datatype Exit = Returned | Threw(error: Error) | Hangs

  /** view.parent; an object that is no tree node has none. */
  function ParentOf(m: Arena, v: NodeId): (p: Option<NodeId>)
    ensures p.Some? <==> v in m && m[v].parent.Some?
    ensures p.Some? ==> p == m[v].parent
  {
    if v in m then m[v].parent else None
  }

  /** The three subscriptions addTopLevelView makes on v, in call order. */
  function Subscribed(v: NodeId): seq<Subscription> {
    [Subscription(v, Activating, TeardownOthers),
     Subscription(v, Rendering, TeardownOthers),
     Subscription(v, ParentChanged, DetachObservers)]
  }

  /** view.detach(event, handler, manager): every matching record is dropped. */
  function Without(subs: seq<Subscription>, s: Subscription): (r: seq<Subscription>)
    ensures forall t :: t in r <==> t in subs && t != s
  {
    if subs == [] then []
    else Without(subs[..|subs| - 1], s) + (if subs[|subs| - 1] == s then [] else [subs[|subs| - 1]])
  }

  // ---------------------------------------------------------------------------------
  // _detachObservers on the list
  // ---------------------------------------------------------------------------------

  /** The entries of t equal to v. */
  function Matching(t: seq<NodeId>, v: NodeId): seq<NodeId> {
    if t == [] then [] else (if t[0] == v then [t[0]] else []) + Matching(t[1..], v)
  }

  /** What the descending splice loop leaves of a non-empty list: the first entry, then
      the later entries that are v itself. */
  function Survivors(vs: seq<NodeId>, v: NodeId): seq<NodeId>
    requires vs != []
  {
    [vs[0]] + Matching(vs[1..], v)
  }

  lemma {:induction false} MatchingMeaning(t: seq<NodeId>, v: NodeId)
    ensures forall k :: 0 <= k < |Matching(t, v)| ==> Matching(t, v)[k] == v
    ensures |Matching(t, v)| == multiset(t)[v]
  {
    if t != [] {
      MatchingMeaning(t[1..], v);
      assert t == [t[0]] + t[1..];
      assert multiset(t) == multiset([t[0]]) + multiset(t[1..]);
      var r := Matching(t, v);
      var h := if t[0] == v then [t[0]] else [];
      assert r == h + Matching(t[1..], v);
      forall k | 0 <= k < |r|
        ensures r[k] == v
      {
        if k >= |h| {
          assert r[k] == Matching(t[1..], v)[k - |h|];
        }
      }
    }
  }

  /** _detachObservers keeps the first entry whatever it is, removes every later entry
      other than v, and keeps each later copy of v: v survives exactly when it was
      registered, and nothing else joins the list. */
  lemma SurvivorsMeaning(vs: seq<NodeId>, v: NodeId, w: NodeId)
    requires vs != []
    ensures var r := Survivors(vs, v);
      && r[0] == vs[0]
      && (forall k :: 1 <= k < |r| ==> r[k] == v)
      && |r| == 1 + multiset(vs[1..])[v]
      && (w in r <==> w == vs[0] || (w == v && v in vs[1..]))
  {
    MatchingMeaning(vs[1..], v);
    var r := Survivors(vs, v);
    assert r[1..] == Matching(vs[1..], v);
    assert v in vs[1..] <==> multiset(vs[1..])[v] > 0;
    if w in r && w != vs[0] {
      var k :| 0 <= k < |r| && r[k] == w;
      assert k >= 1;
    }
    if w == v && v in vs[1..] {
      assert r[1] == v;
    }
  }

  /** On a registry without duplicates the loop leaves the first entry, followed by v when
      v is registered further on. */
  lemma SurvivorsOfRegistry(vs: seq<NodeId>, v: NodeId)
    requires vs != [] && NoDup(vs)
    ensures Survivors(vs, v) == if v in vs[1..] then [vs[0], v] else [vs[0]]
  {
    MatchingMeaning(vs[1..], v);
    var r := Survivors(vs, v);
    assert NoDup(vs[1..]);
    if v in vs[1..] {
      var j :| 0 <= j < |vs[1..]| && vs[1..][j] == v;
      assert multiset(vs[1..])[v] == 1 by {
        assert vs[1..] == vs[1..][..j] + [v] + vs[1..][j + 1..];
        assert v !in vs[1..][..j] && v !in vs[1..][j + 1..];
      }
      assert r == [vs[0], r[1]];
    } else {
      assert multiset(vs[1..])[v] == 0;
    }
  }

  /** One round of the splice loop keeps the list equal to the untouched prefix followed
      by the copies of v found so far. */
  lemma PruneStep(vs: seq<NodeId>, i: nat, v: NodeId)
    requires 0 < i < |vs|
    ensures var l := vs[..i + 1] + Matching(vs[i + 1..], v);
      && l[i] == vs[i]
      && (if v != l[i] then l[..i] + l[i + 1..] else l) == vs[..i] + Matching(vs[i..], v)
  {
    var l := vs[..i + 1] + Matching(vs[i + 1..], v);
    assert vs[i..] == [vs[i]] + vs[i + 1..];
    assert vs[..i + 1] == vs[..i] + [vs[i]];
    assert l[..i] == vs[..i];
    assert l[i + 1..] == Matching(vs[i + 1..], v);
  }

  // ---------------------------------------------------------------------------------
  // _teardownViewsOtherThan on the list
  // ---------------------------------------------------------------------------------

  /** The entries of vs other than v, in order. */
  function Others(vs: seq<NodeId>, v: NodeId): seq<NodeId> {
    if vs == [] then []
    else Others(vs[..|vs| - 1], v) + (if vs[|vs| - 1] == v then [] else [vs[|vs| - 1]])
  }

  /** The teardown calls of the loop as written: v itself, once per entry other than v. */
  function TeardownsAsWritten(vs: seq<NodeId>, v: NodeId): seq<NodeId> {
    if vs == [] then []
    else TeardownsAsWritten(vs[..|vs| - 1], v) + (if vs[|vs| - 1] == v then [] else [v])
  }

  /** As written, the loop tears down the very view being shown, as often as there are
      other entries, and never any other view. */
  lemma {:induction false} TeardownsAsWrittenMeaning(vs: seq<NodeId>, v: NodeId)
    ensures |TeardownsAsWritten(vs, v)| == |Others(vs, v)|
    ensures forall k :: 0 <= k < |TeardownsAsWritten(vs, v)| ==> TeardownsAsWritten(vs, v)[k] == v
  {
    if vs != [] {
      TeardownsAsWrittenMeaning(vs[..|vs| - 1], v);
    }
  }

  /** Two registered views, the second one shown: the as-written loop tears down the shown
      view and leaves the other one alone, where the intended behaviour is the reverse. */
  lemma TeardownsAsWrittenCounterexample()
    ensures TeardownsAsWritten([0, 1], 1) == [1]
    ensures Others([0, 1], 1) == [0]
  {
    assert [0, 1][..1] == [0];
    assert [0][..0] == [];
  }

  /** Each registered view other than v is torn down, v never; a view registered once is
      torn down exactly once, and the calls follow registration order. */
  lemma {:induction false} OthersMeaning(vs: seq<NodeId>, v: NodeId, w: NodeId)
    ensures (w in Others(vs, v) <==> w in vs && w != v)
    ensures multiset(Others(vs, v))[w] == if w == v then 0 else multiset(vs)[w]
    ensures NoDup(vs) ==> NoDup(Others(vs, v))
  {
    if vs != [] {
      var init := vs[..|vs| - 1];
      var last := vs[|vs| - 1];
      OthersMeaning(init, v, w);
      OthersMeaning(init, v, last);
      assert vs == init + [last];
      assert multiset(vs) == multiset(init) + multiset([last]);
      if NoDup(vs) {
        assert NoDup(init);
        assert last !in init;
        var o := Others(vs, v);
        var oi := Others(init, v);
        if last != v {
          assert o == oi + [last];
          forall i, j | 0 <= i < j < |o|
            ensures o[i] != o[j]
          {
            if j == |oi| {
              assert o[i] == oi[i] && oi[i] in oi;
            } else {
              assert o[i] == oi[i] && o[j] == oi[j];
            }
          }
        } else {
          assert o == oi;
        }
      }
    }
  }

  // ---------------------------------------------------------------------------------
  // The manager
  // ---------------------------------------------------------------------------------

  class ViewManager {
    /** this.views: undefined until _ensureViews first runs. */
    var views: Option<seq<NodeId>>
    /** The subscriptions made on views on behalf of the manager. */
    ghost var subscriptions: seq<Subscription>
    /** The views whose teardown() the manager has called, in call order. */
    ghost var teardowns: seq<NodeId>

    constructor ()
      ensures views == None && subscriptions == [] && teardowns == []
    {
      views := None;
      subscriptions := [];
      teardowns := [];
    }

    /** _ensureViews: an existing list is kept, a missing one becomes empty; running it
        again changes nothing. */
    method EnsureViews()
      modifies this
      ensures views == Some(old(views).GetOr([]))
      ensures subscriptions == old(subscriptions) && teardowns == old(teardowns)
      ensures old(views).Some? ==> views == old(views)
    {
      if views.None? {
        views := Some([]);
      }
    }

    /** addTopLevelView(view): a view with a parent is refused with nothing changed;
        otherwise it goes to the end of the list and is subscribed to three events.  An
        object that is not a node has no parent and no on method: it is pushed, and then
        view.on throws. */
    method AddTopLevelView(m: Arena, view: NodeId) returns (r: Outcome)
      modifies this
      ensures teardowns == old(teardowns)
      ensures ParentOf(m, view).Some? ==>
        r == Fail(NotTopLevel) && views == old(views) && subscriptions == old(subscriptions)
      ensures view !in m ==>
        r == Fail(TypeError) && views == Some(old(views).GetOr([]) + [view]) &&
        subscriptions == old(subscriptions)
      ensures view in m && ParentOf(m, view).None? ==>
        && r == Pass && views == Some(old(views).GetOr([]) + [view])
        && subscriptions == old(subscriptions) + Subscribed(view)
    {
      if ParentOf(m, view).Some? {
        return Fail(NotTopLevel);
      }
      EnsureViews();
      views := Some(views.value + [view]);
      if view !in m {
        return Fail(TypeError);        // view.on is not a function
      }
      subscriptions := subscriptions + [Subscription(view, Activating, TeardownOthers)];
      subscriptions := subscriptions + [Subscription(view, Rendering, TeardownOthers)];
      subscriptions := subscriptions + [Subscription(view, ParentChanged, DetachObservers)];
      return Pass;
    }

    /** _detachObservers(view): reading the length of a missing list throws; on an empty
        list the counter passes zero and the loop never ends; otherwise the list is
        pruned to Survivors, and the Activating and Rendering subscriptions of the view
        are dropped only when it now has a parent.  The ParentChanged one always stays. */
    method DetachObserversOf(m: Arena, view: NodeId) returns (e: Exit)
      modifies this
      ensures teardowns == old(teardowns)
      ensures old(views).None? ==> e == Threw(TypeError) && views == old(views) && subscriptions == old(subscriptions)
      ensures old(views) == Some([]) ==> e == Hangs && views == old(views) && subscriptions == old(subscriptions)
      ensures old(views).Some? && old(views).value != [] ==>
        && e == Returned
        && views == Some(Survivors(old(views).value, view))
        && subscriptions == if ParentOf(m, view).Some? then Detached(old(subscriptions), view) else old(subscriptions)
    {
      if views.None? {
        return Threw(TypeError);
      }
      if views.value == [] {
        // --i takes the counter from 0 to -1, which is truthy, and on downwards
        return Hangs;
      }
      PruneOthers(view);
      if ParentOf(m, view).Some? {
        subscriptions := Without(subscriptions, Subscription(view, Activating, TeardownOthers));
        subscriptions := Without(subscriptions, Subscription(view, Rendering, TeardownOthers));
      }
      return Returned;
    }

    /** The loop of _detachObservers: i runs from the last index down to 1, and each
        entry there other than view is spliced out. */
    method PruneOthers(view: NodeId)
      requires views.Some? && views.value != []
      modifies this
      ensures views == Some(Survivors(old(views).value, view))
      ensures subscriptions == old(subscriptions) && teardowns == old(teardowns)
    {
      ghost var vs := views.value;
      var i := |views.value|;
      i := i - 1;                                          // --i
      while i != 0
        invariant 0 <= i < |vs| && views.Some?
        invariant views.value == vs[..i + 1] + Matching(vs[i + 1..], view)
        invariant subscriptions == old(subscriptions) && teardowns == old(teardowns)
        decreases i
      {
        PruneStep(vs, i, view);
        if view != views.value[i] {
          views := Some(views.value[..i] + views.value[i + 1..]);
        }
        i := i - 1;
      }
      assert vs[..1] == [vs[0]];
    }

    /** _teardownViewsOtherThan(view) as written: one view.teardown() per entry other than
        view, on view itself. */
    method TeardownViewsOtherThanAsWritten(view: NodeId) returns (e: Exit)
      modifies this
      ensures views == old(views) && subscriptions == old(subscriptions)
      ensures old(views).None? ==> e == Threw(TypeError) && teardowns == old(teardowns)
      ensures old(views).Some? ==> e == Returned && teardowns == old(teardowns) + TeardownsAsWritten(old(views).value, view)
    {
      if views.None? {
        return Threw(TypeError);
      }
      var vs := views.value;
      for i := 0 to |vs|
        invariant views == old(views) && subscriptions == old(subscriptions)
        invariant teardowns == old(teardowns) + TeardownsAsWritten(vs[..i], view)
      {
        assert vs[..i + 1][..i] == vs[..i];
        if view != vs[i] {
          teardowns := teardowns + [view];
        }
      }
      assert vs[..|vs|] == vs;
      return Returned;
    }

    /** _teardownViewsOtherThan(view) as evidently meant: each entry other than view is
        torn down, in list order. */
    method TeardownViewsOtherThan(view: NodeId) returns (e: Exit)
      modifies this
      ensures views == old(views) && subscriptions == old(subscriptions)
      ensures old(views).None? ==> e == Threw(TypeError) && teardowns == old(teardowns)
      ensures old(views).Some? ==> e == Returned && teardowns == old(teardowns) + Others(old(views).value, view)
    {
      if views.None? {
        return Threw(TypeError);
      }
      var vs := views.value;
      for i := 0 to |vs|
        invariant views == old(views) && subscriptions == old(subscriptions)
        invariant teardowns == old(teardowns) + Others(vs[..i], view)
      {
        assert vs[..i + 1][..i] == vs[..i];
        if view != vs[i] {
          teardowns := teardowns + [vs[i]];
        }
      }
      assert vs[..|vs|] == vs;
      return Returned;
    }
  }

  /** The two detach calls of _detachObservers. */
  function Detached(subs: seq<Subscription>, v: NodeId): (r: seq<Subscription>)
    ensures forall t :: t in r <==> t in subs && t != Subscription(v, Activating, TeardownOthers) && t != Subscription(v, Rendering, TeardownOthers)
  {
    Without(Without(subs, Subscription(v, Activating, TeardownOthers)), Subscription(v, Rendering, TeardownOthers))
  }
}
