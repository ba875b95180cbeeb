/** The cycle detector of the plan graph: Tarjan's strongly connected components. */
module Tarjan {
  import opened Graphs

  // ---- What a component is ----

  /** A maximal set of nodes that reach each other. */
  ghost predicate IsComponent(g: Graph, c: set<NodeId>) {
    c != {} && forall x, y :: x in c ==> (y in c <==> Reach(g, x, y) && Reach(g, y, x))
  }

  // ---- The search, as a value ----

  /** A moment of the search: the stack (top last), the indices given so far, the nodes
      whose calls are active, and the components popped so far. */
  datatype Env = Env(stack: seq<NodeId>, index: map<NodeId, nat>, active: set<NodeId>, popped: seq<seq<NodeId>>)

  ghost predicate IsPopped(e: Env, x: NodeId) {
    exists i :: 0 <= i < |e.popped| && x in e.popped[i]
  }

  predicate StackOrdered(e: Env, counter: nat) {
    && (forall x :: x in e.stack ==> x in e.index)
    && (forall x :: x in e.index ==> e.index[x] < counter)
    && (forall i, j :: 0 <= i < j < |e.stack| ==> e.index[e.stack[i]] < e.index[e.stack[j]])
    && (forall x :: x in e.active ==> x in e.stack)
  }

  /** A node whose call has returned has only indexed successors. */
  ghost predicate FinishedExplored(g: Graph, e: Env) {
    forall x, y :: x in e.index && x !in e.active && (x, y) in g ==> y in e.index
  }

  /** Lower stack nodes reach higher ones, and every stack node reaches an active one
      at or below it. */
  ghost predicate StackConnected(g: Graph, e: Env) {
    && (forall i, j :: 0 <= i <= j < |e.stack| ==> Reach(g, e.stack[i], e.stack[j]))
    && (forall j :: 0 <= j < |e.stack| ==> ReachesActive(g, e, j))
  }

  ghost predicate ReachesActive(g: Graph, e: Env, j: nat)
    requires j < |e.stack|
  {
    exists i :: 0 <= i <= j && e.stack[i] in e.active && Reach(g, e.stack[j], e.stack[i])
  }

  /** The popped lists are disjoint components without repetitions, they hold exactly the
      indexed nodes that are not on the stack, and edges lead back among them. */
  ghost predicate PoppedComponents(g: Graph, e: Env) {
    && (forall i :: 0 <= i < |e.popped| ==> IsComponent(g, Elements(e.popped[i])))
    && (forall i, j, k :: 0 <= i < |e.popped| && 0 <= j < k < |e.popped[i]| ==> e.popped[i][j] != e.popped[i][k])
    && (forall i, j :: 0 <= i < j < |e.popped| ==> Elements(e.popped[i]) !! Elements(e.popped[j]))
    && (forall x :: IsPopped(e, x) <==> x in e.index && x !in e.stack)
    && EdgesBack(g, e.popped)
  }

  ghost predicate PoppedBy(popped: seq<seq<NodeId>>, i: nat, y: NodeId) {
    exists j :: 0 <= j <= i && j < |popped| && y in popped[j]
  }

  /** Edges lead from a component to itself or to components popped before it. */
  ghost predicate EdgesBack(g: Graph, popped: seq<seq<NodeId>>) {
    forall i: nat, x, y :: i < |popped| && x in popped[i] && (x, y) in g ==> PoppedBy(popped, i, y)
  }

  ghost predicate Inv(g: Graph, e: Env, counter: nat) {
    && StackOrdered(e, counter)
    && FinishedExplored(g, e)
    && StackConnected(g, e)
    && PoppedComponents(g, e)
  }

  // ---- One move of the search keeps the invariant ----

  /** Entering `v`. */
  function Pushed(e: Env, v: NodeId, counter: nat): Env {
    Env(e.stack + [v], e.index[v := counter], e.active + {v}, e.popped)
  }

  lemma PoppedKept(g: Graph, e: Env, d: Env)
    requires PoppedComponents(g, e) && d.popped == e.popped
    requires forall x :: (x in d.index && x !in d.stack) <==> (x in e.index && x !in e.stack)
    ensures PoppedComponents(g, d)
  {
    hide IsComponent;
    assert forall x :: IsPopped(d, x) <==> IsPopped(e, x);
  }

  lemma PushKeeps(g: Graph, e: Env, counter: nat, v: NodeId)
    requires Inv(g, e, counter) && v !in e.index && forall x :: x in e.active ==> Reach(g, x, v)
    ensures Inv(g, Pushed(e, v, counter), counter + 1)
  {
    hide Reach, PoppedComponents;
    var d, n := Pushed(e, v, counter), |e.stack|;
    ReachSelf(g, v);
    forall i | 0 <= i <= n ensures Reach(g, d.stack[i], v) {
      if i < n {
        assert ReachesActive(g, e, i);
        var k :| 0 <= k <= i && e.stack[k] in e.active && Reach(g, e.stack[i], e.stack[k]);
        ReachTrans(g, e.stack[i], e.stack[k], v);
      }
    }
    forall j | 0 <= j <= n ensures ReachesActive(g, d, j) {
      if j < n {
        assert ReachesActive(g, e, j);
        var k :| 0 <= k <= j && e.stack[k] in e.active && Reach(g, e.stack[j], e.stack[k]);
        assert d.stack[k] in d.active && Reach(g, d.stack[j], d.stack[k]);
      } else {
        assert d.stack[n] in d.active && Reach(g, d.stack[n], d.stack[n]);
      }
    }
    assert v !in e.stack;
    PoppedKept(g, e, d);
  }

  /** Leaving `v` when it reaches a node below it on the stack. */
  lemma LeaveKeeps(g: Graph, e: Env, counter: nat, at: nat, low: nat)
    requires Inv(g, e, counter) && low < at < |e.stack| && e.stack[at] in e.active
    requires Reach(g, e.stack[at], e.stack[low])
    requires forall y :: (e.stack[at], y) in g ==> y in e.index
    ensures Inv(g, e.(active := e.active - {e.stack[at]}), counter)
  {
    hide Reach, PoppedComponents;
    var v, d := e.stack[at], e.(active := e.active - {e.stack[at]});
    forall j | 0 <= j < |e.stack| ensures ReachesActive(g, d, j) {
      assert ReachesActive(g, e, j);
      var k :| 0 <= k <= j && e.stack[k] in e.active && Reach(g, e.stack[j], e.stack[k]);
      if k == at {
        assert ReachesActive(g, e, low);
        var i :| 0 <= i <= low && e.stack[i] in e.active && Reach(g, e.stack[low], e.stack[i]);
        ReachTrans(g, e.stack[j], v, e.stack[low]);
        ReachTrans(g, e.stack[j], e.stack[low], e.stack[i]);
        assert d.stack[i] in d.active && Reach(g, d.stack[j], d.stack[i]);
      } else {
        assert d.stack[k] in d.active && Reach(g, d.stack[j], d.stack[k]);
      }
    }
    PoppedKept(g, e, d);
  }

  /** The part of the stack from `at` up is about to be popped: its lowest node is active,
      the others have returned, and no edge leads from it to the stack below. */
  ghost predicate Closed(g: Graph, e: Env, at: nat) {
    && at < |e.stack| && e.stack[at] in e.active
    && (forall k :: at < k < |e.stack| ==> e.stack[k] !in e.active)
    && (forall y :: (e.stack[at], y) in g ==> y in e.index)
    && (forall k, j :: at <= k < |e.stack| && 0 <= j < at ==> (e.stack[k], e.stack[j]) !in g)
  }

  /** Every node of the closed part and its lowest node reach each other. */
  lemma ClosedConnected(g: Graph, e: Env, counter: nat, at: nat, x: NodeId)
    requires Inv(g, e, counter) && Closed(g, e, at) && x in e.stack[at..]
    ensures Reach(g, e.stack[at], x) && Reach(g, x, e.stack[at])
  {
    hide Reach, PoppedComponents;
    var j :| at <= j < |e.stack| && e.stack[j] == x;
    assert ReachesActive(g, e, j);
    var i :| 0 <= i <= j && e.stack[i] in e.active && Reach(g, x, e.stack[i]);
    if i < at {
      ReachTrans(g, x, e.stack[i], e.stack[at]);
    }
  }

  /** A walk that can come back from its end never leaves the closed part. */
  lemma {:induction false} WalkStaysInside(g: Graph, e: Env, counter: nat, at: nat, p: seq<NodeId>)
    requires Inv(g, e, counter) && Closed(g, e, at)
    requires Walk(g, p) && p[0] == e.stack[at] && Reach(g, p[|p| - 1], e.stack[at])
    ensures p[|p| - 1] in e.stack[at..]
    decreases |p|
  {
    hide Reach, StackConnected, IsComponent;
    var v, n := e.stack[at], |p| - 1;
    if n > 0 {
      var z, y := p[n - 1], p[n];
      assert (z, y) in g;
      ReachEdge(g, z, y);
      ReachTrans(g, z, y, v);
      WalkStaysInside(g, e, counter, at, p[..n]);
      ClosedConnected(g, e, counter, at, z);
      ReachTrans(g, v, z, y);
      var k :| at <= k < |e.stack| && e.stack[k] == z;
      if y !in e.stack {
        NotPopped(g, e, v, y);
      }
    }
  }

  /** A node on the stack shares no cycle with a popped one. */
  lemma NotPopped(g: Graph, e: Env, v: NodeId, y: NodeId)
    requires PoppedComponents(g, e) && v in e.stack && Reach(g, v, y) && Reach(g, y, v)
    ensures !IsPopped(e, y)
  {
    if IsPopped(e, y) {
      var i :| 0 <= i < |e.popped| && y in e.popped[i];
      assert y in Elements(e.popped[i]);
      assert IsComponent(g, Elements(e.popped[i]));
      assert v in e.popped[i];
      assert IsPopped(e, v);
    }
  }

  lemma ComponentFound(g: Graph, e: Env, counter: nat, at: nat)
    requires Inv(g, e, counter) && Closed(g, e, at)
    ensures IsComponent(g, Elements(e.stack[at..]))
  {
    hide Inv;
    var v, c := e.stack[at], Elements(e.stack[at..]);
    assert e.stack[at..][0] == v && v in c;
    forall x, y | x in c ensures y in c <==> Reach(g, x, y) && Reach(g, y, x) {
      ClosedConnected(g, e, counter, at, x);
      if y in c {
        ClosedConnected(g, e, counter, at, y);
        ReachTrans(g, x, v, y);
        ReachTrans(g, y, v, x);
      } else if Reach(g, x, y) && Reach(g, y, x) {
        ReachTrans(g, v, x, y);
        ReachTrans(g, y, x, v);
        var p :| WalkFromTo(g, p, v, y);
        WalkStaysInside(g, e, counter, at, p);
      }
    }
  }

  function Reversed(s: seq<NodeId>): (r: seq<NodeId>)
    ensures |r| == |s| && forall i :: 0 <= i < |s| ==> r[i] == s[|s| - 1 - i]
    ensures forall x :: x in r <==> x in s
  {
    if s == [] then [] else
      var r := Reversed(s[..|s| - 1]);
      assert s == s[..|s| - 1] + [s[|s| - 1]];
      [s[|s| - 1]] + r
  }

  function Popped(e: Env, at: nat): Env
    requires at < |e.stack|
  {
    Env(e.stack[..at], e.index, e.active - {e.stack[at]}, e.popped + [Reversed(e.stack[at..])])
  }

  lemma PopConnected(g: Graph, e: Env, counter: nat, at: nat)
    requires StackOrdered(e, counter) && StackConnected(g, e) && Closed(g, e, at)
    ensures StackConnected(g, Popped(e, at))
  {
    hide Reach, Reversed;
    var d := Popped(e, at);
    forall j | 0 <= j < at ensures ReachesActive(g, d, j) {
      assert ReachesActive(g, e, j);
      var i :| 0 <= i <= j && e.stack[i] in e.active && Reach(g, e.stack[j], e.stack[i]);
      assert d.stack[i] in d.active && Reach(g, d.stack[j], d.stack[i]);
    }
  }

  lemma PopOrdered(g: Graph, e: Env, counter: nat, at: nat)
    requires StackOrdered(e, counter) && FinishedExplored(g, e) && Closed(g, e, at)
    ensures StackOrdered(Popped(e, at), counter) && FinishedExplored(g, Popped(e, at))
  {
    hide Reversed;
    forall x | x in e.active && x != e.stack[at] ensures x in e.stack[..at] {
      var k :| 0 <= k < |e.stack| && e.stack[k] == x;
      assert e.stack[..at][k] == x;
    }
  }

  lemma PopDisjoint(e: Env, counter: nat, at: nat, x: NodeId)
    requires StackOrdered(e, counter) && at < |e.stack|
    ensures x in e.stack <==> x in e.stack[..at] || x in e.stack[at..]
    ensures x in e.stack[at..] ==> x !in e.stack[..at]
  {
    assert e.stack == e.stack[..at] + e.stack[at..];
  }

  lemma PoppedSplit(e: Env, at: nat, x: NodeId)
    requires at < |e.stack|
    ensures IsPopped(Popped(e, at), x) <==> IsPopped(e, x) || x in e.stack[at..]
  {
    var d, n := Popped(e, at), |e.popped|;
    if IsPopped(e, x) {
      var i :| 0 <= i < n && x in e.popped[i];
      assert x in d.popped[i];
    }
    if x in e.stack[at..] {
      assert x in d.popped[n];
    }
  }

  lemma PopEdgesBack(g: Graph, e: Env, counter: nat, at: nat)
    requires StackOrdered(e, counter) && FinishedExplored(g, e) && Closed(g, e, at) && EdgesBack(g, e.popped)
    requires forall x :: IsPopped(e, x) <==> x in e.index && x !in e.stack
    ensures EdgesBack(g, Popped(e, at).popped)
  {
    hide Reversed;
    var d, n := Popped(e, at), |e.popped|;
    forall i: nat, x, y | i <= n && x in d.popped[i] && (x, y) in g ensures PoppedBy(d.popped, i, y) {
      if i < n {
        assert PoppedBy(e.popped, i, y);
        var j :| 0 <= j <= i && y in e.popped[j];
        assert y in d.popped[j];
      } else {
        OpenEdge(g, e, counter, at, x, y);
        if y in e.stack[at..] {
          assert y in d.popped[n];
        } else {
          var j :| 0 <= j < n && y in e.popped[j];
          assert y in d.popped[j];
        }
      }
    }
  }

  /** An edge from the closed part stays within it or leads to a popped node. */
  lemma OpenEdge(g: Graph, e: Env, counter: nat, at: nat, x: NodeId, y: NodeId)
    requires StackOrdered(e, counter) && FinishedExplored(g, e) && Closed(g, e, at)
    requires forall z :: IsPopped(e, z) <==> z in e.index && z !in e.stack
    requires x in e.stack[at..] && (x, y) in g
    ensures y in e.stack[at..] || IsPopped(e, y)
  {
    hide IsPopped;
    var k :| 0 <= k < |e.stack[at..]| && e.stack[at..][k] == x;
    assert e.stack[at + k] == x;
    assert y in e.index;
    if y in e.stack {
      var j :| 0 <= j < |e.stack| && e.stack[j] == y;
      assert j >= at;
      assert e.stack[at..][j - at] == y;
    }
  }

  lemma PopListed(g: Graph, e: Env, counter: nat, at: nat)
    requires StackOrdered(e, counter) && FinishedExplored(g, e) && PoppedComponents(g, e) && Closed(g, e, at)
    requires IsComponent(g, Elements(e.stack[at..]))
    ensures PoppedComponents(g, Popped(e, at))
  {
    hide IsComponent, IsPopped, EdgesBack, FinishedExplored;
    PopEdgesBack(g, e, counter, at);
    var d, n := Popped(e, at), |e.popped|;
    var comp := d.popped[n];
    assert Elements(comp) == Elements(e.stack[at..]);
    forall x ensures IsPopped(d, x) <==> x in d.index && x !in d.stack {
      PoppedSplit(e, at, x);
      PopDisjoint(e, counter, at, x);
    }
    forall i | 0 <= i < n ensures Elements(e.popped[i]) !! Elements(comp) {
      forall x | x in e.popped[i] ensures x !in comp { ListedIsPopped(e, i, x); }
    }
  }

  lemma ListedIsPopped(e: Env, i: nat, x: NodeId)
    requires i < |e.popped| && x in e.popped[i]
    ensures IsPopped(e, x)
  {
  }

  /** Leaving `v` by popping the closed part. */
  lemma PopKeeps(g: Graph, e: Env, counter: nat, at: nat)
    requires Inv(g, e, counter) && Closed(g, e, at)
    ensures Inv(g, Popped(e, at), counter)
  {
    ComponentFound(g, e, counter, at);
    hide StackOrdered, FinishedExplored, StackConnected, PoppedComponents, IsComponent;
    assert at < |e.stack|;
    PopOrdered(g, e, counter, at);
    PopConnected(g, e, counter, at);
    PopListed(g, e, counter, at);
  }

  // ---- What one call does, and how far it has got ----

  /** A call keeps the stack, the indices and the active nodes it found; what it leaves
      on the stack above them has returned. */
  predicate Grown(e: Env, d: Env) {
    && e.stack <= d.stack && d.active == e.active
    && (forall x :: x in e.index ==> x in d.index && d.index[x] == e.index[x])
    && (forall k :: |e.stack| <= k < |d.stack| ==> d.stack[k] !in d.active)
  }

  /** `low` bounds the indices of the old stack that the call on `v` found edges to; it
      is the index of an old stack node that `v` reaches, unless `v` was popped. */
  ghost predicate LowFor(g: Graph, e: Env, d: Env, v: NodeId, low: nat) {
    && v in d.index && v !in d.active && low <= d.index[v]
    && (forall x :: x in e.stack && x in d.index ==> d.index[x] < d.index[v])
    && (|d.stack| == |e.stack| ==> low == d.index[v])
    && (|d.stack| > |e.stack| ==> ReachesLow(g, d, v, low, |e.stack|))
    && EdgesAbove(g, d, |e.stack|, |e.stack|, low)
  }

  ghost predicate ReachesLow(g: Graph, e: Env, v: NodeId, low: nat, n: nat) {
    exists j ::
      0 <= j < n <= |e.stack| && e.stack[j] in e.index && e.index[e.stack[j]] == low && Reach(g, v, e.stack[j])
  }

  /** Edges from the stack at or above `origin` to the stack below `n` go to no index below `low`. */
  predicate EdgesAbove(g: Graph, e: Env, origin: nat, n: nat, low: nat) {
    forall k, j ::
      origin <= k < |e.stack| && 0 <= j < n <= origin && (e.stack[k], e.stack[j]) in g && e.stack[j] in e.index ==>
      low <= e.index[e.stack[j]]
  }

  /** The call on `v`, entered in `e`, has dealt with the successors `done`. */
  ghost predicate Scanning(g: Graph, e: Env, d: Env, v: NodeId, low: nat, done: seq<NodeId>) {
    var at := |e.stack|;
    && v !in e.active && v !in e.index && d.active == e.active + {v}
    && e.stack + [v] <= d.stack
    && (forall x :: x in e.index ==> x in d.index && d.index[x] == e.index[x])
    && (forall k :: at < k < |d.stack| ==> d.stack[k] !in d.active)
    && v in d.index && low <= d.index[v]
    && ReachesLow(g, d, v, low, at + 1)
    && EdgesAbove(g, d, at + 1, at, low)
    && (forall w :: w in done ==> w in d.index && (w in e.stack ==> low <= d.index[w]))
  }

  lemma ScanStarts(g: Graph, e: Env, counter: nat, v: NodeId)
    requires Inv(g, e, counter) && v !in e.index
    ensures Scanning(g, e, Pushed(e, v, counter), v, counter, [])
    ensures forall x :: x in e.stack ==> x in e.index
  {
    hide Reach, StackConnected, PoppedComponents, FinishedExplored;
    ReachSelf(g, v);
    var d := Pushed(e, v, counter);
    assert d.stack[|e.stack|] == v;
  }

  lemma ScanChildLow(g: Graph, d: Env, d': Env, counter: nat, v: NodeId, w: NodeId, at: nat, low: nat, low': nat)
    requires StackOrdered(d, counter) && at < |d.stack| && d.stack[at] == v && low <= d.index[v]
    requires Grown(d, d') && LowFor(g, d, d', w, low') && (v, w) in g && ReachesLow(g, d, v, low, at + 1)
    ensures ReachesLow(g, d', v, if low <= low' then low else low', at + 1)
  {
    hide Reach, EdgesAbove;
    if low <= low' || |d'.stack| == |d.stack| {
      var j :| 0 <= j < at + 1 && d.stack[j] in d.index && d.index[d.stack[j]] == low && Reach(g, v, d.stack[j]);
      assert d'.stack[j] == d.stack[j];
    } else {
      var j :| 0 <= j < |d.stack| && d'.stack[j] in d'.index && d'.index[d'.stack[j]] == low'
               && Reach(g, w, d'.stack[j]);
      assert d'.stack[j] == d.stack[j];
      ReachEdge(g, v, w);
      ReachTrans(g, v, w, d'.stack[j]);
    }
  }

  lemma ScanChildEdges(g: Graph, d: Env, d': Env, at: nat, w: NodeId, low: nat, low': nat)
    requires at < |d.stack| && Grown(d, d') && LowFor(g, d, d', w, low') && EdgesAbove(g, d, at + 1, at, low)
    requires forall x :: x in d.stack ==> x in d.index
    ensures EdgesAbove(g, d', at + 1, at, if low <= low' then low else low')
  {
    hide ReachesLow;
    assert forall k :: 0 <= k < |d.stack| ==> d'.stack[k] == d.stack[k];
  }

  lemma ScanChild(g: Graph, e: Env, d: Env, d': Env, counter: nat, v: NodeId, low: nat, done: seq<NodeId>,
                  w: NodeId, low': nat)
    requires Scanning(g, e, d, v, low, done) && Inv(g, d, counter) && (v, w) in g && w !in d.index
    requires Grown(d, d') && LowFor(g, d, d', w, low')
    requires forall x :: x in e.stack ==> x in e.index
    ensures Scanning(g, e, d', v, if low <= low' then low else low', done + [w])
  {
    hide StackConnected, PoppedComponents, FinishedExplored;
    var at := |e.stack|;
    assert d.stack[at] == (e.stack + [v])[at] == v;
    ScanChildLow(g, d, d', counter, v, w, at, low, low');
    ScanChildEdges(g, d, d', at, w, low, low');
    hide Reach, ReachesLow, EdgesAbove;
  }

  lemma ScanSeen(g: Graph, e: Env, d: Env, counter: nat, v: NodeId, low: nat, done: seq<NodeId>, w: NodeId)
    requires Scanning(g, e, d, v, low, done) && Inv(g, d, counter) && (v, w) in g && w in d.index
    ensures Scanning(g, e, d, v, if w in d.stack && d.index[w] < low then d.index[w] else low, done + [w])
  {
    hide Reach, StackConnected, PoppedComponents, FinishedExplored;
    var at := |e.stack|;
    assert d.stack[at] == (e.stack + [v])[at] == v;
    if w in d.stack && d.index[w] < low {
      var j :| 0 <= j < |d.stack| && d.stack[j] == w;
      ReachEdge(g, v, w);
      assert ReachesLow(g, d, v, d.index[w], at + 1);
    }
    forall x | x in e.stack ensures x in d.stack {
      var i :| 0 <= i < at && e.stack[i] == x;
      assert d.stack[i] == (e.stack + [v])[i];
    }
  }

  /** All successors of `v` dealt with, and `low` still its own index: pop. */
  lemma ScanCloses(g: Graph, e: Env, d: Env, counter: nat, v: NodeId, done: seq<NodeId>)
    requires Inv(g, d, counter) && v in d.index && Scanning(g, e, d, v, d.index[v], done)
    requires forall y :: (v, y) in g ==> y in done
    ensures Closed(g, d, |e.stack|) && d.stack[|e.stack|] == v
    ensures Popped(d, |e.stack|).stack == e.stack
    ensures Grown(e, Popped(d, |e.stack|)) && LowFor(g, e, Popped(d, |e.stack|), v, d.index[v])
  {
    hide Reach, StackConnected, PoppedComponents, Reversed;
    var at := |e.stack|;
    assert d.stack[at] == (e.stack + [v])[at] == v;
    assert forall j :: 0 <= j < at ==> d.stack[j] == (e.stack + [v])[j] == e.stack[j];
    assert d.stack[..at] == e.stack;
  }

  /** All successors of `v` dealt with, and `low` below its own index: stay on the stack. */
  lemma ScanLeaves(g: Graph, e: Env, d: Env, counter: nat, v: NodeId, low: nat, done: seq<NodeId>)
    requires Inv(g, d, counter) && Scanning(g, e, d, v, low, done) && v in d.index && low != d.index[v]
    requires forall y :: (v, y) in g ==> y in done
    ensures var d' := d.(active := d.active - {v});
            Inv(g, d', counter) && Grown(e, d') && LowFor(g, e, d', v, low)
  {
    hide Reach, Inv, Grown, LowFor;
    var at := |e.stack|;
    StackIs(e, d, v);
    var j :| 0 <= j < at + 1 && d.stack[j] in d.index && d.index[d.stack[j]] == low && Reach(g, v, d.stack[j]);
    LeaveKeeps(g, d, counter, at, j);
    InvOrders(g, d, counter);
    LeftLow(g, e, d, counter, v, low, done);
  }

  lemma InvOrders(g: Graph, e: Env, counter: nat)
    requires Inv(g, e, counter)
    ensures StackOrdered(e, counter)
  {
  }

  lemma StackIs(e: Env, d: Env, v: NodeId)
    requires e.stack + [v] <= d.stack
    ensures |e.stack| < |d.stack| && d.stack[|e.stack|] == v && e.stack <= d.stack
    ensures forall j :: 0 <= j < |e.stack| ==> d.stack[j] == e.stack[j]
  {
    var at := |e.stack|;
    assert d.stack[at] == (e.stack + [v])[at] == v;
    assert forall j :: 0 <= j < at ==> d.stack[j] == (e.stack + [v])[j] == e.stack[j];
  }

  lemma LeftLow(g: Graph, e: Env, d: Env, counter: nat, v: NodeId, low: nat, done: seq<NodeId>)
    requires StackOrdered(d, counter) && Scanning(g, e, d, v, low, done) && low != d.index[v]
    requires forall y :: (v, y) in g ==> y in done
    ensures var d' := d.(active := d.active - {v}); Grown(e, d') && LowFor(g, e, d', v, low)
  {
    hide Reach;
    StackIs(e, d, v);
    assert ReachesLow(g, d.(active := d.active - {v}), v, low, |e.stack|);
  }

  // ---- The components that are reported ----

  /** More than one node, or one with an edge to itself. */
  predicate Cyclic(g: Graph, c: seq<NodeId>) {
    |c| > 1 || (|c| == 1 && (c[0], c[0]) in g)
  }

  function Reported(g: Graph, comps: seq<seq<NodeId>>): seq<seq<NodeId>> {
    if comps == [] then []
    else
      var n := |comps| - 1;
      Reported(g, comps[..n]) + if Cyclic(g, comps[n]) then [comps[n]] else []
  }

  lemma ReportedAppend(g: Graph, comps: seq<seq<NodeId>>, c: seq<NodeId>)
    ensures Reported(g, comps + [c]) == Reported(g, comps) + if Cyclic(g, c) then [c] else []
  {
    assert (comps + [c])[..|comps|] == comps;
  }

  function AdjGraph(adj: map<NodeId, seq<NodeId>>): Graph {
    set x, y | x in adj && y in adj[x] :: (x, y)
  }

  function Successors(adj: map<NodeId, seq<NodeId>>, v: NodeId): (s: seq<NodeId>)
    ensures forall y :: y in s <==> (v, y) in AdjGraph(adj)
  {
    if v in adj then adj[v] else []
  }

  /** The state that the nested function `strongconnect` shares with its caller. */
  class Search {
    const adj: map<NodeId, seq<NodeId>>
    var counter: nat
    var stack: seq<NodeId>
    var onStack: set<NodeId>
    var index: map<NodeId, nat>
    var lowlink: map<NodeId, nat>
    var result: seq<seq<NodeId>>
    ghost var active: set<NodeId>
    ghost var popped: seq<seq<NodeId>>

    ghost function Now(): Env
      reads this
    {
      Env(stack, index, active, popped)
    }

    ghost predicate Valid()
      reads this
    {
      && Inv(AdjGraph(adj), Now(), counter)
      && onStack == Elements(stack)
      && lowlink.Keys == index.Keys
      && result == Reported(AdjGraph(adj), popped)
    }

    constructor (adj: map<NodeId, seq<NodeId>>)
      ensures Valid() && this.adj == adj && index == map[] && stack == [] && active == {}
    {
      this.adj := adj;
      counter, stack, onStack, index, lowlink, result := 0, [], {}, map[], map[], [];
      active, popped := {}, [];
    }

    /** Pop the stack down to `v`. */
    method PopDown(v: NodeId, ghost at: nat) returns (comp: seq<NodeId>)
      requires at < |stack| && stack[at] == v && onStack == Elements(stack)
      requires forall i, j :: 0 <= i < j < |stack| ==> stack[i] != stack[j]
      modifies this`stack, this`onStack
      ensures stack == old(stack[..at]) && onStack == Elements(stack) && comp == Reversed(old(stack[at..]))
    {
      ghost var all, n := stack, |stack|;
      comp := [];
      while true
        invariant |comp| < n - at && stack == all[..n - |comp|]
        invariant forall i :: 0 <= i < |comp| ==> comp[i] == all[n - 1 - i]
        invariant onStack == Elements(stack)
        decreases |stack|
      {
        var w := stack[|stack| - 1];
        stack := stack[..|stack| - 1];
        onStack := onStack - {w};
        comp := comp + [w];
        assert all[..n - |comp| + 1] == all[..n - |comp|] + [w];
        if w == v {
          break;
        }
      }
    }

    /** Pop the component of `v`, and report it if it is cyclic. */
    method PopComponent(v: NodeId, ghost at: nat)
      requires Valid() && Closed(AdjGraph(adj), Now(), at) && stack[at] == v
      modifies this
      ensures Valid() && Now() == Popped(old(Now()), at)
      ensures lowlink == old(lowlink) && counter == old(counter)
    {
      hide Inv, Closed, Reported, Reversed, AdjGraph, Popped;
      PopKeeps(AdjGraph(adj), Now(), counter, at);
      StackDistinct(AdjGraph(adj), Now(), counter);
      ClosedBounds(AdjGraph(adj), Now(), at);
      PoppedIs(Now(), at);
      var comp := PopDown(v, at);
      ReportedAppend(AdjGraph(adj), popped, comp);
      if |comp| > 1 || v in Successors(adj, v) {
        result := result + [comp];
      }
      active := active - {v};
      popped := popped + [comp];
    }

    method Enter(v: NodeId)
      requires Valid() && v !in index && forall x :: x in active ==> Reach(AdjGraph(adj), x, v)
      modifies this
      ensures Valid() && Now() == Pushed(old(Now()), v, old(counter))
      ensures counter == old(counter) + 1 && lowlink == old(lowlink)[v := old(counter)]
    {
      hide Inv, Reach, Reported, AdjGraph;
      PushKeeps(AdjGraph(adj), Now(), counter, v);
      index := index[v := counter];
      lowlink := lowlink[v := counter];
      counter := counter + 1;
      stack := stack + [v];
      onStack := onStack + {v};
      active := active + {v};
    }

    /** The call on an unvisited node. */
    method StrongConnect(v: NodeId, ghost universe: set<NodeId>)
      requires Valid() && v !in index && v in universe && Ends(AdjGraph(adj)) <= universe
      requires forall x :: x in active ==> Reach(AdjGraph(adj), x, v)
      modifies this
      ensures Valid() && Grown(old(Now()), Now())
      ensures v in lowlink && LowFor(AdjGraph(adj), old(Now()), Now(), v, lowlink[v])
      ensures forall x :: x in old(lowlink) ==> x in lowlink && lowlink[x] == old(lowlink)[x]
      decreases universe - index.Keys
    {
      hide Inv, Reach, Closed, Reported, LowFor, Scanning, ReachesLow, EdgesAbove, AdjGraph, Popped, Ends;
      ghost var g, e := AdjGraph(adj), Now();
      ScanStarts(g, e, counter, v);
      Enter(v);
      ReachSelf(g, v);
      var children := Successors(adj, v);
      for i := 0 to |children|
        invariant Valid() && v in lowlink && v in index
        invariant Scanning(g, e, Now(), v, lowlink[v], children[..i])
        invariant active == e.active + {v} && forall x :: x in active ==> Reach(g, x, v)
        invariant forall x :: x in e.index ==> x in index
        invariant forall x :: x in old(lowlink) ==> x in lowlink && lowlink[x] == old(lowlink)[x]
      {
        var w := children[i];
        ghost var d, count := Now(), counter;
        assert (v, w) in g;
        assert children[..i + 1] == children[..i] + [w];
        if w !in index {
          EdgeFacts(g, v, w, active);
          StrongConnect(w, universe);
          ScanChild(g, e, d, Now(), count, v, lowlink[v], children[..i], w, lowlink[w]);
          lowlink := lowlink[v := if lowlink[v] <= lowlink[w] then lowlink[v] else lowlink[w]];
        } else {
          ScanSeen(g, e, d, counter, v, lowlink[v], children[..i], w);
          if w in onStack {
            lowlink := lowlink[v := if lowlink[v] <= index[w] then lowlink[v] else index[w]];
          }
        }
      }
      assert children[..|children|] == children;
      if lowlink[v] == index[v] {
        ScanCloses(g, e, Now(), counter, v, children);
        PopComponent(v, |e.stack|);
      } else {
        ScanLeaves(g, e, Now(), counter, v, lowlink[v], children);
        active := active - {v};
      }
    }
  }

  lemma EdgeFacts(g: Graph, v: NodeId, w: NodeId, active: set<NodeId>)
    requires (v, w) in g && forall x :: x in active ==> Reach(g, x, v)
    ensures w in Ends(g) && forall x :: x in active ==> Reach(g, x, w)
  {
    ReachEdge(g, v, w);
    forall x | x in active ensures Reach(g, x, w) { ReachTrans(g, x, v, w); }
    assert (v, w).1 == w;
  }

  lemma ClosedBounds(g: Graph, e: Env, at: nat)
    requires Closed(g, e, at)
    ensures at < |e.stack|
  {
  }

  lemma PoppedIs(e: Env, at: nat)
    requires at < |e.stack|
    ensures Popped(e, at) == Env(e.stack[..at], e.index, e.active - {e.stack[at]}, e.popped + [Reversed(e.stack[at..])])
    ensures |Reversed(e.stack[at..])| == 1 ==> Reversed(e.stack[at..]) == [e.stack[at]]
  {
  }

  lemma StackDistinct(g: Graph, e: Env, counter: nat)
    requires Inv(g, e, counter)
    ensures forall i, j :: 0 <= i < j < |e.stack| ==> e.stack[i] != e.stack[j]
  {
  }

  // ---- The result ----

  /** The graph that is searched: edges that leave the given nodes. */
  function ScopedGraph(nodes: seq<NodeId>, edges: seq<Edge>): Graph {
    set e | e in edges && e.source in nodes :: (e.source, e.target)
  }

  ghost predicate PairwiseDisjoint(comps: seq<seq<NodeId>>) {
    forall i, j :: 0 <= i < j < |comps| ==> Elements(comps[i]) !! Elements(comps[j])
  }

  lemma {:induction false} ReportedAre(g: Graph, comps: seq<seq<NodeId>>)
    requires PairwiseDisjoint(comps)
    ensures forall c :: c in Reported(g, comps) <==> c in comps && Cyclic(g, c)
    ensures PairwiseDisjoint(Reported(g, comps))
  {
    if comps != [] {
      var n := |comps| - 1;
      assert comps == comps[..n] + [comps[n]];
      ReportedAre(g, comps[..n]);
      var r := Reported(g, comps[..n]);
      forall i | 0 <= i < |r| ensures Elements(r[i]) !! Elements(comps[n]) {
        assert r[i] in r;
        var k :| 0 <= k < n && comps[..n][k] == r[i];
      }
    }
  }

  /** A component is cyclic exactly when one of its nodes lies on a cycle, and then
      all of them do. */
  lemma CyclicIff(g: Graph, s: seq<NodeId>, x: NodeId)
    requires IsComponent(g, Elements(s)) && x in s
    requires forall i, j :: 0 <= i < j < |s| ==> s[i] != s[j]
    ensures Cyclic(g, s) <==> ReachPlus(g, x, x)
  {
    assert x in Elements(s);
    if |s| > 1 {
      var y := if s[0] == x then s[1] else s[0];
      assert y in Elements(s) && y != x;
      ReachCases(g, x, y);
      var z :| (x, z) in g && Reach(g, z, y);
      ReachTrans(g, z, y, x);
    } else {
      if (x, x) in g {
        ReachSelf(g, x);
      }
      if ReachPlus(g, x, x) {
        var z :| (x, z) in g && Reach(g, z, x);
        ReachEdge(g, x, z);
        assert z in Elements(s);
      }
    }
  }

  lemma StackHasActive(g: Graph, e: Env, counter: nat)
    requires Inv(g, e, counter) && e.stack != []
    ensures e.active != {}
  {
    assert ReachesActive(g, e, 0);
  }

  /** When the search is over, the popped components cover every node on a cycle. */
  lemma SearchComplete(g: Graph, e: Env, counter: nat, x: NodeId)
    requires Inv(g, e, counter) && e.active == {}
    requires forall y :: y in Ends(g) && (exists z :: (y, z) in g) ==> y in e.index
    ensures ReachPlus(g, x, x) <==> exists i :: 0 <= i < |Reported(g, e.popped)| && x in Reported(g, e.popped)[i]
  {
    hide IsComponent, Reported;
    if e.stack != [] {
      StackHasActive(g, e, counter);
    }
    ReportedAre(g, e.popped);
    var r := Reported(g, e.popped);
    if ReachPlus(g, x, x) {
      var z :| (x, z) in g && Reach(g, z, x);
      assert (x, z).0 == x && x in Ends(g);
      assert IsPopped(e, x);
      var k :| 0 <= k < |e.popped| && x in e.popped[k];
      CyclicIff(g, e.popped[k], x);
      assert e.popped[k] in r;
    }
    if i :| 0 <= i < |r| && x in r[i] {
      assert r[i] in r;
      var k :| 0 <= k < |e.popped| && e.popped[k] == r[i];
      CyclicIff(g, e.popped[k], x);
    }
  }

  method BuildAdjacency(nodes: seq<NodeId>, edges: seq<Edge>) returns (adj: map<NodeId, seq<NodeId>>)
    ensures adj.Keys == Elements(nodes) && AdjGraph(adj) == ScopedGraph(nodes, edges)
  {
    adj := map n | n in nodes :: [];
    for i := 0 to |edges|
      invariant adj.Keys == Elements(nodes)
      invariant AdjGraph(adj) == ScopedGraph(nodes, edges[..i])
    {
      var e := edges[i];
      ghost var before := adj;
      assert edges[..i + 1] == edges[..i] + [e];
      if e.source in adj {
        adj := adj[e.source := adj[e.source] + [e.target]];
        assert AdjGraph(adj) == AdjGraph(before) + {(e.source, e.target)};
      }
      assert ScopedGraph(nodes, edges[..i + 1])
          == ScopedGraph(nodes, edges[..i]) + (if e.source in nodes then {(e.source, e.target)} else {});
    }
    assert edges[..|edges|] == edges;
  }

  /** The strongly connected components that contain a cycle: each reported once, as a
      list without repetitions; nothing is reported exactly when there is no cycle. */
  ghost predicate CyclicComponents(g: Graph, result: seq<seq<NodeId>>) {
    && (forall i :: 0 <= i < |result| ==> IsComponent(g, Elements(result[i])))
    && (forall i, j, k :: 0 <= i < |result| && 0 <= j < k < |result[i]| ==> result[i][j] != result[i][k])
    && PairwiseDisjoint(result)
    && (forall x :: ReachPlus(g, x, x) <==> exists i :: 0 <= i < |result| && x in result[i])
    && (result == [] <==> Acyclic(g))
  }

  /** No component reaches a later one. */
  ghost predicate LaterNotReached(g: Graph, comps: seq<seq<NodeId>>) {
    forall i, j, x, y :: 0 <= i < j < |comps| && x in comps[i] && y in comps[j] ==> !Reach(g, x, y)
  }

  lemma {:induction false} WalkLeadsBack(g: Graph, popped: seq<seq<NodeId>>, i: nat, p: seq<NodeId>)
    requires EdgesBack(g, popped) && i < |popped| && Walk(g, p) && p[0] in popped[i]
    ensures PoppedBy(popped, i, p[|p| - 1])
    decreases |p|
  {
    var n := |p| - 1;
    if n == 0 {
      assert p[0] in popped[i];
    } else {
      assert (p[n - 1], p[n - 1 + 1]) in g;
      WalkLeadsBack(g, popped, i, p[..n]);
      var j :| 0 <= j <= i && p[n - 1] in popped[j];
      assert PoppedBy(popped, j, p[n]);
      var k :| 0 <= k <= j && p[n] in popped[k];
    }
  }

  lemma NotPoppedBefore(popped: seq<seq<NodeId>>, i: nat, j: nat, y: NodeId)
    requires PairwiseDisjoint(popped) && i < j < |popped| && y in popped[j]
    ensures !PoppedBy(popped, i, y)
  {
    assert y in Elements(popped[j]);
    forall k | 0 <= k <= i ensures y !in popped[k] {
      assert y in popped[k] ==> y in Elements(popped[k]);
    }
  }

  lemma PoppedInReverse(g: Graph, popped: seq<seq<NodeId>>)
    requires EdgesBack(g, popped) && PairwiseDisjoint(popped)
    ensures LaterNotReached(g, popped)
  {
    forall i, j, x, y | 0 <= i < j < |popped| && x in popped[i] && y in popped[j] ensures !Reach(g, x, y) {
      if p :| WalkFromTo(g, p, x, y) {
        WalkLeadsBack(g, popped, i, p);
        NotPoppedBefore(popped, i, j, y);
      }
    }
  }

  lemma {:induction false} ReportedInReverse(g: Graph, comps: seq<seq<NodeId>>)
    requires LaterNotReached(g, comps)
    ensures LaterNotReached(g, Reported(g, comps))
    ensures forall c :: c in Reported(g, comps) ==> c in comps
  {
    hide Reach, Cyclic;
    if comps != [] {
      var n := |comps| - 1;
      assert comps == comps[..n] + [comps[n]];
      ReportedInReverse(g, comps[..n]);
      var r := Reported(g, comps[..n]);
      forall i, x, y | 0 <= i < |r| && x in r[i] && y in comps[n] ensures !Reach(g, x, y) {
        assert r[i] in r;
        var k :| 0 <= k < n && comps[..n][k] == r[i];
        assert comps[k] == r[i];
      }
    }
  }

  /** The components come in reverse topological order. */
  method TarjanScc(nodes: seq<NodeId>, edges: seq<Edge>) returns (result: seq<seq<NodeId>>)
    ensures CyclicComponents(ScopedGraph(nodes, edges), result)
    ensures LaterNotReached(ScopedGraph(nodes, edges), result)
  {
    hide Inv, IsComponent, Reach, ReachPlus, Reported, LaterNotReached;
    var adj := BuildAdjacency(nodes, edges);
    ghost var g := AdjGraph(adj);
    var search := new Search(adj);
    for i := 0 to |nodes|
      invariant search.Valid() && search.adj == adj && search.active == {} && fresh(search)
      invariant forall k :: 0 <= k < i ==> nodes[k] in search.index
    {
      if nodes[i] !in search.index {
        search.StrongConnect(nodes[i], Ends(g) + {nodes[i]});
      }
    }
    result := search.result;
    ghost var e := search.Now();
    forall x ensures ReachPlus(g, x, x) <==> exists i :: 0 <= i < |result| && x in result[i] {
      SearchComplete(g, e, search.counter, x);
    }
    PoppedFacts(g, e, search.counter);
    ReportedAre(g, e.popped);
    ReportedInReverse(g, e.popped);
    if result != [] {
      assert result[0] in result;
      var x := result[0][0];
      assert x in result[0] && ReachPlus(g, x, x);
    }
  }

  lemma PoppedFacts(g: Graph, e: Env, counter: nat)
    requires Inv(g, e, counter)
    ensures PairwiseDisjoint(e.popped) && LaterNotReached(g, e.popped)
    ensures forall c :: c in e.popped ==>
              IsComponent(g, Elements(c)) && c != [] && forall j, k :: 0 <= j < k < |c| ==> c[j] != c[k]
  {
    hide Reach;
    PoppedInReverse(g, e.popped);
  }

  // ---- What the finding says ----

  /** The dependencies that leave the given nodes. */
  function ScopedDependsOn(nodes: seq<NodeId>, edges: seq<Edge>): Graph {
    set e | e in edges && e.kind == ExplicitDependsOn && e.source in nodes :: (e.source, e.target)
  }

  /** Whatever edge lies on a cycle, a chain of dependencies joins its ends too. */
  ghost predicate CyclesByDependencies(g: Graph, d: Graph) {
    forall x, y :: (x, y) in g && Reach(g, y, x) ==> ReachPlus(d, x, y)
  }

  lemma {:induction false} WalkOnCycle(g: Graph, d: Graph, p: seq<NodeId>)
    requires CyclesByDependencies(g, d) && Walk(g, p) && Reach(g, p[|p| - 1], p[0])
    ensures Reach(d, p[0], p[|p| - 1])
    decreases |p|
  {
    hide Reach, ReachPlus;
    var n := |p| - 1;
    if n == 0 {
      ReachSelf(d, p[0]);
    } else {
      assert (p[n - 1], p[n - 1 + 1]) in g;
      var q := p[..n];
      WalkReaches(g, q);
      ReachEdge(g, p[n - 1], p[n]);
      ReachTrans(g, p[n - 1], p[n], p[0]);
      ReachTrans(g, p[n], p[0], p[n - 1]);
      WalkOnCycle(g, d, q);
      ReachCases(d, p[n - 1], p[n]);
      ReachTrans(d, p[0], p[n - 1], p[n]);
    }
  }

  lemma WalkReaches(g: Graph, p: seq<NodeId>)
    requires Walk(g, p)
    ensures Reach(g, p[0], p[|p| - 1])
  {
    assert WalkFromTo(g, p, p[0], p[|p| - 1]);
  }

  lemma SameCycles(g: Graph, d: Graph, x: NodeId, y: NodeId)
    requires d <= g && CyclesByDependencies(g, d)
    ensures Reach(g, x, y) && Reach(g, y, x) <==> Reach(d, x, y) && Reach(d, y, x)
    ensures ReachPlus(g, x, x) <==> ReachPlus(d, x, x)
  {
    hide Walk;
    if Reach(g, x, y) && Reach(g, y, x) {
      var p :| WalkFromTo(g, p, x, y);
      var q :| WalkFromTo(g, q, y, x);
      WalkOnCycle(g, d, p);
      WalkOnCycle(g, d, q);
    }
    if Reach(d, x, y) && Reach(d, y, x) {
      SubgraphReach(d, g, x, y);
      SubgraphReach(d, g, y, x);
    }
    OnSameCycle(g, d, x);
  }

  lemma OnSameCycle(g: Graph, d: Graph, x: NodeId)
    requires d <= g && CyclesByDependencies(g, d)
    ensures ReachPlus(g, x, x) <==> ReachPlus(d, x, x)
  {
    hide Walk;
    if ReachPlus(g, x, x) {
      var z :| (x, z) in g && Reach(g, z, x);
      var p :| WalkFromTo(g, p, z, x);
      ReachEdge(g, x, z);
      WalkOnCycle(g, d, p);
      var u :| (x, u) in d && Reach(d, u, z);
      ReachTrans(d, u, z, x);
    }
    if u :| (x, u) in d && Reach(d, u, x) {
      SubgraphReach(d, g, u, x);
    }
  }

  /** What is reported are the cycles of the dependencies alone, as the finding says, exactly
      when every edge on a cycle has a chain of dependencies beside it. */
  lemma CyclesAsDocumentedIff(nodes: seq<NodeId>, edges: seq<Edge>, result: seq<seq<NodeId>>)
    requires CyclicComponents(ScopedGraph(nodes, edges), result)
    ensures CyclicComponents(ScopedDependsOn(nodes, edges), result)
            <==> CyclesByDependencies(ScopedGraph(nodes, edges), ScopedDependsOn(nodes, edges))
  {
    hide Reach, ReachPlus, Elements;
    var g, d := ScopedGraph(nodes, edges), ScopedDependsOn(nodes, edges);
    assert d <= g;
    if CyclesByDependencies(g, d) {
      forall x, y ensures Reach(g, x, y) && Reach(g, y, x) <==> Reach(d, x, y) && Reach(d, y, x) {
        SameCycles(g, d, x, y);
      }
      forall x ensures ReachPlus(g, x, x) <==> ReachPlus(d, x, x) {
        SameCycles(g, d, x, x);
      }
    }
    if CyclicComponents(d, result) {
      forall x, y | (x, y) in g && Reach(g, y, x) ensures ReachPlus(d, x, y) {
        CycleEdge(g, d, result, x, y);
      }
    }
  }

  lemma CycleEdge(g: Graph, d: Graph, result: seq<seq<NodeId>>, x: NodeId, y: NodeId)
    requires CyclicComponents(g, result) && CyclicComponents(d, result) && (x, y) in g && Reach(g, y, x)
    ensures ReachPlus(d, x, y)
  {
    hide Reach;
    ReachEdge(g, x, y);
    assert ReachPlus(g, x, x);
    var i :| 0 <= i < |result| && x in result[i];
    assert x in Elements(result[i]) && IsComponent(g, Elements(result[i])) && IsComponent(d, Elements(result[i]));
    ReachCases(d, x, y);
  }

  /** A dependency and a supersedes edge back: a cycle is reported, although the dependencies
      have none. */
  lemma SupersedesClosesCycle(a: NodeId, b: NodeId, result: seq<seq<NodeId>>)
    requires a != b
    ensures var nodes, edges := [a, b], [Edge(a, b, ExplicitDependsOn), Edge(b, a, ExplicitSupersedes)];
            && (CyclicComponents(ScopedGraph(nodes, edges), result) ==> result != [])
            && Acyclic(ScopedDependsOn(nodes, edges))
  {
    var nodes, edges := [a, b], [Edge(a, b, ExplicitDependsOn), Edge(b, a, ExplicitSupersedes)];
    var g, d := ScopedGraph(nodes, edges), ScopedDependsOn(nodes, edges);
    assert edges[0] in edges && edges[1] in edges && nodes[0] in nodes && nodes[1] in nodes;
    assert (a, b) in g && (b, a) in g;
    ReachEdge(g, b, a);
    assert ReachPlus(g, a, a);
    forall x ensures !ReachPlus(d, x, x) {
      if z :| (x, z) in d && Reach(d, z, x) {
        ReachCases(d, z, x);
        assert false;
      }
    }
  }
}
