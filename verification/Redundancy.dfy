/** Redundant dependencies: which direct edges the classifier reports, and what
    removing them does. */
module Redundancy {
  import opened Graphs

  // ---- Walks in a graph without cycles ----

  lemma SubWalk(g: Graph, p: seq<NodeId>, i: nat, j: nat)
    requires Walk(g, p) && i <= j < |p|
    ensures WalkFromTo(g, p[i..j + 1], p[i], p[j])
  {
    var q := p[i..j + 1];
    forall k | 0 <= k < |q| - 1 ensures (q[k], q[k + 1]) in g { assert (p[i + k], p[i + k + 1]) in g; }
  }

  lemma WalkIsSimple(g: Graph, p: seq<NodeId>)
    requires Acyclic(g) && Walk(g, p)
    ensures forall i, j :: 0 <= i < j < |p| ==> p[i] != p[j]
  {
    forall i, j | 0 <= i < j < |p| ensures p[i] != p[j] {
      SubWalk(g, p, i + 1, j);
      assert (p[i], p[i + 1]) in g;
      assert Reach(g, p[i + 1], p[j]);
      assert ReachPlus(g, p[i], p[j]);
    }
  }

  // ---- Redundant edges ----

  /** An edge whose target is also reached by way of another successor. */
  ghost predicate Redundant(g: Graph, a: NodeId, c: NodeId) {
    (a, c) in g && exists b :: (a, b) in g && b != c && Reach(g, b, c)
  }

  /** Without cycles: another walk of two or more edges joins the end points. */
  lemma RedundantIff(g: Graph, a: NodeId, c: NodeId)
    requires Acyclic(g)
    ensures Redundant(g, a, c) <==> (a, c) in g && exists p :: WalkFromTo(g, p, a, c) && |p| > 2
  {
    if Redundant(g, a, c) {
      var b :| (a, b) in g && b != c && Reach(g, b, c);
      var q :| WalkFromTo(g, q, b, c);
      assert WalkFromTo(g, [a, b], a, b);
      JoinWalks(g, [a, b], q, a, b, c);
      assert |[a, b] + q[1..]| > 2;
    }
    if p :| WalkFromTo(g, p, a, c) && |p| > 2 {
      WalkIsSimple(g, p);
      assert (p[0], p[1]) in g;
      SubWalk(g, p, 1, |p| - 1);
      assert Reach(g, p[1], c);
    }
  }

  /** The graph without its redundant edges, all removed at once. */
  ghost function Reduced(g: Graph): Graph {
    set e | e in g && !Redundant(g, e.0, e.1)
  }

  /** Every subgraph with the same reachability contains the reduced graph: the remaining
      edges are all needed, and the reduction is the only least one. */
  lemma ReductionIsLeast(g: Graph, h: Graph)
    requires Acyclic(g) && h <= g && forall x, y :: Reach(g, x, y) ==> Reach(h, x, y)
    ensures Reduced(g) <= h
  {
    forall a, c | (a, c) in Reduced(g) ensures (a, c) in h {
      ReachEdge(g, a, c);
      var p :| WalkFromTo(h, p, a, c);
      assert WalkFromTo(g, p, a, c);
      RedundantIff(g, a, c);
      if |p| == 1 {
        assert ReachPlus(g, a, a) by { ReachSelf(g, a); }
      }
      assert (p[0], p[1]) in h;
    }
  }

  // ---- Graphs with cycles ----

  ghost predicate OnCycle(g: Graph, x: NodeId) {
    ReachPlus(g, x, x)
  }

  ghost predicate KeepsReach(g: Graph) {
    forall x, y :: Reach(g, x, y) ==> Reach(Reduced(g), x, y)
  }

  /** A node on a cycle has no other edge than that of the cycle. */
  ghost predicate CyclesAreBare(g: Graph) {
    forall x, y, z :: OnCycle(g, x) && (x, y) in g && (x, z) in g ==> y == z
  }

  /** A node off every cycle has no two edges into one cycle, or else an edge to a node from
      which the cycle is entered. */
  ghost predicate CyclesAreEnteredAbove(g: Graph) {
    forall v, s, t ::
      !OnCycle(g, v) && (v, s) in g && (v, t) in g && s != t && Reach(g, s, t) && Reach(g, t, s) ==>
      exists y :: (v, y) in g && Reach(g, y, s) && !Reach(g, s, y)
  }

  /** An edge that leaves a cycle is redundant: the cycle leads back to it. */
  lemma LeavingIsRedundant(g: Graph, u: NodeId, w: NodeId)
    requires OnCycle(g, u) && (u, w) in g && !Reach(g, w, u)
    ensures Redundant(g, u, w)
  {
    hide Reach;
    var z :| (u, z) in g && Reach(g, z, u);
    ReachEdge(g, u, w);
    ReachTrans(g, z, u, w);
  }

  lemma OnSameCycle(g: Graph, x: NodeId, u: NodeId)
    requires OnCycle(g, x) && Reach(g, x, u) && Reach(g, u, x)
    ensures OnCycle(g, u)
  {
    hide Reach;
    if u != x {
      ReachCases(g, u, x);
      var z :| (u, z) in g && Reach(g, z, x);
      ReachTrans(g, z, x, u);
    }
  }

  /** No walk of the reduced graph leaves a cycle. */
  lemma {:induction false} StaysOnCycle(g: Graph, p: seq<NodeId>)
    requires Walk(Reduced(g), p) && OnCycle(g, p[0])
    ensures Reach(g, p[0], p[|p| - 1]) && Reach(g, p[|p| - 1], p[0])
    decreases |p|
  {
    hide Reach, Redundant, OnCycle;
    var x, n := p[0], |p| - 1;
    if n == 0 {
      ReachSelf(g, x);
    } else {
      StaysOnCycle(g, p[..n]);
      var u, w := p[n - 1], p[n];
      assert (p[n - 1], p[n]) in Reduced(g);
      OnSameCycle(g, x, u);
      ReachEdge(g, u, w);
      if !Reach(g, w, u) {
        LeavingIsRedundant(g, u, w);
      }
      ReachTrans(g, x, u, w);
      ReachTrans(g, w, u, x);
    }
  }

  /** A walk to another node begins with an edge. */
  lemma FirstEdge(g: Graph, x: NodeId, y: NodeId) returns (z: NodeId)
    requires Reach(g, x, y) && x != y
    ensures (x, z) in g && Reach(g, z, y)
  {
    ReachCases(g, x, y);
    z :| (x, z) in g && Reach(g, z, y);
  }

  lemma KeepingNeedsBareCycles(g: Graph, x: NodeId, y: NodeId, z: NodeId)
    requires KeepsReach(g) && OnCycle(g, x) && (x, y) in g && (x, z) in g
    ensures y == z
  {
    hide Reach, Redundant, OnCycle;
    if y != z {
      KeptSuccessorReturns(g, x, y);
      KeptSuccessorReturns(g, x, z);
      var far := if y == x then z else y;
      ReachEdge(g, x, far);
      AllFlagged(g, x, y, z);
      NoWayOut(Reduced(g), x, far);
    }
  }

  lemma FlagsEdge(g: Graph, x: NodeId, b: NodeId, c: NodeId)
    requires (x, b) in g && (x, c) in g && b != c && Reach(g, b, c)
    ensures Redundant(g, x, c)
  {
  }

  /** With two ways back to a node, all its edges are redundant. */
  lemma AllFlagged(g: Graph, x: NodeId, y: NodeId, z: NodeId)
    requires (x, y) in g && (x, z) in g && y != z && Reach(g, y, x) && Reach(g, z, x)
    ensures forall c :: (x, c) in g ==> Redundant(g, x, c)
  {
    hide Reach, Redundant;
    forall c | (x, c) in g ensures Redundant(g, x, c) {
      var b := if c == y then z else y;
      ReachEdge(g, x, c);
      ReachTrans(g, b, x, c);
      FlagsEdge(g, x, b, c);
    }
  }

  lemma NoWayOut(g: Graph, x: NodeId, y: NodeId)
    requires x != y && forall c :: (x, c) !in g
    ensures !Reach(g, x, y)
  {
    if Reach(g, x, y) {
      ReachCases(g, x, y);
    }
  }

  lemma KeptSuccessorReturns(g: Graph, x: NodeId, y: NodeId)
    requires KeepsReach(g) && OnCycle(g, x) && (x, y) in g
    ensures Reach(g, y, x)
  {
    ReachEdge(g, x, y);
    var p :| WalkFromTo(Reduced(g), p, x, y);
    StaysOnCycle(g, p);
  }

  lemma KeepingNeedsEntry(g: Graph, v: NodeId, s: NodeId, t: NodeId) returns (y: NodeId)
    requires KeepsReach(g) && !OnCycle(g, v)
    requires (v, s) in g && (v, t) in g && s != t && Reach(g, s, t) && Reach(g, t, s)
    ensures (v, y) in g && Reach(g, y, s) && !Reach(g, s, y)
  {
    assert (v, t) in g && Reach(g, t, v) ==> (OnCycle(g, v));
    hide Reach, KeepsReach, OnCycle, Redundant;
    if v == s {
    }
    KeptEdge(g, v, s);
    y := FirstEdge(Reduced(g), v, s);
    SubgraphReach(Reduced(g), g, y, s);
    if Reach(g, s, y) {
      var b := if y == s then t else s;
      ReachTrans(g, t, s, y);
      FlagsEdge(g, v, b, y);
    }
  }

  lemma KeptEdge(g: Graph, x: NodeId, y: NodeId)
    requires KeepsReach(g) && (x, y) in g
    ensures Reach(Reduced(g), x, y)
  {
    ReachEdge(g, x, y);
  }

  /** What a node reaches, among the ends of edges. */
  ghost function Below(g: Graph, x: NodeId): set<NodeId> {
    set z | z in Ends(g) && Reach(g, x, z)
  }

  lemma BelowShrinks(g: Graph, x: NodeId, y: NodeId)
    requires Reach(g, x, y) && !Reach(g, y, x) && x in Ends(g)
    ensures Below(g, y) < Below(g, x) && |Below(g, y)| < |Below(g, x)|
  {
    hide Reach;
    forall z | z in Below(g, y) ensures z in Below(g, x) { ReachTrans(g, x, y, z); }
    ReachSelf(g, x);
    assert x in Below(g, x) && x !in Below(g, y);
    SmallerSet(Below(g, y), Below(g, x));
  }

  lemma SmallerSet(s: set<NodeId>, t: set<NodeId>)
    requires s < t
    ensures |s| < |t|
  {
    var x :| x in t && x !in s;
    assert t == s + (t - s) && x in t - s;
  }

  /** A successor of `a` that reaches `y`, with no other one strictly above it. */
  lemma {:induction false} TopSuccessor(g: Graph, a: NodeId, y: NodeId) returns (top: NodeId)
    requires (a, y) in g
    ensures (a, top) in g && Reach(g, top, y)
    ensures forall b :: (a, b) in g && Reach(g, b, top) ==> Reach(g, top, b)
    decreases |Ends(g)| - |Below(g, y)|
  {
    hide Reach;
    if b :| (a, b) in g && Reach(g, b, y) && !Reach(g, y, b) {
      BelowShrinks(g, b, y);
      BelowIsBounded(g, b);
      top := TopSuccessor(g, a, b);
      ReachTrans(g, top, b, y);
    } else {
      top := y;
      ReachSelf(g, y);
    }
  }

  lemma BelowIsBounded(g: Graph, x: NodeId)
    ensures |Below(g, x)| <= |Ends(g)|
  {
    var rest := Ends(g) - Below(g, x);
    assert Ends(g) == Below(g, x) + rest;
  }

  /** Under the two conditions no edge is missed. */
  lemma {:induction false} EdgeStaysReached(g: Graph, a: NodeId, c: NodeId)
    requires CyclesAreBare(g) && CyclesAreEnteredAbove(g) && (a, c) in g
    ensures Reach(Reduced(g), a, c)
    decreases |Below(g, a)|
  {
    hide Reach, Below, Reduced, CyclesAreEnteredAbove;
    if !Redundant(g, a, c) {
      UnflaggedStays(g, a, c);
    } else if OnCycle(g, a) {
      assert false;
    } else {
      var y := TopSuccessor(g, a, c);
      TopIsUnflagged(g, a, y);
      UnflaggedStays(g, a, y);
      var p := WalkOf(g, y, c);
      ReachEdge(g, a, y);
      forall i | 0 <= i < |p| - 1 ensures Reach(Reduced(g), p[i], p[i + 1]) {
        assert (p[i], p[i + 1]) in g;
        SubWalkReach(g, p, 0, i);
        ReachTrans(g, a, y, p[i]);
        if Reach(g, p[i], a) {
          ReachTrans(g, y, p[i], a);
        }
        BelowShrinks(g, a, p[i]);
        EdgeStaysReached(g, p[i], p[i + 1]);
      }
      ChainReach(Reduced(g), p);
      ReachTrans(Reduced(g), a, y, c);
    }
  }

  lemma UnflaggedStays(g: Graph, a: NodeId, c: NodeId)
    requires (a, c) in g && !Redundant(g, a, c)
    ensures Reach(Reduced(g), a, c)
  {
    ReachEdge(Reduced(g), a, c);
  }

  lemma TopIsUnflagged(g: Graph, a: NodeId, y: NodeId)
    requires CyclesAreEnteredAbove(g) && !OnCycle(g, a) && (a, y) in g
    requires forall b :: (a, b) in g && Reach(g, b, y) ==> Reach(g, y, b)
    ensures !Redundant(g, a, y)
  {
    hide Reach, OnCycle, CyclesAreEnteredAbove;
    if Redundant(g, a, y) {
      var b :| (a, b) in g && b != y && Reach(g, b, y);
      EnteredAbove(g, a, y, b);
    }
  }

  lemma EnteredAbove(g: Graph, v: NodeId, s: NodeId, t: NodeId)
    requires CyclesAreEnteredAbove(g) && !OnCycle(g, v)
    requires (v, s) in g && (v, t) in g && s != t && Reach(g, s, t) && Reach(g, t, s)
    ensures exists y :: (v, y) in g && Reach(g, y, s) && !Reach(g, s, y)
  {
  }

  lemma WalkOf(g: Graph, x: NodeId, y: NodeId) returns (p: seq<NodeId>)
    requires Reach(g, x, y)
    ensures WalkFromTo(g, p, x, y)
  {
    p :| WalkFromTo(g, p, x, y);
  }

  lemma SubWalkReach(g: Graph, p: seq<NodeId>, i: nat, j: nat)
    requires Walk(g, p) && i <= j < |p|
    ensures Reach(g, p[i], p[j])
  {
    SubWalk(g, p, i, j);
  }

  lemma {:induction false} ChainReach(g: Graph, p: seq<NodeId>)
    requires p != [] && forall i :: 0 <= i < |p| - 1 ==> Reach(g, p[i], p[i + 1])
    ensures Reach(g, p[0], p[|p| - 1])
    decreases |p|
  {
    hide Reach;
    var n := |p| - 1;
    if n == 0 {
      ReachSelf(g, p[0]);
    } else {
      ChainReach(g, p[..n]);
      assert Reach(g, p[n - 1], p[n - 1 + 1]);
      ReachTrans(g, p[0], p[n - 1], p[n]);
    }
  }

  /** On every graph: removing all redundant edges at once keeps reachability exactly when
      no node on a cycle has a second edge, and no node off the cycles has two edges into one
      cycle without an edge above it. */
  lemma ReductionKeepsReachIff(g: Graph)
    ensures KeepsReach(g) <==> CyclesAreBare(g) && CyclesAreEnteredAbove(g)
  {
    hide Reach, OnCycle, Reduced;
    if KeepsReach(g) {
      forall x, y, z | OnCycle(g, x) && (x, y) in g && (x, z) in g ensures y == z {
        KeepingNeedsBareCycles(g, x, y, z);
      }
      forall v, s, t | !OnCycle(g, v) && (v, s) in g && (v, t) in g && s != t && Reach(g, s, t) && Reach(g, t, s)
        ensures exists y :: (v, y) in g && Reach(g, y, s) && !Reach(g, s, y)
      {
        var y := KeepingNeedsEntry(g, v, s, t);
      }
    }
    if CyclesAreBare(g) && CyclesAreEnteredAbove(g) {
      forall x, y | Reach(g, x, y) ensures Reach(Reduced(g), x, y) {
        var p := WalkOf(g, x, y);
        forall i | 0 <= i < |p| - 1 ensures Reach(Reduced(g), p[i], p[i + 1]) {
          assert (p[i], p[i + 1]) in g;
          EdgeStaysReached(g, p[i], p[i + 1]);
        }
        ChainReach(Reduced(g), p);
      }
    }
  }

  /** Without cycles, removing all redundant edges at once keeps every reachability. */
  lemma ReductionPreservesReach(g: Graph, x: NodeId, y: NodeId)
    requires Acyclic(g)
    ensures Reach(Reduced(g), x, y) <==> Reach(g, x, y)
  {
    hide Reach;
    assert forall s, t :: s != t && Reach(g, s, t) && Reach(g, t, s) ==> OnCycle(g, s) by {
      hide Acyclic;
      forall s, t | s != t && Reach(g, s, t) && Reach(g, t, s) ensures OnCycle(g, s) {
        ReachCases(g, s, t);
        var z :| (s, z) in g && Reach(g, z, t);
        ReachTrans(g, z, t, s);
      }
    }
    ReductionKeepsReachIff(g);
    if Reach(Reduced(g), x, y) {
      SubgraphReach(Reduced(g), g, x, y);
    }
  }

  /** On a graph with a cycle the removal can lose reachability. */
  lemma CyclicReductionLosesReach(a: NodeId, b: NodeId, c: NodeId)
    requires a != b && b != c && a != c
    ensures var g := {(a, b), (b, a), (a, c), (b, c)};
            Reach(g, a, c) && !Reach(Reduced(g), a, c)
  {
    var g := {(a, b), (b, a), (a, c), (b, c)};
    ReachEdge(g, a, c);
    ReachEdge(g, b, c);
    assert Redundant(g, a, c) && Redundant(g, b, c);
    if Reach(Reduced(g), a, c) {
      LastEdge(Reduced(g), a, c);
    }
  }

  lemma LastEdge(g: Graph, x: NodeId, y: NodeId)
    requires Reach(g, x, y) && x != y
    ensures exists z :: (z, y) in g
  {
    var p :| WalkFromTo(g, p, x, y);
    assert (p[|p| - 2], p[|p| - 1]) in g;
  }

  // ---- The breadth-first search ----

  function AdjSet(g: Graph, x: NodeId): set<NodeId> {
    set e | e in g && e.0 == x :: e.1
  }

  lemma AdjSetIs(g: Graph, x: NodeId, y: NodeId)
    ensures y in AdjSet(g, x) <==> (x, y) in g
  {
    assert (x, y) in g ==> (x, y).0 == x && (x, y).1 == y;
  }

  /** A set in some order, as iterating over it gives it. */
  method InSomeOrder(s: set<NodeId>) returns (q: seq<NodeId>)
    ensures forall x :: x in q <==> x in s
    ensures |q| == |s|
  {
    q := [];
    var rest := s;
    while rest != {}
      invariant rest <= s && (forall x :: x in q <==> x in s && x !in rest) && |q| + |rest| == |s|
      decreases rest
    {
      var x :| x in rest;
      q, rest := q + [x], rest - {x};
    }
  }

  /** A walk from `a` along `depth` edges that does not start with the edge to `c`. */
  ghost predicate LongWay(g: Graph, a: NodeId, c: NodeId, x: NodeId, depth: nat) {
    exists p :: WalkFromTo(g, p, a, x) && |p| == depth + 1 && depth >= 1 && p[1] != c
  }

  lemma LongWayStep(g: Graph, a: NodeId, c: NodeId, x: NodeId, y: NodeId, depth: nat)
    requires LongWay(g, a, c, x, depth) && (x, y) in g
    ensures LongWay(g, a, c, y, depth + 1)
  {
    var p :| WalkFromTo(g, p, a, x) && |p| == depth + 1 && depth >= 1 && p[1] != c;
    assert WalkFromTo(g, [x, y], x, y);
    JoinWalks(g, p, [x, y], a, x, y);
    assert (p + [x, y][1..])[1] == p[1];
  }

  /** `x` is in the queue, at `depth` or less. */
  predicate Queued(queue: seq<(NodeId, nat)>, x: NodeId, depth: nat) {
    exists i :: 0 <= i < |queue| && queue[i].0 == x && queue[i].1 <= depth
  }

  /** `x` has been or will be seen, at `depth` or less. */
  predicate Within(dist: map<NodeId, nat>, queue: seq<(NodeId, nat)>, x: NodeId, depth: nat) {
    (x in dist && dist[x] <= depth) || Queued(queue, x, depth)
  }

  /** What the search has seen leads nowhere but to what it has seen and to the queue, at
      most one edge deeper. */
  ghost predicate Explored(g: Graph, a: NodeId, c: NodeId, dist: map<NodeId, nat>, queue: seq<(NodeId, nat)>) {
    && (forall b :: (a, b) in g && b != c ==> Within(dist, queue, b, 1))
    && (forall x, y :: x in dist && x != c && (x, y) in g ==> Within(dist, queue, y, dist[x] + 1))
  }

  /** The queue is ordered by depth, spans at most two depths, and is no shallower than what
      has been seen. */
  predicate Layered(dist: map<NodeId, nat>, queue: seq<(NodeId, nat)>) {
    && (forall i, j :: 0 <= i < j < |queue| ==> queue[i].1 <= queue[j].1)
    && (forall i :: 0 <= i < |queue| ==> queue[i].1 <= queue[0].1 + 1)
    && (forall x :: x in dist && queue != [] ==> dist[x] <= queue[0].1)
  }

  /** The queue holds end points of long ways, with their lengths. */
  ghost predicate QueueSound(g: Graph, a: NodeId, c: NodeId, queue: seq<(NodeId, nat)>) {
    forall i :: 0 <= i < |queue| ==> queue[i].0 in Ends(g) && LongWay(g, a, c, queue[i].0, queue[i].1)
  }

  lemma {:induction false} ClosedUnderWalk(g: Graph, seen: set<NodeId>, p: seq<NodeId>)
    requires Walk(g, p) && p[0] in seen && forall x, y :: x in seen && (x, y) in g ==> y in seen
    ensures p[|p| - 1] in seen
    decreases |p|
  {
    var n := |p| - 1;
    if n > 0 {
      assert (p[n - 1], p[n]) in g;
      ClosedUnderWalk(g, seen, p[..n]);
    }
  }

  lemma SearchSound(g: Graph, a: NodeId, c: NodeId, depth: nat)
    requires (a, c) in g && LongWay(g, a, c, c, depth)
    ensures depth >= 2 && Redundant(g, a, c)
  {
    var p :| WalkFromTo(g, p, a, c) && |p| == depth + 1 && depth >= 1 && p[1] != c;
    assert (p[0], p[1]) in g;
    SubWalk(g, p, 1, |p| - 1);
    assert Reach(g, p[1], c);
  }

  lemma RedundantIsLongWay(g: Graph, a: NodeId, c: NodeId)
    requires Redundant(g, a, c)
    ensures exists k :: LongWay(g, a, c, c, k)
  {
    var b :| (a, b) in g && b != c && Reach(g, b, c);
    var q :| WalkFromTo(g, q, b, c);
    assert WalkFromTo(g, [a, b], a, b);
    JoinWalks(g, [a, b], q, a, b, c);
    var p := [a, b] + q[1..];
    assert p[1] == b;
    assert LongWay(g, a, c, c, |p| - 1);
  }

  /** When the queue is empty, the recorded depths are not beaten by any walk that has not
      yet come by `c`. */
  lemma {:induction false} WalkIsNoShorter(g: Graph, a: NodeId, c: NodeId, dist: map<NodeId, nat>,
                                           p: seq<NodeId>, i: nat)
    requires Explored(g, a, c, dist, []) && Walk(g, p) && p[0] == a && 1 <= i < |p| && p[1] != c
    ensures (p[i] in dist && dist[p[i]] <= i) || (c in dist && dist[c] <= i)
  {
    assert (p[i - 1], p[i - 1 + 1]) in g;
    if i == 1 {
      assert Within(dist, [], p[1], 1);
    } else {
      WalkIsNoShorter(g, a, c, dist, p, i - 1);
      if p[i - 1] in dist && p[i - 1] != c && dist[p[i - 1]] <= i - 1 {
        assert Within(dist, [], p[i], dist[p[i - 1]] + 1);
      }
    }
  }

  /** The search is over: `c` has its least depth, or is not reached the long way. */
  lemma SearchComplete(g: Graph, a: NodeId, c: NodeId, dist: map<NodeId, nat>)
    requires Explored(g, a, c, dist, [])
    ensures forall k :: LongWay(g, a, c, c, k) ==> c in dist && dist[c] <= k
    ensures Redundant(g, a, c) ==> c in dist
  {
    hide Redundant, Explored;
    forall k | LongWay(g, a, c, c, k) ensures c in dist && dist[c] <= k {
      var p :| WalkFromTo(g, p, a, c) && |p| == k + 1 && k >= 1 && p[1] != c;
      WalkIsNoShorter(g, a, c, dist, p, k);
    }
    if Redundant(g, a, c) {
      RedundantIsLongWay(g, a, c);
    }
  }

  /** The queue with the unseen successors of `cur`, at any one order. */
  method Enqueue(g: Graph, cur: NodeId, depth: nat, seen: set<NodeId>, queue: seq<(NodeId, nat)>)
    returns (r: seq<(NodeId, nat)>)
    ensures queue <= r
    ensures forall i :: |queue| <= i < |r| ==> (cur, r[i].0) in g && r[i].1 == depth + 1
    ensures forall y :: (cur, y) in g ==> y in seen || Queued(r, y, depth + 1)
  {
    var nexts := InSomeOrder(AdjSet(g, cur));
    r := queue;
    for k := 0 to |nexts|
      invariant queue <= r
      invariant forall i :: |queue| <= i < |r| ==> (cur, r[i].0) in g && r[i].1 == depth + 1
      invariant forall j :: 0 <= j < k ==> nexts[j] in seen || Queued(r, nexts[j], depth + 1)
    {
      AdjSetIs(g, cur, nexts[k]);
      ghost var before := r;
      if nexts[k] !in seen {
        r := r + [(nexts[k], depth + 1)];
        assert r[|before|].0 == nexts[k];
      }
      forall j | 0 <= j < k ensures nexts[j] in seen || Queued(r, nexts[j], depth + 1) {
        if Queued(before, nexts[j], depth + 1) {
          var i :| 0 <= i < |before| && before[i].0 == nexts[j] && before[i].1 <= depth + 1;
          assert r[i].0 == nexts[j];
        }
      }
    }
    forall y | (cur, y) in g ensures y in seen || Queued(r, y, depth + 1) {
      AdjSetIs(g, cur, y);
    }
  }

  /** The recorded depths with that of the head of the queue, if it is new. */
  function Recorded(dist: map<NodeId, nat>, head: (NodeId, nat)): map<NodeId, nat> {
    if head.0 in dist then dist else dist[head.0 := head.1]
  }

  lemma StaysWithin(dist: map<NodeId, nat>, queue: seq<(NodeId, nat)>, r: seq<(NodeId, nat)>, x: NodeId, depth: nat)
    requires queue != [] && Layered(dist, queue) && queue[1..] <= r && Within(dist, queue, x, depth)
    ensures Within(Recorded(dist, queue[0]), r, x, depth)
  {
    if Queued(queue, x, depth) {
      var i :| 0 <= i < |queue| && queue[i].0 == x && queue[i].1 <= depth;
      if i > 0 {
        assert r[i - 1] == queue[1..][i - 1];
      }
    }
  }

  lemma StepExplored(g: Graph, a: NodeId, c: NodeId, dist: map<NodeId, nat>,
                     queue: seq<(NodeId, nat)>, r: seq<(NodeId, nat)>)
    requires queue != [] && Explored(g, a, c, dist, queue) && Layered(dist, queue) && queue[1..] <= r
    requires var (cur, depth) := queue[0];
             cur != c && cur !in dist ==>
               forall y :: (cur, y) in g ==> y in dist || y == cur || Queued(r, y, depth + 1)
    ensures Explored(g, a, c, Recorded(dist, queue[0]), r)
  {
    hide Within;
    var (cur, depth) := queue[0];
    var dist' := Recorded(dist, queue[0]);
    forall b | (a, b) in g && b != c ensures Within(dist', r, b, 1) {
      StaysWithin(dist, queue, r, b, 1);
    }
    forall x, y | x in dist' && x != c && (x, y) in g ensures Within(dist', r, y, dist'[x] + 1) {
      if x in dist {
        StaysWithin(dist, queue, r, y, dist[x] + 1);
      } else {
        assert Within(dist', r, y, depth + 1) by { WithinIs(dist', r, y, depth + 1); }
      }
    }
  }

  lemma WithinIs(dist: map<NodeId, nat>, queue: seq<(NodeId, nat)>, x: NodeId, depth: nat)
    ensures Within(dist, queue, x, depth) <==> (x in dist && dist[x] <= depth) || Queued(queue, x, depth)
  {
  }

  lemma StepLayered(dist: map<NodeId, nat>, queue: seq<(NodeId, nat)>, r: seq<(NodeId, nat)>)
    requires queue != [] && Layered(dist, queue) && queue[1..] <= r
    requires forall i :: |queue| - 1 <= i < |r| ==> r[i].1 == queue[0].1 + 1
    ensures Layered(Recorded(dist, queue[0]), r)
  {
    assert forall i :: 0 <= i < |queue| - 1 ==> r[i] == queue[1..][i] == queue[i + 1];
  }

  lemma StepSound(g: Graph, a: NodeId, c: NodeId, queue: seq<(NodeId, nat)>, r: seq<(NodeId, nat)>)
    requires queue != [] && QueueSound(g, a, c, queue) && queue[1..] <= r
    requires forall i :: |queue| - 1 <= i < |r| ==> (queue[0].0, r[i].0) in g && r[i].1 == queue[0].1 + 1
    ensures QueueSound(g, a, c, r)
  {
    forall i | 0 <= i < |r| ensures r[i].0 in Ends(g) && LongWay(g, a, c, r[i].0, r[i].1) {
      if i < |queue| - 1 {
        assert r[i] == queue[1..][i] == queue[i + 1];
      } else {
        LongWayStep(g, a, c, queue[0].0, r[i].0, queue[0].1);
        assert (queue[0].0, r[i].0).1 == r[i].0;
      }
    }
  }

  /** The least length of a long way. */
  ghost predicate LeastDepth(g: Graph, a: NodeId, c: NodeId, depth: nat) {
    LongWay(g, a, c, c, depth) && forall k :: LongWay(g, a, c, c, k) ==> depth <= k
  }

  /** The search from the other successors of `a` reaches `c` exactly when the edge is
      redundant; the depth it reports is the least length of such a walk, hence at least two. */
  method FindLongWay(g: Graph, a: NodeId, c: NodeId) returns (reached: bool, depthReached: nat)
    requires (a, c) in g
    ensures reached <==> Redundant(g, a, c)
    ensures reached ==> depthReached >= 2 && LeastDepth(g, a, c, depthReached)
  {
    hide Reach, LongWay, Redundant, Ends, Layered, Explored, Within;
    var queue := StartQueue(g, a, c);
    reached, depthReached := false, 0;
    var seen: set<NodeId> := {};
    ghost var dist: map<NodeId, nat> := map[];
    while queue != []
      invariant Explored(g, a, c, dist, queue) && Layered(dist, queue) && QueueSound(g, a, c, queue)
      invariant seen == dist.Keys <= Ends(g)
      invariant reached <==> c in seen
      invariant reached ==> LongWay(g, a, c, c, depthReached) && depthReached == dist[c]
      invariant !reached ==> depthReached == 0
      decreases Ends(g) - seen, |queue|
    {
      var (cur, depth) := queue[0];
      ghost var before := queue;
      queue := queue[1..];
      if cur in seen {
        StepExplored(g, a, c, dist, before, queue);
        StepLayered(dist, before, queue);
        continue;
      }
      if cur == c {
        reached := true;
        depthReached := if depthReached >= depth then depthReached else depth;
      } else {
        queue := Enqueue(g, cur, depth, seen + {cur}, queue);
        StepSound(g, a, c, before, queue);
      }
      StepExplored(g, a, c, dist, before, queue);
      StepLayered(dist, before, queue);
      seen := seen + {cur};
      dist := dist[cur := depth];
    }
    SearchComplete(g, a, c, dist);
    if reached {
      SearchSound(g, a, c, depthReached);
    }
  }

  method StartQueue(g: Graph, a: NodeId, c: NodeId) returns (queue: seq<(NodeId, nat)>)
    ensures Explored(g, a, c, map[], queue) && Layered(map[], queue) && QueueSound(g, a, c, queue)
  {
    var first := InSomeOrder(AdjSet(g, a) - {c});
    queue := seq(|first|, i requires 0 <= i < |first| => (first[i], 1));
    forall b | (a, b) in g && b != c ensures Queued(queue, b, 1) {
      AdjSetIs(g, a, b);
      assert b in AdjSet(g, a) - {c} && b in first;
      var i :| 0 <= i < |first| && first[i] == b;
      assert queue[i].0 == b;
    }
    forall i | 0 <= i < |queue| ensures queue[i].0 in Ends(g) && LongWay(g, a, c, queue[i].0, queue[i].1) {
      var b := first[i];
      assert b in first;
      AdjSetIs(g, a, b);
      assert (a, b).1 == b;
      assert WalkFromTo(g, [a, b], a, b);
    }
  }

  /** Some node joins the ends of the edge by one edge each. */
  predicate HasTriangle(g: Graph, a: NodeId, c: NodeId) {
    exists b :: b in Ends(g) && b != c && (a, b) in g && (b, c) in g
  }

  /** The depth of a finding is two exactly when one node lies between its ends. */
  lemma DepthTwoIff(g: Graph, a: NodeId, c: NodeId, depth: nat)
    requires (a, c) in g && LeastDepth(g, a, c, depth)
    ensures depth >= 2 && (depth == 2 <==> HasTriangle(g, a, c))
  {
    SearchSound(g, a, c, depth);
    if depth == 2 {
      var p :| WalkFromTo(g, p, a, c) && |p| == depth + 1 && depth >= 1 && p[1] != c;
      assert (p[0], p[1]) in g && (p[1], p[1 + 1]) in g;
    }
    if HasTriangle(g, a, c) {
      var b :| b in Ends(g) && b != c && (a, b) in g && (b, c) in g;
      assert WalkFromTo(g, [a, b, c], a, c);
      assert LongWay(g, a, c, c, 2);
    }
  }

  predicate ReportedKind(e: Edge) {
    e.kind == ExplicitDependsOn
  }

  /** The findings that the classifier is to make, in the order of the edges. */
  ghost function RedundantEdges(g: Graph, edges: seq<Edge>): seq<Edge> {
    if edges == [] then []
    else
      var n := |edges| - 1;
      RedundantEdges(g, edges[..n])
      + if ReportedKind(edges[n]) && Redundant(g, edges[n].source, edges[n].target) then [edges[n]] else []
  }

  /** Exactly the redundant dependency edges are reported; the guard against walks
      of depth one never applies, and nothing asks for depth three. */
  method ClassifyRedundantDependency(edges: seq<Edge>) returns (findings: seq<Edge>)
    ensures findings == RedundantEdges(DependsOn(edges), edges)
  {
    var g := DependsOn(edges);
    findings := [];
    for i := 0 to |edges|
      invariant findings == RedundantEdges(g, edges[..i])
    {
      var e := edges[i];
      assert edges[..i + 1][..i] == edges[..i];
      if e.kind == ExplicitDependsOn {
        assert e in edges && (e.source, e.target) in g;
        var reached, depthReached := FindLongWay(g, e.source, e.target);
        if reached && depthReached >= 2 {
          findings := findings + [e];
        }
      }
    }
    assert edges[..|edges|] == edges;
  }

  lemma {:induction false} RedundantEdgesAre(g: Graph, edges: seq<Edge>, e: Edge)
    ensures e in RedundantEdges(g, edges) <==> e in edges && ReportedKind(e) && Redundant(g, e.source, e.target)
  {
    if edges != [] {
      var n := |edges| - 1;
      RedundantEdgesAre(g, edges[..n], e);
      assert edges == edges[..n] + [edges[n]];
    }
  }

  /** Removing what is reported is the reduction. */
  lemma RemovingFindingsReduces(edges: seq<Edge>)
    ensures var g := DependsOn(edges);
            Reduced(g) == g - set e | e in RedundantEdges(g, edges) :: (e.source, e.target)
  {
    var g := DependsOn(edges);
    var removed := set e | e in RedundantEdges(g, edges) :: (e.source, e.target);
    forall p ensures p in Reduced(g) <==> p in g - removed {
      if p in g {
        var e :| e in edges && ReportedKind(e) && p == (e.source, e.target);
        RedundantEdgesAre(g, edges, e);
      }
      if p in removed {
        var e :| e in RedundantEdges(g, edges) && p == (e.source, e.target);
        RedundantEdgesAre(g, edges, e);
      }
    }
  }

  /** The documented rule: the shortest other chain has three edges or more. */
  ghost predicate DeeplyRedundant(g: Graph, a: NodeId, c: NodeId) {
    exists depth :: LeastDepth(g, a, c, depth) && depth >= 3
  }

  lemma {:induction false} LeastExists(g: Graph, a: NodeId, c: NodeId, k: nat) returns (depth: nat)
    requires LongWay(g, a, c, c, k)
    ensures LeastDepth(g, a, c, depth)
  {
    hide LongWay;
    if j :| 0 <= j < k && LongWay(g, a, c, c, j) {
      depth := LeastExists(g, a, c, j);
    } else {
      depth := k;
    }
  }

  /** A finding is one that the documentation promises exactly when no node lies between. */
  lemma DocumentedDepthIff(g: Graph, a: NodeId, c: NodeId)
    requires Redundant(g, a, c)
    ensures DeeplyRedundant(g, a, c) <==> !HasTriangle(g, a, c)
  {
    hide LongWay, HasTriangle;
    RedundantIsLongWay(g, a, c);
    var k :| LongWay(g, a, c, c, k);
    var depth := LeastExists(g, a, c, k);
    DepthTwoIff(g, a, c, depth);
  }

  /** All findings are as documented exactly when no dependency is the long side of a triangle. */
  lemma FindingsAreDocumentedIff(edges: seq<Edge>)
    ensures var g := DependsOn(edges);
            (forall e :: e in RedundantEdges(g, edges) ==> DeeplyRedundant(g, e.source, e.target))
            <==> forall a, c :: (a, c) in g ==> !HasTriangle(g, a, c)
  {
    hide DeeplyRedundant, HasTriangle, Redundant;
    var g := DependsOn(edges);
    forall e | e in RedundantEdges(g, edges)
      ensures (e.source, e.target) in g
      ensures DeeplyRedundant(g, e.source, e.target) <==> !HasTriangle(g, e.source, e.target)
    {
      RedundantEdgesAre(g, edges, e);
      DocumentedDepthIff(g, e.source, e.target);
    }
    forall a, c | (a, c) in g && HasTriangle(g, a, c)
      ensures exists e :: e in RedundantEdges(g, edges) && e.source == a && e.target == c
    {
      TriangleIsRedundant(g, a, c);
      var e :| e in edges && ReportedKind(e) && (a, c) == (e.source, e.target);
      RedundantEdgesAre(g, edges, e);
    }
  }

  lemma TriangleIsRedundant(g: Graph, a: NodeId, c: NodeId)
    requires (a, c) in g && HasTriangle(g, a, c)
    ensures Redundant(g, a, c)
  {
    var b :| b in Ends(g) && b != c && (a, b) in g && (b, c) in g;
    ReachEdge(g, b, c);
  }

  /** Despite the documentation, a chain of two edges is enough. */
  lemma DepthTwoIsReported(a: NodeId, b: NodeId, c: NodeId)
    requires a != b && b != c && a != c
    ensures var edges := [Edge(a, b, ExplicitDependsOn), Edge(b, c, ExplicitDependsOn), Edge(a, c, ExplicitDependsOn)];
            var g := DependsOn(edges);
            edges[2] in RedundantEdges(g, edges) && !DeeplyRedundant(g, a, c)
  {
    var edges := [Edge(a, b, ExplicitDependsOn), Edge(b, c, ExplicitDependsOn), Edge(a, c, ExplicitDependsOn)];
    var g := DependsOn(edges);
    assert edges[0] in edges && edges[1] in edges && edges[2] in edges;
    assert (a, b) in g && (b, c) in g && (a, c) in g;
    assert HasTriangle(g, a, c);
    TriangleIsRedundant(g, a, c);
    RedundantEdgesAre(g, edges, edges[2]);
    DocumentedDepthIff(g, a, c);
  }

  // ---- All successors ----

  /** Every node that `start` reaches, itself included; along edges of every kind. */
  method TransitiveSuccessors(edges: seq<Edge>, start: NodeId) returns (seen: set<NodeId>)
    ensures forall x :: x in seen <==> Reach(GraphOf(edges), start, x)
  {
    hide Reach;
    var g := GraphOf(edges);
    seen := {};
    var stack := [start];
    ReachSelf(g, start);
    while stack != []
      invariant seen <= Ends(g) + {start} && (forall x :: x in stack ==> x in Ends(g) + {start})
      invariant forall x :: x in seen || x in stack ==> Reach(g, start, x)
      invariant start in seen || start in stack
      invariant forall x, y :: x in seen && (x, y) in g ==> y in seen || y in stack
      decreases Ends(g) + {start} - seen, |stack|
    {
      var n := |stack| - 1;
      var cur := stack[n];
      assert stack == stack[..n] + [cur];
      stack := stack[..n];
      if cur !in seen {
        seen := seen + {cur};
        var nexts := InSomeOrder(AdjSet(g, cur));
        forall y | y in nexts ensures Reach(g, start, y) && y in Ends(g) {
          AdjSetIs(g, cur, y);
          ReachEdge(g, cur, y);
          ReachTrans(g, start, cur, y);
          assert (cur, y).1 == y;
        }
        forall y | (cur, y) in g ensures y in nexts { AdjSetIs(g, cur, y); }
        stack := PushUnseen(stack, nexts, seen);
      }
    }
    forall x | Reach(g, start, x) ensures x in seen { SeenAll(g, start, x, seen); }
  }

  method PushUnseen(stack: seq<NodeId>, nexts: seq<NodeId>, seen: set<NodeId>) returns (r: seq<NodeId>)
    ensures forall x :: x in r <==> x in stack || (x in nexts && x !in seen)
  {
    r := stack;
    for k := 0 to |nexts|
      invariant forall x :: x in r <==> x in stack || (x in nexts[..k] && x !in seen)
    {
      assert nexts[..k + 1] == nexts[..k] + [nexts[k]];
      if nexts[k] !in seen {
        r := r + [nexts[k]];
      }
    }
    assert nexts[..|nexts|] == nexts;
  }

  lemma SeenAll(g: Graph, start: NodeId, x: NodeId, seen: set<NodeId>)
    requires Reach(g, start, x) && start in seen && forall x, y :: x in seen && (x, y) in g ==> y in seen
    ensures x in seen
  {
    var p :| WalkFromTo(g, p, start, x);
    ClosedUnderWalk(g, seen, p);
  }

  /** The documented result: what is reached along dependency edges alone. */
  ghost predicate SuccessorsAsDocumented(edges: seq<Edge>, start: NodeId) {
    forall x :: Reach(GraphOf(edges), start, x) <==> Reach(DependsOn(edges), start, x)
  }

  /** Every other edge that leaves what is reached by dependencies leads back into it. */
  ghost predicate OtherEdgesLeadBack(edges: seq<Edge>, start: NodeId) {
    forall e :: e in edges && e.kind != ExplicitDependsOn && Reach(DependsOn(edges), start, e.source) ==>
      Reach(DependsOn(edges), start, e.target)
  }

  lemma {:induction false} WalkByDependencies(edges: seq<Edge>, start: NodeId, p: seq<NodeId>)
    requires OtherEdgesLeadBack(edges, start) && Walk(GraphOf(edges), p) && p[0] == start
    ensures Reach(DependsOn(edges), start, p[|p| - 1])
    decreases |p|
  {
    hide Reach;
    var g, n := DependsOn(edges), |p| - 1;
    if n == 0 {
      ReachSelf(g, start);
    } else {
      WalkByDependencies(edges, start, p[..n]);
      assert (p[n - 1], p[n - 1 + 1]) in GraphOf(edges);
      var e :| e in edges && (e.source, e.target) == (p[n - 1], p[n]);
      if e.kind == ExplicitDependsOn {
        assert (p[n - 1], p[n]) in g;
        ReachEdge(g, p[n - 1], p[n]);
        ReachTrans(g, start, p[n - 1], p[n]);
      }
    }
  }

  /** The successors are those that the documentation promises exactly when no supersedes
      edge leads out of them. */
  lemma SuccessorsAsDocumentedIff(edges: seq<Edge>, start: NodeId)
    ensures SuccessorsAsDocumented(edges, start) <==> OtherEdgesLeadBack(edges, start)
  {
    var all, g := GraphOf(edges), DependsOn(edges);
    forall x | Reach(g, start, x) ensures Reach(all, start, x) {
      SubgraphReach(g, all, start, x);
    }
    if SuccessorsAsDocumented(edges, start) {
      forall e | e in edges && e.kind != ExplicitDependsOn && Reach(g, start, e.source)
        ensures Reach(g, start, e.target)
      {
        ReachEdge(all, e.source, e.target);
        ReachTrans(all, start, e.source, e.target);
      }
    }
    if OtherEdgesLeadBack(edges, start) {
      forall x | Reach(all, start, x) ensures Reach(g, start, x) {
        var p :| WalkFromTo(all, p, start, x);
        WalkByDependencies(edges, start, p);
      }
    }
  }

  /** A dependency and a supersedes edge behind it: one node too many. */
  lemma SupersededIsSuccessor(a: NodeId, b: NodeId, c: NodeId)
    requires a != b && b != c && a != c
    ensures var edges := [Edge(a, b, ExplicitDependsOn), Edge(b, c, ExplicitSupersedes)];
            Reach(GraphOf(edges), a, c) && !Reach(DependsOn(edges), a, c)
  {
    var edges := [Edge(a, b, ExplicitDependsOn), Edge(b, c, ExplicitSupersedes)];
    var all, g := GraphOf(edges), DependsOn(edges);
    assert edges[0] in edges && edges[1] in edges;
    assert (a, b) in all && (b, c) in all;
    ReachEdge(all, a, b);
    ReachEdge(all, b, c);
    ReachTrans(all, a, b, c);
    if Reach(g, a, c) {
      LastEdge(g, a, c);
    }
  }
}
