/** The chain from a blocked plan to its deepest root blocker. */
module Chains {
  import opened Graphs

  type Adjacency = map<NodeId, seq<NodeId>>

  function Children(adj: Adjacency, x: NodeId): seq<NodeId> {
    if x in adj then adj[x] else []
  }

  predicate Blocked(statuses: map<NodeId, string>, x: NodeId) {
    x in statuses && statuses[x] in {"queued", "research", "not-started"}
  }

  predicate Simple(p: seq<NodeId>) {
    forall i, j :: 0 <= i < j < |p| ==> p[i] != p[j]
  }

  /** A path along children that visits no node twice. */
  predicate SimplePath(adj: Adjacency, p: seq<NodeId>) {
    p != [] && Simple(p) && forall i :: 0 <= i < |p| - 1 ==> p[i + 1] in Children(adj, p[i])
  }

  /** A simple path that ends in a blocked node without children. */
  predicate BlockedChain(adj: Adjacency, statuses: map<NodeId, string>, p: seq<NodeId>) {
    SimplePath(adj, p) && Children(adj, p[|p| - 1]) == [] && Blocked(statuses, p[|p| - 1])
  }

  function Nodes(adj: Adjacency): set<NodeId> {
    set x, y | x in adj && y in adj[x] :: y
  }

  /** The nested function `dfs` and the variable it shares with its caller. */
  class Search {
    const adj: Adjacency
    const statuses: map<NodeId, string>
    var best: seq<NodeId>

    constructor (adj: Adjacency, statuses: map<NodeId, string>)
      ensures this.adj == adj && this.statuses == statuses && best == []
    {
      this.adj, this.statuses := adj, statuses;
      best := [];
    }

    /** Replaces `best` by a deepest blocked chain that extends `path`, if it is deeper. */
    method Dfs(path: seq<NodeId>, ghost universe: set<NodeId>)
      requires SimplePath(adj, path) && Elements(path) <= universe && Nodes(adj) <= universe
      modifies this
      ensures best == old(best) || (|best| > |old(best)| && path <= best && BlockedChain(adj, statuses, best))
      ensures NoLonger(adj, statuses, path, |best|)
      decreases universe - Elements(path)
    {
      hide SimplePath, BlockedChain, Simple, Nodes, Elements, Blocked;
      SimplePathBasics(adj, path);
      var cur := path[|path| - 1];
      var children := Children(adj, cur);
      if children == [] {
        LeafChains(adj, statuses, path);
        if Blocked(statuses, cur) {
          if |path| > |best| {
            best := path;
          }
        }
        return;
      }
      for i := 0 to |children|
        invariant best == old(best) || (|best| > |old(best)| && path <= best && BlockedChain(adj, statuses, best))
        invariant forall k :: 0 <= k < i ==> NoLonger(adj, statuses, path + [children[k]], |best|)
      {
        var next := children[i];
        if next in path {
          RepeatEnds(adj, statuses, path, next, |best|);
          continue;
        }
        ExtendPath(adj, path, next);
        Dfs(path + [next], universe);
        assert path + [next] <= best ==> path <= best;
        assert NoLonger(adj, statuses, path + [next], |best|);
      }
      ChildrenCover(adj, statuses, path, |best|);
    }
  }

  /** No blocked chain that extends `path` has more than `bound` nodes. */
  ghost predicate NoLonger(adj: Adjacency, statuses: map<NodeId, string>, path: seq<NodeId>, bound: nat) {
    forall q :: path <= q && BlockedChain(adj, statuses, q) ==> |q| <= bound
  }

  lemma SimplePathBasics(adj: Adjacency, path: seq<NodeId>)
    requires SimplePath(adj, path)
    ensures path != []
  {
  }

  /** From a node without children there is at most the path itself. */
  lemma LeafChains(adj: Adjacency, statuses: map<NodeId, string>, path: seq<NodeId>)
    requires SimplePath(adj, path) && Children(adj, path[|path| - 1]) == []
    ensures BlockedChain(adj, statuses, path) <==> Blocked(statuses, path[|path| - 1])
    ensures forall q :: path <= q && BlockedChain(adj, statuses, q) ==> q == path
  {
    hide Blocked, Children, Simple;
    forall q | path <= q && BlockedChain(adj, statuses, q) ensures q == path {
      LeafEndsChain(adj, path, q);
    }
  }

  lemma RepeatEnds(adj: Adjacency, statuses: map<NodeId, string>, path: seq<NodeId>, next: NodeId, bound: nat)
    requires next in path
    ensures NoLonger(adj, statuses, path + [next], bound)
  {
    hide Blocked, Children, Simple;
    forall q | path + [next] <= q ensures !Simple(q) {
      RepeatIsNotSimple(path, next, q);
    }
  }

  lemma ChildrenCover(adj: Adjacency, statuses: map<NodeId, string>, path: seq<NodeId>, bound: nat)
    requires path != [] && Children(adj, path[|path| - 1]) != []
    requires var children := Children(adj, path[|path| - 1]);
             forall k :: 0 <= k < |children| ==> NoLonger(adj, statuses, path + [children[k]], bound)
    ensures NoLonger(adj, statuses, path, bound)
  {
    hide BlockedChain, Children;
    var children := Children(adj, path[|path| - 1]);
    forall q | path <= q && BlockedChain(adj, statuses, q) ensures |q| <= bound {
      ChainGoesOn(adj, statuses, path, q);
      var k :| 0 <= k < |children| && path + [children[k]] <= q;
      assert NoLonger(adj, statuses, path + [children[k]], bound);
    }
  }

  lemma PathStep(adj: Adjacency, path: seq<NodeId>, q: seq<NodeId>)
    requires path != [] && path <= q && |q| > |path| && SimplePath(adj, q)
    ensures q[|path|] in Children(adj, path[|path| - 1])
  {
    assert q[|path| - 1] == path[|path| - 1];
  }

  lemma LeafEndsChain(adj: Adjacency, path: seq<NodeId>, q: seq<NodeId>)
    requires path != [] && path <= q && SimplePath(adj, q) && Children(adj, path[|path| - 1]) == []
    ensures q == path
  {
    if |q| > |path| {
      PathStep(adj, path, q);
    }
  }

  lemma RepeatIsNotSimple(path: seq<NodeId>, next: NodeId, q: seq<NodeId>)
    requires next in path && path + [next] <= q
    ensures !Simple(q)
  {
    var i :| 0 <= i < |path| && path[i] == next;
    assert q[i] == (path + [next])[i] && q[|path|] == (path + [next])[|path|];
  }

  lemma ExtendPath(adj: Adjacency, path: seq<NodeId>, next: NodeId)
    requires SimplePath(adj, path) && next !in path && next in Children(adj, path[|path| - 1])
    ensures SimplePath(adj, path + [next]) && Elements(path + [next]) == Elements(path) + {next}
    ensures next in Nodes(adj) && next !in Elements(path)
  {
  }

  lemma ChainGoesOn(adj: Adjacency, statuses: map<NodeId, string>, path: seq<NodeId>, q: seq<NodeId>)
    requires path != [] && path <= q && BlockedChain(adj, statuses, q) && Children(adj, path[|path| - 1]) != []
    ensures var children := Children(adj, path[|path| - 1]);
            exists k :: 0 <= k < |children| && path + [children[k]] <= q
  {
    var i := |path| - 1;
    assert q[i] == path[i];
    assert |q| > |path|;
    var k :| 0 <= k < |Children(adj, q[i])| && Children(adj, q[i])[k] == q[i + 1];
    assert path + [q[i + 1]] == q[..i + 2];
  }

  /** On any graph, cycles included: a longest simple path from `start` to a blocked node
      without children, or just `start` when there is none. */
  ghost predicate IsDeepest(adj: Adjacency, statuses: map<NodeId, string>, start: NodeId, chain: seq<NodeId>) {
    && (forall q :: BlockedChain(adj, statuses, q) && q[0] == start ==>
          |q| <= |chain| && BlockedChain(adj, statuses, chain) && chain[0] == start)
    && ((forall q :: BlockedChain(adj, statuses, q) ==> q[0] != start) ==> chain == [start])
  }

  method DeepestBlockedChain(start: NodeId, adj: Adjacency, statuses: map<NodeId, string>) returns (chain: seq<NodeId>)
    ensures IsDeepest(adj, statuses, start, chain)
  {
    var search := new Search(adj, statuses);
    search.Dfs([start], Nodes(adj) + {start});
    forall q | BlockedChain(adj, statuses, q) && q[0] == start ensures [start] <= q && |q| <= |search.best| {}
    chain := if search.best != [] then search.best else [start];
  }

  /** The children of a node are the targets of its edges in the graph. */
  ghost predicate Follows(adj: Adjacency, g: Graph) {
    forall x, y :: y in Children(adj, x) <==> (x, y) in g
  }

  lemma OneNode(adj: Adjacency, x: NodeId)
    ensures SimplePath(adj, [x])
  {
  }

  /** The chain begins at the start, and ends in a plan without children that is queued, in
      research or not started exactly when such a plan can be reached along a simple path. */
  lemma DeepestEnds(adj: Adjacency, statuses: map<NodeId, string>, start: NodeId, chain: seq<NodeId>)
    requires IsDeepest(adj, statuses, start, chain)
    ensures chain != [] && chain[0] == start && SimplePath(adj, chain)
    ensures (exists q :: SimplePath(adj, q) && q[0] == start && Children(adj, q[|q| - 1]) == []
                         && q[|q| - 1] in statuses
                         && statuses[q[|q| - 1]] in {"queued", "research", "not-started"})
            <==> Children(adj, chain[|chain| - 1]) == [] && chain[|chain| - 1] in statuses
                 && statuses[chain[|chain| - 1]] in {"queued", "research", "not-started"}
  {
    hide Simple, Children;
    if q :| BlockedChain(adj, statuses, q) && q[0] == start {
      assert BlockedChain(adj, statuses, chain);
    } else {
      OneNode(adj, start);
    }
  }

  /** `_build_adjacency`: the targets of each node's edges, in the order of the edges. */
  method BuildAdjacency(edges: seq<Edge>) returns (adj: Adjacency)
    ensures Follows(adj, GraphOf(edges))
  {
    adj := map[];
    for i := 0 to |edges|
      invariant forall x, y :: y in Children(adj, x) <==> (x, y) in GraphOf(edges[..i])
    {
      var e := edges[i];
      assert edges[..i + 1] == edges[..i] + [e];
      assert GraphOf(edges[..i + 1]) == GraphOf(edges[..i]) + {(e.source, e.target)};
      adj := adj[e.source := Children(adj, e.source) + [e.target]];
    }
    assert edges[..|edges|] == edges;
  }

  // ---- What the documentation says ----

  /** The last node of a chain has an edge of another kind. */
  predicate EndsInSuperseding(edges: seq<Edge>, q: seq<NodeId>) {
    q != [] && exists e :: e in edges && e.kind != ExplicitDependsOn && e.source == q[|q| - 1]
  }

  /** The chain walks along dependencies, and no chain of dependencies to a blocked node is
      longer that ends where only edges of another kind go on. */
  ghost predicate ByDependencies(edges: seq<Edge>, deps: Adjacency, statuses: map<NodeId, string>,
                                 start: NodeId, chain: seq<NodeId>) {
    && (forall i :: 0 <= i < |chain| - 1 ==> (chain[i], chain[i + 1]) in DependsOn(edges))
    && (forall q :: BlockedChain(deps, statuses, q) && q[0] == start && EndsInSuperseding(edges, q) ==>
          |q| <= |chain|)
  }

  lemma ChildlessAlong(adj: Adjacency, g: Graph, x: NodeId)
    requires Follows(adj, g)
    ensures Children(adj, x) == [] <==> forall y :: (x, y) !in g
  {
    if Children(adj, x) != [] {
      assert (x, Children(adj, x)[0]) in g;
    }
  }

  /** A node without dependencies has no children at all unless it supersedes. */
  lemma ChildlessIff(edges: seq<Edge>, adj: Adjacency, deps: Adjacency, x: NodeId)
    requires Follows(adj, GraphOf(edges)) && Follows(deps, DependsOn(edges))
    ensures Children(adj, x) == [] <==>
            Children(deps, x) == [] && !exists e :: e in edges && e.kind != ExplicitDependsOn && e.source == x
  {
    hide Children, Follows;
    ChildlessAlong(adj, GraphOf(edges), x);
    ChildlessAlong(deps, DependsOn(edges), x);
    if e :| e in edges && e.source == x {
      assert (x, e.target) in GraphOf(edges);
      assert e.kind == ExplicitDependsOn ==> (x, e.target) in DependsOn(edges);
    }
  }

  lemma PathAlong(adj: Adjacency, g: Graph, p: seq<NodeId>)
    requires Follows(adj, g)
    ensures SimplePath(adj, p) <==> p != [] && Simple(p) && forall i :: 0 <= i < |p| - 1 ==> (p[i], p[i + 1]) in g
  {
    hide Children, Simple;
    if p != [] && forall i :: 0 <= i < |p| - 1 ==> (p[i], p[i + 1]) in g {
      forall i | 0 <= i < |p| - 1 ensures p[i + 1] in Children(adj, p[i]) {
        assert (p[i], p[i + 1]) in g;
      }
    }
    if p != [] && forall i :: 0 <= i < |p| - 1 ==> p[i + 1] in Children(adj, p[i]) {
      forall i | 0 <= i < |p| - 1 ensures (p[i], p[i + 1]) in g {
        assert p[i + 1] in Children(adj, p[i]);
      }
    }
  }

  /** A chain along dependencies is one along all edges unless its last node supersedes. */
  lemma DependencyChain(edges: seq<Edge>, adj: Adjacency, deps: Adjacency, statuses: map<NodeId, string>,
                        q: seq<NodeId>)
    requires Follows(adj, GraphOf(edges)) && Follows(deps, DependsOn(edges)) && BlockedChain(deps, statuses, q)
    ensures BlockedChain(adj, statuses, q) <==> !EndsInSuperseding(edges, q)
  {
    hide SimplePath, Children, Blocked, Follows, Simple;
    PathAlong(adj, GraphOf(edges), q);
    PathAlong(deps, DependsOn(edges), q);
    assert forall x, y :: (x, y) in DependsOn(edges) ==> (x, y) in GraphOf(edges);
    ChildlessIff(edges, adj, deps, q[|q| - 1]);
  }

  /** A chain along all edges is one along dependencies exactly when all its steps are. */
  lemma ChainOfDependencies(edges: seq<Edge>, adj: Adjacency, deps: Adjacency, statuses: map<NodeId, string>,
                            q: seq<NodeId>)
    requires Follows(adj, GraphOf(edges)) && Follows(deps, DependsOn(edges)) && BlockedChain(adj, statuses, q)
    ensures BlockedChain(deps, statuses, q)
            <==> forall i :: 0 <= i < |q| - 1 ==> (q[i], q[i + 1]) in DependsOn(edges)
  {
    hide SimplePath, Children, Blocked, Follows, Simple, DependsOn, GraphOf;
    PathAlong(adj, GraphOf(edges), q);
    PathAlong(deps, DependsOn(edges), q);
    ChildlessIff(edges, adj, deps, q[|q| - 1]);
  }

  /** The chain is a deepest one along dependencies alone, as documented, under exactly the
      two conditions of `ByDependencies`. */
  lemma ChainAsDocumentedIff(edges: seq<Edge>, adj: Adjacency, deps: Adjacency, statuses: map<NodeId, string>,
                             start: NodeId, chain: seq<NodeId>)
    requires Follows(adj, GraphOf(edges)) && Follows(deps, DependsOn(edges))
    requires IsDeepest(adj, statuses, start, chain)
    ensures IsDeepest(deps, statuses, start, chain) <==> ByDependencies(edges, deps, statuses, start, chain)
  {
    hide SimplePath, Children, Blocked, EndsInSuperseding, Follows, DependsOn, GraphOf;
    forall q | BlockedChain(deps, statuses, q)
      ensures q != [] && (BlockedChain(adj, statuses, q) <==> !EndsInSuperseding(edges, q))
    {
      SimplePathBasics(deps, q);
      DependencyChain(edges, adj, deps, statuses, q);
    }
    if BlockedChain(adj, statuses, chain) {
      SimplePathBasics(adj, chain);
      ChainOfDependencies(edges, adj, deps, statuses, chain);
    } else {
      assert chain == [start];
      forall q | BlockedChain(deps, statuses, q) && q[0] == start && |q| <= 1 ensures q == chain {}
    }
  }

  /** One supersedes edge to a blocked node: the chain follows it. */
  lemma SupersededIsBlocker(a: NodeId, b: NodeId, adj: Adjacency, deps: Adjacency, chain: seq<NodeId>)
    requires a != b
    requires var edges := [Edge(a, b, ExplicitSupersedes)];
             Follows(adj, GraphOf(edges)) && Follows(deps, DependsOn(edges))
    requires IsDeepest(adj, map[b := "queued"], a, chain)
    ensures |chain| >= 2 && !IsDeepest(deps, map[b := "queued"], a, chain)
  {
    hide Simple, Blocked;
    var edges, statuses := [Edge(a, b, ExplicitSupersedes)], map[b := "queued"];
    OneEdge(a, b, adj, deps);
    hide SimplePath, BlockedChain;
    assert BlockedChain(adj, statuses, [a, b]) && [a, b][0] == a;
    ChainAsDocumentedIff(edges, adj, deps, statuses, a, chain);
    assert (chain[0], chain[1]) !in DependsOn(edges);
  }

  lemma OneEdge(a: NodeId, b: NodeId, adj: Adjacency, deps: Adjacency)
    requires a != b
    requires var edges := [Edge(a, b, ExplicitSupersedes)];
             Follows(adj, GraphOf(edges)) && Follows(deps, DependsOn(edges))
    ensures BlockedChain(adj, map[b := "queued"], [a, b]) && DependsOn([Edge(a, b, ExplicitSupersedes)]) == {}
  {
    var edges := [Edge(a, b, ExplicitSupersedes)];
    assert edges[0] in edges;
    assert GraphOf(edges) == {(a, b)};
    assert (a, b) in GraphOf(edges);
    ChildlessAlong(adj, GraphOf(edges), b);
  }
}
