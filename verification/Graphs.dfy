/** Dependency graphs between plan files: paths and reachability. */
module Graphs {

  datatype NodeId = NodeId(kind: string, path: string)

  datatype SourceKind = ExplicitDependsOn | ExplicitSupersedes

  datatype Edge = Edge(source: NodeId, target: NodeId, kind: SourceKind)

  type Graph = set<(NodeId, NodeId)>

  function Elements(s: seq<NodeId>): set<NodeId> {
    set x | x in s
  }

  function GraphOf(edges: seq<Edge>): Graph {
    set e | e in edges :: (e.source, e.target)
  }

  /** The dependencies alone. */
  function DependsOn(edges: seq<Edge>): Graph {
    set e | e in edges && e.kind == ExplicitDependsOn :: (e.source, e.target)
  }

  /** All end points of edges. */
  function Ends(g: Graph): set<NodeId> {
    (set e | e in g :: e.0) + (set e | e in g :: e.1)
  }

  /** `p` walks along edges, from its first node to its last. */
  predicate Walk(g: Graph, p: seq<NodeId>) {
    p != [] && forall i :: 0 <= i < |p| - 1 ==> (p[i], p[i + 1]) in g
  }

  predicate WalkFromTo(g: Graph, p: seq<NodeId>, x: NodeId, y: NodeId) {
    Walk(g, p) && p[0] == x && p[|p| - 1] == y
  }

  ghost predicate Reach(g: Graph, x: NodeId, y: NodeId) {
    exists p :: WalkFromTo(g, p, x, y)
  }

  /** Reached along at least one edge. */
  ghost predicate ReachPlus(g: Graph, x: NodeId, y: NodeId) {
    exists z :: (x, z) in g && Reach(g, z, y)
  }

  ghost predicate Acyclic(g: Graph) {
    forall x :: !ReachPlus(g, x, x)
  }

  lemma ReachSelf(g: Graph, x: NodeId)
    ensures Reach(g, x, x)
  {
    assert WalkFromTo(g, [x], x, x);
  }

  lemma ReachEdge(g: Graph, x: NodeId, y: NodeId)
    requires (x, y) in g
    ensures Reach(g, x, y)
  {
    assert WalkFromTo(g, [x, y], x, y);
  }

  lemma SubgraphReach(h: Graph, g: Graph, x: NodeId, y: NodeId)
    requires h <= g && Reach(h, x, y)
    ensures Reach(g, x, y)
  {
    var p :| WalkFromTo(h, p, x, y);
    assert WalkFromTo(g, p, x, y);
  }

  lemma JoinWalks(g: Graph, p: seq<NodeId>, q: seq<NodeId>, x: NodeId, y: NodeId, z: NodeId)
    requires WalkFromTo(g, p, x, y) && WalkFromTo(g, q, y, z)
    ensures WalkFromTo(g, p + q[1..], x, z)
  {
    var r := p + q[1..];
    forall i | 0 <= i < |r| - 1 ensures (r[i], r[i + 1]) in g {
      if i >= |p| - 1 {
        assert (q[i - (|p| - 1)], q[i - (|p| - 1) + 1]) in g;
      }
    }
  }

  lemma ReachTrans(g: Graph, x: NodeId, y: NodeId, z: NodeId)
    requires Reach(g, x, y) && Reach(g, y, z)
    ensures Reach(g, x, z)
  {
    var p :| WalkFromTo(g, p, x, y);
    var q :| WalkFromTo(g, q, y, z);
    JoinWalks(g, p, q, x, y, z);
  }

  lemma ReachCases(g: Graph, x: NodeId, y: NodeId)
    ensures Reach(g, x, y) <==> x == y || ReachPlus(g, x, y)
  {
    if Reach(g, x, y) && x != y {
      var p :| WalkFromTo(g, p, x, y);
      assert (p[0], p[1]) in g;
      var q := p[1..];
      forall i | 0 <= i < |q| - 1 ensures (q[i], q[i + 1]) in g { assert (p[i + 1], p[i + 2]) in g; }
      assert WalkFromTo(g, q, p[1], y);
    }
    if ReachPlus(g, x, y) {
      var z :| (x, z) in g && Reach(g, z, y);
      ReachEdge(g, x, z);
      ReachTrans(g, x, z, y);
    }
    ReachSelf(g, x);
  }
}
