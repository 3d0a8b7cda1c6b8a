/** The directed weighted graph the search runs on, as a value: the node list in
    the graph's own order, and for every node the map from successor to edge weight. */
module Graphs {

  datatype Graph = Graph(nodes: seq<string>, adj: map<string, map<string, real>>)

  predicate HasEdge(g: Graph, u: string, v: string) {
    u in g.adj && v in g.adj[u]
  }

  function Weight(g: Graph, u: string, v: string): real
    requires HasEdge(g, u, v)
  {
    g.adj[u][v]
  }

  predicate Distinct<T(==)>(s: seq<T>) {
    forall a, b :: 0 <= a < b < |s| ==> s[a] != s[b]
  }

  /** Well-formedness: distinct nodes, one adjacency entry per node, and every
      edge ends at a node of the graph. */
  ghost predicate Valid(g: Graph) {
    && Distinct(g.nodes)
    && (forall u :: u in g.adj <==> u in g.nodes)
    && (forall u, v :: u in g.adj && v in g.adj[u] ==> v in g.adj)
  }

  /** Every edge weight is a positive rate. */
  ghost predicate PositiveWeights(g: Graph) {
    forall u, v :: u in g.adj && v in g.adj[u] ==> g.adj[u][v] > 0.0
  }

  /** A node with neither an outgoing nor an incoming edge; a self-loop is both. */
  predicate Isolated(g: Graph, u: string) {
    && (u in g.adj ==> g.adj[u] == map[])
    && (forall w | w in g.adj :: u !in g.adj[w])
  }

  /** `u` has at least one incident edge, in either direction. */
  ghost predicate Connected(g: Graph, u: string) {
    (exists v :: HasEdge(g, u, v)) || (exists w :: HasEdge(g, w, u))
  }

  lemma IsolatedIffNotConnected(g: Graph, u: string)
    ensures Isolated(g, u) <==> !Connected(g, u)
  {
    if !Isolated(g, u) {
      if u in g.adj && g.adj[u] != map[] {
        var v :| v in g.adj[u];
        assert HasEdge(g, u, v);
      } else {
        var w :| w in g.adj && u in g.adj[w];
        assert HasEdge(g, w, u);
      }
    }
  }
}
