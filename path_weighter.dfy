/** The multiplicative weight of a path (`calculate_path_weight`). */
module PathWeighter {
  import opened Graphs

  /** Every consecutive pair of `p` is an edge of `g`. */
  predicate EdgesAlong(g: Graph, p: seq<string>) {
    forall k :: 0 <= k < |p| - 1 ==> HasEdge(g, p[k], p[k + 1])
  }

  /** The product of the edge weights along `p`, taken from the front as the loop does. */
  function Product(g: Graph, p: seq<string>): real
    requires EdgesAlong(g, p)
  {
    if |p| < 2 then 1.0
    else Product(g, p[..|p| - 1]) * Weight(g, p[|p| - 2], p[|p| - 1])
  }

  /** The running product of `calculate_path_weight`, front to back: 0.0 once an edge
      is missing, since everything is multiplied into it. */
  function WeightAlong(g: Graph, p: seq<string>): real {
    if |p| < 2 then 1.0
    else if !HasEdge(g, p[|p| - 2], p[|p| - 1]) then 0.0
    else WeightAlong(g, p[..|p| - 1]) * g.adj[p[|p| - 2]][p[|p| - 1]]
  }

  /** The weight the search uses: 0.0 for a path of fewer than two nodes, otherwise
      the running product (0.0 on a missing edge). */
  function PathWeight(g: Graph, p: seq<string>): real {
    if |p| < 2 then 0.0 else WeightAlong(g, p)
  }

  /** `calculate_path_weight`. */
  method CalculatePathWeight(g: Graph, path: seq<string>) returns (weight: real)
    ensures |path| < 2 ==> weight == 0.0
    ensures |path| >= 2 && !EdgesAlong(g, path) ==> weight == 0.0
    ensures |path| >= 2 && EdgesAlong(g, path) ==> weight == Product(g, path)
    ensures weight == PathWeight(g, path)
  {
    PathWeightIsProduct(g, path);
    weight := 1.0;
    if |path| < 2 {
      return 0.0;
    }
    var i := 0;
    while i < |path| - 1
      invariant 0 <= i <= |path| - 1
      invariant weight == WeightAlong(g, path[..i + 1])
    {
      var u := path[i];
      var v := path[i + 1];
      assert path[..i + 2][..i + 1] == path[..i + 1];
      if HasEdge(g, u, v) {
        var edgeWeight := g.adj[u][v];
        weight := weight * edgeWeight;
      } else {
        MissingEdgeZero(g, path, i);
        return 0.0;
      }
      i := i + 1;
    }
    assert i == |path| - 1;
    assert path[..i + 1] == path;
  }

  /** A missing edge anywhere makes the running product 0.0. */
  lemma {:induction false} MissingEdgeZero(g: Graph, p: seq<string>, k: nat)
    requires k < |p| - 1 && !HasEdge(g, p[k], p[k + 1])
    ensures WeightAlong(g, p) == 0.0
  {
    if k < |p| - 2 {
      var q := p[..|p| - 1];
      assert q[k] == p[k] && q[k + 1] == p[k + 1];
      MissingEdgeZero(g, q, k);
    }
  }

  /** Along edges, the running product is `Product`. */
  lemma {:induction false} WeightAlongProduct(g: Graph, p: seq<string>)
    requires EdgesAlong(g, p)
    ensures WeightAlong(g, p) == Product(g, p)
  {
    if |p| >= 2 {
      EdgesAlongPrefix(g, p, |p| - 1);
      WeightAlongProduct(g, p[..|p| - 1]);
    }
  }

  /** The weight of a path is 0.0 when it has fewer than two nodes or a missing edge,
      and otherwise the product of its edge weights. */
  lemma PathWeightIsProduct(g: Graph, p: seq<string>)
    ensures |p| < 2 || !EdgesAlong(g, p) ==> PathWeight(g, p) == 0.0
    ensures |p| >= 2 && EdgesAlong(g, p) ==> PathWeight(g, p) == Product(g, p)
  {
    if |p| >= 2 {
      if EdgesAlong(g, p) {
        WeightAlongProduct(g, p);
      } else {
        var k :| 0 <= k < |p| - 1 && !HasEdge(g, p[k], p[k + 1]);
        MissingEdgeZero(g, p, k);
      }
    }
  }

  /** A prefix of a path along edges is a path along edges. */
  lemma EdgesAlongPrefix(g: Graph, p: seq<string>, n: nat)
    requires EdgesAlong(g, p) && n <= |p|
    ensures EdgesAlong(g, p[..n])
  {
    var q := p[..n];
    forall k | 0 <= k < |q| - 1 ensures HasEdge(g, q[k], q[k + 1]) {
      assert q[k] == p[k] && q[k + 1] == p[k + 1];
    }
  }

  /** With positive rates, the product along any path is positive. */
  lemma {:induction false} ProductPositive(g: Graph, p: seq<string>)
    requires PositiveWeights(g) && EdgesAlong(g, p)
    ensures Product(g, p) > 0.0
  {
    if |p| >= 2 {
      var q := p[..|p| - 1];
      EdgesAlongPrefix(g, p, |p| - 1);
      ProductPositive(g, q);
      assert HasEdge(g, p[|p| - 2], p[|p| - 1]);
    }
  }

  /** A path of at least two nodes along edges of a positively weighted graph has a
      positive weight; so 0.0 is returned exactly for the short and the broken paths. */
  lemma PathWeightPositive(g: Graph, p: seq<string>)
    requires PositiveWeights(g)
    ensures PathWeight(g, p) > 0.0 <==> |p| >= 2 && EdgesAlong(g, p)
  {
    PathWeightIsProduct(g, p);
    if |p| >= 2 && EdgesAlong(g, p) {
      ProductPositive(g, p);
    }
  }

  /** One more node at the end multiplies the running product by the weight of the
      new edge, or makes it 0.0 when that edge is missing. */
  lemma WeightAlongSnoc(g: Graph, r: seq<string>, v: string)
    requires |r| >= 1
    ensures WeightAlong(g, r + [v])
            == if HasEdge(g, r[|r| - 1], v) then WeightAlong(g, r) * g.adj[r[|r| - 1]][v] else 0.0
  {
    var rv := r + [v];
    assert rv[..|rv| - 1] == r && rv[|rv| - 2] == r[|r| - 1] && rv[|rv| - 1] == v;
  }

  /** Following `p` and then `q` (which starts where `p` ends) multiplies their running
      products: the weight of a route is the product of the weights of its legs. */
  lemma {:induction false} WeightAlongConcat(g: Graph, p: seq<string>, q: seq<string>)
    requires |p| >= 1 && |q| >= 1 && p[|p| - 1] == q[0]
    ensures WeightAlong(g, p + q[1..]) == WeightAlong(g, p) * WeightAlong(g, q)
    decreases |q|
  {
    if |q| == 1 {
      assert p + q[1..] == p;
    } else {
      var q', v := q[..|q| - 1], q[|q| - 1];
      var r := p + q'[1..];
      WeightAlongConcat(g, p, q');
      assert p + q[1..] == r + [v] && q == q' + [v];
      assert r[|r| - 1] == q'[|q'| - 1];
      WeightAlongSnoc(g, r, v);
      WeightAlongSnoc(g, q', v);
      var u := q'[|q'| - 1];
      if HasEdge(g, u, v) {
        var x, y, w := WeightAlong(g, p), WeightAlong(g, q'), g.adj[u][v];
        assert (x * y) * w == x * (y * w);
      }
    }
  }
}
