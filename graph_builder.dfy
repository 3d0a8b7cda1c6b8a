/** Construction of the rate graph from the rate table the price service returned
    (`build_graph`). */
module GraphBuilder {
  import opened Graphs

  /** A rate value as decoded from the service's answer: a number, or anything else
      (`None`, a string, a nested object). */
  datatype Rate = Num(value: real) | NonNum

  /** The answer's `{counter_ticker: rate}` object for one API id, in key order. */
  type RateRow = seq<(string, Rate)>

  /** The answer `{api_id: {counter_ticker: rate}}`, in key order. */
  type RateData = seq<(string, RateRow)>

  datatype WeightedEdge = WeightedEdge(src: string, dst: string, weight: real)

  /** The rate filter of the inner loop: numeric and strictly positive. */
  predicate Usable(rate: Rate) {
    rate.Num? && rate.value > 0.0
  }

  /** The API id of a row is mapped to a non-empty ticker that is one of the selected ones. */
  predicate MappedSource(ntm: map<string, string>, apiId: string) {
    apiId in ntm && ntm[apiId] != "" && ntm[apiId] in ntm.Values
  }

  /** The edges one row contributes to `edges_to_add`, in row order. */
  function RowEdges(from: string, row: RateRow, selected: set<string>): (es: seq<WeightedEdge>)
    ensures forall e :: e in es ==>
              && e.src == from && e.dst in selected && e.weight > 0.0
              && exists j :: 0 <= j < |row| && row[j] == (e.dst, Num(e.weight))
    ensures forall j :: 0 <= j < |row| && row[j].0 in selected && Usable(row[j].1) ==>
              WeightedEdge(from, row[j].0, row[j].1.value) in es
  {
    if |row| == 0 then []
    else
      var rest := RowEdges(from, row[..|row| - 1], selected);
      var (to, rate) := row[|row| - 1];
      if to in selected && Usable(rate) then rest + [WeightedEdge(from, to, rate.value)] else rest
  }

  /** The whole `edges_to_add` list, in the order the two loops append to it: only
      rows whose API id maps to a selected ticker contribute, and only usable rates
      towards selected tickers become edges. */
  function CollectEdges(data: RateData, ntm: map<string, string>): (es: seq<WeightedEdge>)
    ensures forall e :: e in es ==>
              && e.src in ntm.Values && e.src != "" && e.dst in ntm.Values && e.weight > 0.0
              && exists i, j :: && 0 <= i < |data| && MappedSource(ntm, data[i].0)
                                && ntm[data[i].0] == e.src
                                && 0 <= j < |data[i].1| && data[i].1[j] == (e.dst, Num(e.weight))
    ensures forall i, j ::
              && 0 <= i < |data| && 0 <= j < |data[i].1| && MappedSource(ntm, data[i].0)
              && data[i].1[j].0 in ntm.Values && Usable(data[i].1[j].1)
              ==> WeightedEdge(ntm[data[i].0], data[i].1[j].0, data[i].1[j].1.value) in es
  {
    if |data| == 0 then []
    else
      var rest := CollectEdges(data[..|data| - 1], ntm);
      var (apiId, row) := data[|data| - 1];
      if MappedSource(ntm, apiId) then rest + RowEdges(ntm[apiId], row, ntm.Values) else rest
  }

  /** Some edge among the first `n` starts or ends at `u`. */
  ghost predicate Touches(es: seq<WeightedEdge>, n: int, u: string) {
    exists k :: 0 <= k < n && k < |es| && (es[k].src == u || es[k].dst == u)
  }

  /** Some edge among the first `n` goes from `u` to `v`. */
  ghost predicate Listed(es: seq<WeightedEdge>, n: int, u: string, v: string) {
    exists k :: 0 <= k < n && k < |es| && es[k].src == u && es[k].dst == v
  }

  /** Among the first `n` edges, the last one from `u` to `v` has weight `w`:
      a repeated edge overwrites the earlier weight. */
  ghost predicate LastWrite(es: seq<WeightedEdge>, n: int, u: string, v: string, w: real) {
    exists k :: && 0 <= k < n && k < |es| && es[k] == WeightedEdge(u, v, w)
                && forall k' :: k < k' < n && k' < |es| ==> !(es[k'].src == u && es[k'].dst == v)
  }

  /** The nodes of `order` that some edge touches, in the order given. */
  ghost function KeepTouched(order: seq<string>, es: seq<WeightedEdge>): seq<string> {
    if |order| == 0 then []
    else
      var rest := KeepTouched(order[..|order| - 1], es);
      if Touches(es, |es|, order[|order| - 1]) then rest + [order[|order| - 1]] else rest
  }

  /** `build_graph`. `order` is the iteration order of the set of selected tickers
      (the values of `ntm`, the API-id-to-ticker map), which decides the graph's node order. */
  method BuildGraph(data: RateData, ntm: map<string, string>, order: seq<string>) returns (g: Graph)
    requires Distinct(order)
    requires forall t :: t in order <==> t in ntm.Values
    ensures Valid(g) && PositiveWeights(g)
    ensures forall u, v :: HasEdge(g, u, v) ==> u in ntm.Values && v in ntm.Values
    ensures forall u, v :: HasEdge(g, u, v) <==> Listed(CollectEdges(data, ntm), |CollectEdges(data, ntm)|, u, v)
    ensures forall u, v :: HasEdge(g, u, v) ==>
              LastWrite(CollectEdges(data, ntm), |CollectEdges(data, ntm)|, u, v, g.adj[u][v])
    ensures g.nodes == KeepTouched(order, CollectEdges(data, ntm))
    ensures forall u :: u in g.nodes ==> u in ntm.Values && Connected(g, u)
  {
    var adj := AddNodes(order);
    var edges := EdgesToAdd(data, ntm);
    adj := AddWeightedEdges(adj, edges);
    g := RemoveIsolates(order, adj, edges);
  }

  /** `g.add_node` for every selected ticker: each starts with no successors. */
  method AddNodes(order: seq<string>) returns (adj: map<string, map<string, real>>)
    ensures forall u :: u in adj <==> u in order
    ensures forall u :: u in adj ==> adj[u] == map[]
  {
    adj := map[];
    var i := 0;
    while i < |order|
      invariant 0 <= i <= |order|
      invariant forall u :: u in adj <==> u in order[..i]
      invariant forall u :: u in adj ==> adj[u] == map[]
    {
      adj := adj[order[i] := map[]];
      i := i + 1;
    }
    assert i == |order|;
    assert order[..i] == order;
  }

  /** The two loops that fill `edges_to_add`. */
  method EdgesToAdd(data: RateData, ntm: map<string, string>) returns (edges: seq<WeightedEdge>)
    ensures edges == CollectEdges(data, ntm)
  {
    var selected := ntm.Values;
    edges := [];
    var d := 0;
    while d < |data|
      invariant 0 <= d <= |data|
      invariant edges == CollectEdges(data[..d], ntm)
    {
      var (apiId, rates) := data[d];
      assert data[..d + 1][..d] == data[..d];
      if apiId in ntm && ntm[apiId] != "" && ntm[apiId] in selected {
        var from := ntm[apiId];
        var r := 0;
        while r < |rates|
          invariant 0 <= r <= |rates|
          invariant edges == CollectEdges(data[..d], ntm) + RowEdges(from, rates[..r], selected)
        {
          var (to, rate) := rates[r];
          assert rates[..r + 1][..r] == rates[..r];
          if to in selected && rate.Num? && rate.value > 0.0 {
            edges := edges + [WeightedEdge(from, to, rate.value)];
          }
          r := r + 1;
        }
        assert r == |rates|;
        assert rates[..r] == rates;
      }
      d := d + 1;
    }
    assert d == |data|;
    assert data[..d] == data;
  }

  /** `g.add_weighted_edges_from(edges_to_add)`: each edge sets the weight of u -> v,
      overwriting an earlier one. */
  method AddWeightedEdges(adj0: map<string, map<string, real>>, edges: seq<WeightedEdge>)
    returns (adj: map<string, map<string, real>>)
    requires forall u :: u in adj0 ==> adj0[u] == map[]
    requires forall e :: e in edges ==> e.src in adj0
    ensures adj.Keys == adj0.Keys
    ensures forall u, v :: u in adj && v in adj[u] <==> Listed(edges, |edges|, u, v)
    ensures forall u, v :: u in adj && v in adj[u] ==> LastWrite(edges, |edges|, u, v, adj[u][v])
  {
    adj := adj0;
    var k := 0;
    while k < |edges|
      invariant 0 <= k <= |edges|
      invariant adj.Keys == adj0.Keys
      invariant forall u, v :: u in adj && v in adj[u] <==> Listed(edges, k, u, v)
      invariant forall u, v :: u in adj && v in adj[u] ==> LastWrite(edges, k, u, v, adj[u][v])
    {
      var e := edges[k];
      assert e in edges;
      var adj' := adj[e.src := adj[e.src][e.dst := e.weight]];
      AddEdgeStep(edges, k, k + 1, adj, adj');
      adj := adj';
      k := k + 1;
    }
    assert k == |edges|;
  }

  /** Listing one more edge adds exactly its pair. */
  lemma ListedSnoc(es: seq<WeightedEdge>, k: nat, u: string, v: string)
    requires k < |es|
    ensures Listed(es, k + 1, u, v) <==> Listed(es, k, u, v) || (es[k].src == u && es[k].dst == v)
  {
    if Listed(es, k + 1, u, v) && !(es[k].src == u && es[k].dst == v) {
      var i :| 0 <= i < k + 1 && i < |es| && es[i].src == u && es[i].dst == v;
      assert i < k;
    }
  }

  /** Writing one more edge makes its weight the last one for its pair and keeps the
      last writes of the other pairs. */
  lemma LastWriteSnoc(es: seq<WeightedEdge>, k: nat, u: string, v: string, w: real)
    requires k < |es|
    ensures es[k].src == u && es[k].dst == v ==> LastWrite(es, k + 1, u, v, es[k].weight)
    ensures !(es[k].src == u && es[k].dst == v) && LastWrite(es, k, u, v, w) ==>
              LastWrite(es, k + 1, u, v, w)
  {
    if es[k].src == u && es[k].dst == v {
      assert es[k] == WeightedEdge(u, v, es[k].weight);
    } else if LastWrite(es, k, u, v, w) {
      var i :| && 0 <= i < k && i < |es| && es[i] == WeightedEdge(u, v, w)
               && forall k' :: i < k' < k && k' < |es| ==> !(es[k'].src == u && es[k'].dst == v);
      assert forall k' :: i < k' < k + 1 && k' < |es| ==> !(es[k'].src == u && es[k'].dst == v);
    }
  }

  /** One `add_weighted_edges_from` step, seen from one pair (u, v). */
  lemma AddEdgeStepAt(es: seq<WeightedEdge>, k: nat, adj: map<string, map<string, real>>,
                      adj': map<string, map<string, real>>, u: string, v: string)
    requires k < |es| && es[k].src in adj
    requires adj' == adj[es[k].src := adj[es[k].src][es[k].dst := es[k].weight]]
    requires u in adj && v in adj[u] <==> Listed(es, k, u, v)
    requires u in adj && v in adj[u] ==> LastWrite(es, k, u, v, adj[u][v])
    ensures u in adj' && v in adj'[u] <==> Listed(es, k + 1, u, v)
    ensures u in adj' && v in adj'[u] ==> LastWrite(es, k + 1, u, v, adj'[u][v])
  {
    ListedSnoc(es, k, u, v);
    if es[k].src == u && es[k].dst == v {
      assert u in adj' && v in adj'[u] && adj'[u][v] == es[k].weight;
      LastWriteSnoc(es, k, u, v, es[k].weight);
    } else {
      assert u in adj' && v in adj'[u] <==> u in adj && v in adj[u];
      if u in adj && v in adj[u] {
        assert adj'[u][v] == adj[u][v];
        LastWriteSnoc(es, k, u, v, adj[u][v]);
      }
    }
  }

  /** One `add_weighted_edges_from` step keeps the loop's invariants. */
  lemma AddEdgeStep(es: seq<WeightedEdge>, k: nat, n: nat, adj: map<string, map<string, real>>,
                    adj': map<string, map<string, real>>)
    requires n == k + 1 && k < |es| && es[k].src in adj
    requires adj' == adj[es[k].src := adj[es[k].src][es[k].dst := es[k].weight]]
    requires forall u, v :: u in adj && v in adj[u] <==> Listed(es, k, u, v)
    requires forall u, v :: u in adj && v in adj[u] ==> LastWrite(es, k, u, v, adj[u][v])
    ensures forall u, v :: u in adj' && v in adj'[u] <==> Listed(es, n, u, v)
    ensures forall u, v :: u in adj' && v in adj'[u] ==> LastWrite(es, n, u, v, adj'[u][v])
  {
    forall u, v
      ensures u in adj' && v in adj'[u] <==> Listed(es, n, u, v)
    {
      AddEdgeStepAt(es, k, adj, adj', u, v);
    }
    forall u, v | u in adj' && v in adj'[u]
      ensures LastWrite(es, n, u, v, adj'[u][v])
    {
      AddEdgeStepAt(es, k, adj, adj', u, v);
    }
  }

  /** `nx.isolates` and `g.remove_nodes_from`: the nodes no edge touches are dropped,
      the others keep their order. */
  method RemoveIsolates(order: seq<string>, adj: map<string, map<string, real>>, edges: seq<WeightedEdge>)
    returns (g: Graph)
    requires Distinct(order)
    requires forall u :: u in adj <==> u in order
    requires forall e :: e in edges ==> e.src in adj && e.dst in adj && e.weight > 0.0
    requires forall u, v :: u in adj && v in adj[u] <==> Listed(edges, |edges|, u, v)
    requires forall u, v :: u in adj && v in adj[u] ==> LastWrite(edges, |edges|, u, v, adj[u][v])
    ensures Valid(g) && PositiveWeights(g)
    ensures forall u, v :: HasEdge(g, u, v) <==> Listed(edges, |edges|, u, v)
    ensures forall u, v :: HasEdge(g, u, v) ==> g.adj[u][v] == adj[u][v]
    ensures g.nodes == KeepTouched(order, edges)
    ensures forall u :: u in g.nodes ==> u in order && Connected(g, u)
  {
    var nodes, isolated := SplitIsolated(order, adj, edges);
    g := Graph(nodes, adj - isolated);
    PrunedEdges(order, adj, edges, isolated, g);
    PrunedConnected(edges, g);
  }

  /** Dropping the untouched nodes keeps every listed edge with its weight, and the
      remaining weights are the positive last writes. */
  lemma PrunedEdges(order: seq<string>, adj: map<string, map<string, real>>, edges: seq<WeightedEdge>,
                    isolated: set<string>, g: Graph)
    requires forall u :: u in adj <==> u in order
    requires forall e :: e in edges ==> e.src in adj && e.dst in adj && e.weight > 0.0
    requires forall u, v :: u in adj && v in adj[u] <==> Listed(edges, |edges|, u, v)
    requires forall u, v :: u in adj && v in adj[u] ==> LastWrite(edges, |edges|, u, v, adj[u][v])
    requires forall u :: u in isolated <==> u in order && !Touches(edges, |edges|, u)
    requires g.adj == adj - isolated
    ensures forall u, v :: HasEdge(g, u, v) <==> Listed(edges, |edges|, u, v)
    ensures forall u, v :: HasEdge(g, u, v) ==> g.adj[u][v] == adj[u][v] && g.adj[u][v] > 0.0
    ensures forall u, v :: HasEdge(g, u, v) ==> v in g.adj
  {
    forall u, v | Listed(edges, |edges|, u, v) ensures HasEdge(g, u, v) && v in g.adj {
      var k :| 0 <= k < |edges| && edges[k].src == u && edges[k].dst == v;
      assert edges[k] in edges;
      assert Touches(edges, |edges|, u) && Touches(edges, |edges|, v);
    }
    forall u, v | HasEdge(g, u, v) ensures g.adj[u][v] > 0.0 {
      var k :| && 0 <= k < |edges| && edges[k] == WeightedEdge(u, v, adj[u][v])
               && forall k' :: k < k' < |edges| ==> !(edges[k'].src == u && edges[k'].dst == v);
      assert edges[k] in edges;
    }
  }

  /** Every node left after dropping the untouched ones has an edge. */
  lemma PrunedConnected(edges: seq<WeightedEdge>, g: Graph)
    requires forall u, v :: HasEdge(g, u, v) <==> Listed(edges, |edges|, u, v)
    ensures forall u :: Touches(edges, |edges|, u) ==> Connected(g, u)
  {
    forall u | Touches(edges, |edges|, u) ensures Connected(g, u) {
      var k :| 0 <= k < |edges| && (edges[k].src == u || edges[k].dst == u);
      var e := edges[k];
      assert Listed(edges, |edges|, e.src, e.dst);
      assert HasEdge(g, e.src, e.dst);
    }
  }

  /** The scan of `nx.isolates`: which nodes of `order` are isolated and which are kept. */
  method SplitIsolated(order: seq<string>, adj: map<string, map<string, real>>, edges: seq<WeightedEdge>)
    returns (nodes: seq<string>, isolated: set<string>)
    requires Distinct(order)
    requires forall e :: e in edges ==> e.src in adj
    requires forall u, v :: u in adj && v in adj[u] <==> Listed(edges, |edges|, u, v)
    ensures nodes == KeepTouched(order, edges)
    ensures Distinct(nodes)
    ensures forall u :: u in nodes <==> u in order && Touches(edges, |edges|, u)
    ensures forall u :: u in isolated <==> u in order && !Touches(edges, |edges|, u)
  {
    var full := Graph(order, adj);
    nodes, isolated := [], {};
    var t := 0;
    while t < |order|
      invariant 0 <= t <= |order|
      invariant nodes == KeepTouched(order[..t], edges)
      invariant Distinct(nodes)
      invariant forall u :: u in nodes <==> u in order[..t] && Touches(edges, |edges|, u)
      invariant forall u :: u in isolated <==> u in order[..t] && !Touches(edges, |edges|, u)
    {
      var u := order[t];
      assert order[..t + 1][..t] == order[..t];
      IsolatedIffNotTouched(full, edges, u);
      if Isolated(full, u) {
        isolated := isolated + {u};
      } else {
        nodes := nodes + [u];
      }
      t := t + 1;
    }
    assert t == |order|;
    assert order[..t] == order;
  }

  /** During construction, a node is isolated exactly when no collected edge touches it. */
  lemma IsolatedIffNotTouched(g: Graph, es: seq<WeightedEdge>, u: string)
    requires forall x, y :: x in g.adj && y in g.adj[x] <==> Listed(es, |es|, x, y)
    requires forall e :: e in es ==> e.src in g.adj
    ensures Isolated(g, u) <==> !Touches(es, |es|, u)
  {
    if Touches(es, |es|, u) {
      var k :| 0 <= k < |es| && (es[k].src == u || es[k].dst == u);
      assert es[k] in es;
      assert Listed(es, |es|, es[k].src, es[k].dst);
    }
    if !Isolated(g, u) {
      if u in g.adj && g.adj[u] != map[] {
        var v :| v in g.adj[u];
        assert Listed(es, |es|, u, v);
      } else {
        var w :| w in g.adj && u in g.adj[w];
        assert Listed(es, |es|, w, u);
      }
    }
  }
}
