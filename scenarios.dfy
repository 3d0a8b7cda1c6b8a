/** Worked instances: a currency quoting only itself, and a search over two currencies
    quoting each other. */
module Scenarios {
  import opened Wrappers
  import opened Graphs
  import opened GraphBuilder
  import opened PathWeighter
  import opened PathEnumerator
  import opened ArbitrageSearch

  /** A ticker `x` whose only rate is to itself: the rate is an edge x -> x, so `x` has
      an incident edge and is kept as a node (the nodes `BuildGraph` returns are
      exactly `KeepTouched`). */
  lemma SelfLoopKept(apiId: string, x: string, w: real)
    requires x != "" && w > 0.0
    ensures var es := CollectEdges([(apiId, [(x, Num(w))])], map[apiId := x]);
            es == [WeightedEdge(x, x, w)] && KeepTouched([x], es) == [x]
  {
    var ntm := map[apiId := x];
    var row := [(x, Num(w))];
    var data := [(apiId, row)];
    assert x in ntm.Values by {
      assert ntm[apiId] == x;
    }
    assert MappedSource(ntm, apiId);
    RowOfOne(x, row, ntm.Values);
    assert data[..0] == [];
    assert CollectEdges(data[..0], ntm) == [];
    assert data[|data| - 1].0 == apiId && data[|data| - 1].1 == row && ntm[apiId] == x;
    var es := CollectEdges(data, ntm);
    assert es == CollectEdges(data[..0], ntm) + RowEdges(x, row, ntm.Values);
    assert es == [WeightedEdge(x, x, w)];
    assert Touches(es, |es|, x) by {
      assert es[0].src == x;
    }
    assert [x][..0] == [];
  }

  lemma RowOfOne(x: string, row: RateRow, sel: set<string>)
    requires |row| == 1 && row[0].0 == x && x in sel && Usable(row[0].1)
    ensures RowEdges(x, row, sel) == [WeightedEdge(x, x, row[0].1.value)]
  {
    assert row[..0] == [];
  }

  /** Nodes "a" and "b", with rate `ab` from a to b and rate `ba` back. */
  function TwoNode(ab: real, ba: real): Graph {
    Graph(["a", "b"], map["a" := map["b" := ab], "b" := map["a" := ba]])
  }

  /** Each direction has exactly the one-edge path. */
  lemma TwoNodePaths(ab: real, ba: real)
    ensures SimplePaths(TwoNode(ab, ba), "a", "b") == [["a", "b"]]
    ensures SimplePaths(TwoNode(ab, ba), "b", "a") == [["b", "a"]]
  {
    var g := TwoNode(ab, ba);
    assert g.nodes[0] == "a" && g.nodes[1] == "b";
    assert HasEdge(g, "a", "b") && HasEdge(g, "b", "a");
    assert "a" in ["a"] && "b" !in ["a"] && "b" in ["b"] && "a" !in ["b"];
    assert ["a"] + ["b"] == ["a", "b"] && ["b"] + ["a"] == ["b", "a"];
    assert ExtendFrom(g, "b", ["a"], Cutoff, 2) == [];
    assert ExtendFrom(g, "b", ["a"], Cutoff, 1) == [["a", "b"]];
    assert ExtendFrom(g, "b", ["a"], Cutoff, 0) == [["a", "b"]];
    assert ExtendFrom(g, "a", ["b"], Cutoff, 2) == [];
    assert ExtendFrom(g, "a", ["b"], Cutoff, 1) == [];
    assert ExtendFrom(g, "a", ["b"], Cutoff, 0) == [["b", "a"]];
  }

  /** The path weights are the two rates. */
  lemma TwoNodeWeights(ab: real, ba: real)
    ensures PathWeight(TwoNode(ab, ba), ["a", "b"]) == ab
    ensures PathWeight(TwoNode(ab, ba), ["b", "a"]) == ba
  {
    var g := TwoNode(ab, ba);
    assert ["a", "b"][..1] == ["a"];
    assert ["b", "a"][..1] == ["b"];
    assert WeightAlong(g, ["a", "b"]) == WeightAlong(g, ["a"]) * ab;
    assert WeightAlong(g, ["b", "a"]) == WeightAlong(g, ["b"]) * ba;
  }

  /** With positive rates the search meets two candidates, (a, b) first and then (b, a),
      both with factor `ab * ba`. */
  lemma TwoNodeCandidates(ab: real, ba: real)
    requires ab > 0.0 && ba > 0.0
    ensures Candidates(TwoNode(ab, ba))
            == [Details("a", "b", ["a", "b"], ab, ["b", "a"], ba, ab * ba),
                Details("b", "a", ["b", "a"], ba, ["a", "b"], ab, ba * ab)]
  {
    var g := TwoNode(ab, ba);
    TwoNodePaths(ab, ba);
    TwoNodeWeights(ab, ba);
    var d1 := Details("a", "b", ["a", "b"], ab, ["b", "a"], ba, ab * ba);
    var d2 := Details("b", "a", ["b", "a"], ba, ["a", "b"], ab, ba * ab);
    assert [["a", "b"]][..0] == [] && [["b", "a"]][..0] == [];
    assert g.nodes[0] == "a" && g.nodes[1] == "b" && |g.nodes| == 2;
    assert CandidateOf(g, "a", "b", ["a", "b"], ["b", "a"]) == [d1];
    assert CandidateOf(g, "b", "a", ["b", "a"], ["a", "b"]) == [d2];
    assert RowOf(g, "a", "b", ["a", "b"], [["b", "a"]]) == [d1];
    assert RowOf(g, "b", "a", ["b", "a"], [["a", "b"]]) == [d2];
    assert CrossOf(g, "a", "b", [["a", "b"]], [["b", "a"]]) == [d1];
    assert CrossOf(g, "b", "a", [["b", "a"]], [["a", "b"]]) == [d2];
    assert PairCandidates(g, 0, 1) == [d1];
    assert PairCandidates(g, 1, 0) == [d2];
    assert PairCandidates(g, 0, 0) == [] && PairCandidates(g, 1, 1) == [];
    assert RowCandidates(g, 0, 1) == [];
    assert RowCandidates(g, 1, 1) == [d2];
    assert RowCandidates(g, 0, 2) == [d1];
    assert RowCandidates(g, 1, 2) == [d2];
    assert AllCandidates(g, 1) == [d1];
  }

  /** Rates 2.0 and 0.4 make a round trip of 0.8: it is the minimum and, being below
      the threshold, there is no maximum. */
  lemma LosingRoundTrip()
    ensures MinOf(Candidates(TwoNode(2.0, 0.4)))
            == Some(Details("a", "b", ["a", "b"], 2.0, ["b", "a"], 0.4, 0.8))
    ensures MaxOf(Candidates(TwoNode(2.0, 0.4))).None?
  {
    TwoNodeCandidates(2.0, 0.4);
    ExtremaOfTwo(Details("a", "b", ["a", "b"], 2.0, ["b", "a"], 0.4, 0.8),
                 Details("b", "a", ["b", "a"], 0.4, ["a", "b"], 2.0, 0.8));
  }

  /** Rates 2.0 and 0.6 make a round trip of 1.2: the first pair's record is both
      the minimum and the maximum, the second pair only ties. */
  lemma WinningRoundTrip()
    ensures MinOf(Candidates(TwoNode(2.0, 0.6)))
            == Some(Details("a", "b", ["a", "b"], 2.0, ["b", "a"], 0.6, 1.2))
    ensures MaxOf(Candidates(TwoNode(2.0, 0.6)))
            == Some(Details("a", "b", ["a", "b"], 2.0, ["b", "a"], 0.6, 1.2))
  {
    TwoNodeCandidates(2.0, 0.6);
    ExtremaOfTwo(Details("a", "b", ["a", "b"], 2.0, ["b", "a"], 0.6, 1.2),
                 Details("b", "a", ["b", "a"], 0.6, ["a", "b"], 2.0, 1.2));
  }

  /** Two candidates with equal factors: the first one wins both trackers, and it
      is a maximum exactly when it is above the threshold. */
  lemma ExtremaOfTwo(d1: Details, d2: Details)
    requires d1.factor == d2.factor
    ensures MinOf([d1, d2]) == Some(d1)
    ensures MaxOf([d1, d2]) == if d1.factor > Threshold then Some(d1) else None
  {
    assert [d1, d2][..1] == [d1];
    assert [d1][..0] == [];
    assert MinFrom(None, [d1]) == Some(d1);
    assert MaxFrom(None, [d1]) == MaxStep(None, d1);
  }
}
