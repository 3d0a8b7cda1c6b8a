/** An owned, deterministic enumeration of the bounded simple paths between two
    nodes, standing for `nx.all_simple_paths(graph, source, target, cutoff=5)`. */
module PathEnumerator {
  import opened Graphs
  import opened PathWeighter

  /** `path_cutoff`: at most this many edges per path. */
  const Cutoff: nat := 5

  /** `p` is a simple path from `s` to `t` of one to `Cutoff` edges. */
  predicate IsSimplePath(g: Graph, s: string, t: string, p: seq<string>) {
    && 2 <= |p| <= Cutoff + 1
    && p[0] == s && p[|p| - 1] == t
    && Distinct(p)
    && EdgesAlong(g, p)
  }

  /** Depth-first extensions of the prefix `path` into paths ending at `t` that use at
      most `budget` more edges. A path stops as soon as it reaches `t`. */
  function Extend(g: Graph, t: string, path: seq<string>, budget: nat): seq<seq<string>>
    requires |path| >= 1
    decreases budget, |g.nodes| + 1
  {
    if budget == 0 then [] else ExtendFrom(g, t, path, budget, 0)
  }

  /** The part of `Extend` that tries the successors `g.nodes[k..]` of the last node of
      `path`, in node order. */
  function ExtendFrom(g: Graph, t: string, path: seq<string>, budget: nat, k: nat): seq<seq<string>>
    requires |path| >= 1 && budget >= 1 && k <= |g.nodes|
    decreases budget, |g.nodes| - k
  {
    if k == |g.nodes| then []
    else
      var v := g.nodes[k];
      var here :=
        if !HasEdge(g, path[|path| - 1], v) || v in path then []
        else if v == t then [path + [v]]
        else Extend(g, t, path + [v], budget - 1);
      here + ExtendFrom(g, t, path, budget, k + 1)
  }

  /** The simple paths from `s` to `t` with at most `Cutoff` edges, in depth-first order. */
  function SimplePaths(g: Graph, s: string, t: string): seq<seq<string>> {
    if s == t then [] else Extend(g, t, [s], Cutoff)
  }

  /** The prefix invariant of the search: a simple path from `s` that has not reached `t`. */
  ghost predicate Prefix(g: Graph, s: string, t: string, path: seq<string>) {
    |path| >= 1 && path[0] == s && Distinct(path) && EdgesAlong(g, path) && t !in path
  }

  lemma {:induction false} ExtendSound(g: Graph, s: string, t: string, path: seq<string>, budget: nat, p: seq<string>)
    requires Prefix(g, s, t, path)
    requires p in Extend(g, t, path, budget)
    ensures |path| < |p| <= |path| + budget && p[..|path|] == path
    ensures p[|p| - 1] == t && Distinct(p) && EdgesAlong(g, p)
    decreases budget, |g.nodes| + 1
  {
    ExtendFromSound(g, s, t, path, budget, 0, p);
  }

  lemma {:induction false} ExtendFromSound(g: Graph, s: string, t: string, path: seq<string>, budget: nat, k: nat,
                                           p: seq<string>)
    requires Prefix(g, s, t, path) && budget >= 1 && k <= |g.nodes|
    requires p in ExtendFrom(g, t, path, budget, k)
    ensures |path| < |p| <= |path| + budget && p[..|path|] == path
    ensures p[|p| - 1] == t && Distinct(p) && EdgesAlong(g, p)
    decreases budget, |g.nodes| - k
  {
    var v := g.nodes[k];
    var here :=
      if !HasEdge(g, path[|path| - 1], v) || v in path then []
      else if v == t then [path + [v]]
      else Extend(g, t, path + [v], budget - 1);
    assert ExtendFrom(g, t, path, budget, k) == here + ExtendFrom(g, t, path, budget, k + 1);
    if p in here {
      var next := path + [v];
      assert Distinct(next) && EdgesAlong(g, next) by {
        forall i | 0 <= i < |next| - 1 ensures HasEdge(g, next[i], next[i + 1]) {
          if i < |path| - 1 { assert next[i] == path[i] && next[i + 1] == path[i + 1]; }
        }
      }
      if v == t {
        assert p == next;
      } else {
        ExtendSound(g, s, t, next, budget - 1, p);
        assert p[..|path|] == next[..|path|];
      }
    } else {
      ExtendFromSound(g, s, t, path, budget, k + 1, p);
    }
  }

  /** Position of a node of the graph in the node list. */
  function IndexOf(s: seq<string>, x: string): (i: nat)
    requires x in s
    ensures i < |s| && s[i] == x
    ensures forall j :: 0 <= j < i ==> s[j] != x
  {
    if s[0] == x then 0 else 1 + IndexOf(s[1..], x)
  }

  lemma {:induction false} ExtendComplete(g: Graph, t: string, path: seq<string>, budget: nat, p: seq<string>)
    requires Valid(g) && |path| >= 1
    requires |path| < |p| <= |path| + budget && p[..|path|] == path
    requires Distinct(p) && EdgesAlong(g, p) && p[|p| - 1] == t
    ensures p in Extend(g, t, path, budget)
    decreases budget, |g.nodes| + 1, 0
  {
    assert HasEdge(g, p[|path| - 1], p[|path|]);
    ExtendFromComplete(g, t, path, budget, 0, p);
  }

  lemma {:induction false} ExtendFromComplete(g: Graph, t: string, path: seq<string>, budget: nat, k: nat,
                                              p: seq<string>)
    requires Valid(g) && |path| >= 1 && budget >= 1 && k <= |g.nodes|
    requires |path| < |p| <= |path| + budget && p[..|path|] == path
    requires Distinct(p) && EdgesAlong(g, p) && p[|p| - 1] == t
    requires p[|path|] in g.nodes && k <= IndexOf(g.nodes, p[|path|])
    ensures p in ExtendFrom(g, t, path, budget, k)
    decreases budget, |g.nodes| - k, 1
  {
    if k == IndexOf(g.nodes, p[|path|]) {
      ExtendFromAt(g, t, path, budget, k, p);
    } else {
      ExtendFromComplete(g, t, path, budget, k + 1, p);
      var v := g.nodes[k];
      var here :=
        if !HasEdge(g, path[|path| - 1], v) || v in path then []
        else if v == t then [path + [v]]
        else Extend(g, t, path + [v], budget - 1);
      assert ExtendFrom(g, t, path, budget, k) == here + ExtendFrom(g, t, path, budget, k + 1);
    }
  }

  /** The successor `g.nodes[k]` that `p` takes after `path` yields `p`. */
  lemma {:induction false} ExtendFromAt(g: Graph, t: string, path: seq<string>, budget: nat, k: nat,
                                        p: seq<string>)
    requires Valid(g) && |path| >= 1 && budget >= 1 && k < |g.nodes|
    requires |path| < |p| <= |path| + budget && p[..|path|] == path
    requires Distinct(p) && EdgesAlong(g, p) && p[|p| - 1] == t
    requires g.nodes[k] == p[|path|]
    ensures p in ExtendFrom(g, t, path, budget, k)
    decreases budget, |g.nodes| - k, 0
  {
    var v := g.nodes[k];
    NextStep(g, t, path, p);
    var next := path + [v];
    var rest := ExtendFrom(g, t, path, budget, k + 1);
    if v == t {
      assert ExtendFrom(g, t, path, budget, k) == [next] + rest;
    } else {
      assert p[..|next|] == next;
      ExtendComplete(g, t, next, budget - 1, p);
      assert ExtendFrom(g, t, path, budget, k) == Extend(g, t, next, budget - 1) + rest;
    }
  }

  /** The node after the prefix `path` of a simple path `p` is a fresh successor, and
      when it is already `t` the path ends there. */
  lemma NextStep(g: Graph, t: string, path: seq<string>, p: seq<string>)
    requires |path| >= 1 && |path| < |p| && p[..|path|] == path
    requires Distinct(p) && EdgesAlong(g, p) && p[|p| - 1] == t
    ensures HasEdge(g, path[|path| - 1], p[|path|]) && p[|path|] !in path
    ensures p[|path|] == t ==> p == path + [t]
  {
    assert p[|path| - 1] == path[|path| - 1];
    forall i | 0 <= i < |path| ensures path[i] != p[|path|] {
      assert path[i] == p[i];
    }
    if p[|path|] == t {
      assert |p| == |path| + 1;
      assert p == p[..|path|] + [p[|path|]];
    }
  }

  /** The enumeration yields exactly the bounded simple paths from `s` to `t`. */
  lemma SimplePathsExact(g: Graph, s: string, t: string, p: seq<string>)
    requires Valid(g)
    ensures p in SimplePaths(g, s, t) <==> IsSimplePath(g, s, t, p)
  {
    if p in SimplePaths(g, s, t) {
      ExtendSound(g, s, t, [s], Cutoff, p);
      assert p[0] == s;
    }
    if IsSimplePath(g, s, t, p) {
      assert s != t by { assert p[0] != p[|p| - 1]; }
      assert p[..1] == [s];
      ExtendComplete(g, t, [s], Cutoff, p);
    }
  }

  /** Every extension of `path` found from successor `k` on continues `path` through
      one of the nodes `g.nodes[k..]`. */
  lemma {:induction false} ExtendFromShape(g: Graph, t: string, path: seq<string>, budget: nat, k: nat,
                                           p: seq<string>)
    requires |path| >= 1 && budget >= 1 && k <= |g.nodes|
    requires p in ExtendFrom(g, t, path, budget, k)
    ensures |p| > |path| && p[..|path|] == path
    ensures exists j :: k <= j < |g.nodes| && p[|path|] == g.nodes[j]
    decreases budget, |g.nodes| - k
  {
    var v := g.nodes[k];
    var here :=
      if !HasEdge(g, path[|path| - 1], v) || v in path then []
      else if v == t then [path + [v]]
      else Extend(g, t, path + [v], budget - 1);
    assert ExtendFrom(g, t, path, budget, k) == here + ExtendFrom(g, t, path, budget, k + 1);
    if p in here {
      var next := path + [v];
      if v != t {
        assert budget - 1 >= 1;
        ExtendFromShape(g, t, next, budget - 1, 0, p);
        assert p[..|path|] == next[..|path|];
      }
      assert p[|path|] == g.nodes[k];
    } else {
      ExtendFromShape(g, t, path, budget, k + 1, p);
    }
  }

  lemma DistinctConcat<T>(a: seq<T>, b: seq<T>)
    requires Distinct(a) && Distinct(b)
    requires forall x, y :: x in a && y in b ==> x != y
    ensures Distinct(a + b)
  {
    var ab := a + b;
    forall i, j | 0 <= i < j < |ab| ensures ab[i] != ab[j] {
      if j < |a| {
        assert ab[i] == a[i] && ab[j] == a[j];
      } else if i >= |a| {
        assert ab[i] == b[i - |a|] && ab[j] == b[j - |a|];
      } else {
        assert ab[i] in a && ab[j] in b;
      }
    }
  }

  lemma {:induction false} ExtendDistinct(g: Graph, t: string, path: seq<string>, budget: nat)
    requires Distinct(g.nodes) && |path| >= 1
    ensures Distinct(Extend(g, t, path, budget))
    decreases budget, |g.nodes| + 1
  {
    if budget > 0 {
      ExtendFromDistinct(g, t, path, budget, 0);
    }
  }

  lemma {:induction false} ExtendFromDistinct(g: Graph, t: string, path: seq<string>, budget: nat, k: nat)
    requires Distinct(g.nodes) && |path| >= 1 && budget >= 1 && k <= |g.nodes|
    ensures Distinct(ExtendFrom(g, t, path, budget, k))
    decreases budget, |g.nodes| - k
  {
    if k < |g.nodes| {
      var v := g.nodes[k];
      var here :=
        if !HasEdge(g, path[|path| - 1], v) || v in path then []
        else if v == t then [path + [v]]
        else Extend(g, t, path + [v], budget - 1);
      var rest := ExtendFrom(g, t, path, budget, k + 1);
      assert ExtendFrom(g, t, path, budget, k) == here + rest;
      if here != [] && v != t {
        ExtendDistinct(g, t, path + [v], budget - 1);
      }
      ExtendFromDistinct(g, t, path, budget, k + 1);
      forall x | x in here ensures |x| > |path| && x[|path|] == v {
        if v == t {
          assert x == path + [v];
        } else {
          ExtendFromShape(g, t, path + [v], budget - 1, 0, x);
          assert x[..|path| + 1] == path + [v];
        }
      }
      forall x, y | x in here && y in rest ensures x != y {
        LaterHeadsDiffer(g, t, path, budget, k, x, y);
      }
      DistinctConcat(here, rest);
    }
  }

  /** A path through `g.nodes[k]` is none of those found from successor `k + 1` on. */
  lemma LaterHeadsDiffer(g: Graph, t: string, path: seq<string>, budget: nat, k: nat, x: seq<string>, y: seq<string>)
    requires Distinct(g.nodes) && |path| >= 1 && budget >= 1 && k < |g.nodes|
    requires |x| > |path| && x[|path|] == g.nodes[k]
    requires y in ExtendFrom(g, t, path, budget, k + 1)
    ensures x != y
  {
    ExtendFromShape(g, t, path, budget, k + 1, y);
    var j :| k + 1 <= j < |g.nodes| && y[|path|] == g.nodes[j];
  }

  /** Each bounded simple path is produced exactly once. */
  lemma SimplePathsDistinct(g: Graph, s: string, t: string)
    requires Valid(g)
    ensures Distinct(SimplePaths(g, s, t))
  {
    if s != t {
      ExtendDistinct(g, t, [s], Cutoff);
    }
  }
}
