/** The search over all ordered node pairs for the round trip with the smallest
    factor and the one with the largest factor above the profit threshold
    (`analyze_all_pairs`). */
module ArbitrageSearch {
  import opened Wrappers
  import opened Graphs
  import opened PathWeighter
  import opened PathEnumerator

  /** Factors up to this bound are treated as floating-point noise around 1.0. */
  const Threshold: real := 1.00001

  /** One result record: the pair, both legs with their weights, and the round-trip factor. */
  datatype Details = Details(from: string, to: string,
                             fPath: seq<string>, fWeight: real,
                             rPath: seq<string>, rWeight: real,
                             factor: real)

  // ----- the candidates, in the order the four nested loops meet them -----

  /** The candidate (if any) for one forward and one reverse path: both must have two
      nodes or more and a positive weight. */
  function CandidateOf(g: Graph, a: string, b: string, f: seq<string>, r: seq<string>): seq<Details> {
    if |f| < 2 || |r| < 2 || PathWeight(g, f) <= 0.0 || PathWeight(g, r) <= 0.0 then []
    else [Details(a, b, f, PathWeight(g, f), r, PathWeight(g, r), PathWeight(g, f) * PathWeight(g, r))]
  }

  /** The candidates of forward path `f` with each reverse path of `rs`, in order. */
  function RowOf(g: Graph, a: string, b: string, f: seq<string>, rs: seq<seq<string>>): seq<Details> {
    if |rs| == 0 then []
    else RowOf(g, a, b, f, rs[..|rs| - 1]) + CandidateOf(g, a, b, f, rs[|rs| - 1])
  }

  /** The full cross product of forward paths `fs` and reverse paths `rs`, forward-major. */
  function CrossOf(g: Graph, a: string, b: string, fs: seq<seq<string>>, rs: seq<seq<string>>): seq<Details> {
    if |fs| == 0 then []
    else CrossOf(g, a, b, fs[..|fs| - 1], rs) + RowOf(g, a, b, fs[|fs| - 1], rs)
  }

  /** The candidates of the ordered pair (nodes[i], nodes[j]); none when i == j or when
      either direction has no path. */
  function PairCandidates(g: Graph, i: nat, j: nat): seq<Details>
    requires i < |g.nodes| && j < |g.nodes|
  {
    if i == j then []
    else
      var a, b := g.nodes[i], g.nodes[j];
      var fs, rs := SimplePaths(g, a, b), SimplePaths(g, b, a);
      if |fs| == 0 || |rs| == 0 then [] else CrossOf(g, a, b, fs, rs)
  }

  /** The candidates of the pairs (nodes[i], nodes[j]) for j < m. */
  function RowCandidates(g: Graph, i: nat, m: nat): seq<Details>
    requires i < |g.nodes| && m <= |g.nodes|
  {
    if m == 0 then [] else RowCandidates(g, i, m - 1) + PairCandidates(g, i, m - 1)
  }

  /** The candidates of the pairs whose first node is nodes[i] for i < m. */
  function AllCandidates(g: Graph, m: nat): seq<Details>
    requires m <= |g.nodes|
  {
    if m == 0 then [] else AllCandidates(g, m - 1) + RowCandidates(g, m - 1, |g.nodes|)
  }

  /** Every candidate the search considers, in pair-then-path order. */
  function Candidates(g: Graph): seq<Details> {
    AllCandidates(g, |g.nodes|)
  }

  // ----- the same candidates, grouped by pair and by first node -----

  /** The candidate lists `xss` one after another. */
  function Flatten(xss: seq<seq<Details>>): seq<Details> {
    if |xss| == 0 then [] else Flatten(xss[..|xss| - 1]) + xss[|xss| - 1]
  }

  /** The rows of `t` one after another. */
  function FlattenAll(t: seq<seq<seq<Details>>>): seq<Details> {
    if |t| == 0 then [] else FlattenAll(t[..|t| - 1]) + Flatten(t[|t| - 1])
  }

  /** `row[j]` is the candidate list of the pair (nodes[i], nodes[j]), for every j. */
  ghost predicate IsRow(g: Graph, i: nat, row: seq<seq<Details>>) {
    && i < |g.nodes| && |row| == |g.nodes|
    && forall j {:trigger PairCandidates(g, i, j)} :: 0 <= j < |row| ==> row[j] == PairCandidates(g, i, j)
  }

  /** `t[i]` is the row of nodes[i], for every i. */
  ghost predicate IsTable(g: Graph, t: seq<seq<seq<Details>>>) {
    |t| == |g.nodes| && forall i :: 0 <= i < |t| ==> IsRow(g, i, t[i])
  }

  /** Every node has its row. */
  lemma TabulateRow(g: Graph, i: nat) returns (row: seq<seq<Details>>)
    requires i < |g.nodes|
    ensures IsRow(g, i, row)
  {
    row := seq(|g.nodes|, j requires 0 <= j < |g.nodes| => PairCandidates(g, i, j));
  }

  lemma FlattenSnoc(xss: seq<seq<Details>>, j: nat)
    requires j < |xss|
    ensures Flatten(xss[..j + 1]) == Flatten(xss[..j]) + xss[j]
  {
    assert xss[..j + 1][..j] == xss[..j];
  }

  lemma FlattenAllSnoc(t: seq<seq<seq<Details>>>, row: seq<seq<Details>>)
    ensures FlattenAll(t + [row]) == FlattenAll(t) + Flatten(row)
  {
    assert (t + [row])[..|t|] == t;
  }

  lemma FlattenAllPrefix(t: seq<seq<seq<Details>>>, i: nat)
    requires i < |t|
    ensures FlattenAll(t[..i + 1]) == FlattenAll(t[..i]) + Flatten(t[i])
  {
    assert t[..i + 1][..i] == t[..i];
  }

  /** Concatenating a row gives the row's candidates. */
  lemma {:induction false} RowCandidatesOfRow(g: Graph, i: nat, row: seq<seq<Details>>, m: nat)
    requires IsRow(g, i, row) && m <= |row|
    ensures Flatten(row[..m]) == RowCandidates(g, i, m)
  {
    if m > 0 {
      RowCandidatesOfRow(g, i, row, m - 1);
      FlattenSnoc(row, m - 1);
      assert row[m - 1] == PairCandidates(g, i, m - 1);
    }
  }

  /** Concatenating a table gives all the candidates. */
  lemma {:induction false} CandidatesOfTable(g: Graph, t: seq<seq<seq<Details>>>, m: nat)
    requires IsTable(g, t) && m <= |t|
    ensures FlattenAll(t[..m]) == AllCandidates(g, m)
  {
    if m > 0 {
      var row := t[m - 1];
      CandidatesOfTable(g, t, m - 1);
      FlattenAllPrefix(t, m - 1);
      assert row[..|g.nodes|] == row;
      RowCandidatesOfRow(g, m - 1, row, |g.nodes|);
    }
  }

  lemma TableCandidates(g: Graph, t: seq<seq<seq<Details>>>)
    requires IsTable(g, t)
    ensures FlattenAll(t) == Candidates(g)
  {
    CandidatesOfTable(g, t, |t|);
    assert t[..|t|] == t;
  }

  // ----- the two running extrema -----

  /** `cs[k]` has the least factor of `cs`, and no earlier candidate attains it. */
  ghost predicate FirstMinAt(cs: seq<Details>, k: int) {
    && 0 <= k < |cs|
    && (forall i :: 0 <= i < |cs| ==> cs[k].factor <= cs[i].factor)
    && (forall i :: 0 <= i < k ==> cs[i].factor > cs[k].factor)
  }

  /** `cs[k]` is above the threshold, has the greatest factor among the candidates above
      it, and no earlier such candidate attains that factor. */
  ghost predicate FirstMaxAt(cs: seq<Details>, k: int) {
    && 0 <= k < |cs|
    && cs[k].factor > Threshold
    && (forall i :: 0 <= i < |cs| && cs[i].factor > Threshold ==> cs[i].factor <= cs[k].factor)
    && (forall i :: 0 <= i < k && cs[i].factor > Threshold ==> cs[i].factor < cs[k].factor)
  }

  /** One step of the minimum tracking: replace only on a strictly smaller factor
      (`None` stands for `min_factor = inf`). */
  function MinStep(m: Option<Details>, c: Details): Option<Details> {
    if m.None? || c.factor < m.value.factor then Some(c) else m
  }

  /** One step of the maximum tracking: only factors above the threshold qualify, and
      replace only on a strictly larger one (`None` stands for `max_factor = -inf`). */
  function MaxStep(m: Option<Details>, c: Details): Option<Details> {
    if c.factor > Threshold && (m.None? || c.factor > m.value.factor) then Some(c) else m
  }

  /** The minimum tracker after meeting the candidates `cs` in order, starting from `acc`. */
  function MinFrom(acc: Option<Details>, cs: seq<Details>): Option<Details> {
    if |cs| == 0 then acc else MinStep(MinFrom(acc, cs[..|cs| - 1]), cs[|cs| - 1])
  }

  /** The maximum tracker after meeting the candidates `cs` in order, starting from `acc`. */
  function MaxFrom(acc: Option<Details>, cs: seq<Details>): Option<Details> {
    if |cs| == 0 then acc else MaxStep(MaxFrom(acc, cs[..|cs| - 1]), cs[|cs| - 1])
  }

  /** The tracked minimum of a whole search, started at `min_factor = inf`. */
  function MinOf(cs: seq<Details>): Option<Details> {
    MinFrom(None, cs)
  }

  /** The tracked maximum of a whole search, started at `max_factor = -inf`. */
  function MaxOf(cs: seq<Details>): Option<Details> {
    MaxFrom(None, cs)
  }

  /** Tracking over `a` and then over `b` is tracking over `a + b`. */
  lemma {:induction false} FromAppend(acc: Option<Details>, acc': Option<Details>, a: seq<Details>, b: seq<Details>)
    ensures MinFrom(acc, a + b) == MinFrom(MinFrom(acc, a), b)
    ensures MaxFrom(acc', a + b) == MaxFrom(MaxFrom(acc', a), b)
  {
    if |b| == 0 {
      assert a + b == a;
    } else {
      var b' := b[..|b| - 1];
      assert (a + b)[..|a + b| - 1] == a + b';
      assert (a + b)[|a + b| - 1] == b[|b| - 1];
      FromAppend(acc, acc', a, b');
    }
  }

  /** Strict `<` makes the tracked minimum the FIRST candidate of least factor; it is
      absent exactly when there is no candidate. */
  lemma {:induction false} MinOfIsFirstMin(cs: seq<Details>)
    ensures MinOf(cs).None? <==> cs == []
    ensures MinOf(cs).Some? ==> exists k :: FirstMinAt(cs, k) && MinOf(cs).value == cs[k]
  {
    if cs != [] {
      var prefix, c := cs[..|cs| - 1], cs[|cs| - 1];
      assert forall i :: 0 <= i < |prefix| ==> cs[i] == prefix[i];
      MinOfIsFirstMin(prefix);
      var prev := MinOf(prefix);
      assert MinOf(cs) == MinStep(prev, c);
      if prev.Some? {
        var k :| FirstMinAt(prefix, k) && prev.value == prefix[k];
        if c.factor < prev.value.factor {
          assert FirstMinAt(cs, |cs| - 1);
        } else {
          assert FirstMinAt(cs, k);
        }
      } else {
        assert FirstMinAt(cs, 0);
      }
    }
  }

  /** The tracked maximum is the FIRST candidate of greatest factor among those strictly
      above the threshold; it is absent exactly when no candidate is above it. */
  lemma {:induction false} MaxOfIsFirstMax(cs: seq<Details>)
    ensures MaxOf(cs).None? <==> forall i :: 0 <= i < |cs| ==> cs[i].factor <= Threshold
    ensures MaxOf(cs).Some? ==> exists k :: FirstMaxAt(cs, k) && MaxOf(cs).value == cs[k]
  {
    if cs != [] {
      var prefix, c := cs[..|cs| - 1], cs[|cs| - 1];
      assert forall i :: 0 <= i < |prefix| ==> cs[i] == prefix[i];
      MaxOfIsFirstMax(prefix);
      var prev := MaxOf(prefix);
      assert MaxOf(cs) == MaxStep(prev, c);
      if prev.Some? {
        var k :| FirstMaxAt(prefix, k) && prev.value == prefix[k];
        if c.factor > Threshold && c.factor > prev.value.factor {
          assert FirstMaxAt(cs, |cs| - 1);
        } else {
          assert FirstMaxAt(cs, k);
        }
      } else if c.factor > Threshold {
        assert FirstMaxAt(cs, |cs| - 1);
      }
    }
  }

  // ----- the search -----

  /** The body of the innermost loop: weigh both legs and, when both are positive,
      offer the candidate to the two trackers. */
  method Consider(g: Graph, a: string, b: string, fPath: seq<string>, rPath: seq<string>,
                  minIn: Option<Details>, maxIn: Option<Details>)
    returns (minOut: Option<Details>, maxOut: Option<Details>)
    ensures minOut == MinFrom(minIn, CandidateOf(g, a, b, fPath, rPath))
    ensures maxOut == MaxFrom(maxIn, CandidateOf(g, a, b, fPath, rPath))
  {
    minOut, maxOut := minIn, maxIn;
    if |fPath| < 2 || |rPath| < 2 {
      return;
    }
    var forwardWeight := CalculatePathWeight(g, fPath);
    var reverseWeight := CalculatePathWeight(g, rPath);
    if forwardWeight <= 0.0 || reverseWeight <= 0.0 {
      return;
    }
    var factor := forwardWeight * reverseWeight;
    var d := Details(a, b, fPath, forwardWeight, rPath, reverseWeight, factor);
    if minOut.None? || factor < minOut.value.factor {
      minOut := Some(d);
    }
    if factor > Threshold && (maxOut.None? || factor > maxOut.value.factor) {
      maxOut := Some(d);
    }
    CandidateOfWeighed(g, a, b, fPath, rPath);
    assert d == Details(a, b, fPath, PathWeight(g, fPath), rPath, PathWeight(g, rPath),
                        PathWeight(g, fPath) * PathWeight(g, rPath));
    assert CandidateOf(g, a, b, fPath, rPath) == [d];
    assert [d][..0] == [];
    assert MinFrom(None, [d]) == MinStep(None, d);
    assert MaxFrom(None, [d]) == MaxStep(None, d);
  }

  lemma CandidateOfWeighed(g: Graph, a: string, b: string, f: seq<string>, r: seq<string>)
    requires |f| >= 2 && |r| >= 2 && PathWeight(g, f) > 0.0 && PathWeight(g, r) > 0.0
    ensures CandidateOf(g, a, b, f, r)
            == [Details(a, b, f, PathWeight(g, f), r, PathWeight(g, r), PathWeight(g, f) * PathWeight(g, r))]
  {
    var c := CandidateOf(g, a, b, f, r);
    assert |c| == 1 && c[0] == Details(a, b, f, PathWeight(g, f), r, PathWeight(g, r), PathWeight(g, f) * PathWeight(g, r));
  }

  /** The loop over the reverse paths for one forward path. */
  method ScanRow(g: Graph, a: string, b: string, fPath: seq<string>, rs: seq<seq<string>>,
                 minIn: Option<Details>, maxIn: Option<Details>)
    returns (minOut: Option<Details>, maxOut: Option<Details>)
    ensures minOut == MinFrom(minIn, RowOf(g, a, b, fPath, rs))
    ensures maxOut == MaxFrom(maxIn, RowOf(g, a, b, fPath, rs))
  {
    minOut, maxOut := minIn, maxIn;
    var ri := 0;
    while ri < |rs|
      invariant 0 <= ri <= |rs|
      invariant minOut == MinFrom(minIn, RowOf(g, a, b, fPath, rs[..ri]))
      invariant maxOut == MaxFrom(maxIn, RowOf(g, a, b, fPath, rs[..ri]))
    {
      assert rs[..ri + 1][..ri] == rs[..ri];
      FromAppend(minIn, maxIn, RowOf(g, a, b, fPath, rs[..ri]), CandidateOf(g, a, b, fPath, rs[ri]));
      minOut, maxOut := Consider(g, a, b, fPath, rs[ri], minOut, maxOut);
      ri := ri + 1;
    }
    assert rs[..ri] == rs;
  }

  /** The two path loops of `analyze_all_pairs` for one pair (a, b): every forward path
      with every reverse path. */
  method ScanPaths(g: Graph, a: string, b: string, fs: seq<seq<string>>, rs: seq<seq<string>>,
                   minIn: Option<Details>, maxIn: Option<Details>)
    returns (minOut: Option<Details>, maxOut: Option<Details>)
    ensures minOut == MinFrom(minIn, CrossOf(g, a, b, fs, rs))
    ensures maxOut == MaxFrom(maxIn, CrossOf(g, a, b, fs, rs))
  {
    minOut, maxOut := minIn, maxIn;
    var fi := 0;
    while fi < |fs|
      invariant 0 <= fi <= |fs|
      invariant minOut == MinFrom(minIn, CrossOf(g, a, b, fs[..fi], rs))
      invariant maxOut == MaxFrom(maxIn, CrossOf(g, a, b, fs[..fi], rs))
    {
      assert fs[..fi + 1][..fi] == fs[..fi];
      FromAppend(minIn, maxIn, CrossOf(g, a, b, fs[..fi], rs), RowOf(g, a, b, fs[fi], rs));
      minOut, maxOut := ScanRow(g, a, b, fs[fi], rs, minOut, maxOut);
      fi := fi + 1;
    }
    assert fs[..fi] == fs;
  }

  /** One iteration of the `j` loop: skip i == j, enumerate both directions, skip the
      pair when either has no path, else scan the cross product. */
  method ScanPair(g: Graph, i: nat, j: nat, minIn: Option<Details>, maxIn: Option<Details>)
    returns (minOut: Option<Details>, maxOut: Option<Details>)
    requires i < |g.nodes| && j < |g.nodes|
    ensures minOut == MinFrom(minIn, PairCandidates(g, i, j))
    ensures maxOut == MaxFrom(maxIn, PairCandidates(g, i, j))
  {
    minOut, maxOut := minIn, maxIn;
    if i == j {
      return;
    }
    var node1, node2 := g.nodes[i], g.nodes[j];
    var forwardPaths := SimplePaths(g, node1, node2);
    var reversePaths := SimplePaths(g, node2, node1);
    if |forwardPaths| == 0 || |reversePaths| == 0 {
      return;
    }
    minOut, maxOut := ScanPaths(g, node1, node2, forwardPaths, reversePaths, minOut, maxOut);
  }

  /** The `j` loop for a fixed first node `i`; `row` names the candidate lists of its
      pairs. */
  method ScanFrom(g: Graph, i: nat, ghost row: seq<seq<Details>>, minIn: Option<Details>, maxIn: Option<Details>)
    returns (minOut: Option<Details>, maxOut: Option<Details>)
    requires IsRow(g, i, row)
    ensures minOut == MinFrom(minIn, Flatten(row))
    ensures maxOut == MaxFrom(maxIn, Flatten(row))
  {
    minOut, maxOut := minIn, maxIn;
    var n := |g.nodes|;
    var j := 0;
    while j < n
      invariant 0 <= j <= n
      invariant minOut == MinFrom(minIn, Flatten(row[..j]))
      invariant maxOut == MaxFrom(maxIn, Flatten(row[..j]))
    {
      FlattenSnoc(row, j);
      FromAppend(minIn, maxIn, Flatten(row[..j]), row[j]);
      minOut, maxOut := ScanPair(g, i, j, minOut, maxOut);
      j := j + 1;
    }
    assert j == |row|;
    assert row[..j] == row;
  }

  /** The `i` loop over the first node; `table` names the rows in order. */
  method ScanAll(g: Graph) returns (minOut: Option<Details>, maxOut: Option<Details>, ghost table: seq<seq<seq<Details>>>)
    ensures IsTable(g, table)
    ensures minOut == MinFrom(None, FlattenAll(table))
    ensures maxOut == MaxFrom(None, FlattenAll(table))
  {
    minOut, maxOut, table := None, None, [];
    var n := |g.nodes|;
    var i := 0;
    while i < n
      invariant 0 <= i <= n
      invariant |table| == i
      invariant forall k :: 0 <= k < i ==> IsRow(g, k, table[k])
      invariant minOut == MinFrom(None, FlattenAll(table))
      invariant maxOut == MaxFrom(None, FlattenAll(table))
    {
      ghost var row := TabulateRow(g, i);
      FlattenAllSnoc(table, row);
      FromAppend(None, None, FlattenAll(table), Flatten(row));
      minOut, maxOut := ScanFrom(g, i, row, minOut, maxOut);
      table := table + [row];
      i := i + 1;
    }
  }

  /** `analyze_all_pairs`. The source's `min_factor` and `max_factor` are always the
      factors of the tracked records, so they are read from those. */
  method AnalyzeAllPairs(g: Graph) returns (minDetails: Option<Details>, maxDetails: Option<Details>)
    ensures minDetails == MinOf(Candidates(g))
    ensures maxDetails == MaxOf(Candidates(g))
    ensures |g.nodes| < 2 ==> minDetails.None? && maxDetails.None?
  {
    if |g.nodes| < 2 {
      FewNodesNoCandidates(g);
      return None, None;
    }
    ghost var table;
    minDetails, maxDetails, table := ScanAll(g);
    TableCandidates(g, table);
  }

  /** With fewer than two nodes there is no ordered pair of distinct nodes. */
  lemma FewNodesNoCandidates(g: Graph)
    requires |g.nodes| < 2
    ensures Candidates(g) == []
  {
    if |g.nodes| == 1 {
      calc {
        Candidates(g);
        AllCandidates(g, 0) + RowCandidates(g, 0, 1);
        RowCandidates(g, 0, 0) + PairCandidates(g, 0, 0);
        [];
      }
    }
  }

  // ----- what the candidates are -----

  /** A record the search can produce: two distinct nodes, a bounded simple path each
      way, both with a positive weight, and the product of the two weights as factor. */
  ghost predicate RoundTrip(g: Graph, d: Details) {
    && d.from in g.nodes && d.to in g.nodes && d.from != d.to
    && IsSimplePath(g, d.from, d.to, d.fPath) && IsSimplePath(g, d.to, d.from, d.rPath)
    && d.fWeight == PathWeight(g, d.fPath) && d.fWeight > 0.0
    && d.rWeight == PathWeight(g, d.rPath) && d.rWeight > 0.0
    && d.factor == d.fWeight * d.rWeight
  }

  lemma CandidateOfSound(g: Graph, a: string, b: string, f: seq<string>, r: seq<string>, d: Details)
    requires a in g.nodes && b in g.nodes && a != b
    requires IsSimplePath(g, a, b, f) && IsSimplePath(g, b, a, r)
    requires d in CandidateOf(g, a, b, f, r)
    ensures RoundTrip(g, d)
  {
    assert PathWeight(g, f) > 0.0 && PathWeight(g, r) > 0.0;
    CandidateOfWeighed(g, a, b, f, r);
  }

  lemma {:induction false} RowOfSound(g: Graph, a: string, b: string, f: seq<string>, rs: seq<seq<string>>, d: Details)
    requires a in g.nodes && b in g.nodes && a != b && IsSimplePath(g, a, b, f)
    requires forall r :: r in rs ==> IsSimplePath(g, b, a, r)
    requires d in RowOf(g, a, b, f, rs)
    ensures RoundTrip(g, d)
  {
    var rs', r := rs[..|rs| - 1], rs[|rs| - 1];
    if d in RowOf(g, a, b, f, rs') {
      assert forall x :: x in rs' ==> x in rs;
      RowOfSound(g, a, b, f, rs', d);
    } else {
      assert r in rs;
      CandidateOfSound(g, a, b, f, r, d);
    }
  }

  lemma {:induction false} CrossOfSound(g: Graph, a: string, b: string, fs: seq<seq<string>>, rs: seq<seq<string>>, d: Details)
    requires a in g.nodes && b in g.nodes && a != b
    requires forall f :: f in fs ==> IsSimplePath(g, a, b, f)
    requires forall r :: r in rs ==> IsSimplePath(g, b, a, r)
    requires d in CrossOf(g, a, b, fs, rs)
    ensures RoundTrip(g, d)
  {
    var fs', f := fs[..|fs| - 1], fs[|fs| - 1];
    if d in CrossOf(g, a, b, fs', rs) {
      assert forall x :: x in fs' ==> x in fs;
      CrossOfSound(g, a, b, fs', rs, d);
    } else {
      assert f in fs;
      RowOfSound(g, a, b, f, rs, d);
    }
  }

  lemma PairCandidatesSound(g: Graph, i: nat, j: nat, d: Details)
    requires Valid(g) && i < |g.nodes| && j < |g.nodes|
    requires d in PairCandidates(g, i, j)
    ensures RoundTrip(g, d)
  {
    var a, b := g.nodes[i], g.nodes[j];
    var fs, rs := SimplePaths(g, a, b), SimplePaths(g, b, a);
    forall f | f in fs ensures IsSimplePath(g, a, b, f) {
      SimplePathsExact(g, a, b, f);
    }
    forall r | r in rs ensures IsSimplePath(g, b, a, r) {
      SimplePathsExact(g, b, a, r);
    }
    CrossOfSound(g, a, b, fs, rs, d);
  }

  lemma {:induction false} RowOfComplete(g: Graph, a: string, b: string, f: seq<string>, rs: seq<seq<string>>, d: Details)
    requires |f| >= 2 && PathWeight(g, f) > 0.0
    requires d.from == a && d.to == b && d.fPath == f && d.fWeight == PathWeight(g, f)
    requires |d.rPath| >= 2 && d.rWeight == PathWeight(g, d.rPath) && d.rWeight > 0.0
    requires d.factor == d.fWeight * d.rWeight
    requires d.rPath in rs
    ensures d in RowOf(g, a, b, f, rs)
  {
    var rs', r := rs[..|rs| - 1], rs[|rs| - 1];
    assert RowOf(g, a, b, f, rs) == RowOf(g, a, b, f, rs') + CandidateOf(g, a, b, f, r);
    if r == d.rPath {
      CandidateOfWeighed(g, a, b, f, r);
      assert d == Details(a, b, f, PathWeight(g, f), r, PathWeight(g, r), PathWeight(g, f) * PathWeight(g, r));
    } else {
      assert d.rPath in rs';
      RowOfComplete(g, a, b, f, rs', d);
    }
  }

  lemma {:induction false} CrossOfComplete(g: Graph, a: string, b: string, fs: seq<seq<string>>, rs: seq<seq<string>>, d: Details)
    requires d.from == a && d.to == b
    requires |d.fPath| >= 2 && d.fWeight == PathWeight(g, d.fPath) && d.fWeight > 0.0
    requires |d.rPath| >= 2 && d.rWeight == PathWeight(g, d.rPath) && d.rWeight > 0.0
    requires d.factor == d.fWeight * d.rWeight
    requires d.fPath in fs && d.rPath in rs
    ensures d in CrossOf(g, a, b, fs, rs)
  {
    var fs', f := fs[..|fs| - 1], fs[|fs| - 1];
    if f == d.fPath {
      RowOfComplete(g, a, b, f, rs, d);
    } else {
      assert d.fPath in fs';
      CrossOfComplete(g, a, b, fs', rs, d);
    }
  }

  /** Every pair has its row, so the candidates have their table. */
  lemma TabulateTable(g: Graph) returns (t: seq<seq<seq<Details>>>)
    ensures IsTable(g, t)
  {
    t := [];
    for i := 0 to |g.nodes|
      invariant |t| == i
      invariant forall k :: 0 <= k < i ==> IsRow(g, k, t[k])
    {
      var row := TabulateRow(g, i);
      t := t + [row];
    }
  }

  lemma {:induction false} FlattenHas(xss: seq<seq<Details>>, j: nat, d: Details)
    requires j < |xss| && d in xss[j]
    ensures d in Flatten(xss)
  {
    if j < |xss| - 1 {
      FlattenHas(xss[..|xss| - 1], j, d);
    }
  }

  lemma {:induction false} FlattenAllHas(t: seq<seq<seq<Details>>>, i: nat, j: nat, d: Details)
    requires i < |t| && j < |t[i]| && d in t[i][j]
    ensures d in FlattenAll(t)
  {
    if i < |t| - 1 {
      FlattenAllHas(t[..|t| - 1], i, j, d);
    } else {
      FlattenHas(t[i], j, d);
    }
  }

  lemma {:induction false} FlattenMember(xss: seq<seq<Details>>, d: Details) returns (j: nat)
    requires d in Flatten(xss)
    ensures j < |xss| && d in xss[j]
  {
    if d in xss[|xss| - 1] {
      j := |xss| - 1;
    } else {
      j := FlattenMember(xss[..|xss| - 1], d);
    }
  }

  lemma {:induction false} FlattenAllMember(t: seq<seq<seq<Details>>>, d: Details) returns (i: nat, j: nat)
    requires d in FlattenAll(t)
    ensures i < |t| && j < |t[i]| && d in t[i][j]
  {
    if d in Flatten(t[|t| - 1]) {
      i := |t| - 1;
      j := FlattenMember(t[i], d);
    } else {
      i, j := FlattenAllMember(t[..|t| - 1], d);
    }
  }

  /** The search considers exactly the round trips of the graph: every candidate is
      one, and every one is a candidate. */
  lemma CandidatesExact(g: Graph, d: Details)
    requires Valid(g)
    ensures d in Candidates(g) <==> RoundTrip(g, d)
  {
    var t := TabulateTable(g);
    TableCandidates(g, t);
    if d in Candidates(g) {
      var i, j := FlattenAllMember(t, d);
      assert t[i][j] == PairCandidates(g, i, j);
      PairCandidatesSound(g, i, j, d);
    }
    if RoundTrip(g, d) {
      var i, j := IndexOf(g.nodes, d.from), IndexOf(g.nodes, d.to);
      PairCandidatesComplete(g, d);
      assert t[i][j] == PairCandidates(g, i, j);
      FlattenAllHas(t, i, j, d);
    }
  }

  /** A round trip is among the candidates of its own pair. */
  lemma PairCandidatesComplete(g: Graph, d: Details)
    requires Valid(g) && RoundTrip(g, d)
    ensures d in PairCandidates(g, IndexOf(g.nodes, d.from), IndexOf(g.nodes, d.to))
  {
    var fs, rs := SimplePaths(g, d.from, d.to), SimplePaths(g, d.to, d.from);
    SimplePathsExact(g, d.from, d.to, d.fPath);
    SimplePathsExact(g, d.to, d.from, d.rPath);
    CrossOfComplete(g, d.from, d.to, fs, rs, d);
  }

  /** A tracked maximum implies a tracked minimum, and the minimum's factor is no larger. */
  lemma MinAtMostMax(cs: seq<Details>)
    ensures MaxOf(cs).Some? ==> MinOf(cs).Some? && MinOf(cs).value.factor <= MaxOf(cs).value.factor
  {
    MinOfIsFirstMin(cs);
    MaxOfIsFirstMax(cs);
  }

  /** What `analyze_all_pairs` returns on a well-formed graph: round trips of the graph,
      the minimum of least factor among all of them, the maximum above the threshold and
      of greatest factor among those above it, and a minimum whenever there is a maximum. */
  lemma SearchResults(g: Graph)
    requires Valid(g)
    ensures MinOf(Candidates(g)).Some? ==>
              && RoundTrip(g, MinOf(Candidates(g)).value)
              && forall d :: RoundTrip(g, d) ==> MinOf(Candidates(g)).value.factor <= d.factor
    ensures MinOf(Candidates(g)).None? ==> forall d :: !RoundTrip(g, d)
    ensures MaxOf(Candidates(g)).Some? ==>
              && RoundTrip(g, MaxOf(Candidates(g)).value)
              && MaxOf(Candidates(g)).value.factor > Threshold
              && forall d :: RoundTrip(g, d) && d.factor > Threshold ==> d.factor <= MaxOf(Candidates(g)).value.factor
    ensures MaxOf(Candidates(g)).None? ==> forall d :: RoundTrip(g, d) ==> d.factor <= Threshold
    ensures MaxOf(Candidates(g)).Some? ==>
              MinOf(Candidates(g)).Some? && MinOf(Candidates(g)).value.factor <= MaxOf(Candidates(g)).value.factor
  {
    var cs := Candidates(g);
    MinOfIsFirstMin(cs);
    MaxOfIsFirstMax(cs);
    MinAtMostMax(cs);
    forall d ensures d in cs <==> RoundTrip(g, d) {
      CandidatesExact(g, d);
    }
    forall d | RoundTrip(g, d) ensures exists k :: 0 <= k < |cs| && cs[k] == d {
      var k := IndexOfDetails(cs, d);
    }
  }

  /** The threshold is strict: a lone candidate of factor exactly 1.00001 is no maximum,
      one of 1.000011 is, and a lone candidate is always the minimum. */
  lemma ThresholdBoundary(d: Details)
    ensures d.factor == 1.00001 ==> MaxOf([d]).None?
    ensures d.factor == 1.000011 ==> MaxOf([d]) == Some(d)
    ensures MinOf([d]) == Some(d)
  {
    assert [d][..0] == [];
    assert MinFrom(None, [d]) == MinStep(None, d);
    assert MaxFrom(None, [d]) == MaxStep(None, d);
  }

  function IndexOfDetails(cs: seq<Details>, d: Details): (k: nat)
    requires d in cs
    ensures k < |cs| && cs[k] == d
  {
    if cs[0] == d then 0 else 1 + IndexOfDetails(cs[1..], d)
  }
}
