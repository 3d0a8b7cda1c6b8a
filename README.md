# Crypto arbitrage finder — verified model of the search engine

The application asks a price service for the exchange rates between a handful of
user-chosen cryptocurrencies. It builds a directed graph whose edge u -> v carries the
rate for converting u into v and looks for round trips: a path from one currency to
another followed by a path back. A round trip's factor is the product of all its rates.
The search reports the round trip with the smallest factor and the one with the largest
factor above 1.00001, which is a possible arbitrage. Around this core sit ticker
resolution, which maps the user's tickers to the service's ids, and a small parser that
reads tickers from free text.

The model is one Dafny module per concern:

- `Wrappers` (wrappers.dfy): `Option`.
- `Text` (text.dfy): ASCII `str.strip()` and `str.lower()`.
- `Graphs` (graphs.dfy): the graph as a value. It holds the node sequence in the graph's
  own order and a map from each node to its successors and their edge weights. It also
  defines well-formedness and what an isolated node is.
- `GraphBuilder` (graph_builder.dfy): `build_graph`.
  - It is a method built from four loops: add the nodes; collect `edges_to_add`; add the
    weighted edges, where a later edge overwrites an earlier one; drop the isolated
    nodes.
  - It is proved against `CollectEdges`, a function over the rate table that states
    which rates become edges.
- `PathWeighter` (path_weighter.dfy): `calculate_path_weight`.
  - It is a loop with early returns.
  - It is proved equal to `PathWeight`, and `PathWeight` is shown equal to `Product`,
    the product of the weights along the path.
- `PathEnumerator` (path_enumerator.dfy): a depth-first enumeration of the simple paths
  with at most 5 edges. It stands for `nx.all_simple_paths(..., cutoff=5)`. The
  enumeration is proved to produce exactly the paths satisfying `IsSimplePath`, each of
  them once.
- `ArbitrageSearch` (arbitrage_search.dfy): `analyze_all_pairs`.
  - All four nested loops are methods. Each is proved to fold the running minimum and
    maximum over the candidate list `Candidates(g)` in the order the loops meet the
    candidates.
  - From that fold the module derives what the records mean: each is a genuine round
    trip; the minimum is the first least factor; the maximum is the first greatest
    factor above the threshold.
- `Tickers` (tickers.dfy): `get_details_from_tickers`, a loop proved equal to the
  function `Resolve`, with lemmas about the five results.
- `TickerParsing` (ticker_parsing.dfy): `parse_tickers_from_text` from app.py, as
  functions and lemmas.
- `Scenarios` (scenarios.dfy): worked instances.
  - A ticker quoted only against itself keeps its node.
  - A two-currency market: the rates 2.0 and 0.4 give a minimum of 0.8 and no maximum;
    the rates 2.0 and 0.6 give a factor of 1.2 that is both results.

How the model maps the code:

- Rates and factors are exact `real`.
- The `±inf` starting values of `min_factor` and `max_factor` are `None`. The trackers
  read the factor from the current record, which is always equal to the source's
  running variable.
- What the price service returns is a parameter: a sequence of `(api_id, row)` in key
  order. Each row is a sequence of `(ticker, Rate)`, where `Rate` is `Num(r)` or
  `NonNum`.
- The iteration order of the set of selected tickers decides the order of the graph's
  nodes. It is the parameter `order` of `BuildGraph`.
- A rate from a ticker to itself becomes a self-loop, as it does in the source. Such a
  node counts as connected and survives the pruning. It can never lie on a simple path
  of two or more distinct nodes through that edge.

## Model

| member | source | states |
|---|---|---|
| Graphs.IsolatedIffNotConnected | arbitrage_logic.py:115 | a node is isolated exactly when it has no outgoing and no incoming edge; a self-loop is both |
| GraphBuilder.RowEdges | arbitrage_logic.py:107-110 | the edges of one rate row are exactly its numeric, positive rates towards selected tickers, each with the row's source and the rate as weight |
| GraphBuilder.CollectEdges | arbitrage_logic.py:102-110 | every collected edge comes from a row whose API id maps to a selected ticker, ends at a selected ticker and has positive weight; every such rate is collected |
| GraphBuilder.BuildGraph | arbitrage_logic.py:92-120 | the graph is well formed with positive weights; an edge exists exactly when a collected edge lists it, and its weight is the last one listed; both ends are selected tickers; the nodes are the selected tickers some edge touches, in the given order, and each has an incident edge |
| GraphBuilder.AddNodes | arbitrage_logic.py:96-100 | one node per selected ticker, each with no successors |
| GraphBuilder.EdgesToAdd | arbitrage_logic.py:102-110 | the loops build exactly the collected edge list |
| GraphBuilder.AddWeightedEdges | arbitrage_logic.py:112 | the nodes are unchanged; u -> v is an edge exactly when some listed edge goes from u to v, with the weight of the last such edge |
| GraphBuilder.ListedSnoc | arbitrage_logic.py:112 | adding one edge to the list adds exactly its pair to the listed pairs |
| GraphBuilder.LastWriteSnoc | arbitrage_logic.py:112 | adding one edge makes its weight the last-written one for its pair and leaves the other pairs alone |
| GraphBuilder.AddEdgeStepAt | arbitrage_logic.py:112 | one edge insertion keeps "edge present iff listed, weight is the last written" for a fixed pair |
| GraphBuilder.AddEdgeStep | arbitrage_logic.py:112 | one edge insertion keeps that invariant for every pair |
| GraphBuilder.RemoveIsolates | arbitrage_logic.py:114-118 | dropping the untouched nodes keeps every edge and weight; the remaining nodes are the touched ones in order, each connected |
| GraphBuilder.PrunedEdges | arbitrage_logic.py:114-118 | removing nodes that no edge touches removes no edge and changes no weight |
| GraphBuilder.PrunedConnected | arbitrage_logic.py:115-118 | every node touched by a listed edge is connected in the pruned graph |
| GraphBuilder.SplitIsolated | arbitrage_logic.py:115 | the scan over the nodes keeps exactly the touched ones, in order and without repeats |
| GraphBuilder.IsolatedIffNotTouched | arbitrage_logic.py:115 | before pruning, a node is isolated exactly when no collected edge touches it |
| PathWeighter.CalculatePathWeight | arbitrage_logic.py:122-142 | 0.0 for fewer than two nodes and for a missing edge; otherwise the product of the edge weights |
| PathWeighter.MissingEdgeZero | arbitrage_logic.py:132-137 | one missing consecutive edge anywhere makes the weight 0.0 |
| PathWeighter.WeightAlongProduct | arbitrage_logic.py:129-134 | along present edges the running product is the product of the weights |
| PathWeighter.PathWeightIsProduct | arbitrage_logic.py:124-138 | the path weight is 0.0 for fewer than two nodes or a missing edge, and the product of the edge weights otherwise |
| PathWeighter.EdgesAlongPrefix | arbitrage_logic.py:129-131 | a prefix of a path along edges is along edges |
| PathWeighter.ProductPositive | arbitrage_logic.py:134 | with positive edge weights the product is positive |
| PathWeighter.PathWeightPositive | arbitrage_logic.py:124-138 | with positive edge weights a path weight is positive exactly when the path has two nodes or more and all its edges |
| PathWeighter.WeightAlongSnoc | arbitrage_logic.py:133-134 | extending a path by one node multiplies its weight by the new edge's weight, or makes it 0.0 if that edge is missing |
| PathWeighter.WeightAlongConcat | arbitrage_logic.py:129-134 | the weight of two joined paths is the product of their weights |
| PathEnumerator.ExtendSound | arbitrage_logic.py:171-172 | every path the search produces from a prefix extends that prefix within the budget, ends at the target, is simple and follows edges |
| PathEnumerator.ExtendFromSound | arbitrage_logic.py:171-172 | the same for the search over the successors from a given index |
| PathEnumerator.ExtendComplete | arbitrage_logic.py:171-172 | every simple path along edges that extends the prefix within the budget and ends at the target is produced |
| PathEnumerator.ExtendFromComplete | arbitrage_logic.py:171-172 | the same for the successors from an index not past the path's next node |
| PathEnumerator.ExtendFromAt | arbitrage_logic.py:171-172 | the same when the index is exactly the path's next node |
| PathEnumerator.NextStep | arbitrage_logic.py:171-172 | the next node of a simple path after a prefix is a fresh successor, and reaching the target there ends the path |
| PathEnumerator.SimplePathsExact | arbitrage_logic.py:171-172 | a path is enumerated exactly when it is a simple path from source to target with one to five edges |
| PathEnumerator.ExtendFromShape | arbitrage_logic.py:171-172 | the paths produced from index k continue with a node at index k or later |
| PathEnumerator.ExtendDistinct | arbitrage_logic.py:171-172 | the search from a prefix produces no path twice |
| PathEnumerator.ExtendFromDistinct | arbitrage_logic.py:171-172 | the search over the successors from an index produces no path twice |
| PathEnumerator.LaterHeadsDiffer | arbitrage_logic.py:171-172 | paths produced through different successors differ |
| PathEnumerator.SimplePathsDistinct | arbitrage_logic.py:171-172 | every bounded simple path is enumerated once |
| ArbitrageSearch.Consider | arbitrage_logic.py:193-223 | one forward/reverse pair is skipped when a path has fewer than two nodes or a weight is not positive; otherwise the candidate is offered to both trackers |
| ArbitrageSearch.CandidateOfWeighed | arbitrage_logic.py:196-212 | a valid forward/reverse pair gives the record with the two path weights and their product |
| ArbitrageSearch.ScanRow | arbitrage_logic.py:192-223 | the reverse-path loop folds both trackers over the candidates of one forward path, in order |
| ArbitrageSearch.ScanPaths | arbitrage_logic.py:191-223 | the two path loops fold both trackers over the cross product, forward-major |
| ArbitrageSearch.ScanPair | arbitrage_logic.py:162-189 | one ordered pair folds over nothing when i == j or a direction has no path, otherwise over its cross product |
| ArbitrageSearch.ScanFrom | arbitrage_logic.py:162-227 | the j loop folds over the candidates of all pairs starting at node i |
| ArbitrageSearch.ScanAll | arbitrage_logic.py:161-228 | the i loop folds over the candidates of all pairs |
| ArbitrageSearch.AnalyzeAllPairs | arbitrage_logic.py:145-229 | the results are the running minimum and the running thresholded maximum over all candidates in pair-then-path order; fewer than two nodes give (None, None) |
| ArbitrageSearch.FewNodesNoCandidates | arbitrage_logic.py:152-155 | a graph with fewer than two nodes has no candidates |
| ArbitrageSearch.RowCandidatesOfRow | arbitrage_logic.py:162-189 | the candidates of one row of pairs are those of its pairs in j order |
| ArbitrageSearch.CandidatesOfTable | arbitrage_logic.py:161-189 | the candidates of the first m rows are those rows' candidates in i order |
| ArbitrageSearch.TableCandidates | arbitrage_logic.py:161-189 | the table the loops build holds exactly the search's candidates |
| ArbitrageSearch.FromAppend | arbitrage_logic.py:204-223 | tracking over two runs of candidates is tracking over the first run and then the second |
| ArbitrageSearch.MinOfIsFirstMin | arbitrage_logic.py:205-212 | the minimum is None exactly when there are no candidates; otherwise it is the first candidate with the least factor |
| ArbitrageSearch.MaxOfIsFirstMax | arbitrage_logic.py:216-223 | the maximum is None exactly when no factor exceeds 1.00001; otherwise it is the first candidate with the greatest such factor |
| ArbitrageSearch.CandidateOfSound | arbitrage_logic.py:193-202 | a candidate of simple paths is a round trip: distinct ends, both legs simple, positive path weights, factor their product |
| ArbitrageSearch.RowOfSound | arbitrage_logic.py:192-202 | every candidate of one forward path and simple reverse paths is a round trip |
| ArbitrageSearch.CrossOfSound | arbitrage_logic.py:191-202 | every candidate of the cross product of simple paths is a round trip |
| ArbitrageSearch.PairCandidatesSound | arbitrage_logic.py:163-202 | every candidate of a pair is a round trip between its two nodes |
| ArbitrageSearch.RowOfComplete | arbitrage_logic.py:192-202 | a round trip whose reverse path is listed is a candidate of its forward path |
| ArbitrageSearch.CrossOfComplete | arbitrage_logic.py:191-202 | a round trip whose two paths are listed is in the cross product |
| ArbitrageSearch.TabulateTable | arbitrage_logic.py:161-189 | the pairs' candidate lists can be arranged as the loops' table |
| ArbitrageSearch.FlattenHas | arbitrage_logic.py:161-189 | a member of a pair's candidates is in the row's candidates |
| ArbitrageSearch.FlattenAllHas | arbitrage_logic.py:161-189 | a member of a row's candidates is in the table's candidates |
| ArbitrageSearch.FlattenMember | arbitrage_logic.py:161-189 | every member of a row's candidates comes from one of its pairs |
| ArbitrageSearch.FlattenAllMember | arbitrage_logic.py:161-189 | every member of the table's candidates comes from one of its pairs |
| ArbitrageSearch.PairCandidatesComplete | arbitrage_logic.py:163-202 | every round trip between two nodes is a candidate of that pair |
| ArbitrageSearch.CandidatesExact | arbitrage_logic.py:161-202 | a record is a candidate of the search exactly when it is a round trip of the graph |
| ArbitrageSearch.MinAtMostMax | arbitrage_logic.py:204-223 | when there is a maximum there is a minimum, and its factor is at most the maximum's |
| ArbitrageSearch.SearchResults | arbitrage_logic.py:145-229 | min_details is a round trip of least factor, or None exactly when there is none; max_details is a round trip of factor above 1.00001 and greatest among those, or None exactly when every factor is at most 1.00001; a maximum implies a minimum no larger |
| ArbitrageSearch.ThresholdBoundary | arbitrage_logic.py:216 | a factor of exactly 1.00001 never becomes the maximum, 1.000011 does, and a lone candidate is the minimum |
| Scenarios.SelfLoopKept | arbitrage_logic.py:107-118 | a ticker whose only rate is to itself gets a self-loop edge and is kept as a node |
| Scenarios.TwoNodePaths | arbitrage_logic.py:171-172 | in a two-currency market each direction has exactly the one-edge path |
| Scenarios.TwoNodeWeights | arbitrage_logic.py:122-138 | the weights of those paths are the two rates |
| Scenarios.TwoNodeCandidates | arbitrage_logic.py:161-202 | the search meets the pair (a, b) and then (b, a), each with factor ab * ba |
| Scenarios.LosingRoundTrip | arbitrage_logic.py:204-223 | rates 2.0 and 0.4: the minimum is the first record with factor 0.8 and there is no maximum |
| Scenarios.WinningRoundTrip | arbitrage_logic.py:204-223 | rates 2.0 and 0.6: the first record, with factor 1.2, is both minimum and maximum |
| Scenarios.ExtremaOfTwo | arbitrage_logic.py:205-223 | of two candidates with equal factors the first wins both trackers, the maximum only above the threshold |
| Tickers.GetDetailsFromTickers | arbitrage_logic.py:28-59 | the loop computes exactly `Resolve` of the inputs |
| Tickers.SelectsSnoc | arbitrage_logic.py:42-52 | one more input selects a ticker exactly when it cleans to that found ticker |
| Tickers.MissesSnoc | arbitrage_logic.py:42-54 | one more input is missing exactly when it is non-blank and not found |
| Tickers.ResolveMembership | arbitrage_logic.py:42-54 | a ticker is selected exactly when some non-blank input cleans to it and it maps to a non-empty id; an input is in the not-found list exactly when it is non-blank and not found |
| Tickers.ResolveConsistent | arbitrage_logic.py:47-52 | id_ticker_map is defined on exactly the selected tickers and gives their ids; the selected ids are their image; name_ticker_map is defined on exactly the selected ids and maps each back to a selected ticker with that id |
| Tickers.NotFoundAppend | arbitrage_logic.py:42-54 | the not-found list keeps input order: over two runs of input it is the one run's list followed by the other's |
| Tickers.Partition | arbitrage_logic.py:43-54 | every non-blank input is either selected by its clean form or reported missing as typed, never both |
| Tickers.NameTickerIsLast | arbitrage_logic.py:51 | name_ticker_map[id] is the clean form of the last input that selects id |
| Text.TrimStartSpec | arbitrage_logic.py:43 | lstrip drops a whitespace prefix and leaves a suffix not starting with whitespace |
| Text.TrimEndSpec | arbitrage_logic.py:43 | rstrip drops a whitespace suffix and leaves a prefix not ending with whitespace |
| Text.StripSpec | arbitrage_logic.py:43 | strip leaves the slice between a whitespace prefix and a whitespace suffix, with no whitespace at either end |
| Text.StripAllSpace | app.py:14 | a string of whitespace strips to the empty string |
| Text.LowerChar | arbitrage_logic.py:43 | ASCII capitals move to lower case; every other character is kept |
| Text.LowerSpec | arbitrage_logic.py:43 | lower keeps the length and maps each character on its own |
| Text.LowerOfStripped | app.py:14 | a stripped, lowered ticker has no capitals and is its own strip |
| Text.StripKeepsUnpadded | app.py:14 | a string with no whitespace at either end is its own strip |
| TickerParsing.TokenEnd | app.py:11 | the token ends at the first separator or at the end of the text |
| TickerParsing.SepRun | app.py:11 | a run of separators ends at the first non-separator or at the end of the text |
| TickerParsing.SplitFromJoin | app.py:11 | joining the split tokens with the separator runs between them gives back the text; the tokens hold no separator and the runs are non-empty |
| TickerParsing.JoinStep | app.py:11 | joining one more token and run extends the rebuilt text by them |
| TickerParsing.JoinCons | app.py:11 | a join of two or more tokens is the first token, then the first separator run, then the join of the rest |
| TickerParsing.SliceConcat | app.py:11 | adjacent slices of the text concatenate to the joined slice |
| TickerParsing.SplitJoin | app.py:11 | the split of a whole text rebuilds it, tokens free of separators |
| TickerParsing.SplitFromBlank | app.py:11-14 | a text of separators and whitespace splits into tokens made only of whitespace |
| TickerParsing.LessIrreflexive | app.py:14 | string order is irreflexive |
| TickerParsing.LessTransitive | app.py:14 | string order is transitive |
| TickerParsing.LessTotal | app.py:14 | two different strings are ordered one way or the other |
| TickerParsing.InsertSpec | app.py:14 | inserting into a strictly sorted list keeps it strictly sorted and adds exactly the element |
| TickerParsing.SortUniqueSpec | app.py:14 | sorted(set(xs)) is strictly sorted and holds exactly the elements of xs |
| TickerParsing.StrictlySortedUnique | app.py:14 | two strictly sorted lists with the same elements are equal, so the result is determined by its set |
| TickerParsing.LessNotBefore | app.py:14 | in a strictly sorted list an element is less than every later one |
| TickerParsing.FirstNotInTail | app.py:14 | the head of a strictly sorted list is not in its tail |
| TickerParsing.StrictlySortedDistinct | app.py:14 | a strictly sorted list has no duplicates |
| TickerParsing.KeepMembership | app.py:14 | the kept values are exactly the stripped, lowered forms of the tokens that are non-blank after stripping |
| TickerParsing.ParseTickersSpec | app.py:8-14 | the result is strictly sorted, and a string is in it exactly when it is the stripped, lowered form of a token that is non-blank after stripping |
| TickerParsing.LowerKeepsSepFree | app.py:14 | lowering adds no separator |
| TickerParsing.StripKeepsSepFree | app.py:14 | stripping adds no separator |
| TickerParsing.CleanPiece | app.py:11-14 | the clean form of a token is non-empty, lower case, its own strip and separator-free |
| TickerParsing.ParsedTickersClean | app.py:11-14 | every returned ticker is non-empty, lower case, has no surrounding whitespace and holds no space, comma or newline |
| TickerParsing.BlankTextNoTickers | app.py:11-14 | a text of only separators and whitespace, the empty text included, yields no tickers |

## Left out

- `load_currencies` (arbitrage_logic.py:13-26): file reading, JSON decoding and caching. Its result, the ticker-to-id map, is a parameter.
- `fetch_exchange_rates` (arbitrage_logic.py:62-90): an HTTP request with a cache and error handling. Its answer is the rate-table parameter of `BuildGraph`.
- The networkx graph: it is replaced by the map representation, and `nx.isolates` by an explicit scan. The library's neighbour order is replaced by the graph's node order in the path search. With several paths per pair, the order of candidates, and with it which of two equal factors wins, can therefore differ from networkx's.
- The `NodeNotFound` and `NetworkXNoPath` branches (arbitrage_logic.py:174-183) are not modelled. Both nodes always come from the graph, and the enumeration returns an empty list rather than raising. The `KeyError` branch (arbitrage_logic.py:139-142) cannot arise with the map representation; its 0.0 coincides with the missing-edge case.
- The `st.warning` and `st.error` calls are not modelled: they are display side effects. The same goes for the `processed_pairs` counter with `progress_callback`, which is observational only.
- IEEE-754 arithmetic: rates, weights and factors are exact reals, so nothing is said about rounding. `float(rate)` is the identity.
- Python's `bool` counts as an `int`, so a JSON `true` rate passes `isinstance(rate, (int, float))` and becomes an edge of weight 1.0. The model has no boolean rate: a boolean is `NonNum` and gives no edge.
- Text: `strip()` and `lower()` cover ASCII only. Their whitespace is Python's ASCII whitespace set. Non-ASCII case mappings and Unicode whitespace are not modelled.
- `list(set(...))` in `get_details_from_tickers`: the two lists are modelled as sets, because their order is the unspecified set iteration order. Likewise the order of `set(name_ticker_map.values())` is the `order` parameter of `BuildGraph`.
- The `ArbitrageSearch` lemmas that describe the results (`CandidatesExact`, `SearchResults`, the `Complete` lemmas) require a well-formed graph. `BuildGraph` guarantees one.
- All of app.py except `parse_tickers_from_text` (app.py:8-14) is left out: the Streamlit page, the display checks and the investment arithmetic.
