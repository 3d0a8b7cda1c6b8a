/** Resolution of the user's tickers against the ticker-to-id map
    (`get_details_from_tickers`). */
module Tickers {
  import opened Text

  /** `ticker.strip().lower()`. */
  function Clean(t: string): string {
    Lower(Strip(t))
  }

  /** `ticker_to_id_map.get(t)` is truthy: the ticker is mapped, to a non-empty id. */
  predicate Found(ttm: map<string, string>, t: string) {
    t in ttm && ttm[t] != ""
  }

  /** The five results. The two sets stand for the lists built from them, whose order
      is the set iteration order. */
  datatype Selection = Selection(selectedIds: set<string>,
                                 selectedTickers: set<string>,
                                 nameTickerMap: map<string, string>,
                                 idTickerMap: map<string, string>,
                                 notFound: seq<string>)

  /** The results after the loop has met the tickers `ts` in order. */
  function Resolve(ts: seq<string>, ttm: map<string, string>): Selection {
    if |ts| == 0 then Selection({}, {}, map[], map[], [])
    else
      var s := Resolve(ts[..|ts| - 1], ttm);
      var t := ts[|ts| - 1];
      var c := Clean(t);
      if |c| == 0 then s
      else if Found(ttm, c) then
        Selection(s.selectedIds + {ttm[c]}, s.selectedTickers + {c},
                  s.nameTickerMap[ttm[c] := c], s.idTickerMap[c := ttm[c]], s.notFound)
      else s.(notFound := s.notFound + [t])
  }

  /** `get_details_from_tickers`. */
  method GetDetailsFromTickers(inputTickers: seq<string>, ttm: map<string, string>) returns (r: Selection)
    ensures r == Resolve(inputTickers, ttm)
  {
    var selectedIds: set<string> := {};
    var selectedTickers: set<string> := {};
    var nameTickerMap: map<string, string> := map[];
    var idTickerMap: map<string, string> := map[];
    var notFound: seq<string> := [];
    for i := 0 to |inputTickers|
      invariant Selection(selectedIds, selectedTickers, nameTickerMap, idTickerMap, notFound)
                == Resolve(inputTickers[..i], ttm)
    {
      assert inputTickers[..i + 1][..i] == inputTickers[..i];
      var ticker := inputTickers[i];
      var tickerLower := Lower(Strip(ticker));
      if |tickerLower| != 0 {
        if tickerLower in ttm && ttm[tickerLower] != "" {
          var apiId := ttm[tickerLower];
          selectedIds := selectedIds + {apiId};
          selectedTickers := selectedTickers + {tickerLower};
          nameTickerMap := nameTickerMap[apiId := tickerLower];
          idTickerMap := idTickerMap[tickerLower := apiId];
        } else {
          notFound := notFound + [ticker];
        }
      }
    }
    assert inputTickers[..|inputTickers|] == inputTickers;
    r := Selection(selectedIds, selectedTickers, nameTickerMap, idTickerMap, notFound);
  }

  // ----- what the results mean -----

  /** Some input ticker cleans to the non-blank, found ticker `t`. */
  ghost predicate Selects(ts: seq<string>, ttm: map<string, string>, t: string) {
    exists k :: 0 <= k < |ts| && Clean(ts[k]) == t && t != "" && Found(ttm, t)
  }

  /** Some input ticker equal to `x` is non-blank and not found. */
  ghost predicate Misses(ts: seq<string>, ttm: map<string, string>, x: string) {
    exists k :: 0 <= k < |ts| && ts[k] == x && Clean(x) != "" && !Found(ttm, Clean(x))
  }

  /** The results agree with each other: `id_ticker_map` is the map restricted to the
      selected tickers, the selected ids are their ids, and `name_ticker_map` sends
      every selected id back to a selected ticker with that id. */
  ghost predicate Consistent(ttm: map<string, string>, s: Selection) {
    && s.idTickerMap.Keys == s.selectedTickers
    && (forall t :: t in s.selectedTickers ==> t != "" && Found(ttm, t) && s.idTickerMap[t] == ttm[t])
    && (forall id :: id in s.selectedIds <==> exists t :: t in s.selectedTickers && ttm[t] == id)
    && s.nameTickerMap.Keys == s.selectedIds
    && (forall id :: id in s.nameTickerMap ==>
          s.nameTickerMap[id] in s.selectedTickers && ttm[s.nameTickerMap[id]] == id)
  }

  lemma SelectsSnoc(ts: seq<string>, ttm: map<string, string>, x: string, t: string)
    ensures Selects(ts + [x], ttm, t) <==> Selects(ts, ttm, t) || (Clean(x) == t && t != "" && Found(ttm, t))
  {
    var ts' := ts + [x];
    if Selects(ts', ttm, t) && !(Clean(x) == t && t != "" && Found(ttm, t)) {
      var k :| 0 <= k < |ts'| && Clean(ts'[k]) == t && t != "" && Found(ttm, t);
      assert k < |ts| && ts[k] == ts'[k];
    }
    if Selects(ts, ttm, t) {
      var k :| 0 <= k < |ts| && Clean(ts[k]) == t && t != "" && Found(ttm, t);
      assert ts'[k] == ts[k];
    }
    if Clean(x) == t && t != "" && Found(ttm, t) {
      assert ts'[|ts|] == x;
    }
  }

  lemma MissesSnoc(ts: seq<string>, ttm: map<string, string>, x: string, y: string)
    ensures Misses(ts + [x], ttm, y) <==> Misses(ts, ttm, y) || (x == y && Clean(y) != "" && !Found(ttm, Clean(y)))
  {
    var ts' := ts + [x];
    if Misses(ts', ttm, y) && !(x == y && Clean(y) != "" && !Found(ttm, Clean(y))) {
      var k :| 0 <= k < |ts'| && ts'[k] == y && Clean(y) != "" && !Found(ttm, Clean(y));
      assert k < |ts| && ts[k] == ts'[k];
    }
    if Misses(ts, ttm, y) {
      var k :| 0 <= k < |ts| && ts[k] == y && Clean(y) != "" && !Found(ttm, Clean(y));
      assert ts'[k] == ts[k];
    }
    if x == y && Clean(y) != "" && !Found(ttm, Clean(y)) {
      assert ts'[|ts|] == x;
    }
  }

  /** A selected ticker is exactly the clean form of a non-blank input that is found;
      an input lands in `not_found_tickers` exactly when it is non-blank and not found. */
  lemma {:induction false} ResolveMembership(ts: seq<string>, ttm: map<string, string>)
    ensures forall t :: t in Resolve(ts, ttm).selectedTickers <==> Selects(ts, ttm, t)
    ensures forall x :: x in Resolve(ts, ttm).notFound <==> Misses(ts, ttm, x)
  {
    if |ts| > 0 {
      var ts', x := ts[..|ts| - 1], ts[|ts| - 1];
      assert ts == ts' + [x];
      ResolveMembership(ts', ttm);
      forall t ensures t in Resolve(ts, ttm).selectedTickers <==> Selects(ts, ttm, t) {
        SelectsSnoc(ts', ttm, x, t);
      }
      forall y ensures y in Resolve(ts, ttm).notFound <==> Misses(ts, ttm, y) {
        MissesSnoc(ts', ttm, x, y);
      }
    }
  }

  /** The loop keeps the results consistent with each other. */
  lemma {:induction false} ResolveConsistent(ts: seq<string>, ttm: map<string, string>)
    ensures Consistent(ttm, Resolve(ts, ttm))
  {
    if |ts| > 0 {
      var s := Resolve(ts[..|ts| - 1], ttm);
      ResolveConsistent(ts[..|ts| - 1], ttm);
      var c := Clean(ts[|ts| - 1]);
      if |c| != 0 && Found(ttm, c) {
        var s' := Resolve(ts, ttm);
        assert s' == Selection(s.selectedIds + {ttm[c]}, s.selectedTickers + {c},
                               s.nameTickerMap[ttm[c] := c], s.idTickerMap[c := ttm[c]], s.notFound);
        forall id | id in s'.selectedIds ensures exists t :: t in s'.selectedTickers && ttm[t] == id {
          if id != ttm[c] {
            var t :| t in s.selectedTickers && ttm[t] == id;
            assert t in s'.selectedTickers;
          } else {
            assert c in s'.selectedTickers;
          }
        }
      }
    }
  }

  /** Blank tickers are skipped and the rest are kept in input order: the missing
      tickers of two runs of input are those of each run, one after the other. */
  lemma {:induction false} NotFoundAppend(a: seq<string>, b: seq<string>, ttm: map<string, string>)
    ensures Resolve(a + b, ttm).notFound == Resolve(a, ttm).notFound + Resolve(b, ttm).notFound
  {
    if |b| == 0 {
      assert a + b == a;
    } else {
      var b', x := b[..|b| - 1], b[|b| - 1];
      assert (a + b)[..|a + b| - 1] == a + b';
      assert (a + b)[|a + b| - 1] == x;
      NotFoundAppend(a, b', ttm);
    }
  }

  /** Each non-blank input is either selected (by its clean form) or reported missing
      (as typed), never both. */
  lemma Partition(ts: seq<string>, ttm: map<string, string>, k: nat)
    requires k < |ts| && Clean(ts[k]) != ""
    ensures Clean(ts[k]) in Resolve(ts, ttm).selectedTickers <==> ts[k] !in Resolve(ts, ttm).notFound
  {
    ResolveMembership(ts, ttm);
    if Found(ttm, Clean(ts[k])) {
      assert Selects(ts, ttm, Clean(ts[k]));
    } else {
      assert Misses(ts, ttm, ts[k]);
    }
  }

  /** Input `k` is non-blank and found, and its clean form has id `id`. */
  predicate SelectsId(ts: seq<string>, ttm: map<string, string>, k: int, id: string)
    requires 0 <= k < |ts|
  {
    Clean(ts[k]) != "" && Found(ttm, Clean(ts[k])) && ttm[Clean(ts[k])] == id
  }

  /** `name_ticker_map[id]` is overwritten by every selected ticker with that id, so it
      holds the clean form of the LAST input selecting `id`. */
  lemma {:induction false} NameTickerIsLast(ts: seq<string>, ttm: map<string, string>, id: string)
    requires id in Resolve(ts, ttm).nameTickerMap
    ensures exists k :: && 0 <= k < |ts| && SelectsId(ts, ttm, k, id)
                        && Clean(ts[k]) == Resolve(ts, ttm).nameTickerMap[id]
                        && forall k' :: k < k' < |ts| ==> !SelectsId(ts, ttm, k', id)
  {
    var ts', n := ts[..|ts| - 1], |ts| - 1;
    var s, s' := Resolve(ts', ttm), Resolve(ts, ttm);
    if SelectsId(ts, ttm, n, id) {
      assert Clean(ts[n]) == s'.nameTickerMap[id];
    } else {
      assert id in s.nameTickerMap && s'.nameTickerMap[id] == s.nameTickerMap[id];
      NameTickerIsLast(ts', ttm, id);
      var k :| && 0 <= k < |ts'| && SelectsId(ts', ttm, k, id)
               && Clean(ts'[k]) == s.nameTickerMap[id]
               && forall k' :: k < k' < |ts'| ==> !SelectsId(ts', ttm, k', id);
      assert ts'[k] == ts[k];
      forall k' | k < k' < |ts| ensures !SelectsId(ts, ttm, k', id) {
        if k' < n {
          assert ts'[k'] == ts[k'];
          assert !SelectsId(ts', ttm, k', id);
        }
      }
    }
  }
}
