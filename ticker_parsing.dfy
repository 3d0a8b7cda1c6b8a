/** The parsing of the ticker text box (`parse_tickers_from_text`): split on runs of
    spaces, commas and newlines, strip and lower every piece, drop the blank ones,
    and return the distinct results in ascending order. */
module TickerParsing {
  import opened Text

  // ----- `re.split(r'[ ,\n]+', text)` -----

  /** The characters of the class `[ ,\n]`. */
  predicate IsSep(c: char) {
    c == ' ' || c == ',' || c == '\n'
  }

  predicate SepFree(t: string) {
    forall k :: 0 <= k < |t| ==> !IsSep(t[k])
  }

  predicate AllSep(t: string) {
    forall k :: 0 <= k < |t| ==> IsSep(t[k])
  }

  /** The first separator at or after `i`, or the end of `s`. */
  function TokenEnd(s: string, i: nat): (e: nat)
    requires i <= |s|
    ensures i <= e <= |s| && SepFree(s[i..e])
    ensures e < |s| ==> IsSep(s[e])
    decreases |s| - i
  {
    if i < |s| && !IsSep(s[i]) then
      var e := TokenEnd(s, i + 1);
      assert s[i..e] == [s[i]] + s[i + 1..e];
      e
    else i
  }

  /** The end of the run of separators that starts at `i`: the pattern's `+` is greedy. */
  function SepRun(s: string, i: nat): (j: nat)
    requires i <= |s|
    ensures i <= j <= |s| && AllSep(s[i..j])
    ensures j < |s| ==> !IsSep(s[j])
    decreases |s| - i
  {
    if i < |s| && IsSep(s[i]) then
      var j := SepRun(s, i + 1);
      assert s[i..j] == [s[i]] + s[i + 1..j];
      j
    else i
  }

  /** The pieces of `s[i..]` between the separator runs, the first and last one empty
      when `s[i..]` starts or ends with a separator. */
  function SplitFrom(s: string, i: nat): seq<string>
    requires i <= |s|
    decreases |s| - i
  {
    var e := TokenEnd(s, i);
    if e == |s| then [s[i..]]
    else [s[i..e]] + SplitFrom(s, SepRun(s, e))
  }

  /** `re.split(r'[ ,\n]+', s)`. */
  function Split(s: string): seq<string> {
    SplitFrom(s, 0)
  }

  /** The pieces with the separator runs between them: `toks[0] + seps[0] + toks[1] + ...`. */
  function Join(toks: seq<string>, seps: seq<string>): string
    requires |toks| == |seps| + 1
  {
    if |seps| == 0 then toks[0] else toks[0] + seps[0] + Join(toks[1..], seps[1..])
  }

  /** Splitting cuts `s[i..]` into separator-free pieces and non-empty separator runs
      that, put back together, give `s[i..]` again. */
  lemma {:induction false} SplitFromJoin(s: string, i: nat) returns (seps: seq<string>)
    requires i <= |s|
    ensures |SplitFrom(s, i)| == |seps| + 1
    ensures Join(SplitFrom(s, i), seps) == s[i..]
    ensures forall t :: t in SplitFrom(s, i) ==> SepFree(t)
    ensures forall r :: r in seps ==> |r| > 0 && AllSep(r)
    decreases |s| - i
  {
    var e := TokenEnd(s, i);
    if e == |s| {
      seps := [];
    } else {
      var j := SepRun(s, e);
      var rest := SplitFromJoin(s, j);
      seps := [s[e..j]] + rest;
      JoinStep(s, i, e, j, SplitFrom(s, j), rest);
    }
  }

  /** One piece and one separator run in front of a reconstruction of `s[j..]`. */
  lemma JoinStep(s: string, i: nat, e: nat, j: nat, later: seq<string>, rest: seq<string>)
    requires i <= e <= j <= |s| && |later| == |rest| + 1 && Join(later, rest) == s[j..]
    ensures Join([s[i..e]] + later, [s[e..j]] + rest) == s[i..]
  {
    var toks, seps := [s[i..e]] + later, [s[e..j]] + rest;
    JoinCons(toks, seps);
    assert toks[0] == s[i..e] && toks[1..] == later;
    assert seps[0] == s[e..j] && seps[1..] == rest;
    SliceConcat(s, i, e, j);
  }

  lemma JoinCons(toks: seq<string>, seps: seq<string>)
    requires |toks| == |seps| + 1 && |seps| != 0
    ensures Join(toks, seps) == toks[0] + seps[0] + Join(toks[1..], seps[1..])
  {
  }

  lemma SliceConcat(s: string, i: nat, e: nat, j: nat)
    requires i <= e <= j <= |s|
    ensures s[i..e] + s[e..j] + s[j..] == s[i..]
  {
    assert s[i..e] + s[e..j] == s[i..j];
  }

  /** `re.split` on the whole text: a reconstruction of `s` from separator-free pieces
      and non-empty separator runs. */
  lemma SplitJoin(s: string) returns (seps: seq<string>)
    ensures |Split(s)| == |seps| + 1
    ensures Join(Split(s), seps) == s
    ensures forall t :: t in Split(s) ==> SepFree(t)
    ensures forall r :: r in seps ==> |r| > 0 && AllSep(r)
  {
    seps := SplitFromJoin(s, 0);
    assert s[0..] == s;
  }

  /** When `s[i..]` holds only separators and whitespace, every piece is whitespace. */
  lemma {:induction false} SplitFromBlank(s: string, i: nat)
    requires i <= |s|
    requires forall m :: i <= m < |s| ==> IsSep(s[m]) || IsSpace(s[m])
    ensures forall t :: t in SplitFrom(s, i) ==> forall k :: 0 <= k < |t| ==> IsSpace(t[k])
    decreases |s| - i
  {
    var e := TokenEnd(s, i);
    assert forall k :: 0 <= k < e - i ==> s[i..e][k] == s[i + k];
    if e < |s| {
      SplitFromBlank(s, SepRun(s, e));
    }
  }

  // ----- Python's string order -----

  /** `a < b` for Python strings: code point by code point, a proper prefix first. */
  predicate Less(a: string, b: string) {
    if |a| == 0 then |b| != 0
    else if |b| == 0 then false
    else if a[0] != b[0] then a[0] < b[0]
    else Less(a[1..], b[1..])
  }

  lemma {:induction false} LessIrreflexive(a: string)
    ensures !Less(a, a)
  {
    if |a| != 0 {
      LessIrreflexive(a[1..]);
    }
  }

  lemma {:induction false} LessTransitive(a: string, b: string, c: string)
    requires Less(a, b) && Less(b, c)
    ensures Less(a, c)
  {
    if |a| != 0 && a[0] == b[0] && b[0] == c[0] {
      LessTransitive(a[1..], b[1..], c[1..]);
    }
  }

  lemma {:induction false} LessTotal(a: string, b: string)
    ensures a == b || Less(a, b) || Less(b, a)
  {
    if |a| != 0 && |b| != 0 && a[0] == b[0] {
      assert a == [a[0]] + a[1..] && b == [b[0]] + b[1..];
      LessTotal(a[1..], b[1..]);
    }
  }

  /** Ascending with no repeats. */
  predicate StrictlySorted(xs: seq<string>) {
    forall i, j :: 0 <= i < j < |xs| ==> Less(xs[i], xs[j])
  }

  // ----- `sorted(list(set(...)))` -----

  /** Insert `x` into an ascending list, keeping it free of repeats. */
  function Insert(xs: seq<string>, x: string): seq<string> {
    if |xs| == 0 then [x]
    else if x == xs[0] then xs
    else if Less(x, xs[0]) then [x] + xs
    else [xs[0]] + Insert(xs[1..], x)
  }

  lemma {:induction false} InsertSpec(xs: seq<string>, x: string)
    requires StrictlySorted(xs)
    ensures StrictlySorted(Insert(xs, x))
    ensures forall y :: y in Insert(xs, x) <==> y in xs || y == x
  {
    if |xs| != 0 && x != xs[0] {
      if Less(x, xs[0]) {
        forall j | 0 < j < |xs| ensures Less(x, xs[j]) {
          LessTransitive(x, xs[0], xs[j]);
        }
      } else {
        LessTotal(x, xs[0]);
        var tail := xs[1..];
        assert StrictlySorted(tail);
        InsertSpec(tail, x);
        var ins := Insert(tail, x);
        forall y | y in ins ensures Less(xs[0], y) {
          if y != x {
            assert y in tail;
          }
        }
      }
    }
  }

  /** The distinct elements of `ys` in ascending order. */
  function SortUnique(ys: seq<string>): seq<string> {
    if |ys| == 0 then [] else Insert(SortUnique(ys[..|ys| - 1]), ys[|ys| - 1])
  }

  lemma {:induction false} SortUniqueSpec(ys: seq<string>)
    ensures StrictlySorted(SortUnique(ys))
    ensures forall y :: y in SortUnique(ys) <==> y in ys
  {
    if |ys| != 0 {
      var prefix := ys[..|ys| - 1];
      SortUniqueSpec(prefix);
      InsertSpec(SortUnique(prefix), ys[|ys| - 1]);
      assert ys == prefix + [ys[|ys| - 1]];
    }
  }

  /** A list that is ascending without repeats is determined by its elements, so
      `SortUnique` is `sorted(list(set(ys)))` whatever order the set is met in. */
  lemma {:induction false} StrictlySortedUnique(a: seq<string>, b: seq<string>)
    requires StrictlySorted(a) && StrictlySorted(b)
    requires forall y :: y in a <==> y in b
    ensures a == b
  {
    if |a| != 0 {
      assert a[0] in b;
    }
    if |b| != 0 {
      assert b[0] in a;
    }
    if |a| != 0 && |b| != 0 {
      var j :| 0 <= j < |b| && b[j] == a[0];
      var j' :| 0 <= j' < |a| && a[j'] == b[0];
      LessNotBefore(b, j);
      LessNotBefore(a, j');
      LessTotal(a[0], b[0]);
      forall y ensures y in a[1..] <==> y in b[1..] {
        FirstNotInTail(a, y);
        FirstNotInTail(b, y);
      }
      StrictlySortedUnique(a[1..], b[1..]);
      assert a == [a[0]] + a[1..] && b == [b[0]] + b[1..];
    }
  }

  /** No later element of an ascending list is below its first. */
  lemma LessNotBefore(xs: seq<string>, j: nat)
    requires StrictlySorted(xs) && j < |xs|
    ensures !Less(xs[j], xs[0])
  {
    if j == 0 {
      LessIrreflexive(xs[0]);
    } else if Less(xs[j], xs[0]) {
      LessTransitive(xs[0], xs[j], xs[0]);
      LessIrreflexive(xs[0]);
    }
  }

  /** In an ascending list the first element does not recur. */
  lemma FirstNotInTail(xs: seq<string>, y: string)
    requires StrictlySorted(xs) && |xs| != 0
    ensures y in xs[1..] <==> y in xs && y != xs[0]
  {
    if y in xs[1..] {
      var j :| 0 <= j < |xs[1..]| && xs[1..][j] == y;
      assert Less(xs[0], xs[j + 1]);
      if y == xs[0] {
        LessIrreflexive(y);
      }
    }
    if y in xs && y != xs[0] {
      var j :| 0 <= j < |xs| && xs[j] == y;
      assert xs[1..][j - 1] == y;
    }
  }

  /** An ascending list without repeats has distinct elements. */
  lemma StrictlySortedDistinct(xs: seq<string>, i: nat, j: nat)
    requires StrictlySorted(xs) && i < j < |xs|
    ensures xs[i] != xs[j]
  {
    LessIrreflexive(xs[i]);
  }

  // ----- the comprehension and the whole function -----

  /** `t.strip().lower() for t in tickers if t.strip()`, in token order. */
  function Keep(toks: seq<string>): seq<string> {
    if |toks| == 0 then []
    else
      var rest := Keep(toks[..|toks| - 1]);
      var t := toks[|toks| - 1];
      if |Strip(t)| != 0 then rest + [Lower(Strip(t))] else rest
  }

  lemma {:induction false} KeepMembership(toks: seq<string>)
    ensures forall x :: x in Keep(toks) <==> exists t :: t in toks && Strip(t) != "" && Lower(Strip(t)) == x
  {
    if |toks| != 0 {
      var prefix, t := toks[..|toks| - 1], toks[|toks| - 1];
      KeepMembership(prefix);
      assert toks == prefix + [t];
    }
  }

  /** `parse_tickers_from_text`. */
  function ParseTickersFromText(text: string): seq<string> {
    SortUnique(Keep(Split(text)))
  }

  /** The result is ascending without repeats, and holds exactly the stripped, lowered
      forms of the pieces that are not blank. */
  lemma ParseTickersSpec(text: string)
    ensures StrictlySorted(ParseTickersFromText(text))
    ensures forall x :: x in ParseTickersFromText(text) <==>
              exists t :: t in Split(text) && Strip(t) != "" && Lower(Strip(t)) == x
  {
    SortUniqueSpec(Keep(Split(text)));
    KeepMembership(Split(text));
  }

  /** Lowering neither makes nor removes a separator. */
  lemma LowerKeepsSepFree(t: string)
    requires SepFree(t)
    ensures SepFree(Lower(t))
  {
    LowerSpec(t);
  }

  /** Stripping a separator-free piece leaves it separator-free. */
  lemma StripKeepsSepFree(t: string)
    requires SepFree(t)
    ensures SepFree(Strip(t))
  {
    StripSpec(t);
    var i, j :| && 0 <= i <= j <= |t| && Strip(t) == t[i..j]
                && (forall k :: 0 <= k < i ==> IsSpace(t[k]))
                && (forall k :: j <= k < |t| ==> IsSpace(t[k]));
    assert forall k :: 0 <= k < j - i ==> Strip(t)[k] == t[i + k];
  }

  /** The form a non-blank, separator-free piece takes in the result. */
  lemma CleanPiece(t: string)
    requires SepFree(t) && Strip(t) != ""
    ensures var x := Lower(Strip(t));
            x != "" && IsLower(x) && Strip(x) == x && SepFree(x)
  {
    LowerSpec(Strip(t));
    LowerOfStripped(t);
    StripKeepsSepFree(t);
    LowerKeepsSepFree(Strip(t));
  }

  /** Every result is non-empty, lower case, stripped, and free of separators. */
  lemma ParsedTickersClean(text: string, x: string)
    requires x in ParseTickersFromText(text)
    ensures x != "" && IsLower(x) && Strip(x) == x && SepFree(x)
  {
    ParseTickersSpec(text);
    var t :| t in Split(text) && Strip(t) != "" && Lower(Strip(t)) == x;
    var seps := SplitJoin(text);
    CleanPiece(t);
  }

  /** A text of nothing but separators and whitespace, the empty text included, gives
      no tickers. */
  lemma BlankTextNoTickers(text: string)
    requires forall m :: 0 <= m < |text| ==> IsSep(text[m]) || IsSpace(text[m])
    ensures ParseTickersFromText(text) == []
  {
    SplitFromBlank(text, 0);
    forall t | t in Split(text) ensures Strip(t) == [] {
      StripAllSpace(t);
    }
    KeepMembership(Split(text));
    SortUniqueSpec(Keep(Split(text)));
    var r := ParseTickersFromText(text);
    if r != [] {
      assert r[0] in Keep(Split(text));
    }
  }
}
