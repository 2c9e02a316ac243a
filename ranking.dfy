/** `suggest_hs_codes` (hs_api.py): pick the `top_n` best-scoring catalog rows and build
    one result per row. The TF-IDF vectoriser and the cosine similarity are not modelled:
    they are the parameter `similarity`, which maps a query to one score per catalog row.
    numpy's `argsort` is the parameter `argsort`; it may order equal scores either way. */
module Ranking {
  import opened Normalizer
  import opened Reasons

  /** One row of the HS catalog: the `Item`, `HS Code` and `Item English Name` columns. */
  datatype CatalogRow = CatalogRow(item: string, hsCode: string, name: string)

  /** One entry of the list `suggest_hs_codes` returns. */
  datatype MatchResult = MatchResult(itemSeq: string, hsCode: string, reason: string)

  predicate InRange(order: seq<nat>, n: nat) {
    forall k :: 0 <= k < |order| ==> order[k] < n
  }

  predicate Distinct(order: seq<nat>) {
    forall k, l :: 0 <= k < l < |order| ==> order[k] != order[l]
  }

  predicate Ascending(scores: seq<real>, order: seq<nat>)
    requires InRange(order, |scores|)
  {
    forall k, l :: 0 <= k < l < |order| ==> scores[order[k]] <= scores[order[l]]
  }

  /** `order` is a possible result of `scores.argsort()`: a permutation of the indices
      of `scores` along which the scores never decrease. Ties may come in any order. */
  predicate IsArgsort(scores: seq<real>, order: seq<nat>) {
    |order| == |scores|
    && InRange(order, |scores|)
    && Distinct(order)
    && (forall i :: 0 <= i < |scores| ==> i in order)
    && Ascending(scores, order)
  }

  /** The start index Python uses for the slice `a[k:]` of a sequence of length `n`. */
  function SliceStart(n: nat, k: int): (start: nat)
    ensures start <= n
  {
    if k < 0 then (if n + k < 0 then 0 else n + k)
    else if k > n then n
    else k
  }

  /** `a[::-1]`. */
  function Reverse(a: seq<nat>): (r: seq<nat>)
    ensures |r| == |a|
    ensures forall k :: 0 <= k < |a| ==> r[k] == a[|a| - 1 - k]
  {
    seq(|a|, k requires 0 <= k < |a| => a[|a| - 1 - k])
  }

  /** `order[-top_n:][::-1]`, with Python's slicing for every integer `top_n`. */
  function TopIndices(order: seq<nat>, topN: int): (top: seq<nat>)
    ensures |top| == SelectedCount(|order|, topN)
    ensures forall k :: 0 <= k < |top| ==> top[k] == order[|order| - 1 - k]
  {
    Reverse(order[SliceStart(|order|, -topN)..])
  }

  /** How many indices the slice keeps: `min(top_n, n)` for a positive `top_n`, all of
      them for `0` (the slice `[-0:]` is `[0:]`), and `n - |top_n|` (at least 0) for a
      negative one. */
  function SelectedCount(n: nat, topN: int): (count: nat)
    ensures count <= n
  {
    if topN > 0 then (if topN < n then topN else n)
    else if topN == 0 then n
    else if n + topN < 0 then 0 else n + topN
  }

  /** For any argsort of the scores, the selection holds `SelectedCount` distinct indices
      of the scores, in non-increasing score order, and no index left out has a higher
      score than an index kept. */
  lemma {:induction false} TopIndicesSpec(scores: seq<real>, order: seq<nat>, topN: int)
    requires IsArgsort(scores, order)
    ensures var top := TopIndices(order, topN);
      |top| == SelectedCount(|scores|, topN)
      && InRange(top, |scores|)
      && Distinct(top)
      && (forall k, l :: 0 <= k < l < |top| ==> scores[top[k]] >= scores[top[l]])
      && (forall i, k :: 0 <= i < |scores| && i !in top && 0 <= k < |top| ==> scores[i] <= scores[top[k]])
  {
    var n := |scores|;
    var start := SliceStart(n, -topN);
    var top := TopIndices(order, topN);
    assert forall k :: 0 <= k < |top| ==> top[k] == order[n - 1 - k];
    forall p | start <= p < n ensures order[p] in top {
      assert top[n - 1 - p] == order[p];
    }
    forall i, k | 0 <= i < n && i !in top && 0 <= k < |top| ensures scores[i] <= scores[top[k]] {
      assert i in order;
      var p :| 0 <= p < n && order[p] == i;
      assert p < n - 1 - k;
    }
  }

  /** Insert index `x` into `order`, which is ascending by score, keeping it ascending. */
  function Insert(scores: seq<real>, x: nat, order: seq<nat>): (r: seq<nat>)
    requires x < |scores| && InRange(order, |scores|) && Ascending(scores, order)
    ensures |r| == |order| + 1
    ensures forall y :: y in r <==> y == x || y in order
    ensures InRange(r, |scores|) && Ascending(scores, r)
    ensures x !in order && Distinct(order) ==> Distinct(r)
    decreases |order|
  {
    if order == [] then [x]
    else if scores[x] <= scores[order[0]] then
      InsertFront(scores, x, order);
      [x] + order
    else
      var rest := Insert(scores, x, order[1..]);
      InsertBehind(scores, x, order, rest);
      [order[0]] + rest
  }

  lemma InsertFront(scores: seq<real>, x: nat, order: seq<nat>)
    requires x < |scores| && InRange(order, |scores|) && Ascending(scores, order)
    requires order != [] && scores[x] <= scores[order[0]]
    ensures InRange([x] + order, |scores|) && Ascending(scores, [x] + order)
  {
    var r := [x] + order;
    forall k, l | 0 <= k < l < |r| ensures scores[r[k]] <= scores[r[l]] {
      if k == 0 && l > 1 {
        assert scores[order[0]] <= scores[order[l - 1]];
      }
    }
  }

  lemma InsertBehind(scores: seq<real>, x: nat, order: seq<nat>, rest: seq<nat>)
    requires x < |scores| && InRange(order, |scores|) && Ascending(scores, order)
    requires order != [] && scores[order[0]] < scores[x]
    requires forall y :: y in rest <==> y == x || y in order[1..]
    requires InRange(rest, |scores|) && Ascending(scores, rest)
    requires x !in order && Distinct(order) ==> Distinct(rest)
    ensures InRange([order[0]] + rest, |scores|) && Ascending(scores, [order[0]] + rest)
    ensures x !in order && Distinct(order) ==> Distinct([order[0]] + rest)
  {
    var r := [order[0]] + rest;
    forall l | 0 < l < |r| ensures scores[order[0]] <= scores[r[l]] && (order[0] != x ==> r[l] != order[0] || !Distinct(order)) {
      assert r[l] == rest[l - 1] && rest[l - 1] in rest;
      if r[l] != x {
        var p :| 0 <= p < |order[1..]| && order[1..][p] == r[l];
        assert order[p + 1] == r[l];
      }
    }
  }

  /** The indices `0 .. m - 1` sorted by score, by insertion. */
  function SortPrefix(scores: seq<real>, m: nat): (order: seq<nat>)
    requires m <= |scores|
    ensures |order| == m
    ensures InRange(order, m) && Distinct(order) && Ascending(scores, order)
    ensures forall i :: 0 <= i < m ==> i in order
  {
    if m == 0 then []
    else
      var r := Insert(scores, m - 1, SortPrefix(scores, m - 1));
      assert forall k :: 0 <= k < |r| ==> r[k] in r;
      r
  }

  /** Whatever the scores, some argsort exists: insertion sort builds one. So the
      requirement `IsArgsort` on `suggest_hs_codes` can always be met. */
  function ArgSort(scores: seq<real>): (order: seq<nat>)
    ensures IsArgsort(scores, order)
  {
    SortPrefix(scores, |scores|)
  }

  /** The catalog as loaded: `clean_text` applied to every item name, the other columns
      untouched. Every name in it is clean. */
  function PrepareCatalog(raw: seq<CatalogRow>): (catalog: seq<CatalogRow>)
    ensures |catalog| == |raw|
    ensures forall k :: 0 <= k < |raw| ==>
      catalog[k].item == raw[k].item && catalog[k].hsCode == raw[k].hsCode
      && catalog[k].name == CleanText(raw[k].name) && IsClean(catalog[k].name)
  {
    seq(|raw|, k requires 0 <= k < |raw| => raw[k].(name := CleanText(raw[k].name)))
  }

  /** Loading leaves a catalog as it is exactly when all its names are already clean. */
  lemma PrepareCatalogFixpoint(raw: seq<CatalogRow>)
    ensures PrepareCatalog(raw) == raw <==> forall k :: 0 <= k < |raw| ==> IsClean(raw[k].name)
  {
    var catalog := PrepareCatalog(raw);
    if catalog == raw {
      forall k | 0 <= k < |raw| ensures IsClean(raw[k].name) {
        assert catalog[k] == raw[k];
      }
    }
    if forall k :: 0 <= k < |raw| ==> IsClean(raw[k].name) {
      forall k | 0 <= k < |raw| ensures catalog[k] == raw[k] {
        CleanTextFixpoint(raw[k].name);
      }
    }
  }

  /** Loading twice is loading once. */
  lemma PrepareCatalogIdempotent(raw: seq<CatalogRow>)
    ensures PrepareCatalog(PrepareCatalog(raw)) == PrepareCatalog(raw)
  {
    PrepareCatalogFixpoint(PrepareCatalog(raw));
  }

  /** The result for one selected row: its item, its HS code and the explanation for it. */
  function MatchFor(row: CatalogRow, queryText: string): (r: MatchResult)
    ensures r.itemSeq == row.item && r.hsCode == row.hsCode && r.reason != []
  {
    ReasonTextNonEmpty(queryText, row.name, None);
    MatchResult(row.item, row.hsCode, ReasonText(queryText, row.name, None))
  }

  /** `suggest_hs_codes(query_text, top_n)` over the catalog `hs_df`: one result per
      selected index, in the selection's order, each explained by `generate_reason`. */
  method SuggestHsCodes(catalog: seq<CatalogRow>, similarity: string -> seq<real>,
                        argsort: seq<real> -> seq<nat>, queryText: string, topN: int := 2)
    returns (results: seq<MatchResult>)
    requires |similarity(queryText)| == |catalog|
    requires IsArgsort(similarity(queryText), argsort(similarity(queryText)))
    ensures |results| == SelectedCount(|catalog|, topN)
    ensures var top := TopIndices(argsort(similarity(queryText)), topN);
      |results| == |top|
      && forall k :: 0 <= k < |top| ==> top[k] < |catalog| && results[k] == MatchFor(catalog[top[k]], queryText)
  {
    var scores := similarity(queryText);
    var top := TopIndices(argsort(scores), topN);
    TopIndicesSpec(scores, argsort(scores), topN);
    results := [];
    for k := 0 to |top|
      invariant |results| == k
      invariant forall j :: 0 <= j < k ==> results[j] == MatchFor(catalog[top[j]], queryText)
    {
      var row := catalog[top[k]];
      var reason := GenerateReason(queryText, row.name);
      results := results + [MatchResult(row.item, row.hsCode, reason)];
    }
  }
}
