/** `classify` (hs_api.py): the endpoint's core. It cleans the product name and the
    category separately, joins them into one query with a space, and asks for the two best
    catalog rows. The HTTP wrapping of the answer is not modelled. */
module Classifier {
  import opened Strings
  import opened Normalizer
  import opened Ranking

  /** How many suggestions `classify` asks for. */
  const TopN: int := 2

  /** The query `classify` ranks: the cleaned product name, one space, the cleaned category. */
  function ClassifyQuery(productName: string, category: string): (q: string)
    ensures var p, c := CleanText(productName), CleanText(category);
      |q| == |p| + 1 + |c| && q[..|p|] == p && q[|p|] == ' ' && q[|p| + 1..] == c
  {
    var p, c := CleanText(productName), CleanText(category);
    JoinedParts(p, c);
    p + " " + c
  }

  lemma JoinedParts(p: string, c: string)
    ensures var q := p + " " + c;
      |q| == |p| + 1 + |c| && q[..|p|] == p && q[|p|] == ' ' && q[|p| + 1..] == c
  {
    var q := p + " " + c;
    assert q[..|p|] == p && q[|p| + 1..] == c;
  }

  /** The words of the query are the words of the product name followed by the words of
      the category; the category is folded into the same bag of words. */
  lemma ClassifyQueryTokens(productName: string, category: string)
    ensures var q := ClassifyQuery(productName, category);
      Split(q) == Split(CleanText(productName)) + Split(CleanText(category))
      && Split(q) == Split(ScrubSymbols(Lower(productName))) + Split(ScrubSymbols(Lower(category)))
  {
    var p, c := CleanText(productName), CleanText(category);
    assert ClassifyQuery(productName, category) == p + [' '] + c;
    SplitAtSpace(p, ' ', c);
    CleanTextJoinsWords(productName);
    CleanTextJoinsWords(category);
    SplitJoin(Split(ScrubSymbols(Lower(productName))));
    SplitJoin(Split(ScrubSymbols(Lower(category))));
  }

  /** Two clean texts joined by one space give a clean text exactly when neither is empty. */
  lemma JoinCleanIff(p: string, c: string)
    requires IsClean(p) && IsClean(c)
    ensures IsClean(p + " " + c) <==> p != [] && c != []
  {
    var q := p + " " + c;
    assert forall i :: 0 <= i < |p| ==> q[i] == p[i];
    assert forall i :: 0 <= i < |c| ==> q[|p| + 1 + i] == c[i];
    assert q[|p|] == ' ';
    if p != [] && c != [] {
      forall i | 0 <= i < |q| - 1 ensures !(q[i] == ' ' && q[i + 1] == ' ') {
        if i < |p| - 1 {
          assert q[i] == p[i] && q[i + 1] == p[i + 1];
        } else if |p| + 1 <= i {
          assert q[i] == c[i - |p| - 1] && q[i + 1] == c[i - |p|];
        }
      }
    }
  }

  /** The query is itself clean exactly when neither half cleans to the empty string;
      otherwise it starts or ends with the joining space. */
  lemma ClassifyQueryCleanIff(productName: string, category: string)
    ensures IsClean(ClassifyQuery(productName, category))
      <==> CleanText(productName) != [] && CleanText(category) != []
  {
    JoinCleanIff(CleanText(productName), CleanText(category));
  }

  /** `classify(product_name, category)`: the suggestions for the composed query, with
      `top_n = 2`: at most two rows, each explained against the whole query. */
  method Classify(catalog: seq<CatalogRow>, similarity: string -> seq<real>,
                  argsort: seq<real> -> seq<nat>, productName: string, category: string)
    returns (results: seq<MatchResult>)
    requires forall query :: |similarity(query)| == |catalog|
    requires forall scores :: IsArgsort(scores, argsort(scores))
    ensures |results| == (if |catalog| < TopN then |catalog| else TopN)
    ensures var query := ClassifyQuery(productName, category);
      var top := TopIndices(argsort(similarity(query)), TopN);
      |results| == |top|
      && forall k :: 0 <= k < |top| ==> top[k] < |catalog| && results[k] == MatchFor(catalog[top[k]], query)
  {
    var productNameClean := CleanText(productName);
    var categoryClean := CleanText(category);
    var queryText := productNameClean + " " + categoryClean;
    assert queryText == ClassifyQuery(productName, category);
    assert |similarity(queryText)| == |catalog|;
    assert IsArgsort(similarity(queryText), argsort(similarity(queryText)));
    results := SuggestHsCodes(catalog, similarity, argsort, queryText, TopN);
  }
}
