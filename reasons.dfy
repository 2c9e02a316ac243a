/** `generate_reason` (hs_api.py): the human-readable explanation attached to each
    suggested HS item. */
module Reasons {
  import opened Strings

  datatype Option<T> = None | Some(value: T)

  /** The fallback sentence, written as two literals so that the verifier can read its
      first character. */
  const Fallback: string := "overall semantic similarity" + " with HS item name"
  const Separator: string := "; "

  function KeywordClause(word: string): string {
    "keyword '" + word + "' matches HS item name"
  }

  function TypeClause(productType: string): string {
    "matches product type '" + productType + "'"
  }

  /** Python truthiness of the optional `product_category` string: `None` and `''` are false. */
  predicate IsTruthy(productCategory: Option<string>) {
    productCategory.Some? && productCategory.value != []
  }

  /** The positions of the tokens that occur in `name`, in increasing order. */
  function MatchPositions(tokens: seq<string>, name: string): (ps: seq<nat>)
    ensures forall k :: 0 <= k < |ps| ==> ps[k] < |tokens|
    ensures forall k, l :: 0 <= k < l < |ps| ==> ps[k] < ps[l]
    ensures forall j :: 0 <= j < |tokens| ==> (j in ps <==> Contains(name, tokens[j]))
    decreases |tokens|
  {
    if tokens == [] then []
    else
      var n := |tokens| - 1;
      MatchPositions(tokens[..n], name) + (if Contains(name, tokens[n]) then [n] else [])
  }

  /** One keyword clause per matching token, in token order. */
  function KeywordClauses(tokens: seq<string>, name: string): seq<string> {
    var ps := MatchPositions(tokens, name);
    seq(|ps|, k requires 0 <= k < |ps| => KeywordClause(tokens[ps[k]]))
  }

  lemma KeywordClausesStep(tokens: seq<string>, i: nat, name: string)
    requires i < |tokens|
    ensures KeywordClauses(tokens[..i + 1], name) == KeywordClauses(tokens[..i], name)
      + (if Contains(name, tokens[i]) then [KeywordClause(tokens[i])] else [])
  {
    var pre, ext := tokens[..i], tokens[..i + 1];
    assert ext[..i] == pre && ext[i] == tokens[i];
    var ps := MatchPositions(pre, name);
    var extra: seq<nat> := if Contains(name, tokens[i]) then [i] else [];
    assert MatchPositions(ext, name) == ps + extra;
    var lhs, rhs := KeywordClauses(ext, name), KeywordClauses(pre, name)
      + (if Contains(name, tokens[i]) then [KeywordClause(tokens[i])] else []);
    assert |lhs| == |rhs|;
    forall k | 0 <= k < |lhs| ensures lhs[k] == rhs[k] {
      if k < |ps| {
        assert ext[ps[k]] == pre[ps[k]];
      }
    }
  }

  /** The list `reasons` that `generate_reason` builds before joining it. */
  function ReasonClauses(product: string, itemName: string, productCategory: Option<string>): seq<string> {
    var found := KeywordClauses(Split(product), Lower(itemName))
      + (if IsTruthy(productCategory) then [TypeClause(productCategory.value)] else []);
    if found == [] then [Fallback] else found
  }

  /** The string `generate_reason(product, item_name, product_category)` returns. */
  function ReasonText(product: string, itemName: string, productCategory: Option<string>): (r: string)
    ensures ReasonClauses(product, itemName, productCategory)[0] <= r
  {
    Join(ReasonClauses(product, itemName, productCategory), Separator)
  }

  /** `generate_reason`: one keyword clause for each whitespace token of `product` found
      in the lower-cased item name, then the product-type clause, else the fallback. */
  method GenerateReason(product: string, itemName: string, productCategory: Option<string> := None)
    returns (reason: string)
    ensures reason == ReasonText(product, itemName, productCategory)
  {
    var tokens := Split(product);
    var name := Lower(itemName);
    var reasons: seq<string> := [];
    for i := 0 to |tokens|
      invariant reasons == KeywordClauses(tokens[..i], name)
    {
      KeywordClausesStep(tokens, i, name);
      if Contains(name, tokens[i]) {
        reasons := reasons + [KeywordClause(tokens[i])];
      }
    }
    assert tokens[..|tokens|] == tokens;
    if IsTruthy(productCategory) {
      reasons := reasons + [TypeClause(productCategory.value)];
    }
    if reasons == [] {
      reasons := [Fallback];
    }
    assert reasons == ReasonClauses(product, itemName, productCategory);
    reason := Join(reasons, Separator);
  }

  /** The clause list: the keyword clauses of the matching tokens in token order (repeated
      tokens repeat), then the product-type clause when the category is truthy; only when
      both are absent, the fallback alone. */
  lemma ReasonClausesShape(product: string, itemName: string, productCategory: Option<string>)
    ensures var tokens := Split(product);
      var ps := MatchPositions(tokens, Lower(itemName));
      var clauses := ReasonClauses(product, itemName, productCategory);
      if ps == [] && !IsTruthy(productCategory) then clauses == [Fallback]
      else
        |clauses| == |ps| + (if IsTruthy(productCategory) then 1 else 0)
        && (forall k :: 0 <= k < |ps| ==> clauses[k] == KeywordClause(tokens[ps[k]]))
        && (IsTruthy(productCategory) ==> clauses[|clauses| - 1] == TypeClause(productCategory.value))
  {
  }

  /** The explanation is never empty. */
  lemma ReasonTextNonEmpty(product: string, itemName: string, productCategory: Option<string>)
    ensures ReasonText(product, itemName, productCategory) != []
  {
    var clauses := ReasonClauses(product, itemName, productCategory);
    assert clauses[0] != [];
  }

  /** The explanation is exactly the fallback sentence if and only if no token of
      `product` occurs in the lower-cased item name and the category is falsy. */
  lemma ReasonIsFallbackIff(product: string, itemName: string, productCategory: Option<string>)
    ensures ReasonText(product, itemName, productCategory) == Fallback
      <==> MatchPositions(Split(product), Lower(itemName)) == [] && !IsTruthy(productCategory)
  {
    var tokens := Split(product);
    var ps := MatchPositions(tokens, Lower(itemName));
    var clauses := ReasonClauses(product, itemName, productCategory);
    var r := ReasonText(product, itemName, productCategory);
    assert clauses[0] <= r;
    assert Fallback[0] == 'o';
    if ps != [] {
      assert clauses[0] == KeywordClause(tokens[ps[0]]);
      assert r[0] == 'k';
    } else if IsTruthy(productCategory) {
      assert clauses[0] == TypeClause(productCategory.value);
      assert r[0] == 'm';
    }
  }
}
