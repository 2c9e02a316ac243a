# HS code classifier: text normalisation, explanations and top-N selection

This project models the deterministic core of the HS code classifier service in
`hs_api.py`. The service suggests Harmonized System tariff codes for a product
description. It cleans the product name and the category, joins them into one query,
scores that query against every item of the HS catalog, keeps the best-scoring rows and
explains each suggestion in words. The model states in Dafny what that string and
selection logic does and proves what it promises.

- `strings.dfy` (module `Strings`) models the Python `str` built-ins the service relies on:
  - `str.isspace` / the regular-expression class `\s`;
  - `str.lower` on ASCII letters;
  - `str.split()` with no argument;
  - `str.join`;
  - the substring operator `in`.

  It also proves that `split` and `" ".join` undo each other.
- `normalizer.dfy` (module `Normalizer`) models `clean_text` as its steps: lower-casing,
  two regular-expression substitutions, then `strip()`. It proves:
  - the output alphabet and the spacing;
  - that the output is the scrubbed words joined by single spaces;
  - the fixpoints and idempotence;
  - when the output is empty.
- `reasons.dfy` (module `Reasons`) models `generate_reason`:
  - a method with the source's loop, proved equal to a specification function;
  - lemmas on the order and shape of the clauses;
  - lemmas on when the fallback sentence appears.
- `ranking.dfy` (module `Ranking`) models the `scores.argsort()[-top_n:][::-1]` selection
  with Python's slicing for every integer `top_n`. It also has:
  - the result-building loop of `suggest_hs_codes`, as a method;
  - the load-time cleaning of the catalog names.

  It proves what the selection keeps. An insertion sort shows that an argsort always exists.
- `classifier.dfy` (module `Classifier`) models `classify`. It builds the query from the
  two cleaned halves and asks for two suggestions.

The TF-IDF vectoriser and the cosine similarity are the parameter `similarity`. It maps a
query to one real score per catalog row. numpy's `argsort` is the parameter `argsort`.
It may return any ascending permutation of the indices, so equal scores may come in any
order. The catalog built at import time (`hs_df`) is an immutable `seq<CatalogRow>`
passed in. Each row holds the item number, the HS code and the item name. In the
program the names are cleaned at load (`PrepareCatalog`); the model does not require
this of the catalog it is given.

## Model

| member | source | states |
|---|---|---|
| Strings.Lower | hs_api.py:14 | lower-casing keeps the length and maps each character on its own; no ASCII capital remains, and every other character is left as it is |
| Strings.IsSpace | hs_api.py:15-16 | exactly the 29 characters `str.isspace()` accepts (ASCII 9-13 and 28-32, U+0085, U+00A0, U+1680, U+2000-U+200A, U+2028, U+2029, U+202F, U+205F, U+3000); `\s`, `strip()` and `split()` use this set |
| Strings.Split | hs_api.py:23 | `split()` returns only non-empty pieces that contain no whitespace |
| Strings.Contains | hs_api.py:24 | `needle in hay`: the needle is a prefix of the hay or occurs in its tail; `ContainsAtOffset` shows this is occurrence at some offset |
| Strings.ContainsAtOffset | hs_api.py:24 | `word in name` holds exactly when `word` occurs in `name` at some offset |
| Strings.SplitAtSpace | hs_api.py:79 | a whitespace character always ends a token: the tokens of `a + " " + b` are the tokens of `a` followed by those of `b` |
| Strings.SplitEmptyIff | hs_api.py:16 | `split()` returns no tokens exactly when the text is all whitespace |
| Strings.SplitJoin | hs_api.py:16 | splitting a single-space join of tokens gives back the tokens |
| Strings.Join | hs_api.py:33 | `sep.join(parts)`: the join of no parts is empty and the result starts with the first part; `JoinAppend` shows that joining a concatenation is the two joins with one separator between them |
| Strings.JoinAppend | hs_api.py:33 | joining `xs + ys` gives the join of `xs`, the separator, then the join of `ys` |
| Strings.JoinSplitIff | hs_api.py:16 | `" ".join(t.split()) == t` exactly when `t` is single-spaced: no whitespace at the ends, none but plain spaces, never two in a row |
| Normalizer.ScrubSymbols | hs_api.py:15 | every character outside `[a-z0-9\s]` becomes a space, all others stay in place, the length is kept |
| Normalizer.CollapseRuns | hs_api.py:16 | after `\s+` to `' '` no two whitespace characters are adjacent and every one left is a plain space; the alphabet `[a-z0-9 ]` is kept |
| Normalizer.CollapseWhitespace | hs_api.py:16 | `re.sub(r'\s+', ' ', s)`: `CollapseRuns` from outside any whitespace run, so each maximal run becomes one space |
| Normalizer.StripStart | hs_api.py:16 | `strip()` removes only leading whitespace and leaves a suffix that starts with a non-whitespace character |
| Normalizer.StripEnd | hs_api.py:16 | `strip()` removes only trailing whitespace and leaves a prefix that ends with a non-whitespace character |
| Normalizer.Strip | hs_api.py:16 | `strip()` is the slice of the text between a whitespace-only prefix and a whitespace-only suffix; it has no whitespace at either end and keeps the words unchanged |
| Normalizer.StripIsClean | hs_api.py:16 | stripping a text over `[a-z0-9 ]` with no double space leaves no space at either end |
| Normalizer.CleanText | hs_api.py:13-17 | the output has only `a`-`z`, `0`-`9` and `' '`, no leading or trailing space and never two spaces in a row |
| Normalizer.SplitStripCollapse | hs_api.py:16 | collapsing whitespace runs and stripping do not change the words of the text |
| Normalizer.CleanTextJoinsWords | hs_api.py:13-17 | `clean_text(s)` is the words of the lower-cased, scrubbed `s` joined by single spaces |
| Normalizer.CleanTextFixpoint | hs_api.py:13-17 | `clean_text(t) == t` exactly when `t` is already clean |
| Normalizer.CleanTextIdempotent | hs_api.py:13-17 | `clean_text(clean_text(x)) == clean_text(x)` |
| Normalizer.CleanTextEmptyIff | hs_api.py:14-16 | the output is empty exactly when the input has no ASCII letter and no ASCII digit |
| Normalizer.LowerOfClean | hs_api.py:24 | lower-casing leaves a clean text unchanged, so on catalog names `lower()` is the identity |
| Reasons.MatchPositions | hs_api.py:23-25 | the matching token positions are in range, strictly increasing, and include position `j` exactly when token `j` occurs in the lower-cased name |
| Reasons.KeywordClausesStep | hs_api.py:23-25 | one more loop step appends a keyword clause exactly when that token occurs in the lower-cased name |
| Reasons.IsTruthy | hs_api.py:27 | the test `if product_category:` holds for a present, non-empty string and fails for `None` and `''` |
| Reasons.KeywordClause | hs_api.py:25 | the f-string `f"keyword '{word}' matches HS item name"` |
| Reasons.TypeClause | hs_api.py:28 | the f-string `f"matches product type '{product_category}'"` |
| Reasons.KeywordClauses | hs_api.py:23-25 | one keyword clause for each matching token position of `MatchPositions`, in token order |
| Reasons.ReasonClauses | hs_api.py:21-31 | the list `reasons`: the keyword clauses, then the product-type clause when the category is truthy, or the fallback sentence alone when both are absent |
| Reasons.GenerateReason | hs_api.py:20-33 | the loop's result is the specification `ReasonText`: the keyword clauses and the type clause joined with `"; "`; `productCategory` defaults to `None` as in the source |
| Reasons.ReasonText | hs_api.py:20-33 | the string `generate_reason` returns: the clause list joined with `"; "`, starting with its first clause |
| Reasons.ReasonClausesShape | hs_api.py:23-31 | one keyword clause per matching token in token order, duplicates included, then the product-type clause when the category is truthy; the fallback alone only when both are absent |
| Reasons.ReasonTextNonEmpty | hs_api.py:30-33 | the explanation is never empty |
| Reasons.ReasonIsFallbackIff | hs_api.py:23-31 | the explanation is the fallback sentence exactly when no token occurs in the lower-cased name and the category is falsy |
| Ranking.TopIndicesSpec | hs_api.py:54 | for any argsort, the selection has `min(top_n, n)` indices for a positive `top_n`, all `n` for `0` and `max(n + top_n, 0)` for a negative one; they are distinct, in range and in non-increasing score order, and no index left out scores higher than one kept |
| Ranking.SliceStart | hs_api.py:54 | the start of Python's slice `a[k:]` for every integer `k`, always within the sequence |
| Ranking.Reverse | hs_api.py:54 | `a[::-1]`: same length, element `k` is element `n - 1 - k` of `a` |
| Ranking.SelectedCount | hs_api.py:54 | how many indices `[-top_n:]` keeps: `min(top_n, n)` for a positive `top_n`, `n` for 0, `max(n + top_n, 0)` for a negative one; never more than `n` |
| Ranking.TopIndices | hs_api.py:54 | `argsort()[-top_n:][::-1]`: `SelectedCount` indices, the `k`-th being the `k`-th from the end of the argsort |
| Ranking.Insert | hs_api.py:54 | inserting into an ascending order keeps it ascending, adds exactly the new index and keeps the indices distinct |
| Ranking.SortPrefix | hs_api.py:54 | the first `m` indices are sorted into a distinct, ascending permutation |
| Ranking.ArgSort | hs_api.py:54 | whatever the scores, an argsort of them exists |
| Ranking.PrepareCatalog | hs_api.py:41 | after loading, every item name is clean and the item number and HS code of every row are unchanged |
| Ranking.PrepareCatalogFixpoint | hs_api.py:41 | loading leaves a catalog as it is exactly when all its names are already clean |
| Ranking.PrepareCatalogIdempotent | hs_api.py:41 | loading twice is loading once |
| Ranking.SuggestHsCodes | hs_api.py:51-64 | one result per selected index, in the selection's order, each with that row's item number and HS code and `generate_reason(query_text, name)` for it; `topN` defaults to 2 as in the source |
| Ranking.MatchFor | hs_api.py:59-63 | the result for one row carries that row's item number and HS code and a non-empty `generate_reason(query_text, name)` |
| Classifier.ClassifyQuery | hs_api.py:76-79 | the query starts with `clean_text(product_name)` and ends with `clean_text(category)`, with exactly one space between them |
| Classifier.ClassifyQueryTokens | hs_api.py:76-79 | the query's tokens are the product name's words followed by the category's words |
| Classifier.JoinCleanIff | hs_api.py:79 | two clean texts joined by a space give a clean text exactly when neither is empty |
| Classifier.ClassifyQueryCleanIff | hs_api.py:76-79 | the query is clean exactly when neither half cleans to the empty string; otherwise it starts or ends with the joining space |
| Classifier.Classify | hs_api.py:75-80 | at most two results, `min(2, n)` of them, for the selection over the composed query, each explained against that query |

## Left out

- Loading the spreadsheet with pandas and stripping its column headers (hs_api.py:39-40) are file I/O. The catalog is a sequence passed in. The cleaning of its names (line 41) is `PrepareCatalog`.
- The TF-IDF vectoriser and the cosine similarity (hs_api.py:42, 44-45, 52-53) are library numerics. They are the parameter `similarity`; the model requires only that it return one score per catalog row. Scores are exact reals, so NaN and rounding are not modelled.
- numpy's `argsort` is the parameter `argsort`, bound only by `IsArgsort`. Its quicksort is not modelled, so no property depends on the order of equal scores.
- The FastAPI application, `health_check` and the response dictionary of `classify` (hs_api.py:7, 70-72, 82-86) are HTTP plumbing. `Classify` returns the list of results.
- `str(text)` in `clean_text` (hs_api.py:14) on a value that is not a string, such as a number read from the spreadsheet, is not modelled. Every input is a string.
- Normalizer.CleanText: `str.lower()` is modelled on ASCII letters only. Python also lower-cases non-ASCII letters. Two of them lower-case to ASCII letters: U+0130 becomes `i` followed by a combining dot, and U+212A becomes `k`. On such input the model keeps a space where Python keeps the letter.
- Reasons.GenerateReason: the same ASCII-only lower-casing applies to the item name (hs_api.py:24), and it can go wrong both ways for an item name with non-ASCII capitals. The model can miss a keyword that Python matches, because Python lower-cases a capital the model keeps. It can also report a keyword that Python does not. For product `"É"` and item name `"É"`, Python tests `"É" in "é"`, which is false, while the model tests `"É"` against `"É"` and adds a keyword clause. Neither case arises in the program. There the query is clean (hs_api.py:76-79), and the catalog names are cleaned at load (hs_api.py:41): both hold only `a`-`z`, `0`-`9` and spaces. `Normalizer.LowerOfClean` proves that lower-casing leaves such a text unchanged. The catalog passed to `SuggestHsCodes` and `Classify` is not required to be the output of `PrepareCatalog`, so the model also covers names that were not cleaned.
- The pandas row lookup `hs_df.iloc[idx]` and its column reads (hs_api.py:58-61) are indexing into the sequence. Every column is a string.
- `product_category` in `generate_reason` is an optional string. Its truthiness for values of other types is not modelled; `suggest_hs_codes` never passes it.
- A worked ranking example with concrete item names and a concrete winner depends on the TF-IDF weights, which are not modelled.
- Four behaviours of the code are kept as written, though a reader might expect otherwise:
  - `top_n <= 0` raises no error; it is sliced as Python slices;
  - ties are not broken by catalog order;
  - the results carry no similarity score;
  - a token that occurs twice in the query yields its keyword clause twice.
