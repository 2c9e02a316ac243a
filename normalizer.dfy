/** `clean_text` (hs_api.py): the text normaliser applied to catalog item names and to
    both halves of every query. It lower-cases the text, applies two regular-expression
    substitutions and strips the ends; each step is modelled as its own function. */
module Normalizer {
  import opened Strings

  /** The characters the class `[a-z0-9]` admits. */
  predicate IsWordChar(c: char) {
    'a' <= c <= 'z' || '0' <= c <= '9'
  }

  /** An ASCII letter of either case, or an ASCII digit. */
  predicate IsAsciiAlnum(c: char) {
    'a' <= c <= 'z' || 'A' <= c <= 'Z' || '0' <= c <= '9'
  }

  /** Only `a`-`z`, `0`-`9` and the plain space, and never two spaces in a row. */
  predicate IsCleanInside(t: string) {
    (forall i :: 0 <= i < |t| ==> IsWordChar(t[i]) || t[i] == ' ')
    && (forall i :: 0 <= i < |t| - 1 ==> !(t[i] == ' ' && t[i + 1] == ' '))
  }

  /** What `clean_text` promises of its output: only `a`-`z`, `0`-`9` and the plain space,
      no space at either end and never two spaces in a row. */
  predicate IsClean(t: string) {
    IsCleanInside(t) && (|t| > 0 ==> t[0] != ' ' && t[|t| - 1] != ' ')
  }

  lemma SliceCleanInside(c: string, lo: nat, hi: nat)
    requires IsCleanInside(c) && lo <= hi <= |c|
    ensures IsCleanInside(c[lo..hi])
  {
    var r := c[lo..hi];
    assert forall i :: 0 <= i < |r| ==> r[i] == c[lo + i];
    forall i | 0 <= i < |r| - 1 ensures !(r[i] == ' ' && r[i + 1] == ' ') {
      assert r[i] == c[lo + i] && r[i + 1] == c[lo + i + 1];
    }
  }

  /** Over the clean alphabet, whitespace is the plain space and nothing else. */
  lemma CleanAlphabetSpace(c: char)
    requires IsWordChar(c) || c == ' '
    ensures IsSpace(c) <==> c == ' '
  {
  }

  lemma CleanIsSingleSpaced(t: string)
    requires IsClean(t)
    ensures IsSingleSpaced(t)
  {
    forall i | 0 <= i < |t| ensures IsSpace(t[i]) <==> t[i] == ' ' {
      CleanAlphabetSpace(t[i]);
    }
  }

  /** `re.sub(r'[^a-z0-9\s]', ' ', s)`: every character that is neither a word character
      nor whitespace becomes one space; the others stay where they are. */
  function ScrubSymbols(s: string): (r: string)
    ensures |r| == |s|
    ensures forall i :: 0 <= i < |r| ==> IsWordChar(r[i]) || IsSpace(r[i])
    ensures forall i :: 0 <= i < |s| && (IsWordChar(s[i]) || IsSpace(s[i])) ==> r[i] == s[i]
    ensures forall i :: 0 <= i < |s| && !IsWordChar(s[i]) && !IsSpace(s[i]) ==> r[i] == ' '
  {
    seq(|s|, i requires 0 <= i < |s| => if IsWordChar(s[i]) || IsSpace(s[i]) then s[i] else ' ')
  }

  /** `re.sub(r'\s+', ' ', s)` scanning `s`; `inRun` says that the text already emitted
      ends in the space that replaced a whitespace run. */
  function CollapseRuns(s: string, inRun: bool): (r: string)
    ensures forall i :: 0 <= i < |r| && IsSpace(r[i]) ==> r[i] == ' '
    ensures (forall i :: 0 <= i < |s| ==> IsWordChar(s[i]) || IsSpace(s[i])) ==>
              forall i :: 0 <= i < |r| ==> IsWordChar(r[i]) || r[i] == ' '
    ensures forall i :: 0 <= i < |r| - 1 ==> !(IsSpace(r[i]) && IsSpace(r[i + 1]))
    ensures inRun && |r| > 0 ==> !IsSpace(r[0])
    decreases |s|
  {
    if s == [] then []
    else if IsSpace(s[0]) then
      if inRun then CollapseRuns(s[1..], true) else " " + CollapseRuns(s[1..], true)
    else [s[0]] + CollapseRuns(s[1..], false)
  }

  /** `re.sub(r'\s+', ' ', s)`: each maximal run of whitespace becomes one space. */
  function CollapseWhitespace(s: string): string {
    CollapseRuns(s, false)
  }

  /** The leading-whitespace half of `str.strip()`: a suffix of `s` that starts with a
      non-whitespace character (or is empty), with only whitespace cut off before it. */
  function StripStart(s: string): (r: string)
    ensures |r| <= |s| && r == s[|s| - |r|..]
    ensures forall i :: 0 <= i < |s| - |r| ==> IsSpace(s[i])
    ensures |r| > 0 ==> !IsSpace(r[0])
    decreases |s|
  {
    if s != [] && IsSpace(s[0]) then
      var r := StripStart(s[1..]);
      assert forall i :: 1 <= i < |s| ==> s[i] == s[1..][i - 1];
      r
    else s
  }

  /** The trailing-whitespace half of `str.strip()`: a prefix of `s` that ends with a
      non-whitespace character (or is empty), with only whitespace cut off after it. */
  function StripEnd(s: string): (r: string)
    ensures |r| <= |s| && r == s[..|r|]
    ensures forall i :: |r| <= i < |s| ==> IsSpace(s[i])
    ensures |r| > 0 ==> !IsSpace(r[|r| - 1])
    decreases |s|
  {
    if s != [] && IsSpace(s[|s| - 1]) then
      var r := StripEnd(s[..|s| - 1]);
      assert forall i :: 0 <= i < |s| - 1 ==> s[i] == s[..|s| - 1][i];
      r
    else s
  }

  /** `str.strip()` with no argument. */
  function Strip(s: string): (r: string)
    ensures |r| <= |s|
    ensures |r| > 0 ==> !IsSpace(r[0]) && !IsSpace(r[|r| - 1])
    ensures Split(r) == Split(s)
    ensures exists lo :: StrippedAt(s, r, lo)
  {
    SplitStripStart(s);
    SplitStripEnd(StripStart(s));
    StripSlice(s);
    StripEnd(StripStart(s))
  }

  /** `r` is `s` with a whitespace-only prefix of length `lo` and a whitespace-only
      suffix removed. */
  predicate StrippedAt(s: string, r: string, lo: int) {
    0 <= lo <= |s| - |r| && r == s[lo..lo + |r|]
    && (forall i :: 0 <= i < lo ==> IsSpace(s[i]))
    && (forall i :: lo + |r| <= i < |s| ==> IsSpace(s[i]))
  }

  lemma StripSlice(s: string)
    ensures StrippedAt(s, StripEnd(StripStart(s)), |s| - |StripStart(s)|)
  {
    var t := StripStart(s);
    StrippedPieces(s, t, StripEnd(t), |s| - |t|);
  }

  /** Cutting a whitespace prefix off `s` and then a whitespace suffix off what is left
      cuts both from `s`. */
  lemma StrippedPieces(s: string, t: string, r: string, lo: nat)
    requires lo <= |s| && t == s[lo..] && |r| <= |t| && r == t[..|r|]
    requires forall i :: 0 <= i < lo ==> IsSpace(s[i])
    requires forall j :: |r| <= j < |t| ==> IsSpace(t[j])
    ensures StrippedAt(s, r, lo)
  {
    forall i | lo + |r| <= i < |s| ensures IsSpace(s[i]) {
      assert s[i] == t[i - lo];
    }
  }

  lemma StripStartClean(c: string)
    requires IsCleanInside(c)
    ensures IsCleanInside(StripStart(c))
    ensures |StripStart(c)| > 0 ==> StripStart(c)[0] != ' '
  {
    var t := StripStart(c);
    SliceCleanInside(c, |c| - |t|, |c|);
    assert IsSpace(' ');
  }

  lemma StripEndClean(t: string)
    requires IsCleanInside(t) && (|t| > 0 ==> t[0] != ' ')
    ensures IsClean(StripEnd(t))
  {
    var r := StripEnd(t);
    SliceCleanInside(t, 0, |r|);
    assert IsSpace(' ');
    if |r| > 0 {
      assert r[0] == t[0];
    }
  }

  /** Stripping a text over the clean alphabet with no two adjacent spaces leaves it clean. */
  lemma StripIsClean(c: string)
    requires IsCleanInside(c)
    ensures IsClean(Strip(c))
  {
    StripStartClean(c);
    StripEndClean(StripStart(c));
  }

  /** `clean_text(text)` for a `str` argument: lower-case, scrub symbols, collapse
      whitespace runs, strip. Whatever the input, the output is clean. */
  function CleanText(text: string): (r: string)
    ensures IsClean(r)
  {
    var c := CollapseWhitespace(ScrubSymbols(Lower(text)));
    assert IsCleanInside(c);
    StripIsClean(c);
    Strip(c)
  }

  lemma {:induction false} SplitCollapseRuns(s: string, inRun: bool, word: string)
    requires NoSpace(word)
    requires inRun ==> word == []
    ensures SplitFrom(CollapseRuns(s, inRun), word) == SplitFrom(s, word)
    decreases |s|
  {
    if s != [] {
      if IsSpace(s[0]) {
        SplitCollapseRuns(s[1..], true, []);
        var rest := CollapseRuns(s[1..], true);
        assert SplitFrom(s, word) == Flush(word) + SplitFrom(s[1..], []);
        if inRun {
          assert CollapseRuns(s, inRun) == rest;
        } else {
          var r := " " + rest;
          assert CollapseRuns(s, inRun) == r;
          assert r[0] == ' ' && IsSpace(r[0]) && r[1..] == rest;
          assert SplitFrom(r, word) == Flush(word) + SplitFrom(rest, []);
        }
      } else {
        SplitCollapseRuns(s[1..], false, word + [s[0]]);
        var r := [s[0]] + CollapseRuns(s[1..], false);
        assert CollapseRuns(s, inRun) == r;
        assert r[0] == s[0] && r[1..] == CollapseRuns(s[1..], false);
      }
    }
  }

  lemma {:induction false} SplitStripStart(s: string)
    ensures Split(StripStart(s)) == Split(s)
    decreases |s|
  {
    if s != [] && IsSpace(s[0]) {
      SplitStripStart(s[1..]);
      assert StripStart(s) == StripStart(s[1..]);
      assert Split(s) == Flush([]) + Split(s[1..]);
    }
  }

  lemma {:induction false} SplitFromTrailingSpace(x: string, y: string, word: string)
    requires NoSpace(word)
    requires forall i :: 0 <= i < |y| ==> IsSpace(y[i])
    ensures SplitFrom(x + y, word) == SplitFrom(x, word)
    decreases |x|
  {
    if x == [] {
      assert x + y == y;
      SplitFromAllSpace(y, word);
    } else {
      assert (x + y)[1..] == x[1..] + y;
      if IsSpace(x[0]) {
        SplitFromTrailingSpace(x[1..], y, []);
      } else {
        SplitFromTrailingSpace(x[1..], y, word + [x[0]]);
      }
    }
  }

  lemma SplitStripEnd(t: string)
    ensures Split(StripEnd(t)) == Split(t)
  {
    var r := StripEnd(t);
    assert t == r + t[|r|..];
    SplitFromTrailingSpace(r, t[|r|..], []);
  }

  /** Collapsing whitespace runs and stripping the ends do not change the words of a text. */
  lemma SplitStripCollapse(u: string)
    ensures Split(Strip(CollapseWhitespace(u))) == Split(u)
  {
    var c := CollapseWhitespace(u);
    SplitCollapseRuns(u, false, []);
    SplitStripStart(c);
    SplitStripEnd(StripStart(c));
  }

  /** `clean_text(s)` is `" ".join(t.split())` of the lower-cased, scrubbed text `t`: its
      words, and only its words, joined by single spaces. */
  lemma CleanTextJoinsWords(s: string)
    ensures CleanText(s) == Join(Split(ScrubSymbols(Lower(s))), " ")
  {
    var u := ScrubSymbols(Lower(s));
    SplitStripCollapse(u);
    CleanIsSingleSpaced(CleanText(s));
    JoinSplit(CleanText(s));
  }

  /** A string is left unchanged by `clean_text` exactly when it is clean. */
  lemma CleanTextFixpoint(t: string)
    ensures CleanText(t) == t <==> IsClean(t)
  {
    if IsClean(t) {
      assert Lower(t) == t;
      assert ScrubSymbols(t) == t;
      CleanTextJoinsWords(t);
      CleanIsSingleSpaced(t);
      JoinSplit(t);
    }
  }

  /** Cleaning twice is cleaning once. */
  lemma CleanTextIdempotent(s: string)
    ensures CleanText(CleanText(s)) == CleanText(s)
  {
    CleanTextFixpoint(CleanText(s));
  }

  /** Lower-casing leaves a clean text as it is. */
  lemma LowerOfClean(t: string)
    requires IsClean(t)
    ensures Lower(t) == t
  {
  }

  lemma LowerWordChar(c: char)
    ensures IsWordChar(LowerChar(c)) <==> IsAsciiAlnum(c)
  {
  }

  /** After lower-casing and scrubbing, a position holds whitespace exactly when the
      input had no ASCII letter or digit there. */
  lemma ScrubbedSpaceIff(s: string)
    ensures forall i :: 0 <= i < |s| ==> (IsSpace(ScrubSymbols(Lower(s))[i]) <==> !IsAsciiAlnum(s[i]))
  {
    var l := Lower(s);
    var u := ScrubSymbols(l);
    forall i | 0 <= i < |s| ensures IsSpace(u[i]) <==> !IsAsciiAlnum(s[i]) {
      LowerWordChar(s[i]);
      assert l[i] == LowerChar(s[i]);
    }
  }

  /** `clean_text` returns the empty string exactly when the input holds no ASCII letter
      and no ASCII digit. */
  lemma CleanTextEmptyIff(s: string)
    ensures CleanText(s) == [] <==> forall i :: 0 <= i < |s| ==> !IsAsciiAlnum(s[i])
  {
    var u := ScrubSymbols(Lower(s));
    ScrubbedSpaceIff(s);
    CleanTextJoinsWords(s);
    SplitEmptyIff(u);
    var ws := Split(u);
    assert |u| == |s|;
    assert (forall i :: 0 <= i < |u| ==> IsSpace(u[i])) <==> (forall i :: 0 <= i < |s| ==> !IsAsciiAlnum(s[i]));
    if ws != [] {
      assert IsToken(ws[0]) && ws[0] <= Join(ws, " ");
    }
  }
}
