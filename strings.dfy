/** The few built-in operations on Python `str` values that the classifier relies on:
    `str.isspace`, `str.lower`, `str.split()`, `str.join` and the `in` operator,
    stated over Dafny strings (sequences of Unicode scalar values). */
module Strings {

  /** `str.isspace()` on one character. A `\s` in a `re` pattern over `str` matches
      exactly the same characters, and `str.strip()` / `str.split()` with no argument
      remove exactly these. */
  predicate IsSpace(c: char) {
    ('\t' <= c <= '\r') || ('\U{1C}' <= c <= ' ')
    || c == '\U{85}' || c == '\U{A0}' || c == '\U{1680}'
    || ('\U{2000}' <= c <= '\U{200A}')
    || c == '\U{2028}' || c == '\U{2029}' || c == '\U{202F}' || c == '\U{205F}' || c == '\U{3000}'
  }

  predicate IsAsciiUpper(c: char) {
    'A' <= c <= 'Z'
  }

  /** `str.lower()` on one character, for the ASCII letters; every other character is
      left as it is. */
  function LowerChar(c: char): (r: char)
    ensures !IsAsciiUpper(r)
  {
    if IsAsciiUpper(c) then (c as int - 'A' as int + 'a' as int) as char else c
  }

  /** `str.lower()`, character by character. */
  function Lower(s: string): (r: string)
    ensures |r| == |s|
    ensures forall i :: 0 <= i < |s| ==> r[i] == LowerChar(s[i])
    ensures forall i :: 0 <= i < |r| ==> !IsAsciiUpper(r[i])
    ensures forall i :: 0 <= i < |s| && !IsAsciiUpper(s[i]) ==> r[i] == s[i]
  {
    seq(|s|, i requires 0 <= i < |s| => LowerChar(s[i]))
  }

  predicate NoSpace(w: string) {
    forall i :: 0 <= i < |w| ==> !IsSpace(w[i])
  }

  /** What `str.split()` can return as one piece: a non-empty run of non-whitespace. */
  predicate IsToken(w: string) {
    w != [] && NoSpace(w)
  }

  predicate AllTokens(ws: seq<string>) {
    forall k :: 0 <= k < |ws| ==> IsToken(ws[k])
  }

  /** A string in which every whitespace character is a plain space, no space starts or
      ends it, and no two spaces are adjacent. */
  predicate IsSingleSpaced(t: string) {
    (forall i :: 0 <= i < |t| && IsSpace(t[i]) ==> t[i] == ' ')
    && (|t| > 0 ==> !IsSpace(t[0]) && !IsSpace(t[|t| - 1]))
    && (forall i :: 0 <= i < |t| - 1 ==> !(IsSpace(t[i]) && IsSpace(t[i + 1])))
  }

  function Flush(word: string): seq<string> {
    if word == [] then [] else [word]
  }

  /** `str.split()` scanning `s` while `word` holds the part of a token read so far. */
  function SplitFrom(s: string, word: string): (r: seq<string>)
    requires NoSpace(word)
    ensures AllTokens(r)
    decreases |s|
  {
    if s == [] then Flush(word)
    else if IsSpace(s[0]) then Flush(word) + SplitFrom(s[1..], [])
    else SplitFrom(s[1..], word + [s[0]])
  }

  /** `s.split()`: the maximal runs of non-whitespace, in order; never an empty piece. */
  function Split(s: string): (r: seq<string>)
    ensures AllTokens(r)
  {
    SplitFrom(s, [])
  }

  /** `sep.join(parts)`. */
  function Join(parts: seq<string>, sep: string): (r: string)
    ensures parts == [] ==> r == []
    ensures parts != [] ==> parts[0] <= r
  {
    if |parts| == 0 then []
    else if |parts| == 1 then parts[0]
    else parts[0] + sep + Join(parts[1..], sep)
  }

  /** `needle in hay` for two strings: a substring test. */
  predicate Contains(hay: string, needle: string)
    decreases |hay|
  {
    needle <= hay || (hay != [] && Contains(hay[1..], needle))
  }

  /** `needle` occurs in `hay` starting at offset `i`. */
  predicate OccursAt(hay: string, needle: string, i: int) {
    0 <= i <= |hay| - |needle| && hay[i..i + |needle|] == needle
  }

  /** The substring test holds exactly when the needle occurs at some offset of the hay. */
  lemma {:induction false} ContainsAtOffset(hay: string, needle: string)
    ensures Contains(hay, needle) <==> exists i :: OccursAt(hay, needle, i)
    decreases |hay|
  {
    if needle <= hay {
      assert OccursAt(hay, needle, 0);
    } else if hay == [] {
    } else {
      ContainsAtOffset(hay[1..], needle);
      if Contains(hay[1..], needle) {
        var i :| OccursAt(hay[1..], needle, i);
        assert hay[i + 1..i + 1 + |needle|] == hay[1..][i..i + |needle|];
        assert OccursAt(hay, needle, i + 1);
      }
      if exists i :: OccursAt(hay, needle, i) {
        var i :| OccursAt(hay, needle, i);
        assert hay[1..][i - 1..i - 1 + |needle|] == hay[i..i + |needle|];
        assert OccursAt(hay[1..], needle, i - 1);
      }
    }
  }

  lemma {:induction false} SplitFromAllSpace(s: string, word: string)
    requires NoSpace(word)
    requires forall i :: 0 <= i < |s| ==> IsSpace(s[i])
    ensures SplitFrom(s, word) == Flush(word)
    decreases |s|
  {
    if s != [] {
      SplitFromAllSpace(s[1..], []);
    }
  }

  lemma {:induction false} SplitFromNoSpace(s: string, word: string)
    requires NoSpace(word) && NoSpace(s)
    ensures SplitFrom(s, word) == Flush(word + s)
    decreases |s|
  {
    if s == [] {
      assert word + s == word;
    } else {
      SplitFromNoSpace(s[1..], word + [s[0]]);
      assert word + [s[0]] + s[1..] == word + s;
    }
  }

  lemma {:induction false} SplitFromAtSpace(a: string, c: char, b: string, word: string)
    requires NoSpace(word) && IsSpace(c)
    ensures SplitFrom(a + [c] + b, word) == SplitFrom(a, word) + Split(b)
    decreases |a|
  {
    if a == [] {
      assert a + [c] + b == [c] + b;
      assert ([c] + b)[1..] == b;
    } else {
      assert (a + [c] + b)[0] == a[0];
      assert (a + [c] + b)[1..] == a[1..] + [c] + b;
      if IsSpace(a[0]) {
        SplitFromAtSpace(a[1..], c, b, []);
      } else {
        SplitFromAtSpace(a[1..], c, b, word + [a[0]]);
      }
    }
  }

  /** A whitespace character always ends a token: splitting around it splits each side. */
  lemma SplitAtSpace(a: string, c: char, b: string)
    requires IsSpace(c)
    ensures Split(a + [c] + b) == Split(a) + Split(b)
  {
    SplitFromAtSpace(a, c, b, []);
  }

  lemma {:induction false} SplitFromEmpty(s: string, word: string)
    requires NoSpace(word)
    ensures SplitFrom(s, word) == [] <==> word == [] && forall i :: 0 <= i < |s| ==> IsSpace(s[i])
    decreases |s|
  {
    if s != [] {
      if IsSpace(s[0]) {
        SplitFromEmpty(s[1..], []);
        assert SplitFrom(s, word) == Flush(word) + SplitFrom(s[1..], []);
        if SplitFrom(s, word) == [] {
          forall i | 0 <= i < |s| ensures IsSpace(s[i]) {
            if i > 0 { assert s[i] == s[1..][i - 1]; }
          }
        }
      } else {
        SplitFromEmpty(s[1..], word + [s[0]]);
        assert SplitFrom(s, word) == SplitFrom(s[1..], word + [s[0]]);
        assert word + [s[0]] != [];
        assert !IsSpace(s[0]);
      }
    }
  }

  /** `s.split()` is empty exactly when `s` is all whitespace. */
  lemma SplitEmptyIff(s: string)
    ensures Split(s) == [] <==> forall i :: 0 <= i < |s| ==> IsSpace(s[i])
  {
    SplitFromEmpty(s, []);
  }

  lemma {:induction false} JoinAppend(xs: seq<string>, ys: seq<string>, sep: string)
    requires xs != [] && ys != []
    ensures Join(xs + ys, sep) == Join(xs, sep) + sep + Join(ys, sep)
    decreases |xs|
  {
    if |xs| == 1 {
      assert (xs + ys)[1..] == ys;
    } else {
      assert (xs + ys)[1..] == xs[1..] + ys;
      JoinAppend(xs[1..], ys, sep);
    }
  }

  /** Splitting undoes joining with one space, for pieces `str.split()` could return. */
  lemma {:induction false} SplitJoin(ws: seq<string>)
    requires AllTokens(ws)
    ensures Split(Join(ws, " ")) == ws
    decreases |ws|
  {
    if |ws| == 0 {
    } else if |ws| == 1 {
      SplitFromNoSpace(ws[0], []);
      assert [] + ws[0] == ws[0];
    } else {
      SplitJoin(ws[1..]);
      SplitFromNoSpace(ws[0], []);
      assert [] + ws[0] == ws[0];
      assert ws[0] + " " + Join(ws[1..], " ") == ws[0] + [' '] + Join(ws[1..], " ");
      SplitAtSpace(ws[0], ' ', Join(ws[1..], " "));
    }
  }

  /** Joining with one space undoes splitting, for single-spaced strings. */
  lemma {:induction false} JoinSplit(t: string)
    requires IsSingleSpaced(t)
    ensures Join(Split(t), " ") == t
    decreases |t|
  {
    if NoSpace(t) {
      SplitFromNoSpace(t, []);
      assert [] + t == t;
    } else {
      var i :| 0 <= i < |t| && IsSpace(t[i]);
      var a, b := t[..i], t[i + 1..];
      assert t == a + [t[i]] + b;
      assert 0 < i < |t| - 1;
      assert IsSingleSpaced(a) by {
        forall j | 0 <= j < |a| - 1 ensures !(IsSpace(a[j]) && IsSpace(a[j + 1])) {
          assert a[j] == t[j] && a[j + 1] == t[j + 1];
        }
      }
      assert IsSingleSpaced(b) by {
        forall j | 0 <= j < |b| - 1 ensures !(IsSpace(b[j]) && IsSpace(b[j + 1])) {
          assert b[j] == t[i + 1 + j] && b[j + 1] == t[i + 2 + j];
        }
      }
      JoinSplit(a);
      JoinSplit(b);
      SplitAtSpace(a, t[i], b);
      SplitEmptyIff(a);
      SplitEmptyIff(b);
      JoinAppend(Split(a), Split(b), " ");
    }
  }

  /** Joining pieces `str.split()` could return with one space gives a single-spaced string. */
  lemma {:induction false} JoinTokensSingleSpaced(ws: seq<string>)
    requires AllTokens(ws)
    ensures IsSingleSpaced(Join(ws, " "))
    decreases |ws|
  {
    if |ws| >= 2 {
      JoinTokensSingleSpaced(ws[1..]);
      var w, rest := ws[0], Join(ws[1..], " ");
      var r := Join(ws, " ");
      assert r == w + " " + rest;
      assert ws[1..][0] <= rest;
      forall i | 0 <= i < |r| && IsSpace(r[i]) ensures r[i] == ' ' {
        if i > |w| { assert r[i] == rest[i - |w| - 1]; }
      }
      forall i | 0 <= i < |r| - 1 ensures !(IsSpace(r[i]) && IsSpace(r[i + 1])) {
        if i > |w| { assert r[i] == rest[i - |w| - 1] && r[i + 1] == rest[i - |w|]; }
      }
    }
  }

  /** `" ".join(t.split()) == t` holds exactly for the single-spaced strings. */
  lemma JoinSplitIff(t: string)
    ensures Join(Split(t), " ") == t <==> IsSingleSpaced(t)
  {
    if IsSingleSpaced(t) {
      JoinSplit(t);
    } else {
      JoinTokensSingleSpaced(Split(t));
    }
  }
}
