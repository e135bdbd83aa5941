/** Plain facts about strings as sequences of characters: prefixes, substring
    occurrences counted left to right without overlap, and subsequences (what is
    left after deleting characters). */
module Strings {

  predicate StartsWith(s: string, p: string) {
    |p| <= |s| && s[..|p|] == p
  }

  /** p occurs in s as a contiguous block. */
  predicate Contains(s: string, p: string)
    decreases |s|
  {
    StartsWith(s, p) || (|s| > 0 && Contains(s[1..], p))
  }

  /** Occurrences of p found by a left-to-right scan that resumes after each
      occurrence, so overlapping occurrences are not counted twice. */
  function Count(s: string, p: string): nat
    requires |p| > 0
    decreases |s|
  {
    if |s| < |p| then 0
    else if StartsWith(s, p) then 1 + Count(s[|p|..], p)
    else Count(s[1..], p)
  }

  /** a is what remains of b after deleting some of its characters. */
  predicate IsSubsequence(a: string, b: string)
    decreases |b|
  {
    |a| == 0 || (|b| > 0 && ((a[0] == b[0] && IsSubsequence(a[1..], b[1..])) || IsSubsequence(a, b[1..])))
  }

  /** A prefix test on a string with a known first character. */
  lemma StartsWithCons(c: char, rest: string, p: string)
    requires |p| > 0
    ensures StartsWith([c] + rest, p) <==> c == p[0] && StartsWith(rest, p[1..])
  {
    if StartsWith([c] + rest, p) {
      assert ([c] + rest)[..|p|] == [c] + rest[..|p| - 1];
      assert p == [p[0]] + p[1..];
    }
    if c == p[0] && StartsWith(rest, p[1..]) {
      assert ([c] + rest)[..|p|] == [c] + rest[..|p| - 1];
      assert p == [p[0]] + p[1..];
    }
  }

  lemma {:induction false} ShortNeverContains(s: string, p: string)
    requires |s| < |p|
    ensures !Contains(s, p)
    decreases |s|
  {
    if |s| > 0 {
      ShortNeverContains(s[1..], p);
    }
  }

  /** A string without the first character of p cannot contain p. */
  lemma {:induction false} MissingHeadNeverContains(s: string, p: string)
    requires |p| > 0 && p[0] !in s
    ensures !Contains(s, p)
    decreases |s|
  {
    if |s| > 0 {
      assert s[0] != p[0];
      MissingHeadNeverContains(s[1..], p);
    }
  }

  lemma {:induction false} ContainsInSuffix(s: string, p: string, k: nat)
    requires k <= |s| && Contains(s[k..], p)
    ensures Contains(s, p)
    decreases k
  {
    if k > 0 {
      assert s[1..][k - 1..] == s[k..];
      ContainsInSuffix(s[1..], p, k - 1);
    }
  }

  /** Putting characters other than p's first in front of w adds no occurrence of p. */
  lemma {:induction false} PrefixWithoutHeadContains(v: string, w: string, p: string)
    requires |p| > 0 && p[0] !in v && !Contains(w, p)
    ensures !Contains(v + w, p)
    decreases |v|
  {
    if |v| == 0 {
      assert v + w == w;
    } else {
      PrefixWithoutHeadContains(v[1..], w, p);
      assert (v + w)[1..] == v[1..] + w;
      assert (v + w)[0] == v[0];
    }
  }

  lemma {:induction false} PrefixWithoutHeadCount(v: string, w: string, p: string)
    requires |p| > 0 && p[0] !in v
    ensures Count(v + w, p) == Count(w, p)
    decreases |v|
  {
    if |v| == 0 {
      assert v + w == w;
    } else {
      PrefixWithoutHeadCount(v[1..], w, p);
      assert (v + w)[1..] == v[1..] + w;
      assert (v + w)[0] == v[0];
      if |v + w| < |p| {
        assert Count(v[1..] + w, p) == 0;
      }
    }
  }

  /** Counting from a character equal to p's head: one occurrence starts
      there exactly when the rest of p follows. */
  lemma CountAfterHead(w: string, p: string)
    requires |p| > 0
    ensures Count([p[0]] + w, p) ==
              if StartsWith(w, p[1..]) then 1 + Count(w[|p| - 1..], p) else Count(w, p)
  {
    var s := [p[0]] + w;
    StartsWithCons(p[0], w, p);
    assert s[1..] == w;
    if StartsWith(w, p[1..]) {
      assert s[|p|..] == w[|p| - 1..];
    }
  }

  /** The count is zero exactly when there is no occurrence. */
  lemma {:induction false} CountZeroIffAbsent(s: string, p: string)
    requires |p| > 0
    ensures Count(s, p) == 0 <==> !Contains(s, p)
    decreases |s|
  {
    if |s| < |p| {
      ShortNeverContains(s, p);
    } else if !StartsWith(s, p) {
      CountZeroIffAbsent(s[1..], p);
    }
  }

  lemma {:induction false} SubsequenceLength(a: string, b: string)
    requires IsSubsequence(a, b)
    ensures |a| <= |b|
    decreases |b|
  {
    if |a| > 0 {
      if a[0] == b[0] && IsSubsequence(a[1..], b[1..]) {
        SubsequenceLength(a[1..], b[1..]);
      } else {
        SubsequenceLength(a, b[1..]);
      }
    }
  }

  lemma {:induction false} SubsequenceTransitive(a: string, b: string, c: string)
    requires IsSubsequence(a, b) && IsSubsequence(b, c)
    ensures IsSubsequence(a, c)
    decreases |c|
  {
    if |a| > 0 {
      if b[0] == c[0] && IsSubsequence(b[1..], c[1..]) {
        if a[0] == b[0] && IsSubsequence(a[1..], b[1..]) {
          SubsequenceTransitive(a[1..], b[1..], c[1..]);
        } else {
          SubsequenceTransitive(a, b[1..], c[1..]);
        }
      } else {
        SubsequenceTransitive(a, b, c[1..]);
      }
    }
  }

  /** Deleting every character of v keeps a a subsequence. */
  lemma {:induction false} SubsequenceDropPrefix(a: string, v: string, w: string)
    requires IsSubsequence(a, w)
    ensures IsSubsequence(a, v + w)
    decreases |v|
  {
    if |v| == 0 {
      assert v + w == w;
    } else {
      SubsequenceDropPrefix(a, v[1..], w);
      assert (v + w)[1..] == v[1..] + w;
    }
  }

  /** A contiguous slice is a subsequence. */
  lemma {:induction false} SliceIsSubsequence(s: string, i: nat, j: nat)
    requires i <= j <= |s|
    ensures IsSubsequence(s[i..j], s)
    decreases |s|
  {
    if i < j {
      SliceIsSubsequence(s[1..], if i == 0 then 0 else i - 1, j - 1);
      if i == 0 {
        assert s[..j][1..] == s[1..][0..j - 1];
      } else {
        assert s[i..j] == s[1..][i - 1..j - 1];
      }
    }
  }

}
