/** The java.lang.String operations the headline code uses, as functions on
    strings: replace (literal target, every occurrence found by a left-to-right
    scan that resumes after each replaced occurrence, case-sensitive), trim
    (strip every char at or below U+0020 at both ends) and equalsIgnoreCase. */
module JavaString {
  import opened Strings

  /** String.replace(target, replacement) for a non-empty target. */
  function Replace(s: string, target: string, replacement: string): string
    requires |target| > 0
    decreases |s|
  {
    if |s| < |target| then s
    else if StartsWith(s, target) then replacement + Replace(s[|target|..], target, replacement)
    else [s[0]] + Replace(s[1..], target, replacement)
  }

  /** With no occurrence of the target the string is returned unchanged. */
  lemma {:induction false} ReplaceAbsent(s: string, t: string, r: string)
    requires |t| > 0 && !Contains(s, t)
    ensures Replace(s, t, r) == s
    decreases |s|
  {
    if |s| >= |t| {
      ReplaceAbsent(s[1..], t, r);
    }
  }

  /** Each replaced occurrence changes the length by |r| - |t|. */
  lemma {:induction false} ReplaceLength(s: string, t: string, r: string)
    requires |t| > 0
    ensures |Replace(s, t, r)| == |s| + (|r| - |t|) * Count(s, t)
    decreases |s|
  {
    if |s| >= |t| {
      if StartsWith(s, t) {
        var rest := s[|t|..];
        ReplaceLength(rest, t, r);
        assert |Replace(s, t, r)| == |r| + |Replace(rest, t, r)|;
        assert Count(s, t) == 1 + Count(rest, t);
        MulOneMore(|r| - |t|, Count(rest, t));
      } else {
        ReplaceLength(s[1..], t, r);
        assert |Replace(s, t, r)| == 1 + |Replace(s[1..], t, r)|;
        assert Count(s, t) == Count(s[1..], t);
      }
    }
  }

  lemma MulOneMore(d: int, c: int)
    ensures d * (1 + c) == d + d * c
  {
  }

  /** One step of replace where the target does not start: the first char is kept. */
  lemma ReplaceKeepsHead(s: string, t: string, r: string)
    requires |t| > 0 && |s| > 0 && s[0] != t[0]
    ensures Replace(s, t, r) == [s[0]] + Replace(s[1..], t, r)
  {
    if |s| < |t| {
      assert Replace(s[1..], t, r) == s[1..];
      assert s == [s[0]] + s[1..];
    } else {
      assert s[..|t|][0] == s[0];
    }
  }

  /** Characters other than the target's first are copied through unchanged. */
  lemma {:induction false} ReplacePrefixWithoutHead(v: string, w: string, t: string, r: string)
    requires |t| > 0 && t[0] !in v
    ensures Replace(v + w, t, r) == v + Replace(w, t, r)
    decreases |v|
  {
    if |v| == 0 {
      assert v + w == w;
    } else {
      var s := v + w;
      assert s[0] == v[0] && s[1..] == v[1..] + w;
      ReplacePrefixWithoutHead(v[1..], w, t, r);
      ReplaceKeepsHead(s, t, r);
      assert [v[0]] + (v[1..] + Replace(w, t, r)) == v + Replace(w, t, r);
    }
  }

  /** If the result starts with p and p lacks the replacement's first
      character, the input already started with p. */
  lemma {:induction false} ReplacedStart(w: string, t: string, r: string, p: string)
    requires |t| > 0 && |r| > 0 && r[0] !in p
    requires StartsWith(Replace(w, t, r), p)
    ensures StartsWith(w, p)
    decreases |w|
  {
    if |p| > 0 && |w| >= |t| {
      // a string starting with t would give a result starting with r[0], which p lacks
      assert Replace(w, t, r)[0] == p[0];
      if !StartsWith(w, t) {
        var rest := Replace(w[1..], t, r);
        StartsWithCons(w[0], rest, p);
        ReplacedStart(w[1..], t, r, p[1..]);
        StartsWithCons(w[0], w[1..], p);
        assert [w[0]] + w[1..] == w;
      }
    }
  }

  /** No occurrence of x survives or appears: x is the target itself or is
      absent from the input, and x and r do not share a boundary character. */
  lemma {:induction false} ReplaceAvoids(s: string, t: string, r: string, x: string)
    requires |t| > 0 && |r| > 0 && |x| > 0
    requires x[0] !in r && r[0] !in x
    requires x == t || !Contains(s, x)
    ensures !Contains(Replace(s, t, r), x)
    decreases |s|
  {
    if |s| < |t| {
      if x == t {
        ShortNeverContains(s, x);
      }
    } else if StartsWith(s, t) {
      if x != t {
        if Contains(s[|t|..], x) {
          ContainsInSuffix(s, x, |t|);
        }
      }
      ReplaceAvoids(s[|t|..], t, r, x);
      PrefixWithoutHeadContains(r, Replace(s[|t|..], t, r), x);
    } else {
      var rest := Replace(s[1..], t, r);
      ReplaceAvoids(s[1..], t, r, x);
      assert Replace(s, t, r) == [s[0]] + rest;
      assert ([s[0]] + rest)[1..] == rest;
      if StartsWith(Replace(s, t, r), x) {
        ReplacedStart(s, t, r, x);
      }
    }
  }

  /** Replacing t by r leaves the count of an unrelated word x unchanged, when no
      occurrence of x can overlap t or r. */
  lemma {:induction false} ReplaceKeepsCount(s: string, t: string, r: string, x: string)
    requires |t| > 0 && |r| > 0 && |x| > 0
    requires x[0] !in t && t[0] !in x && x[0] !in r && r[0] !in x
    ensures Count(Replace(s, t, r), x) == Count(s, x)
    decreases |s|
  {
    if |s| < |t| {
    } else if StartsWith(s, t) {
      var rest := Replace(s[|t|..], t, r);
      ReplaceKeepsCount(s[|t|..], t, r, x);
      PrefixWithoutHeadCount(r, rest, x);
      assert s == t + s[|t|..];
      PrefixWithoutHeadCount(t, s[|t|..], x);
    } else if StartsWith(s, x) {
      assert s == x + s[|x|..];
      ReplacePrefixWithoutHead(x, s[|x|..], t, r);
      var rest := Replace(s[|x|..], t, r);
      assert (x + rest)[..|x|] == x;
      assert (x + rest)[|x|..] == rest;
      ReplaceKeepsCount(s[|x|..], t, r, x);
    } else {
      var rest := Replace(s[1..], t, r);
      ReplaceKeepsCount(s[1..], t, r, x);
      assert Replace(s, t, r) == [s[0]] + rest;
      assert ([s[0]] + rest)[1..] == rest;
      if StartsWith(Replace(s, t, r), x) {
        ReplacedStart(s, t, r, x);
      }
      if |[s[0]] + rest| < |x| {
        assert Count(rest, x) == 0;
      }
    }
  }

  /** t ends with x's first character and has it nowhere else. */
  predicate EndsOnlyWithHead(t: string, x: string) {
    |t| > 0 && |x| > 0 && t[|t| - 1] == x[0] && forall k :: 0 <= k < |t| - 1 ==> t[k] != x[0]
  }

  /** The count of x survives even when target and replacement end with x's
      first character: an occurrence of x that overlaps a replaced target
      starts on the target's last character, and the replacement puts the same
      character in the same place. */
  lemma {:induction false} ReplaceKeepsCountSharedEnd(s: string, t: string, r: string, x: string)
    requires EndsOnlyWithHead(t, x) && EndsOnlyWithHead(r, x)
    requires t[0] !in x && r[0] !in x
    ensures Count(Replace(s, t, r), x) == Count(s, x)
    decreases |s|, 0
  {
    var c := x[0];
    if |s| < |t| {
    } else if StartsWith(s, t) {
      var rest := s[|t|..];
      var after := Replace(rest, t, r);
      ReplaceKeepsCountAfterHead(rest, t, r, x);
      assert Replace(s, t, r) == r[..|r| - 1] + ([c] + after);
      PrefixWithoutHeadCount(r[..|r| - 1], [c] + after, x);
      assert s == t[..|t| - 1] + ([c] + rest);
      PrefixWithoutHeadCount(t[..|t| - 1], [c] + rest, x);
    } else {
      var after := Replace(s[1..], t, r);
      assert Replace(s, t, r) == [s[0]] + after;
      assert s == [s[0]] + s[1..];
      if s[0] == c {
        ReplaceKeepsCountAfterHead(s[1..], t, r, x);
      } else {
        ReplaceKeepsCountSharedEnd(s[1..], t, r, x);
        PrefixWithoutHeadCount([s[0]], after, x);
        PrefixWithoutHeadCount([s[0]], s[1..], x);
      }
    }
  }

  /** The same, counted from a leading copy of x's first character. */
  lemma {:induction false} ReplaceKeepsCountAfterHead(s: string, t: string, r: string, x: string)
    requires EndsOnlyWithHead(t, x) && EndsOnlyWithHead(r, x)
    requires t[0] !in x && r[0] !in x
    ensures Count([x[0]] + Replace(s, t, r), x) == Count([x[0]] + s, x)
    decreases |s|, 1
  {
    var tail := x[1..];
    var after := Replace(s, t, r);
    CountAfterHead(after, x);
    CountAfterHead(s, x);
    assert t[0] !in tail && r[0] !in tail;
    if StartsWith(s, tail) {
      assert s == tail + s[|tail|..];
      ReplacePrefixWithoutHead(tail, s[|tail|..], t, r);
      assert after[..|tail|] == tail;
      assert after[|tail|..] == Replace(s[|tail|..], t, r);
      ReplaceKeepsCountSharedEnd(s[|tail|..], t, r, x);
    } else {
      if StartsWith(after, tail) {
        ReplacedStart(s, t, r, tail);
      }
      ReplaceKeepsCountSharedEnd(s, t, r, x);
    }
  }

  /** Every occurrence of the target is replaced, so the replacement shows up. */
  lemma {:induction false} ReplaceIntroduces(s: string, t: string, r: string)
    requires |t| > 0 && Contains(s, t)
    ensures Contains(Replace(s, t, r), r)
    decreases |s|
  {
    if |s| < |t| {
      ShortNeverContains(s, t);
    } else if StartsWith(s, t) {
      var rest := Replace(s[|t|..], t, r);
      assert (r + rest)[..|r|] == r;
    } else {
      ReplaceIntroduces(s[1..], t, r);
      var rest := Replace(s[1..], t, r);
      assert ([s[0]] + rest)[1..] == rest;
    }
  }

  /** s with every c changed into d, position by position. */
  function Substitute(s: string, c: char, d: char): (r: string)
    ensures |r| == |s|
  {
    seq(|s|, i requires 0 <= i < |s| => if s[i] == c then d else s[i])
  }

  /** Replacing a one-character target by a one-character replacement is a
      position-by-position substitution. */
  lemma {:induction false} ReplaceSingleChar(s: string, c: char, d: char)
    ensures Replace(s, [c], [d]) == Substitute(s, c, d)
    decreases |s|
  {
    if |s| > 0 {
      ReplaceSingleChar(s[1..], c, d);
      assert StartsWith(s, [c]) <==> s[0] == c;
      var rest := Replace(s[1..], [c], [d]);
      if s[0] == c {
        assert Replace(s, [c], [d]) == [d] + rest;
        assert s[|[c]|..] == s[1..];
      } else {
        assert Replace(s, [c], [d]) == [s[0]] + rest;
      }
      assert Substitute(s, c, d) == [Substitute(s, c, d)[0]] + Substitute(s[1..], c, d);
    }
  }

  /** The chars String.trim removes: every char whose code is at most U+0020. */
  predicate IsBlank(c: char) {
    c <= ' '
  }

  predicate IsTrimmed(s: string) {
    |s| == 0 || (!IsBlank(s[0]) && !IsBlank(s[|s| - 1]))
  }

  /** Length of the leading run of blanks. */
  function LeadingBlanks(s: string): (n: nat)
    ensures n <= |s|
    ensures forall i :: 0 <= i < n ==> IsBlank(s[i])
    ensures n < |s| ==> !IsBlank(s[n])
    decreases |s|
  {
    if |s| > 0 && IsBlank(s[0]) then 1 + LeadingBlanks(s[1..]) else 0
  }

  /** Length of the trailing run of blanks. */
  function TrailingBlanks(s: string): (n: nat)
    ensures n <= |s|
    ensures forall i :: |s| - n <= i < |s| ==> IsBlank(s[i])
    ensures n < |s| ==> !IsBlank(s[|s| - 1 - n])
    decreases |s|
  {
    if |s| > 0 && IsBlank(s[|s| - 1]) then 1 + TrailingBlanks(s[..|s| - 1]) else 0
  }

  /** String.trim: the result is the slice of s starting at its first non-blank
      char, it begins and ends with a non-blank char, and everything cut off on
      either side is blank. */
  function Trim(s: string): (r: string)
    ensures IsTrimmed(r)
    ensures LeadingBlanks(s) + |r| <= |s| && r == s[LeadingBlanks(s)..LeadingBlanks(s) + |r|]
    ensures forall i :: 0 <= i < |s| && !(LeadingBlanks(s) <= i < LeadingBlanks(s) + |r|) ==> IsBlank(s[i])
  {
    var u := s[LeadingBlanks(s)..];
    u[..|u| - TrailingBlanks(u)]
  }

  /** trim changes nothing on a trimmed string, hence applying it twice is
      applying it once. */
  lemma {:induction false} TrimTrimmed(s: string)
    requires IsTrimmed(s)
    ensures Trim(s) == s
  {
    if |s| > 0 {
      assert LeadingBlanks(s) == 0;
      assert TrailingBlanks(s) == 0;
    }
  }

  /** One blank in front of a trimmed, non-empty string is what trim removes. */
  lemma TrimLeadingBlank(c: char, s: string)
    requires IsBlank(c) && IsTrimmed(s) && |s| > 0
    ensures Trim([c] + s) == s
  {
    assert ([c] + s)[1..] == s;
    assert LeadingBlanks(s) == 0;
    assert LeadingBlanks([c] + s) == 1;
    TrimTrimmed(s);
  }

  lemma TrimIdempotent(s: string)
    ensures Trim(Trim(s)) == Trim(s)
  {
    TrimTrimmed(Trim(s));
  }

  lemma TrimIsSubsequence(s: string)
    ensures IsSubsequence(Trim(s), s)
  {
    SliceIsSubsequence(s, LeadingBlanks(s), LeadingBlanks(s) + |Trim(s)|);
  }

  /** Character.toUpperCase and toLowerCase restricted to ASCII letters. */
  function UpperAscii(c: char): char {
    if 'a' <= c <= 'z' then (c as int - 32) as char else c
  }

  function LowerAscii(c: char): char {
    if 'A' <= c <= 'Z' then (c as int + 32) as char else c
  }

  /** The per-character test of String.equalsIgnoreCase. */
  predicate CharEqualsIgnoreCase(a: char, b: char) {
    a == b || UpperAscii(a) == UpperAscii(b) || LowerAscii(UpperAscii(a)) == LowerAscii(UpperAscii(b))
  }

  predicate EqualsIgnoreCase(a: string, b: string) {
    |a| == |b| && forall i :: 0 <= i < |a| ==> CharEqualsIgnoreCase(a[i], b[i])
  }

  function LowerAll(s: string): (r: string)
    ensures |r| == |s|
  {
    seq(|s|, i requires 0 <= i < |s| => LowerAscii(s[i]))
  }

  /** equalsIgnoreCase holds exactly when both strings lower-case to the same string. */
  lemma EqualsIgnoreCaseIffSameLower(a: string, b: string)
    ensures EqualsIgnoreCase(a, b) <==> LowerAll(a) == LowerAll(b)
  {
    if LowerAll(a) == LowerAll(b) {
      forall i | 0 <= i < |a|
        ensures CharEqualsIgnoreCase(a[i], b[i])
      {
        assert LowerAll(a)[i] == LowerAll(b)[i];
      }
    }
  }

}
