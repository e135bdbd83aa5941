/** String.replaceAll(regex, "") for the two regular expressions that
    cleanAIResponse uses, with java.util.regex semantics.

    replaceAll scans left to right: at the current position it tries to match;
    on a match it drops the matched text and resumes right after it, otherwise
    it keeps one character and moves on. Neither pattern matches the empty
    string, so an empty match never has to be stepped over.

    Both patterns are compiled without flags: `.` matches any character except
    a line terminator, `^` matches only at the start of the input and `$` only
    at its end or just before a line terminator that ends the input. */
module JavaRegex {
  import opened Optional
  import opened Strings

  datatype Pattern =
    | CodeFence   // ```.*?```  (lazy: the first closing fence on the same line)
    | EdgeQuotes  // ^['"`]+|['"`]+$

  /** Java's line terminators: \n, \r, U+0085, U+2028 and U+2029. */
  predicate IsLineTerminator(c: char) {
    c == '\n' || c == '\r' || c == '\U{0085}' || c == '\U{2028}' || c == '\U{2029}'
  }

  /** The character class ['"`]. */
  predicate IsQuote(c: char) {
    c == '\'' || c == '"' || c == '`'
  }

  const Fence: string := "```"

  /** Three backticks start at i. */
  predicate FenceAt(s: string, i: nat) {
    i + 3 <= |s| && s[i] == '`' && s[i + 1] == '`' && s[i + 2] == '`'
  }

  /** `.*` can cover s[k..j]: none of those characters is a line terminator. */
  predicate DotsMatch(s: string, k: nat, j: nat)
    requires k <= j <= |s|
  {
    forall t :: k <= t < j ==> !IsLineTerminator(s[t])
  }

  /** The lazy `.*?` followed by ```: try the closing fence first, and only when
      it is not there let `.` take one more character. LazyCloseFindsFirstFence
      states what it finds. */
  function LazyClose(s: string, k: nat): (r: Option<nat>)
    requires k <= |s|
    ensures r.Some? ==> k + 3 <= r.value <= |s|
    decreases |s| - k
  {
    if FenceAt(s, k) then Some(k + 3)
    else if k < |s| && !IsLineTerminator(s[k]) then LazyClose(s, k + 1)
    else None
  }

  /** The lazy match ends at the first closing fence that no line terminator
      separates from k, and there is none exactly when every closing fence is
      separated from k by a line terminator. */
  lemma {:induction false} LazyCloseFindsFirstFence(s: string, k: nat)
    requires k <= |s|
    ensures var r := LazyClose(s, k);
            && (r.Some? ==> FenceAt(s, r.value - 3) && DotsMatch(s, k, r.value - 3))
            && (r.Some? ==> forall j :: k <= j < r.value - 3 ==> !FenceAt(s, j))
            && (r.None? <==> forall j :: k <= j <= |s| && FenceAt(s, j) ==> !DotsMatch(s, k, j))
    decreases |s| - k
  {
    if FenceAt(s, k) {
      assert DotsMatch(s, k, k);
    } else if k < |s| && !IsLineTerminator(s[k]) {
      LazyCloseFindsFirstFence(s, k + 1);
      forall j | k + 1 <= j <= |s|
        ensures DotsMatch(s, k, j) <==> DotsMatch(s, k + 1, j)
      {
      }
    } else {
      forall j | k <= j <= |s| && FenceAt(s, j)
        ensures !DotsMatch(s, k, j)
      {
        assert !IsLineTerminator(s[k]) ==> j == k;
      }
    }
  }

  /** End of the longest run of quote characters starting at i (a greedy `+`). */
  function QuoteRunEnd(s: string, i: nat): (m: nat)
    requires i <= |s|
    ensures i <= m <= |s|
    ensures forall t :: i <= t < m ==> IsQuote(s[t])
    ensures m < |s| ==> !IsQuote(s[m])
    decreases |s| - i
  {
    if i < |s| && IsQuote(s[i]) then QuoteRunEnd(s, i + 1) else i
  }

  /** `$` without MULTILINE: at the end of the input, before a final line
      terminator (but not between the \r and \n of a final "\r\n"), or before a
      final "\r\n". */
  predicate DollarAt(s: string, j: nat)
    requires j <= |s|
  {
    if j == |s| then true
    else if j + 1 == |s| then
      (if s[j] == '\n' then !(j > 0 && s[j - 1] == '\r') else IsLineTerminator(s[j]))
    else j + 2 == |s| && s[j] == '\r' && s[j + 1] == '\n'
  }

  /** The greedy `+` gives back characters one at a time until `$` holds: the
      largest e in (i, j] with `$` at e. */
  function BacktrackToDollar(s: string, i: nat, j: nat): (r: Option<nat>)
    requires i <= j <= |s|
    ensures r.Some? ==> i < r.value <= j && DollarAt(s, r.value)
    ensures r.Some? ==> forall e :: r.value < e <= j ==> !DollarAt(s, e)
    ensures r.None? ==> forall e :: i < e <= j ==> !DollarAt(s, e)
    decreases j
  {
    if j <= i then None
    else if DollarAt(s, j) then Some(j)
    else BacktrackToDollar(s, i, j - 1)
  }

  /** The end of the match that starts at i, if any. */
  function MatchAt(p: Pattern, s: string, i: nat): (r: Option<nat>)
    requires i <= |s|
    ensures r.Some? ==> i < r.value <= |s|
    ensures p == CodeFence && r.Some? ==> FenceAt(s, i) && r == LazyClose(s, i + 3)
    ensures p == EdgeQuotes && r.Some? ==> forall t :: i <= t < r.value ==> IsQuote(s[t])
  {
    match p
    case CodeFence =>
      if FenceAt(s, i) then LazyClose(s, i + 3) else None
    case EdgeQuotes =>
      if i == 0 && QuoteRunEnd(s, 0) > 0 then Some(QuoteRunEnd(s, 0))
      else BacktrackToDollar(s, i, QuoteRunEnd(s, i))
  }

  /** When a match starts at i and where it ends: the fence pattern needs an
      opening fence at i and a closing one after it, reachable without crossing
      a line terminator; the quote pattern `^['"`]+|['"`]+$` takes the whole
      leading run at offset 0, and anywhere else the longest stretch of the quote
      run starting at i after which `$` holds. */
  lemma MatchAtFound(p: Pattern, s: string, i: nat)
    requires i <= |s|
    ensures p == CodeFence ==> (MatchAt(p, s, i).Some? <==> FenceAt(s, i) && LazyClose(s, i + 3).Some?)
    ensures p == EdgeQuotes && i == 0 && 0 < |s| && IsQuote(s[0]) ==>
              MatchAt(p, s, i) == Some(QuoteRunEnd(s, 0))
    ensures p == EdgeQuotes && !(i == 0 && 0 < |s| && IsQuote(s[0])) ==>
              && (MatchAt(p, s, i).Some? <==> exists e :: i < e <= QuoteRunEnd(s, i) && DollarAt(s, e))
              && (MatchAt(p, s, i).Some? ==>
                    forall e :: MatchAt(p, s, i).value < e <= QuoteRunEnd(s, i) ==> !DollarAt(s, e))
  {
    if p == EdgeQuotes && !(i == 0 && 0 < |s| && IsQuote(s[0])) {
      var m := QuoteRunEnd(s, i);
      var b := BacktrackToDollar(s, i, m);
      assert MatchAt(p, s, i) == b;
      if b.Some? {
        assert i < b.value <= m && DollarAt(s, b.value);
      }
    }
  }

  /** What replaceAll(p, "") appends from position i on. */
  function RemoveFrom(p: Pattern, s: string, i: nat): string
    requires i <= |s|
    decreases |s| - i
  {
    if i == |s| then []
    else match MatchAt(p, s, i)
      case Some(e) => RemoveFrom(p, s, e)
      case None => [s[i]] + RemoveFrom(p, s, i + 1)
  }

  /** s.replaceAll(p, "") */
  function RemoveAll(p: Pattern, s: string): string {
    RemoveFrom(p, s, 0)
  }

  /** One step of the scan: a match at i is dropped whole. */
  lemma RemoveFromSkip(p: Pattern, s: string, i: nat)
    requires i < |s| && MatchAt(p, s, i).Some?
    ensures RemoveFrom(p, s, i) == RemoveFrom(p, s, MatchAt(p, s, i).value)
  {
  }

  /** One step of the scan: without a match at i, s[i] is kept. */
  lemma RemoveFromKeep(p: Pattern, s: string, i: nat)
    requires i < |s| && MatchAt(p, s, i).None?
    ensures RemoveFrom(p, s, i) == [s[i]] + RemoveFrom(p, s, i + 1)
  {
  }

  /** replaceAll with an empty replacement only deletes characters. */
  lemma {:induction false} RemoveFromIsSubsequence(p: Pattern, s: string, i: nat)
    requires i <= |s|
    ensures IsSubsequence(RemoveFrom(p, s, i), s[i..])
    decreases |s| - i
  {
    if i < |s| {
      match MatchAt(p, s, i)
      case Some(e) =>
        RemoveFromIsSubsequence(p, s, e);
        assert s[i..] == s[i..e] + s[e..];
        SubsequenceDropPrefix(RemoveFrom(p, s, e), s[i..e], s[e..]);
      case None =>
        RemoveFromIsSubsequence(p, s, i + 1);
        assert s[i..][1..] == s[i + 1..];
    }
  }

  lemma RemoveAllIsSubsequence(p: Pattern, s: string)
    ensures IsSubsequence(RemoveAll(p, s), s)
    ensures |RemoveAll(p, s)| <= |s|
  {
    RemoveFromIsSubsequence(p, s, 0);
    assert s[0..] == s;
    SubsequenceLength(RemoveAll(p, s), s);
  }

  /** Where no match starts, replaceAll copies the input. */
  lemma {:induction false} RemoveFromUnmatched(p: Pattern, s: string, i: nat)
    requires i <= |s|
    requires forall k :: i <= k < |s| ==> MatchAt(p, s, k).None?
    ensures RemoveFrom(p, s, i) == s[i..]
    decreases |s| - i
  {
    if i < |s| {
      RemoveFromUnmatched(p, s, i + 1);
      assert s[i..] == [s[i]] + s[i + 1..];
    }
  }

  /** Neither pattern can match at a character that is not a quote (both need a
      quote character, the fence a backtick, to start). */
  lemma NoMatchAtNonQuote(p: Pattern, s: string, i: nat)
    requires i < |s| && !IsQuote(s[i])
    ensures MatchAt(p, s, i).None?
  {
    if p == EdgeQuotes {
      assert QuoteRunEnd(s, i) == i;
    }
  }

  /** Without a backtick there is no code fence to remove. */
  lemma BacktickFreeUnfenced(s: string)
    requires '`' !in s
    ensures RemoveAll(CodeFence, s) == s
  {
    forall k | 0 <= k < |s|
      ensures MatchAt(CodeFence, s, k).None?
    {
      assert s[k] in s;
    }
    RemoveFromUnmatched(CodeFence, s, 0);
  }

  /** A string without quote characters is left unchanged by both patterns. */
  lemma QuoteFreeUnchanged(p: Pattern, s: string)
    requires forall k :: 0 <= k < |s| ==> !IsQuote(s[k])
    ensures RemoveAll(p, s) == s
  {
    forall k | 0 <= k < |s|
      ensures MatchAt(p, s, k).None?
    {
      NoMatchAtNonQuote(p, s, k);
    }
    RemoveFromUnmatched(p, s, 0);
  }

  // ---------------------------------------------------------------------
  // The code-fence pattern only looks forward, so it can be studied on a suffix.

  /** An optional position moved d characters to the right. */
  function Shift(o: Option<nat>, d: nat): Option<nat> {
    match o
    case Some(e) => Some(d + e)
    case None => None
  }

  /** Looking for the closing fence of v + w from |v| + k finds what looking
      in w from k finds, |v| further on. */
  lemma {:induction false} LazyCloseShift(v: string, w: string, k: nat)
    requires k <= |w|
    ensures LazyClose(v + w, |v| + k) == Shift(LazyClose(w, k), |v|)
    decreases |w| - k
  {
    var s := v + w;
    if !FenceAt(w, k) && k < |w| {
      assert s[|v| + k] == w[k];
      LazyCloseShift(v, w, k + 1);
    }
  }

  lemma MatchAtShiftFence(v: string, w: string, j: nat)
    requires j <= |w|
    ensures MatchAt(CodeFence, v + w, |v| + j) == Shift(MatchAt(CodeFence, w, j), |v|)
  {
    if FenceAt(w, j) {
      LazyCloseShift(v, w, j + 3);
    }
  }

  lemma {:induction false} RemoveFromShiftFence(v: string, w: string, j: nat)
    requires j <= |w|
    ensures RemoveFrom(CodeFence, v + w, |v| + j) == RemoveFrom(CodeFence, w, j)
    decreases |w| - j
  {
    var s := v + w;
    if j < |w| {
      MatchAtShiftFence(v, w, j);
      var m := MatchAt(CodeFence, w, j);
      if m.Some? {
        assert MatchAt(CodeFence, s, |v| + j) == Some(|v| + m.value);
        RemoveFromSkip(CodeFence, w, j);
        RemoveFromSkip(CodeFence, s, |v| + j);
        RemoveFromShiftFence(v, w, m.value);
      } else {
        assert MatchAt(CodeFence, s, |v| + j) == None;
        assert s[|v| + j] == w[j];
        RemoveFromKeep(CodeFence, w, j);
        RemoveFromKeep(CodeFence, s, |v| + j);
        RemoveFromShiftFence(v, w, j + 1);
        assert |v| + j + 1 == |v| + (j + 1);
      }
    } else {
      assert |v| + j == |s|;
    }
  }

  /** Characters before the first backtick are kept as they are. */
  lemma {:induction false} RemoveFromBacktickFreePrefix(v: string, w: string, i: nat)
    requires i <= |v| && '`' !in v
    ensures RemoveFrom(CodeFence, v + w, i) == v[i..] + RemoveFrom(CodeFence, v + w, |v|)
    decreases |v| - i
  {
    if i < |v| {
      var s := v + w;
      assert s[i] == v[i];
      RemoveFromBacktickFreePrefix(v, w, i + 1);
      assert v[i..] == [v[i]] + v[i + 1..];
    }
  }

  /** A fenced span whose body stays on one line is removed whole, and the scan
      goes on right after its closing fence. */
  lemma SameLineFenceRemoved(v: string, b: string, c: string)
    requires '`' !in v && '`' !in b
    requires forall k :: 0 <= k < |b| ==> !IsLineTerminator(b[k])
    ensures RemoveAll(CodeFence, v + Fence + b + Fence + c) == v + RemoveAll(CodeFence, c)
  {
    var fenced := v + Fence + b + Fence;
    var s := fenced + c;
    assert s == v + (Fence + b + Fence + c);
    RemoveFromBacktickFreePrefix(v, Fence + b + Fence + c, 0);
    assert v[0..] == v;
    SameLineFenceMatch(v, b, c);
    RemoveFromSkip(CodeFence, s, |v|);
    RemoveFromShiftFence(fenced, c, 0);
  }

  /** The match at the opening fence ends right after the closing one. */
  lemma SameLineFenceMatch(v: string, b: string, c: string)
    requires '`' !in b
    requires forall k :: 0 <= k < |b| ==> !IsLineTerminator(b[k])
    ensures |v| < |v + Fence + b + Fence + c|
    ensures MatchAt(CodeFence, v + Fence + b + Fence + c, |v|) == Some(|v + Fence + b + Fence|)
  {
    var s := v + Fence + b + Fence + c;
    var k := |v| + 3;
    var close := |v| + 3 + |b|;
    forall t | k <= t < close
      ensures s[t] == b[t - k]
    {
    }
    assert FenceAt(s, |v|);
    assert FenceAt(s, close);
    assert DotsMatch(s, k, close);
    LazyCloseFindsFirstFence(s, k);
    var r := LazyClose(s, k);
    assert r.Some?;
    assert s[r.value - 3] == '`';
  }

  /** A text that is one fenced span, with no backtick in its body and a line
      terminator in it, has no match: it is left exactly as it was. (In a longer
      text the closing fence may still open a match with a later fence.) */
  lemma CrossLineFenceKept(b: string)
    requires '`' !in b
    requires exists k :: 0 <= k < |b| && IsLineTerminator(b[k])
    ensures RemoveAll(CodeFence, Fence + b + Fence) == Fence + b + Fence
  {
    var s := Fence + b + Fence;
    var close := 3 + |b|;
    forall t | 3 <= t < close
      ensures s[t] == b[t - 3]
    {
    }
    var nl :| 0 <= nl < |b| && IsLineTerminator(b[nl]);
    forall i | 0 <= i < |s|
      ensures MatchAt(CodeFence, s, i).None?
    {
      if i == 0 {
        LazyCloseFindsFirstFence(s, 3);
        forall j | 3 <= j <= |s| && FenceAt(s, j)
          ensures !DotsMatch(s, 3, j)
        {
          assert j >= close;
          assert IsLineTerminator(s[3 + nl]);
        }
      } else if i < 3 {
        assert s[3] == b[0];
      }
    }
    RemoveFromUnmatched(CodeFence, s, 0);
  }

  // ---------------------------------------------------------------------
  // The edge-quote pattern.

  /** Once the rest of the input is all quotes, the match at a quote runs to the end. */
  lemma QuoteTailMatches(s: string, i: nat)
    requires i < |s|
    requires forall t :: i <= t < |s| ==> IsQuote(s[t])
    ensures MatchAt(EdgeQuotes, s, i) == Some(|s|)
  {
    assert QuoteRunEnd(s, i) == |s|;
    if i == 0 {
      assert QuoteRunEnd(s, 0) > 0;
    }
  }

  /** Whatever the scan deletes from i on is quotes, so an empty result means a
      tail of quotes. */
  lemma {:induction false} EmptyRemovalAllQuotes(s: string, i: nat)
    requires i <= |s| && RemoveFrom(EdgeQuotes, s, i) == []
    ensures forall t :: i <= t < |s| ==> IsQuote(s[t])
    decreases |s| - i
  {
    if i < |s| {
      match MatchAt(EdgeQuotes, s, i)
      case Some(e) =>
        EmptyRemovalAllQuotes(s, e);
    }
  }

  /** From any position on, what the scan keeps does not end with a quote. */
  lemma {:induction false} RemoveFromLastNotQuote(s: string, i: nat)
    requires i <= |s|
    ensures var r := RemoveFrom(EdgeQuotes, s, i); |r| > 0 ==> !IsQuote(r[|r| - 1])
    decreases |s| - i
  {
    if i < |s| {
      var m := MatchAt(EdgeQuotes, s, i);
      if m.Some? {
        RemoveFromSkip(EdgeQuotes, s, i);
        RemoveFromLastNotQuote(s, m.value);
      } else {
        var rest := RemoveFrom(EdgeQuotes, s, i + 1);
        RemoveFromKeep(EdgeQuotes, s, i);
        if rest == [] {
          LastKeptNotQuote(s, i);
        } else {
          RemoveFromLastNotQuote(s, i + 1);
          assert ([s[i]] + rest)[|rest|] == rest[|rest| - 1];
        }
      }
    }
  }

  /** A char kept with nothing kept after it is not a quote: a quote there
      would start a run reaching the end, which `$` accepts. */
  lemma LastKeptNotQuote(s: string, i: nat)
    requires i < |s| && MatchAt(EdgeQuotes, s, i).None?
    requires RemoveFrom(EdgeQuotes, s, i + 1) == []
    ensures !IsQuote(s[i])
  {
    EmptyRemovalAllQuotes(s, i + 1);
    if IsQuote(s[i]) {
      QuoteTailMatches(s, i);
    }
  }

  /** The leading and the trailing run of quotes are removed: the result neither
      starts nor ends with a quote character. */
  lemma EdgeQuotesStripped(s: string)
    ensures var r := RemoveAll(EdgeQuotes, s); |r| > 0 ==> !IsQuote(r[0]) && !IsQuote(r[|r| - 1])
  {
    RemoveFromLastNotQuote(s, 0);
    var a := QuoteRunEnd(s, 0);
    if a < |s| {
      NoMatchAtNonQuote(EdgeQuotes, s, a);
      if a > 0 {
        assert RemoveAll(EdgeQuotes, s) == RemoveFrom(EdgeQuotes, s, a);
      }
      assert RemoveFrom(EdgeQuotes, s, a) == [s[a]] + RemoveFrom(EdgeQuotes, s, a + 1);
    }
  }

  /** s with every quote character dropped. */
  function WithoutQuotes(s: string): (r: string)
    decreases |s|
  {
    if |s| == 0 then []
    else (if IsQuote(s[0]) then [] else [s[0]]) + WithoutQuotes(s[1..])
  }

  lemma {:induction false} WithoutQuotesAppend(x: string, y: string)
    ensures WithoutQuotes(x + y) == WithoutQuotes(x) + WithoutQuotes(y)
    decreases |x|
  {
    if |x| == 0 {
      assert x + y == y;
    } else {
      var head := if IsQuote(x[0]) then [] else [x[0]];
      WithoutQuotesAppend(x[1..], y);
      assert (x + y)[0] == x[0] && (x + y)[1..] == x[1..] + y;
      assert WithoutQuotes(x + y) == head + WithoutQuotes(x[1..] + y);
      assert WithoutQuotes(x) == head + WithoutQuotes(x[1..]);
    }
  }

  lemma {:induction false} WithoutQuotesAllQuotes(x: string)
    requires forall t :: 0 <= t < |x| ==> IsQuote(x[t])
    ensures WithoutQuotes(x) == []
    decreases |x|
  {
    if |x| > 0 {
      WithoutQuotesAllQuotes(x[1..]);
    }
  }

  /** Dropping a run of quotes in front of a tail changes nothing once quotes are ignored. */
  lemma WithoutQuotesSkipRun(s: string, i: nat, e: nat, kept: string)
    requires i < e <= |s|
    requires forall t :: i <= t < e ==> IsQuote(s[t])
    requires WithoutQuotes(kept) == WithoutQuotes(s[e..])
    ensures WithoutQuotes(kept) == WithoutQuotes(s[i..])
  {
    assert s[i..] == s[i..e] + s[e..];
    WithoutQuotesAppend(s[i..e], s[e..]);
    WithoutQuotesAllQuotes(s[i..e]);
  }

  /** Keeping s[i] in front of a tail keeps the quote-free reading aligned. */
  lemma WithoutQuotesKeepOne(s: string, i: nat, kept: string)
    requires i < |s|
    requires WithoutQuotes(kept) == WithoutQuotes(s[i + 1..])
    ensures WithoutQuotes([s[i]] + kept) == WithoutQuotes(s[i..])
  {
    assert s[i..] == [s[i]] + s[i + 1..];
    WithoutQuotesAppend([s[i]], kept);
    WithoutQuotesAppend([s[i]], s[i + 1..]);
  }

  /** Only quote characters are deleted: every other character survives, in order. */
  lemma {:induction false} RemoveFromKeepsNonQuotes(s: string, i: nat)
    requires i <= |s|
    ensures WithoutQuotes(RemoveFrom(EdgeQuotes, s, i)) == WithoutQuotes(s[i..])
    decreases |s| - i
  {
    if i < |s| {
      var m := MatchAt(EdgeQuotes, s, i);
      if m.Some? {
        RemoveFromSkip(EdgeQuotes, s, i);
        RemoveFromKeepsNonQuotes(s, m.value);
        WithoutQuotesSkipRun(s, i, m.value, RemoveFrom(EdgeQuotes, s, m.value));
      } else {
        RemoveFromKeep(EdgeQuotes, s, i);
        RemoveFromKeepsNonQuotes(s, i + 1);
        WithoutQuotesKeepOne(s, i, RemoveFrom(EdgeQuotes, s, i + 1));
      }
    }
  }

  lemma EdgeQuotesKeepsNonQuotes(s: string)
    ensures WithoutQuotes(RemoveAll(EdgeQuotes, s)) == WithoutQuotes(s)
  {
    RemoveFromKeepsNonQuotes(s, 0);
    assert s[0..] == s;
  }

}
