/** The decisions of NaukriProfileUpdater: the local headline variation, the
    clean-up of the generative service's answer, the prompt, the choice between
    the service's answer and the local variation, the text that is finally
    written, the default headline and the start-up configuration check.

    The browser session and the HTTP call are not modelled; the one request the
    updater sends is a function from the prompt to the reply it gets back. */
module ProfileUpdater {
  import opened Optional
  import opened Strings
  import opened JavaString
  import opened JavaRegex

  // ---------------------------------------------------------------------
  // createSmartVariation

  const Selenium: string := "Selenium"
  const Playwright: string := "Playwright"
  const Jenkins: string := "Jenkins"
  const GitHubActions: string := "GitHub Actions"

  /** content.replace("Selenium", "Playwright").replace("Jenkins", "GitHub Actions") */
  function SmartVariation(content: string): string {
    Replace(Replace(content, Selenium, Playwright), Jenkins, GitHubActions)
  }

  /** No "Selenium" and no "Jenkins" is left: the second replacement cannot
      bring the first word back. */
  lemma SmartVariationRemovesTerms(content: string)
    ensures !Contains(SmartVariation(content), Selenium)
    ensures !Contains(SmartVariation(content), Jenkins)
  {
    var first := Replace(content, Selenium, Playwright);
    ReplaceAvoids(content, Selenium, Playwright, Selenium);
    ReplaceAvoids(first, Jenkins, GitHubActions, Selenium);
    ReplaceAvoids(first, Jenkins, GitHubActions, Jenkins);
  }

  /** Each word is replaced by its substitute, never dropped. */
  lemma SmartVariationIntroducesSubstitutes(content: string)
    ensures Contains(content, Selenium) ==> Contains(SmartVariation(content), Playwright)
    ensures Contains(content, Jenkins) ==> Contains(SmartVariation(content), GitHubActions)
  {
    if Contains(content, Selenium) {
      PlaywrightSurvives(content);
    }
    if Contains(content, Jenkins) {
      JenkinsSurvivesFirstReplace(content);
      ReplaceIntroduces(Replace(content, Selenium, Playwright), Jenkins, GitHubActions);
    }
  }

  /** "Playwright" from the first replacement is not touched by the second. */
  lemma PlaywrightSurvives(content: string)
    requires Contains(content, Selenium)
    ensures Contains(SmartVariation(content), Playwright)
  {
    var first := Replace(content, Selenium, Playwright);
    ReplaceIntroduces(content, Selenium, Playwright);
    ReplaceKeepsCount(first, Jenkins, GitHubActions, Playwright);
    CountZeroIffAbsent(first, Playwright);
    CountZeroIffAbsent(SmartVariation(content), Playwright);
  }

  /** "Jenkins" is not touched by the first replacement. */
  lemma JenkinsSurvivesFirstReplace(content: string)
    requires Contains(content, Jenkins)
    ensures Contains(Replace(content, Selenium, Playwright), Jenkins)
  {
    ReplaceKeepsCount(content, Selenium, Playwright, Jenkins);
    CountZeroIffAbsent(content, Jenkins);
    CountZeroIffAbsent(Replace(content, Selenium, Playwright), Jenkins);
  }

  /** Matching is case-sensitive and literal: text with neither word, in this
      exact spelling, comes back unchanged. */
  lemma SmartVariationUnchangedWithoutTerms(content: string)
    requires !Contains(content, Selenium) && !Contains(content, Jenkins)
    ensures SmartVariation(content) == content
  {
    ReplaceAbsent(content, Selenium, Playwright);
    ReplaceAbsent(content, Jenkins, GitHubActions);
  }

  /** The variation changes the text exactly when one of the two words occurs. */
  lemma SmartVariationChangesIff(content: string)
    ensures SmartVariation(content) == content <==> !Contains(content, Selenium) && !Contains(content, Jenkins)
  {
    SmartVariationRemovesTerms(content);
    if !Contains(content, Selenium) && !Contains(content, Jenkins) {
      SmartVariationUnchangedWithoutTerms(content);
    }
  }

  lemma SmartVariationIdempotent(content: string)
    ensures SmartVariation(SmartVariation(content)) == SmartVariation(content)
  {
    SmartVariationRemovesTerms(content);
    SmartVariationUnchangedWithoutTerms(SmartVariation(content));
  }

  /** The substitution is case-sensitive: for every content, the lower-case
      spellings "selenium" and "jenkins" occur in the result exactly as often
      as in the input. */
  lemma SmartVariationCaseSensitive(content: string)
    ensures Count(SmartVariation(content), "selenium") == Count(content, "selenium")
    ensures Count(SmartVariation(content), "jenkins") == Count(content, "jenkins")
  {
    var first := Replace(content, Selenium, Playwright);
    ReplaceKeepsCount(content, Selenium, Playwright, "jenkins");
    ReplaceKeepsCount(first, Jenkins, GitHubActions, "jenkins");
    ReplaceKeepsCount(content, Selenium, Playwright, "selenium");
    // "Jenkins" and "GitHub Actions" both end with the 's' that starts "selenium".
    ReplaceKeepsCountSharedEnd(first, Jenkins, GitHubActions, "selenium");
  }

  /** Every "Selenium" grows by 2 characters and every "Jenkins" by 7. */
  lemma SmartVariationLength(content: string)
    ensures |SmartVariation(content)| == |content| + 2 * Count(content, Selenium) + 7 * Count(content, Jenkins)
  {
    var first := Replace(content, Selenium, Playwright);
    ReplaceLength(content, Selenium, Playwright);
    ReplaceLength(first, Jenkins, GitHubActions);
    ReplaceKeepsCount(content, Selenium, Playwright, Jenkins);
  }

  // ---------------------------------------------------------------------
  // cleanAIResponse

  /** text.replaceAll("```.*?```", "").replaceAll("^['\"`]+|['\"`]+$", "").trim() */
  function CleanAIResponse(text: string): string {
    Trim(RemoveAll(EdgeQuotes, RemoveAll(CodeFence, text)))
  }

  /** The clean-up only deletes characters, and the answer never starts or
      ends with a char at or below U+0020. */
  lemma CleanDeletesOnly(text: string)
    ensures IsSubsequence(CleanAIResponse(text), text)
    ensures |CleanAIResponse(text)| <= |text|
    ensures IsTrimmed(CleanAIResponse(text))
  {
    var unfenced := RemoveAll(CodeFence, text);
    var unquoted := RemoveAll(EdgeQuotes, unfenced);
    RemoveAllIsSubsequence(CodeFence, text);
    RemoveAllIsSubsequence(EdgeQuotes, unfenced);
    TrimIsSubsequence(unquoted);
    SubsequenceTransitive(unquoted, unfenced, text);
    SubsequenceTransitive(CleanAIResponse(text), unquoted, text);
    SubsequenceLength(CleanAIResponse(text), text);
  }

  /** A trimmed answer without quote characters is taken as it is. */
  lemma CleanKeepsPlainText(text: string)
    requires IsTrimmed(text)
    requires forall k :: 0 <= k < |text| ==> !IsQuote(text[k])
    ensures CleanAIResponse(text) == text
  {
    QuoteFreeUnchanged(CodeFence, text);
    QuoteFreeUnchanged(EdgeQuotes, text);
    TrimTrimmed(text);
  }

  /** A code fence opened and closed on one line disappears with its body. */
  lemma CleanDropsSameLineFence(b: string, c: string)
    requires '`' !in b
    requires forall k :: 0 <= k < |b| ==> !IsLineTerminator(b[k])
    ensures CleanAIResponse(Fence + b + Fence + c) == CleanAIResponse(c)
  {
    SameLineFenceRemoved([], b, c);
    assert [] + Fence + b + Fence + c == Fence + b + Fence + c;
    assert [] + RemoveAll(CodeFence, c) == RemoveAll(CodeFence, c);
  }

  /** A non-empty, trimmed word without quote characters or line terminators. */
  predicate PlainWord(x: string) {
    |x| > 0 && IsTrimmed(x) && forall k :: 0 <= k < |x| ==> !IsQuote(x[k]) && !IsLineTerminator(x[k])
  }

  /** The clean-up is not idempotent: a quote that trimming exposes is removed
      only by a second pass. "' 'abc" cleans to "'abc", which cleans to "abc". */
  lemma CleanNotIdempotent(x: string)
    requires PlainWord(x)
    ensures CleanAIResponse("' '" + x) == "'" + x
    ensures CleanAIResponse(CleanAIResponse("' '" + x)) == x
    ensures CleanAIResponse(CleanAIResponse("' '" + x)) != CleanAIResponse("' '" + x)
  {
    CleanFirstPass(x);
    CleanSecondPass(x);
    assert |"'" + x| != |x|;
  }

  lemma CleanFirstPass(x: string)
    requires PlainWord(x)
    ensures CleanAIResponse("' '" + x) == "'" + x
  {
    var s := "' '" + x;
    forall k | 0 <= k < |s|
      ensures s[k] != '`'
    {
      if k >= 3 {
        assert s[k] == x[k - 3];
      }
    }
    BacktickFreeUnfenced(s);
    FirstPassQuotes(x);
    assert " '" + x == [' '] + ("'" + x);
    TrimLeadingBlank(' ', "'" + x);
  }

  /** The leading quote goes; the quote after the blank is neither leading nor
      trailing, so it stays. */
  lemma FirstPassQuotes(x: string)
    requires PlainWord(x)
    ensures RemoveAll(EdgeQuotes, "' '" + x) == " '" + x
  {
    var s := "' '" + x;
    FirstPassMatches(x);
    RemoveFromSkip(EdgeQuotes, s, 0);
    NoMatchAtNonQuote(EdgeQuotes, s, 1);
    RemoveFromKeep(EdgeQuotes, s, 1);
    RemoveFromKeep(EdgeQuotes, s, 2);
    forall k | 3 <= k < |s|
      ensures MatchAt(EdgeQuotes, s, k).None?
    {
      assert s[k] == x[k - 3];
      NoMatchAtNonQuote(EdgeQuotes, s, k);
    }
    RemoveFromUnmatched(EdgeQuotes, s, 3);
    assert s[3..] == x;
  }

  lemma FirstPassMatches(x: string)
    requires PlainWord(x)
    ensures MatchAt(EdgeQuotes, "' '" + x, 0) == Some(1)
    ensures MatchAt(EdgeQuotes, "' '" + x, 2) == None
  {
    var s := "' '" + x;
    assert QuoteRunEnd(s, 1) == 1;
    assert s[3] == x[0];
    assert QuoteRunEnd(s, 3) == 3;
    assert !DollarAt(s, 3);
  }

  lemma CleanSecondPass(x: string)
    requires PlainWord(x)
    ensures CleanAIResponse("'" + x) == x
  {
    var s := "'" + x;
    forall k | 0 <= k < |s|
      ensures s[k] != '`' && (k > 0 ==> MatchAt(EdgeQuotes, s, k).None?)
    {
      if k > 0 {
        assert s[k] == x[k - 1];
        NoMatchAtNonQuote(EdgeQuotes, s, k);
      }
    }
    BacktickFreeUnfenced(s);
    assert QuoteRunEnd(s, 1) == 1;
    assert MatchAt(EdgeQuotes, s, 0) == Some(1);
    RemoveFromSkip(EdgeQuotes, s, 0);
    RemoveFromUnmatched(EdgeQuotes, s, 1);
    assert s[1..] == x;
    TrimTrimmed(x);
  }

  // ---------------------------------------------------------------------
  // buildPrompt

  const PromptHead: string := "You are an expert resume optimizer. Rewrite this Naukri headline slightly to make it fresh but keep the same meaning. \nCurrent: "
  const PromptRules: string := "\nRules: Keep under 250 chars. Use '|' separator. Don't use markdown. return ONLY the headline."

  function BuildPrompt(currentContent: string): string {
    PromptHead + currentContent + PromptRules
  }

  /** Reads the headline back out of a prompt. */
  function PromptedHeadline(prompt: string): Option<string> {
    if |PromptHead| + |PromptRules| <= |prompt|
       && StartsWith(prompt, PromptHead)
       && prompt[|prompt| - |PromptRules|..] == PromptRules
    then Some(prompt[|PromptHead|..|prompt| - |PromptRules|])
    else None
  }

  /** The prompt carries the current headline verbatim. */
  lemma PromptRoundTrip(currentContent: string)
    ensures PromptedHeadline(BuildPrompt(currentContent)) == Some(currentContent)
  {
    var p := BuildPrompt(currentContent);
    assert p[..|PromptHead|] == PromptHead;
    assert p[|p| - |PromptRules|..] == PromptRules;
    assert p[|PromptHead|..|p| - |PromptRules|] == currentContent;
  }

  // ---------------------------------------------------------------------
  // generateOptimizedContent

  /** What the one request to the generative service ends in. */
  datatype Reply =
    | Answered(status: int, candidateText: Option<string>)  // the HTTP status; the text of the first candidate's first part, None when the body does not have that shape
    | Unreachable                                           // an exception before any status was read

  /** The candidate text, when the call succeeded and the body parsed. */
  function ReplyText(reply: Reply): Option<string> {
    if reply.Answered? && reply.status == 200 then reply.candidateText else None
  }

  /** The answer on status 200 with a parsed text; the local variation on any
      other status and on any exception. */
  function OptimizedContent(currentContent: string, reply: Reply): string {
    match ReplyText(reply)
    case Some(text) => CleanAIResponse(Trim(text))
    case None => SmartVariation(currentContent)
  }

  /** generateOptimizedContent sends one request, whose prompt is built from the
      current headline, and decides on its reply alone. */
  function GenerateOptimizedContent(currentContent: string, service: string -> Reply): string {
    OptimizedContent(currentContent, service(BuildPrompt(currentContent)))
  }

  /** On success the result is the service's text with characters deleted; on
      failure it is the local variation, free of both replaced words. */
  lemma OptimizedContentOutcome(currentContent: string, reply: Reply)
    ensures var r := OptimizedContent(currentContent, reply);
      match ReplyText(reply)
      case Some(text) => IsSubsequence(r, text) && IsTrimmed(r)
      case None => r == SmartVariation(currentContent) && !Contains(r, Selenium) && !Contains(r, Jenkins)
  {
    match ReplyText(reply)
    case Some(text) =>
      var trimmed := Trim(text);
      CleanDeletesOnly(trimmed);
      TrimIsSubsequence(text);
      SubsequenceTransitive(CleanAIResponse(trimmed), trimmed, text);
    case None =>
      SmartVariationRemovesTerms(currentContent);
  }

  /** generateOptimizedContent as a caller sees it: the one request carries the
      current headline, and the result is the service's text with characters
      deleted when that request succeeds, the local variation otherwise. */
  lemma GenerateOptimizedContentOutcome(currentContent: string, service: string -> Reply)
    ensures var prompt := BuildPrompt(currentContent);
            var r := GenerateOptimizedContent(currentContent, service);
      && PromptedHeadline(prompt) == Some(currentContent)
      && match ReplyText(service(prompt))
         case Some(text) => IsSubsequence(r, text) && IsTrimmed(r)
         case None => r == SmartVariation(currentContent) && !Contains(r, Selenium) && !Contains(r, Jenkins)
  {
    PromptRoundTrip(currentContent);
    OptimizedContentOutcome(currentContent, service(BuildPrompt(currentContent)));
  }

  // ---------------------------------------------------------------------
  // performDailyUpdate and getCurrentProfile

  /** The text handed to updateProfile: the optimized text when it differs from
      the current headline, the local variation of the current one otherwise. */
  function HeadlineToWrite(current: string, optimized: string): string {
    if current != optimized then optimized else SmartVariation(current)
  }

  /** The written text equals the current headline exactly when the optimized
      text did and the current headline has neither replaced word. */
  lemma HeadlineToWriteUnchangedIff(current: string, optimized: string)
    ensures HeadlineToWrite(current, optimized) == current
      <==> optimized == current && !Contains(current, Selenium) && !Contains(current, Jenkins)
  {
    SmartVariationChangesIff(current);
  }

  /** When the service fails, the written text is the local variation, whichever
      branch of the comparison is taken. */
  lemma FallbackWritesVariation(current: string, reply: Reply)
    requires ReplyText(reply).None?
    ensures HeadlineToWrite(current, OptimizedContent(current, reply)) == SmartVariation(current)
  {
  }

  /** "SDET | Software Quality Assurance | Automation Specialist" */
  const DefaultHeadline: string := "SDET" + " | " + "Software Quality Assurance" + " | " + "Automation Specialist"

  /** getCurrentProfile: the trimmed text read from the page, or the default
      headline when reading fails. */
  function CurrentProfile(pageText: Option<string>): string {
    match pageText
    case Some(text) => Trim(text)
    case None => DefaultHeadline
  }

  lemma CurrentProfileTrimmed(pageText: Option<string>)
    ensures IsTrimmed(CurrentProfile(pageText))
    ensures pageText.Some? ==> IsSubsequence(CurrentProfile(pageText), pageText.value)
  {
    if pageText.Some? {
      TrimIsSubsequence(pageText.value);
    }
  }

  /** performDailyUpdate: nothing is written when the browser cannot be started
      or the login fails; otherwise the chosen text is handed to updateProfile. */
  function DailyUpdate(sessionStarted: bool, pageText: Option<string>, service: string -> Reply): Option<string> {
    if !sessionStarted then None
    else
      var current := CurrentProfile(pageText);
      Some(HeadlineToWrite(current, GenerateOptimizedContent(current, service)))
  }

  /** A daily update writes text different from the headline it read unless that
      headline has neither replaced word; when the service fails it writes the
      local variation. */
  lemma DailyUpdateWrites(sessionStarted: bool, pageText: Option<string>, service: string -> Reply)
    ensures DailyUpdate(sessionStarted, pageText, service).Some? <==> sessionStarted
    ensures sessionStarted ==>
      var current := CurrentProfile(pageText);
      var written := DailyUpdate(sessionStarted, pageText, service).value;
      (written == current ==> !Contains(current, Selenium) && !Contains(current, Jenkins))
      && (ReplyText(service(BuildPrompt(current))).None? ==> written == SmartVariation(current))
  {
    if sessionStarted {
      var current := CurrentProfile(pageText);
      HeadlineToWriteUnchangedIff(current, GenerateOptimizedContent(current, service));
    }
  }

  // ---------------------------------------------------------------------
  // main

  /** The four environment variables main reads; None stands for null. */
  datatype Environment = Environment(
    username: Option<string>,
    password: Option<string>,
    geminiKey: Option<string>,
    headlessMode: Option<string>)

  datatype Settings = Settings(username: string, password: string, geminiKey: Option<string>, headless: bool)

  datatype Launch = Exit(code: int) | Run(settings: Settings)

  function StartUp(env: Environment): Launch {
    if env.username.None? || env.password.None? then Exit(1)
    else Run(Settings(env.username.value, env.password.value, env.geminiKey,
                      env.headlessMode.Some? && EqualsIgnoreCase(env.headlessMode.value, "true")))
  }

  /** The process exits (with status 1) exactly when the user name or the
      password is missing; the credentials and the possibly missing API key are
      passed on as read; headless mode is on exactly when HEADLESS_MODE is set
      and spells "true" in any letter case. */
  lemma StartUpDecision(env: Environment)
    ensures StartUp(env).Exit? <==> env.username.None? || env.password.None?
    ensures StartUp(env).Exit? ==> StartUp(env).code == 1
    ensures StartUp(env).Run? ==>
      var st := StartUp(env).settings;
      && Some(st.username) == env.username
      && Some(st.password) == env.password
      && st.geminiKey == env.geminiKey
      && (st.headless <==> env.headlessMode.Some? && LowerAll(env.headlessMode.value) == "true")
  {
    if env.headlessMode.Some? {
      EqualsIgnoreCaseIffSameLower(env.headlessMode.value, "true");
      assert LowerAll("true") == "true";
    }
  }

}
