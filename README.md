# Naukri profile headline updater: a Dafny model

The repository automates a daily edit of a Naukri profile's resume headline.
`NaukriProfileUpdater` reads the current headline from the profile page. It asks
a generative-text service (Gemini) for a fresh wording. If the call fails, it
falls back to a local variation that swaps two tool names. It cleans the
service's answer and writes the result back. `NaukriBot` is a second, smaller
bot: it asks the service for a headline, turns the answer's line feeds into
spaces and trims it.

This project models the decisions in that code as Dafny functions and proves
their properties as lemmas. The browser session and the HTTP plumbing are
left out. All modelled code is expression chains and conditionals without
state, so the model has no classes and no loops.

- `strings.dfy` (`Strings`): prefixes, substring occurrence (`Contains`), the
  left-to-right non-overlapping occurrence count (`Count`), and subsequences.
- `java_string.dfy` (`JavaString`): `String.replace` with a literal target,
  `String.trim` (strips every char at or below U+0020 at both ends), and
  `equalsIgnoreCase`.
- `java_regex.dfy` (`JavaRegex`): `String.replaceAll(regex, "")` for the two
  regular expressions of `cleanAIResponse`, with `java.util.regex` semantics.
  - The scan is leftmost-match and resumes after each match.
  - The lazy `.*?` stops at the first closing fence.
  - `.` does not match a line terminator (\n, \r, U+0085, U+2028, U+2029).
  - `^` matches at the start of the input only.
  - `$` matches at the end of the input, before a final line terminator (but
    not between the \r and \n of a final "\r\n"), and before a final "\r\n".
  - The greedy `+` backtracks to a position where `$` holds.
- `profile_updater.dfy` (`ProfileUpdater`): `createSmartVariation`,
  `cleanAIResponse`, `buildPrompt`, the outcome dispatch of
  `generateOptimizedContent`, the default of `getCurrentProfile`, the write
  choice of `performDailyUpdate`, and the environment check of `main`.
  - The one request to the service is a parameter `service: string -> Reply`.
  - A `Reply` is a status with the parsed candidate text, or `Unreachable` for
    an exception.
- `headline_bot.dfy` (`HeadlineBot`): `generatedText.replace("\n", " ").trim()`.

The model follows the code as written. The code has no keyword-preservation
guard, no length ceiling, no reordering of `|`-separated segments, no
randomness, and no retry or forced-local state, so the model has none either. The
250-character limit appears only inside the prompt text and is never enforced.
The local variation does remove "Selenium" from the headline.

## Model

| member | source | states |
|---|---|---|
| `JavaString.Replace` | src/main/java/com/automation/NaukriProfileUpdater.java:247 | Java's `String.replace`: a left-to-right scan that replaces each non-overlapping occurrence and resumes after it. Properties: `ReplaceAbsent`, `ReplaceLength`, `ReplaceAvoids`, `ReplaceKeepsCount`, `ReplaceKeepsCountSharedEnd`, `ReplaceIntroduces`, `ReplaceSingleChar`. |
| `Strings.CountZeroIffAbsent` | src/main/java/com/automation/NaukriProfileUpdater.java:247 | The non-overlapping occurrence count used by the length law is zero exactly when the word does not occur. |
| `JavaString.ReplaceAbsent` | src/main/java/com/automation/NaukriProfileUpdater.java:247 | `replace` returns its input unchanged when the target does not occur. |
| `JavaString.ReplaceLength` | src/main/java/com/automation/NaukriProfileUpdater.java:247 | Each replaced occurrence changes the length by the replacement's length minus the target's. |
| `JavaString.ReplaceAvoids` | src/main/java/com/automation/NaukriProfileUpdater.java:247 | After `replace`, neither the target nor a word absent before occurs, provided the word's first char is not in the replacement and the replacement's first char is not in the word. |
| `JavaString.ReplaceKeepsCount` | src/main/java/com/automation/NaukriProfileUpdater.java:247 | `replace` keeps the occurrence count of a word that cannot overlap the target or the replacement. |
| `JavaString.ReplaceKeepsCountSharedEnd` | src/main/java/com/automation/NaukriProfileUpdater.java:247 | `replace` also keeps the count of a word whose first char is the last char of both target and replacement and appears nowhere else in them, provided the word contains neither the target's nor the replacement's first char. |
| `JavaString.ReplaceIntroduces` | src/main/java/com/automation/NaukriProfileUpdater.java:247 | When the target occurs, the replacement occurs in the result. |
| `JavaString.ReplaceSingleChar` | src/main/java/com/automation/NaukriBot.java:47 | Replacing a one-char target by a one-char replacement is a position-by-position substitution. |
| `JavaString.Trim` | src/main/java/com/automation/NaukriProfileUpdater.java:118 | `trim` returns the contiguous slice starting at the first non-blank char, begins and ends with a char above U+0020, and cuts off only blanks. |
| `JavaString.TrimIdempotent` | src/main/java/com/automation/NaukriProfileUpdater.java:243 | Trimming twice is trimming once. |
| `JavaString.TrimIsSubsequence` | src/main/java/com/automation/NaukriProfileUpdater.java:118 | `trim` only deletes characters. |
| `JavaString.EqualsIgnoreCase` | src/main/java/com/automation/NaukriProfileUpdater.java:291 | `equalsIgnoreCase`: equal lengths, and each pair of chars equal as they are, after ASCII upper-casing, or after lower-casing the upper-cased chars. Property: `EqualsIgnoreCaseIffSameLower`. |
| `JavaString.EqualsIgnoreCaseIffSameLower` | src/main/java/com/automation/NaukriProfileUpdater.java:291 | `equalsIgnoreCase` holds exactly when both strings lower-case to the same string. |
| `JavaRegex.LazyClose` | src/main/java/com/automation/NaukriProfileUpdater.java:243 | The lazy `.*?` followed by a fence: when it finds one, it ends at least three chars past its start and within the text. Which fence it finds is `LazyCloseFindsFirstFence`. |
| `JavaRegex.QuoteRunEnd` | src/main/java/com/automation/NaukriProfileUpdater.java:243 | The greedy run of quote chars: every char from the start up to the result is a quote, and the char at the result, if any, is not. |
| `JavaRegex.DollarAt` | src/main/java/com/automation/NaukriProfileUpdater.java:243 | `$` without MULTILINE: at the end of the input, before a final line terminator (not between the \r and \n of a final "\r\n"), or before a final "\r\n". Used by `BacktrackToDollar` and `MatchAtFound`. |
| `JavaRegex.LazyCloseFindsFirstFence` | src/main/java/com/automation/NaukriProfileUpdater.java:243 | The lazy `.*?` before the closing fence ends at the first closing fence reachable without crossing a line terminator, and finds none exactly when every later fence is past a terminator. |
| `JavaRegex.BacktrackToDollar` | src/main/java/com/automation/NaukriProfileUpdater.java:243 | The greedy quote run gives back chars until `$` holds: it ends at the largest position of the run where `$` holds, and fails exactly when `$` holds nowhere in the run. |
| `JavaRegex.MatchAt` | src/main/java/com/automation/NaukriProfileUpdater.java:243 | A match is non-empty. A fence match starts at three backticks and ends at the lazy close. An edge-quote match covers only quote chars. |
| `JavaRegex.MatchAtFound` | src/main/java/com/automation/NaukriProfileUpdater.java:243 | When a match starts: a fence match exactly when three backticks stand there and a closing fence is reachable. An edge-quote match at offset 0 on a quote takes the whole leading run (`^['"`]+`). Anywhere else it exists exactly when `$` holds somewhere in the quote run starting there, and it ends at the last such position (`['"`]+$`). |
| `JavaRegex.RemoveAll` | src/main/java/com/automation/NaukriProfileUpdater.java:243 | `replaceAll(p, "")`: the leftmost match is deleted and the scan resumes after it. A failed position keeps its char. Properties: `RemoveAllIsSubsequence`, `QuoteFreeUnchanged`, `SameLineFenceRemoved`, `CrossLineFenceKept`, `EdgeQuotesStripped`, `EdgeQuotesKeepsNonQuotes`. |
| `JavaRegex.RemoveAllIsSubsequence` | src/main/java/com/automation/NaukriProfileUpdater.java:243 | `replaceAll(p, "")` only deletes characters. |
| `JavaRegex.QuoteFreeUnchanged` | src/main/java/com/automation/NaukriProfileUpdater.java:243 | Text without `'`, `"` or a backtick is not touched by either pattern. |
| `JavaRegex.SameLineFenceRemoved` | src/main/java/com/automation/NaukriProfileUpdater.java:243 | After a backtick-free prefix, a fenced span with no backtick and no line terminator in its body is removed whole, and the text after it is cleaned independently. |
| `JavaRegex.CrossLineFenceKept` | src/main/java/com/automation/NaukriProfileUpdater.java:243 | A text that is one fenced span, with no backtick in its body and a line terminator in it, comes back unchanged. |
| `JavaRegex.EdgeQuotesStripped` | src/main/java/com/automation/NaukriProfileUpdater.java:243 | After the quote pattern, the text neither starts nor ends with a quote char. |
| `JavaRegex.EdgeQuotesKeepsNonQuotes` | src/main/java/com/automation/NaukriProfileUpdater.java:243 | The quote pattern deletes only quote chars; every other char survives in order. |
| `ProfileUpdater.SmartVariation` | src/main/java/com/automation/NaukriProfileUpdater.java:246-248 | `createSmartVariation`: "Selenium" becomes "Playwright", then "Jenkins" becomes "GitHub Actions". Properties: the `SmartVariation…` lemmas below. |
| `ProfileUpdater.SmartVariationRemovesTerms` | src/main/java/com/automation/NaukriProfileUpdater.java:247 | The variation contains neither "Selenium" nor "Jenkins". |
| `ProfileUpdater.SmartVariationIntroducesSubstitutes` | src/main/java/com/automation/NaukriProfileUpdater.java:247 | "Playwright" appears when "Selenium" occurred, and "GitHub Actions" appears when "Jenkins" occurred. |
| `ProfileUpdater.SmartVariationUnchangedWithoutTerms` | src/main/java/com/automation/NaukriProfileUpdater.java:247 | Text with neither word, in that exact spelling, comes back unchanged. |
| `ProfileUpdater.SmartVariationChangesIff` | src/main/java/com/automation/NaukriProfileUpdater.java:247 | The variation equals its input if and only if neither word occurs. |
| `ProfileUpdater.SmartVariationIdempotent` | src/main/java/com/automation/NaukriProfileUpdater.java:247 | Applying the variation twice is applying it once. |
| `ProfileUpdater.SmartVariationCaseSensitive` | src/main/java/com/automation/NaukriProfileUpdater.java:247 | The swap is case-sensitive: for every content, lower-case "selenium" and "jenkins" occur in the result exactly as often as in the input. |
| `ProfileUpdater.SmartVariationLength` | src/main/java/com/automation/NaukriProfileUpdater.java:247 | The output length is the input length plus 2 per "Selenium" plus 7 per "Jenkins". |
| `ProfileUpdater.CleanAIResponse` | src/main/java/com/automation/NaukriProfileUpdater.java:242-244 | `cleanAIResponse`: remove fenced spans, then edge quotes, then trim. Properties: `CleanDeletesOnly`, `CleanKeepsPlainText`, `CleanDropsSameLineFence`, `CleanNotIdempotent`. |
| `ProfileUpdater.CleanDeletesOnly` | src/main/java/com/automation/NaukriProfileUpdater.java:242-244 | The cleaned answer is a subsequence of the input, no longer than it, and has no char at or below U+0020 at either end. |
| `ProfileUpdater.CleanKeepsPlainText` | src/main/java/com/automation/NaukriProfileUpdater.java:242-244 | A trimmed answer without quote chars is returned unchanged. |
| `ProfileUpdater.CleanDropsSameLineFence` | src/main/java/com/automation/NaukriProfileUpdater.java:242-244 | A leading same-line fenced span is dropped with its body. |
| `ProfileUpdater.CleanNotIdempotent` | src/main/java/com/automation/NaukriProfileUpdater.java:242-244 | The clean-up is not idempotent. For every non-empty trimmed word x without quote chars or line terminators, "' '" + x cleans to "'" + x, and a second pass gives x. |
| `ProfileUpdater.BuildPrompt` | src/main/java/com/automation/NaukriProfileUpdater.java:236-240 | `buildPrompt`: the fixed preamble, the current headline, the fixed rules. Property: `PromptRoundTrip`. |
| `ProfileUpdater.PromptRoundTrip` | src/main/java/com/automation/NaukriProfileUpdater.java:236-240 | The prompt carries the current headline verbatim between the fixed preamble and rules, and reading it back gives the headline. |
| `ProfileUpdater.OptimizedContent` | src/main/java/com/automation/NaukriProfileUpdater.java:158-185 | The branch on the reply: the cleaned, trimmed text on status 200 with a parsed text, the local variation otherwise. Property: `OptimizedContentOutcome`. |
| `ProfileUpdater.GenerateOptimizedContent` | src/main/java/com/automation/NaukriProfileUpdater.java:129-186 | `generateOptimizedContent`: one request with the built prompt, then the branch on its reply. Property: `GenerateOptimizedContentOutcome`. |
| `ProfileUpdater.OptimizedContentOutcome` | src/main/java/com/automation/NaukriProfileUpdater.java:158-185 | On status 200 with a parsed text, the result is trimmed and made of that text's chars. On any other status or an exception, it is the local variation, free of both replaced words. |
| `ProfileUpdater.GenerateOptimizedContentOutcome` | src/main/java/com/automation/NaukriProfileUpdater.java:129-186 | The one request's prompt carries the current headline and reads back to it. When that request returns status 200 with a parsed text, the result is trimmed and made of that text's chars. Otherwise it is the local variation, free of both replaced words. |
| `ProfileUpdater.HeadlineToWrite` | src/main/java/com/automation/NaukriProfileUpdater.java:267-271 | The optimized text when it differs from the current headline, else the local variation of the current one. Properties: `HeadlineToWriteUnchangedIff`, `FallbackWritesVariation`. |
| `ProfileUpdater.HeadlineToWriteUnchangedIff` | src/main/java/com/automation/NaukriProfileUpdater.java:267-271 | The written text equals the current headline if and only if the optimized text did and neither replaced word occurs in it. |
| `ProfileUpdater.FallbackWritesVariation` | src/main/java/com/automation/NaukriProfileUpdater.java:267-271 | When the service fails, the written text is the local variation of the current headline. |
| `ProfileUpdater.CurrentProfile` | src/main/java/com/automation/NaukriProfileUpdater.java:110-127 | `getCurrentProfile`: the trimmed page text, or the default headline when reading fails. Property: `CurrentProfileTrimmed`. |
| `ProfileUpdater.CurrentProfileTrimmed` | src/main/java/com/automation/NaukriProfileUpdater.java:110-127 | The current headline is trimmed, both when it is read from the page and when it is the default. When read, it is made of the page text's chars. |
| `ProfileUpdater.DailyUpdate` | src/main/java/com/automation/NaukriProfileUpdater.java:260-277 | `performDailyUpdate`: nothing when the session did not start, else the chosen text for the headline read. Property: `DailyUpdateWrites`. |
| `ProfileUpdater.DailyUpdateWrites` | src/main/java/com/automation/NaukriProfileUpdater.java:260-277 | A headline is handed to `updateProfile` exactly when the session started. That text differs from the headline read unless that headline has neither word. On a service failure, it is the local variation. |
| `ProfileUpdater.StartUp` | src/main/java/com/automation/NaukriProfileUpdater.java:279-293 | `main`'s environment check and settings. Property: `StartUpDecision`. |
| `ProfileUpdater.StartUpDecision` | src/main/java/com/automation/NaukriProfileUpdater.java:279-293 | The process exits with status 1 exactly when the user name or password is missing. Otherwise the values are passed on as read, a missing API key included. Headless mode is on exactly when HEADLESS_MODE is set and lower-cases to "true". |
| `HeadlineBot.NormalizeHeadline` | src/main/java/com/automation/NaukriBot.java:47 | `replace("\n", " ")` then `trim()`. Properties: the `Normalize…` lemmas and `NewlinesBecomeSpaces` below. |
| `HeadlineBot.NewlinesBecomeSpaces` | src/main/java/com/automation/NaukriBot.java:47 | `replace("\n", " ")` turns each line feed into a space, keeps every other char in place, and leaves no line feed. |
| `HeadlineBot.NormalizeIsSlice` | src/main/java/com/automation/NaukriBot.java:47 | The headline is a contiguous block of the input with '\n' read as ' ' and every other char, '\r' included, kept. Everything outside the block is blank (a line feed is itself at or below U+0020). |
| `HeadlineBot.NormalizeHasNoNewline` | src/main/java/com/automation/NaukriBot.java:47 | The headline contains no line feed. |
| `HeadlineBot.NormalizeTrimmedAndShorter` | src/main/java/com/automation/NaukriBot.java:47 | The headline has no char at or below U+0020 at either end and is no longer than the input. |
| `HeadlineBot.NormalizeFixesOneLineTrimmed` | src/main/java/com/automation/NaukriBot.java:47 | A trimmed text without a line feed is returned as it is. |
| `HeadlineBot.NormalizeIdempotent` | src/main/java/com/automation/NaukriBot.java:47 | Normalising twice is normalising once. |

## Left out

- Browser automation is not modelled. This covers WebDriver and Playwright setup, login, page reads and edits, and screenshots (NaukriProfileUpdater.java lines 53-108, 188-232, 250-258; NaukriBot.java lines 50-76). It is UI I/O against a third-party site. The model only takes its outcome: whether the session started, and whether the page text was read (`Option<string>`).
- Whether `updateProfile` succeeds is not modelled. Its page errors are thrown and caught in `performDailyUpdate` (NaukriProfileUpdater.java lines 227-230, 272-274). `DailyUpdate` returns the headline it hands over, not what the page ends up showing.
- The HTTP request, the line-reading response loop and the Gson/RestAssured JSON parsing are left out. They are foreign library calls. The service is a function from prompt to `Reply`, and a body without the expected shape is a `None` candidate text.
- The API key in the request URL, the model name and the request body's JSON shape are left out. They are part of the HTTP plumbing.
- `ProfileUpdater.GenerateOptimizedContent` assumes the per-line trim of the response loop does not change the parsed text. That holds for the JSON the service returns, whose string values carry line breaks as escapes.
- NaukriBot's `generateHeadline` prompt and request, and its exception propagation, are left out. Only the final normalisation of the text is modelled.
- Logger file setup, console output and the reads of environment variables are left out; they are process I/O. The variables are an `Environment` value passed to `StartUp`.
- `System.exit(1)` is the `Exit(1)` outcome. Constructing the updater and running it are the `Run` outcome.
- The unused `PEAK_HOURS` constant has no behaviour.
- Strings are sequences of Unicode scalar values, not UTF-16 code units. Surrogate pairs are not modelled.
- `JavaString.EqualsIgnoreCaseIffSameLower`: case folding covers ASCII letters only. Java also folds other alphabets, but the only comparison in the code is against "true".
- The 250-character limit in the prompt is text sent to the service. The code never enforces it, so the model does not either.
