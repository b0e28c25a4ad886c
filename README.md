# News article extraction and summarization: a Dafny model

This project models the core of a news agent written in C#:

- **Article body extraction** (`Services/ArticleBodyService.cs`). A fetched
  page is searched for its main content node. The search tries an `article`
  element, then a `div` whose class mentions `article-body`, then six
  fallback selectors. A fallback is used only when its node holds at least
  two paragraphs. The paragraphs' text is then cleaned: HTML entities are
  decoded, lines are trimmed, blank lines are dropped, and so are short
  all-capitals lines and lines that mention boilerplate keywords. White space
  is then normalised. The outcome is reported in an `ArticleBodyResult`.
- **Summarization** (`Services/AIAnalysisService.cs`). An article is
  cleaned and its token count estimated (four characters per token). Then
  one of three things happens:
  - a blank article comes back as the fixed empty-article message, and an
    article under 50 tokens comes back cleaned, without a request;
  - an article of up to 900 tokens is summarized in one call;
  - a longer article is cut into equal character chunks, each chunk is
    summarized with a shared budget, and the joined chunk summaries are
    summarized once more.

  Each summarize call posts one payload. It retries only a timeout, and only
  once.
- **The result wrapper** `Result<T>` (`Models/Result.cs`). `Success` is
  derived from the error message alone.

Files:

- `nullable.dfy`: C# null as `Option`.
- `text.dfy`: the .NET string operations the services use (`Trim`,
  `Split`, `Join`, `Replace`, `char.IsWhiteSpace`, and the `\s{2,}`
  regular expression) and their laws.
- `result.dfy`: `Result<T>`.
- `ai_analysis.dfy`: the summarization service.
- `article_body.dfy`: the extraction service.

Code that loops or updates state is written as methods with loops, each
proved equal to a specification function. These methods are
`ChunkText`, the retry loop `PostWithRetries`, the chunk loop
`SummarizeEachChunk`, the fallback loop in `GetMainContentNode`, and
`GetArticleBody` with its `ArticleBodyResult` object. The properties of the
services are lemmas about those specification functions.

The outside world is passed in as parameters:

- **The summarization backend** is a script. The k-th POST of a run
  receives `script(k)`: a non-success status, a parsed summary, a
  cancellation, or another exception.
- **The downloaded page** is either a parsed tree or the message of the
  `HttpRequestException` the download threw.
- **`WebUtility.HtmlDecode`** is a function parameter.

Facts the proofs bring out about the code as written:

- The `\s{2,}` collapse at `ArticleBodyService.cs:133` runs before the
  paragraph-break rewrite at line 134. It turns every `"\n\n"` between kept
  lines into one space, so the rewrite never changes anything
  (`BreakRunsIdentity`). The article body is the kept lines, each with its
  white space collapsed, joined by single spaces. It holds no `\n`
  (`CleanBodyJoinsLines`, `CleanBodyShape`). A lone `\r`, U+0085 or U+2028
  inside a line survives.
- `Success` on an `ArticleBodyResult` can hold with an empty body
  (`EmptyParagraphSucceeds`).
- Up to 3600 chunks, the chunked path makes exactly one request per chunk
  asked for, plus the final one (`ManyChunksExactCalls`).
- From 19 chunks on, the per-chunk budget `900 / n` falls below the
  `min_length` floor of 50. A request then asks for a minimum above its
  maximum (`ChunkBudgetBelowFloor`).
- `SummarizeTextAsync` never returns a blank string, and failures come back
  as ordinary strings (`OutcomeNotBlank`). So a failed chunk's message is
  summarized along with the others.

Other behaviour of the code that the model keeps as written:

- A summarize call makes at most two attempts. It retries only a timeout,
  after a fixed one-second wait (`AIAnalysisService.cs:169-216`).
- Every failure comes back as a string, and the summarization carries on
  with it.
- `GetMainContentNode` has no text-density fallback. The repository has a
  headless-browser renderer (`PlaywrightRenderService.RenderPageHtmlAsync`),
  but nothing calls it: the page is always the one downloaded by
  `HttpClient`.

## Model

| member | source | states |
|---|---|---|
| Models.Result.Success | Models/Result.cs:8 | `Success` is `string.IsNullOrEmpty(ErrorMessage)` and depends on nothing else. `Ok` and `Fail` state what it gives for each constructor |
| Models.Ok | Models/Result.cs:10 | `Ok(v)` succeeds, carries `v` and has a null error message |
| Models.Fail | Models/Result.cs:11 | `Fail(e)` leaves `Value` unset and sets `ErrorMessage = e`. It reports success exactly when `e` is null or empty |
| Text.IsWhite | Services/AIAnalysisService.cs:248 | `char.IsWhiteSpace`, which is also the regex class `\s`: U+0009 to U+000D, U+0085, and the separators U+0020, U+00A0, U+1680, U+2000 to U+200A, U+2028, U+2029, U+202F, U+205F and U+3000. `Trim`, `IsBlank` and `CollapseWhite` are defined on it |
| Text.Trim | Services/AIAnalysisService.cs:248 | `string.Trim()`: the slice between the leading and the trailing white-space runs. `TrimShape`, `TrimSlice` and `TrimKeepsText` state its properties |
| Text.TrimShape | Services/AIAnalysisService.cs:248 | `Trim` leaves no white space at either end. It gives "" exactly for blank input, keeps only characters of the input, changes nothing on text already trimmed, and keeps text free of adjacent white space |
| Text.TrimSlice | Services/AIAnalysisService.cs:248 | `Trim(s)` is a slice `s[i..j]` of the input, and only white space lies before `i` and after `j` |
| Text.TrimKeepsText | Services/AIAnalysisService.cs:248 | `Trim` removes white space only: every other character of the input is kept, in order |
| Text.CollapseWhite | Services/AIAnalysisService.cs:248 | `Regex.Replace(s, @"\s{2,}", " ")`: never longer than the input, and it starts with white space exactly when the input does. Its other properties are stated by `CollapseWhiteShape`, `CollapseWhiteKeepsText`, `CollapseWhiteFixpoint` and `CollapseWhiteAppend` |
| Text.CollapseWhiteShape | Services/AIAnalysisService.cs:248 | after `\s{2,}` → " ", no two white-space characters are adjacent, every character is from the input or is the space written, and a final non-white character is kept |
| Text.CollapseWhiteKeepsText | Services/ArticleBodyService.cs:133 | the collapse keeps every non-white character, in order: removing white space gives the same text before and after |
| Text.CollapseWhiteFixpoint | Services/AIAnalysisService.cs:248 | text with no two adjacent white-space characters is left unchanged by the collapse |
| Text.CollapseWhiteAppend | Services/ArticleBodyService.cs:133 | collapsing `x + y` is collapsing `x` and `y` apart, when `x` does not end in white space |
| Text.Split | Services/ArticleBodyService.cs:112 | `Split('\n')` gives at least one piece, and no piece holds the separator |
| Text.JoinSplit | Services/ArticleBodyService.cs:112 | joining the pieces of `Split(c)` with `c` gives back the text |
| Text.ReplaceAllAppend | Services/AIAnalysisService.cs:240-246 | a chain of `Replace(char, string)` calls distributes over concatenation |
| Text.ReplaceAllIsMapChars | Services/AIAnalysisService.cs:240-246 | a chain of `Replace` calls in which no replacement text holds a replaced character is one pass that maps each character on its own |
| AIAnalysisService.ReplacementsAreClosed | Services/AIAnalysisService.cs:240-246 | none of the twelve replacement texts holds a character that the chain replaces |
| AIAnalysisService.TypographyMatchesTable | Services/AIAnalysisService.cs:240-246 | the per-character map is the first matching entry of the chain, or the character itself |
| AIAnalysisService.ReplaceChainIsOnePass | Services/AIAnalysisService.cs:240-246 | the twelve `Replace` calls in source order equal one per-character pass |
| AIAnalysisService.CleanText | Services/AIAnalysisService.cs:235-249 | blank (or null) text cleans to "" |
| AIAnalysisService.CleanTextRemovesRewritten | Services/AIAnalysisService.cs:235-249 | no curly quote, U+FFFD, no-break space, en or em dash, ellipsis, tab, CR or LF survives cleaning |
| AIAnalysisService.CleanTextIsClean | Services/AIAnalysisService.cs:235-249 | cleaned text is trimmed, never holds two adjacent white-space characters, and holds no rewritten character |
| AIAnalysisService.CleanTextFixesClean | Services/AIAnalysisService.cs:235-249 | clean text is a fixed point of `CleanText` |
| AIAnalysisService.CleanTextIdempotent | Services/AIAnalysisService.cs:141 | cleaning twice equals cleaning once, so `SummarizeTextAsync` re-cleaning the cleaned article changes nothing |
| AIAnalysisService.CleanTextKeepsText | Services/AIAnalysisService.cs:235-249 | for non-blank text, cleaning changes only white space: the non-white characters of the result are those of the one-pass character rewrite, in order |
| AIAnalysisService.EstimateTokens | Services/AIAnalysisService.cs:50 | the estimate is the cleaned length divided by 4, rounded down. `SingleChunkIff`, `ShortArticlesSkipBackend` and `LongEnoughForChunkCount` state what it decides |
| AIAnalysisService.CeilDivBounds | Services/AIAnalysisService.cs:60 | `(int)Math.Ceiling(a / (double)b)` is at least `a / b`, and one less would be too small |
| AIAnalysisService.CeilDivUnique | Services/AIAnalysisService.cs:84 | the ceiling is the only number with those two properties |
| AIAnalysisService.ChunkCount | Services/AIAnalysisService.cs:60 | `(int)Math.Ceiling(tokens / 900.0)`. `SingleChunkIff`, `SummarizeArticleCalls` and `ManyChunksExactCalls` state what it decides |
| AIAnalysisService.SingleChunkIff | Services/AIAnalysisService.cs:60-63 | an article gets one chunk exactly when its estimate is at most 900 tokens |
| AIAnalysisService.QuickBudget | Services/AIAnalysisService.cs:68 | the single-pass budget lies in [50, 200]. It is a quarter of the estimate when that quarter lies in the range, 50 when the quarter is below 50, and 200 when it is above 200 |
| AIAnalysisService.ChunkSize | Services/AIAnalysisService.cs:84 | a non-empty article gets a positive chunk size |
| AIAnalysisService.ChunkSizeBounds | Services/AIAnalysisService.cs:84 | chunks of that size cover the article in at most `chunkCount` pieces. With two or more chunks asked for, a chunk is shorter than the article |
| AIAnalysisService.ChunkBudget | Services/AIAnalysisService.cs:92 | `(int)Math.Floor(900 / (double)n)`. `ChunkBudgetBounds` and `ChunkBudgetBelowFloor` state its properties |
| AIAnalysisService.ChunkBudgetBounds | Services/AIAnalysisService.cs:92 | the per-chunk budget is the largest `b` with `n * b <= 900` |
| AIAnalysisService.MinLength | Services/AIAnalysisService.cs:143 | `min_length` is at least 50 and at least `(int)(max * 0.8)`, and equals that truncation when above 50. It is at most `max` exactly when `max >= 50` |
| AIAnalysisService.ChunkBudgetBelowFloor | Services/AIAnalysisService.cs:92 | the per-chunk budget is below 50 exactly from 19 chunks on, and then `min_length` exceeds `max_length` |
| AIAnalysisService.ChunksConcat | Services/AIAnalysisService.cs:222-231 | the chunks concatenate back to the text: nothing is lost, repeated or reordered |
| AIAnalysisService.ChunksSizes | Services/AIAnalysisService.cs:222-231 | every chunk is non-empty and at most the chunk size, and all chunks but the last are exactly the chunk size |
| AIAnalysisService.ChunksCount | Services/AIAnalysisService.cs:222-231 | the number of chunks is the ceiling of the length over the chunk size |
| AIAnalysisService.ChunkText | Services/AIAnalysisService.cs:222-231 | the stepping loop produces exactly the specified chunks |
| AIAnalysisService.CeilDivOfCeilDiv | Services/AIAnalysisService.cs:84-87 | cutting `length` characters into pieces of `ceil(length / n)` characters gives at most `n` pieces |
| AIAnalysisService.ChunksWithinCount | Services/AIAnalysisService.cs:84-87 | `ChunkText` never makes more chunks than the count asked for, and at least two when two or more were asked for |
| AIAnalysisService.CeilDivOfCeilDivExact | Services/AIAnalysisService.cs:84-87 | when `length > n * (n - 1)`, pieces of `ceil(length / n)` characters number exactly `n` |
| AIAnalysisService.ChunksExactCount | Services/AIAnalysisService.cs:84-87 | a text longer than `n * (n - 1)` characters is cut into exactly `n` chunks |
| AIAnalysisService.Payload | Services/AIAnalysisService.cs:141-157 | the request body: the cleaned text, `min_length` from the budget, and the budget as `max_length`. `SummarizeText` states that it is what is posted |
| AIAnalysisService.Retryable | Services/AIAnalysisService.cs:203 | the catch filter: only a `TaskCanceledException` whose token reports no cancellation goes to the retry path. `RetryPolicy`, `TimeoutsExhaustAttempts` and `FirstAnswerEndsCall` state what it decides |
| AIAnalysisService.ReplyText | Services/AIAnalysisService.cs:181-216 | what a final reply gives: "Status: ..., Body: ..." for a non-success status, the summary text or the invalid-summary message for a parsed reply, and the failure prefix with the message for a cancellation or another exception. `OutcomeNotBlank` states that none is blank |
| AIAnalysisService.Outcome | Services/AIAnalysisService.cs:169-219 | the retry policy: the first reply that is not a retryable timeout gives the result, and running out of attempts on timeouts gives the timeout message. `RetryPolicy`, `TimeoutsExhaustAttempts` and `FirstAnswerEndsCall` state its properties |
| AIAnalysisService.Attempts | Services/AIAnalysisService.cs:169 | a summarize call makes between one and the allowed number of POSTs |
| AIAnalysisService.OutcomeNotBlank | Services/AIAnalysisService.cs:169-219 | a summarize call never returns a blank string, whatever the backend does |
| AIAnalysisService.TimeoutsExhaustAttempts | Services/AIAnalysisService.cs:203-208 | when every attempt times out, all attempts are used and the timeout message is returned |
| AIAnalysisService.FirstAnswerEndsCall | Services/AIAnalysisService.cs:178-216 | the first reply that is not a timeout ends the call: it is the result, and no further POST is made |
| AIAnalysisService.RetryPolicy | Services/AIAnalysisService.cs:169-219 | there are two POSTs exactly when the first is a timeout. The result is the first non-timeout reply, or the timeout message after two timeouts |
| AIAnalysisService.PostWithRetries | Services/AIAnalysisService.cs:169-219 | the retry loop returns the specified outcome after the specified number of POSTs |
| AIAnalysisService.SummarizeText | Services/AIAnalysisService.cs:139-220 | the payload is the cleaned text with `min_length`/`max_length` from the budget, and the summary and POST count are those of the retry policy |
| AIAnalysisService.SummarizeChunks | Services/AIAnalysisService.cs:95-119 | one summary and one request per chunk; each chunk costs one or two POSTs |
| AIAnalysisService.SummarizeChunksCalls | Services/AIAnalysisService.cs:107-110 | request i summarizes chunk i with the shared budget |
| AIAnalysisService.SummarizeChunksSnoc | Services/AIAnalysisService.cs:95-119 | summarizing one more chunk appends its summary, request and POSTs, as the foreach does |
| AIAnalysisService.SummarizeEachChunk | Services/AIAnalysisService.cs:95-119 | the foreach produces exactly the specified summaries, requests and POST count |
| AIAnalysisService.SummarizeInChunks | Services/AIAnalysisService.cs:83-135 | the chunked path runs chunking, per-chunk summaries and the final summary of their join as specified |
| AIAnalysisService.SummarizeSpec | Services/AIAnalysisService.cs:42-136 | the three paths of `SummarizeArticleAsync`: no request for blank text or under 50 tokens, one request up to one chunk, and the chunked path otherwise. `SummarizeArticle` is proved equal to it; `ShortArticlesSkipBackend`, `SummarizeArticleCalls`, `SinglePassCall`, `MultiChunkCalls` and `ManyChunksExactCalls` state its properties |
| AIAnalysisService.ChunkedSpec | Services/AIAnalysisService.cs:83-135 | the chunked path: one request per chunk with the shared budget, then one for the joined summaries with budget 300. `SummarizeInChunks` is proved equal to it; `MultiChunkCalls` states its properties |
| AIAnalysisService.SummarizeArticle | Services/AIAnalysisService.cs:42-136 | the driver returns the specified summary, request sequence and POST count for every article and backend |
| AIAnalysisService.ShortArticlesSkipBackend | Services/AIAnalysisService.cs:44-57 | blank text gives the empty-article message. Otherwise an estimate below 50 tokens returns the cleaned text. Neither makes a request |
| AIAnalysisService.SummarizeArticleCalls | Services/AIAnalysisService.cs:42-136 | no request below 50 tokens; exactly one up to 900 tokens; beyond that, between 3 and chunk count + 1. POSTs number between the requests and twice the requests |
| AIAnalysisService.SinglePassCall | Services/AIAnalysisService.cs:63-80 | the single request carries the cleaned article with a budget in [50, 200] and a `min_length` not above it. Its outcome is the result |
| AIAnalysisService.MultiChunkCalls | Services/AIAnalysisService.cs:83-135 | at least two chunks and at most the chunk count, partitioning the cleaned article; request i is chunk i; `n * budget <= 900`. The last request is the joined summaries with budget 300, and its outcome is the result |
| AIAnalysisService.TakesChunkedPath | Services/AIAnalysisService.cs:59-63 | above 900 tokens the count is at least two and the article takes the chunked path |
| AIAnalysisService.LongEnoughForChunkCount | Services/AIAnalysisService.cs:46-60 | for a count of at most 3600 chunks, the cleaned article is longer than `count * (count - 1)` characters |
| AIAnalysisService.ManyChunksExactCalls | Services/AIAnalysisService.cs:83-135 | for a count of at most 3600 chunks, the chunked path makes exactly `count + 1` requests: one per chunk asked for, plus the final one |
| ArticleBodyService.LowerAscii | Services/ArticleBodyService.cs:89 | XPath `translate(@class, 'A..Z', 'a..z')`: ASCII capitals become lower case, and every other character, and the length, stay as they are |
| ArticleBodyService.Matches | Services/ArticleBodyService.cs:76-90 | the XPath predicates: the element name equals the tag, and, per selector shape, the class contains the part, the class or the id contains it, or the ASCII-lowered class contains it. The constants `ArticleElement`, `ArticleBodyDiv` and `Fallbacks` give the two defaults of lines 76-77 and the six fallbacks of lines 84-89 in array order. `LocateMatches` and `FirstAcceptedMatches` state what a chosen node matches |
| ArticleBodyService.FirstMatch | Services/ArticleBodyService.cs:76 | `SelectSingleNode("//...")` picks the first matching node in document order |
| ArticleBodyService.SelectParagraphs | Services/ArticleBodyService.cs:47 | `SelectNodes(".//p")`: the `p` elements below the node, in document order, with the empty list for null |
| ArticleBodyService.Accepted | Services/ArticleBodyService.cs:95 | `candidateNode.SelectNodes(".//p")?.Count >= 2`: a fallback node holds at least two paragraphs. `LocateFallback`, `LocateNone` and `FirstAcceptedMatches` state how it decides the fallback |
| ArticleBodyService.Locate | Services/ArticleBodyService.cs:73-103 | the first `article` element; otherwise the first `div` with "article-body" in its class; otherwise the first accepted fallback. `LocateDefaults`, `LocateFallback`, `LocateNone` and `LocateMatches` state its properties |
| ArticleBodyService.FirstAccepted | Services/ArticleBodyService.cs:92-100 | the first fallback, from a position on, whose first match holds two or more paragraphs. `FirstAcceptedFrom`, `FirstAcceptedNone` and `FirstAcceptedMatches` state its properties |
| ArticleBodyService.GetMainContentNode | Services/ArticleBodyService.cs:73-103 | the method, with its fallback loop and `break`, returns exactly the specified node |
| ArticleBodyService.LocateDefaults | Services/ArticleBodyService.cs:76-77 | the first `article` element wins, with or without paragraphs. Without one, the first `div` whose class contains "article-body" wins |
| ArticleBodyService.LocateFallback | Services/ArticleBodyService.cs:80-100 | without either default, fallback i is chosen when its first match has two or more paragraphs and every earlier fallback was rejected |
| ArticleBodyService.FirstAcceptedFrom | Services/ArticleBodyService.cs:92-100 | the loop from position `start` stops at the first fallback whose first match is accepted |
| ArticleBodyService.LocateNone | Services/ArticleBodyService.cs:73-103 | null exactly when there is no `article`, no "article-body" div, and every fallback is rejected |
| ArticleBodyService.FirstAcceptedNone | Services/ArticleBodyService.cs:92-100 | the loop finds nothing exactly when every remaining fallback is rejected |
| ArticleBodyService.LocateMatches | Services/ArticleBodyService.cs:73-103 | the node returned belongs to the document and matches a default selector, or matches a fallback and holds two or more paragraphs |
| ArticleBodyService.FirstAcceptedMatches | Services/ArticleBodyService.cs:92-100 | a node found by the loop belongs to the document, holds two or more paragraphs and matches a remaining fallback |
| ArticleBodyService.InnerText | Services/ArticleBodyService.cs:50 | `HtmlNode.InnerText`: the text of every text node below the node, in document order, still HTML-encoded |
| ArticleBodyService.ParagraphTexts | Services/ArticleBodyService.cs:50 | `paragraphs.Select(p => p.InnerText.Trim())`: one trimmed text per paragraph, in order. `ExpectedBody` and `EmptyParagraphSucceeds` state what follows from it |
| ArticleBodyService.CleanBody | Services/ArticleBodyService.cs:106-109 | blank text cleans to "" |
| ArticleBodyService.TrimLinesShape | Services/ArticleBodyService.cs:112-113 | the trimmed pieces of `Split('\n')` are trimmed and hold no `\n` |
| ArticleBodyService.DropBlankKeeps | Services/ArticleBodyService.cs:114 | the first `Where` keeps exactly the non-blank lines, each as often as it occurs (multiset counts), in order |
| ArticleBodyService.IsShouty | Services/ArticleBodyService.cs:126 | a line under 40 characters in which every letter is upper case: the first half of the noise test |
| ArticleBodyService.IsBoilerplate | Services/ArticleBodyService.cs:127 | a line that contains one of the six skip keywords, ignoring case: the second half of the noise test |
| ArticleBodyService.DropNoiseKeeps | Services/ArticleBodyService.cs:124-129 | the second `Where` keeps exactly the lines that are neither short all-capitals nor keyword boilerplate, each as often as it occurs (multiset counts), in order |
| ArticleBodyService.KeptLines | Services/ArticleBodyService.cs:112-129 | split on `\n`, trim each piece, drop blank lines, then drop noise lines. `KeptLinesExact` and `KeptLinesShape` state its properties |
| ArticleBodyService.KeptLinesExact | Services/ArticleBodyService.cs:112-129 | a line is kept exactly when it is a trimmed piece that is neither blank nor noise. Each is kept as often as it occurs among the trimmed pieces, and kept lines keep their order |
| ArticleBodyService.KeptLinesShape | Services/ArticleBodyService.cs:112-129 | every kept line is non-empty and trimmed, holds no `\n`, and is not noise |
| ArticleBodyService.CollapseBreak | Services/ArticleBodyService.cs:132-133 | the "\n\n" before a trimmed line collapses to one space |
| ArticleBodyService.CollapseJoin | Services/ArticleBodyService.cs:132-133 | collapsing white space in lines joined by "\n\n" is joining the collapsed lines with single spaces |
| ArticleBodyService.BreakRuns | Services/ArticleBodyService.cs:134 | `Regex.Replace(s, @"(\r?\n\s*){2,}", "\n\n")`, scanning left to right. `BreakRunsIdentity` states what it does on the text it receives |
| ArticleBodyService.BreakRunsIdentity | Services/ArticleBodyService.cs:134 | the paragraph-break rewrite changes nothing on text with no two adjacent white-space characters, which is all it receives |
| ArticleBodyService.JoinedLinesNoBreak | Services/ArticleBodyService.cs:132-133 | lines without `\n`, collapsed and joined with spaces, hold no `\n` |
| ArticleBodyService.JoinedLinesTrimmed | Services/ArticleBodyService.cs:132-136 | trimmed lines, collapsed and joined with spaces, are trimmed |
| ArticleBodyService.JoinedLinesShape | Services/ArticleBodyService.cs:132-136 | the joined text has no `\n`, no two adjacent white-space characters, and no white space at either end |
| ArticleBodyService.CleanBodyJoinsLines | Services/ArticleBodyService.cs:106-137 | for non-blank text, `CleanText` is the kept lines, each collapsed, joined by single spaces |
| ArticleBodyService.CleanBodyShape | Services/ArticleBodyService.cs:106-137 | `CleanText`'s output has no `\n`, no two adjacent white-space characters, and no white space at either end |
| ArticleBodyService.ArticleBodyResult.constructor | Services/ArticleBodyService.cs:141-144 | a new result has both properties null |
| ArticleBodyService.ArticleBodyResult.Success | Services/ArticleBodyService.cs:145 | `Success` is `string.IsNullOrEmpty(ErrorMessage)` and depends on nothing else. `GetArticleBody` and `ExpectedSuccess` state when it holds |
| ArticleBodyService.Expected | Services/ArticleBodyService.cs:31-68 | the outcome `GetArticleBodyAsync` selects: the fetch error, no main content, no paragraphs, or the cleaned paragraph text. `ExpectedSuccess`, `ExpectedErrors` and `ExpectedBody` state its properties, and `GetArticleBody` is proved to store it |
| ArticleBodyService.GetArticleBody | Services/ArticleBodyService.cs:31-68 | a fresh result whose properties are the selected outcome. It succeeds exactly when a main content node with at least one paragraph was found |
| ArticleBodyService.ExpectedSuccess | Services/ArticleBodyService.cs:44-66 | exactly one of body and error message is set, and the error is never empty. So `Success` holds exactly when a main content node with a paragraph exists |
| ArticleBodyService.ExpectedErrors | Services/ArticleBodyService.cs:53-66 | a failed download reports "[ERROR] Failed to fetch article: " with the exception message; no node and no paragraphs report their "[INFO]" messages |
| ArticleBodyService.ExpectedBody | Services/ArticleBodyService.cs:47-52 | a success carries the kept paragraph lines, collapsed and joined by spaces ("" for blank paragraph text), with no `\n`, no repeated white space, and trimmed |
| ArticleBodyService.EmptyParagraphSucceeds | Services/ArticleBodyService.cs:44-52 | an `article` whose only paragraph is empty gives success with an empty body |

## Left out

- HTTP is outside the model. This covers `HttpClient` creation, the default
  headers and the constructors (`ArticleBodyService.cs:17-29`,
  `AIAnalysisService.cs:30-40`). The backend is a script of replies, and the
  page is a parsed tree or a request-failure message.
- HTML parsing and `WebUtility.HtmlDecode` are outside the model. The
  document is given as a tree, `InnerText` is the text of its text nodes,
  and the decoder is a function parameter. Only the four XPath shapes the
  service uses are modelled, and a missing `class` or `id` attribute reads
  as "".
- JSON serialization and parsing are outside the model. A reply arrives
  already classified. The payload's fixed `length_penalty`,
  `early_stopping` and `no_repeat_ngram_size` are not represented.
- Logging, and the one-second `Task.Delay` before a retry, are left out:
  they affect neither results nor requests.
- `GetArticleBody` models only the `HttpRequestException` catch. Other
  exceptions from the download (a timeout surfacing as
  `TaskCanceledException`, an invalid URL) propagate out of
  `GetArticleBodyAsync` in the source, and the model has no such path.
- `AIAnalysisService.SummarizeText` treats the `minLengthPercentage`
  parameter as the constant 0.8 that both callers pass, computed exactly
  as `max * 4 / 5`. That equals the double truncation for every budget the
  service passes, all of them at most 900.
- `AIAnalysisService.Retryable`: whether an `HttpClient` timeout raises
  a `TaskCanceledException` whose token reports no cancellation is up to
  the library. The model takes that flag as part of the reply.
- String lengths count Unicode scalar values. .NET counts UTF-16 code
  units, so for text with characters outside the Basic Multilingual Plane
  the token estimate, the chunk boundaries and `IsShouty`'s
  `line.Length < 40` test differ: a short line with emoji can be under 40
  in the model and not in .NET. A chunk boundary can split a surrogate pair
  in .NET but never in the model.
- `ArticleBodyService.IsShouty` classifies letters and capitals for ASCII
  and Latin-1 only. Other scripts' letters are treated as non-letters,
  because full Unicode categories are not modelled.
- `ArticleBodyService.IsBoilerplate` folds only ASCII letters to lower case.
  .NET's `OrdinalIgnoreCase` also folds a few non-ASCII letters onto ASCII
  ones (dotless ı, long ſ), and a keyword spelled with them is not
  recognised by the model.
- Integer overflow is not modelled: lengths and budgets are unbounded
  naturals. The `(int)Math.Ceiling(... / (double) ...)` conversions are
  exact for every length an `int` can hold.
- `Models.Result`'s `Value` for a failure is `None`, standing for
  `default(T)`.
- The "Unknown summarization failure." return after the retry loop is
  kept in `PostWithRetries` as written. Its contract says the result is
  always the retry policy's outcome: a reply's text or the timeout message.
- The controllers, the other services, the configuration and
  `Program.cs` are not part of this model.
