/**
  Services/AIAnalysisService.cs: the summarization planner and driver.

  An article is cleaned, its token count is estimated from its length, and
  then it is either returned as it is (too short to summarize), summarized in
  one call, or cut into fixed-size character chunks that are summarized one
  after the other before one last call summarizes the joined chunk summaries.
  Each summarize call posts one payload and retries only a timeout, once.

  The summarization backend is a script: the k-th POST of a run (counting
  from 0) receives `script(k)`. A run reports the summary, the request of
  every summarize call in order, and how many POSTs were made.
*/
module AIAnalysisService {
  import opened Nullable
  import opened Text

  // -----------------------------------------------------------------------
  // Constants
  // -----------------------------------------------------------------------

  const MaxTokensPerChunk: nat := 900
  const EstimatedCharsPerToken: nat := 4
  const FinalSummaryTokenBudget: nat := 300
  const MaxQuickSummaryTokenBudget: nat := 200
  /** Articles estimated below this many tokens are not summarized. */
  const MinArticleTokens: nat := 50
  /** Lower clamp of the single-pass budget. */
  const MinQuickSummaryTokenBudget: nat := 50
  /** Floor of the min_length sent with every request. */
  const MinSummaryLength: nat := 50
  /** The retry loop runs attempt = 1, 2. */
  const MaxAttempts: nat := 2

  const EmptyArticleMessage := "Error: article text is empty."
  const InvalidSummaryMessage := "Invalid summary response from API."
  const TimeoutMessage := "Summarization failed due to a timeout."
  const FailurePrefix := "Summarization failed: "
  const UnknownFailureMessage := "Unknown summarization failure."

  // -----------------------------------------------------------------------
  // CleanText
  // -----------------------------------------------------------------------

  /** The Replace chain of CleanText (lines 240-246), in source order. */
  const Replacements: seq<(char, string)> := [
    ('\U{201C}', "\""), ('\U{201D}', "\""),
    ('\U{2018}', "'"), ('\U{2019}', "'"),
    ('\U{FFFD}', ""), ('\U{A0}', " "),
    ('\U{2013}', "-"), ('\U{2014}', "-"),
    ('\U{2026}', "..."), ('\t', " "),
    ('\r', ""), ('\n', " ")
  ]

  /** No replacement text holds a character that the chain rewrites. */
  lemma ReplacementsAreClosed()
    ensures ReplacementsClosed(Replacements)
  {
  }

  /** What the chain turns one character into. */
  function Typography(c: char): string {
    match c
    case '\U{201C}' => "\""
    case '\U{201D}' => "\""
    case '\U{2018}' => "'"
    case '\U{2019}' => "'"
    case '\U{FFFD}' => ""
    case '\U{A0}' => " "
    case '\U{2013}' => "-"
    case '\U{2014}' => "-"
    case '\U{2026}' => "..."
    case '\t' => " "
    case '\r' => ""
    case '\n' => " "
    case _ => [c]
  }

  /** Curly quotes, U+FFFD, no-break space, en and em dash, ellipsis, tab,
      carriage return and line feed: the characters CleanText rewrites. */
  predicate IsRewritten(c: char) {
    Typography(c) != [c]
  }

  /** Typography is the table read entry by entry. */
  lemma TypographyMatchesTable(c: char)
    ensures Typography(c) == Lookup(Replacements, c, 0)
  {
  }

  /** Typography never writes a character it would rewrite. */
  lemma TypographyWritesNoRewritten(c: char)
    ensures forall d :: d in Typography(c) ==> !IsRewritten(d)
  {
  }

  /** The twelve Replace calls in a row amount to one pass that maps each
      character through Typography, because no replacement text holds a
      character a later call would rewrite. */
  lemma ReplaceChainIsOnePass(text: string)
    ensures ReplaceAll(text, Replacements) == MapChars(text, Typography)
  {
    ReplacementsAreClosed();
    forall c ensures Typography(c) == Lookup(Replacements, c, 0) {
      TypographyMatchesTable(c);
    }
    ReplaceAllIsMapChars(text, Replacements, Typography);
  }

  lemma {:induction false} OnePassRemovesRewritten(text: string)
    ensures forall c :: c in MapChars(text, Typography) ==> !IsRewritten(c)
    decreases |text|
  {
    if text != [] {
      TypographyWritesNoRewritten(text[0]);
      OnePassRemovesRewritten(text[1..]);
    }
  }

  lemma {:induction false} OnePassKeepsOthers(text: string)
    requires forall c :: c in text ==> !IsRewritten(c)
    ensures MapChars(text, Typography) == text
    decreases |text|
  {
    if text != [] {
      assert text[0] in text;
      OnePassKeepsOthers(text[1..]);
      assert text == [text[0]] + text[1..];
    }
  }

  /** What CleanText produces: no rewritten character, no white space at
      either end and never two white-space characters in a row. */
  predicate IsClean(s: string) {
    Trimmed(s) && NoAdjacentWhite(s) && forall c :: c in s ==> !IsRewritten(c)
  }

  /** CleanText (lines 235-249): blank input becomes empty; otherwise the
      Replace chain, then Regex.Replace(\s{2,}, " "), then Trim. The chain is
      written as the one pass it amounts to (ReplaceChainIsOnePass). */
  function CleanText(text: string): (r: string)
    ensures IsBlank(text) ==> r == []
  {
    if IsBlank(text) then [] else Trim(CollapseWhite(MapChars(text, Typography)))
  }

  /** No character CleanText rewrites survives it. */
  lemma CleanTextRemovesRewritten(text: string)
    ensures forall c :: c in CleanText(text) ==> !IsRewritten(c)
  {
    if !IsBlank(text) {
      var replaced := MapChars(text, Typography);
      var collapsed := CollapseWhite(replaced);
      CollapseWhiteShape(replaced);
      OnePassRemovesRewritten(text);
      TrimShape(collapsed);
      assert !IsRewritten(' ');
      forall c | c in Trim(collapsed) ensures !IsRewritten(c) {
        assert c in collapsed;
        if c != ' ' {
          assert c in replaced;
        }
      }
    }
  }

  lemma CleanTextIsClean(text: string)
    ensures IsClean(CleanText(text))
  {
    CleanTextRemovesRewritten(text);
    if !IsBlank(text) {
      CollapseWhiteShape(MapChars(text, Typography));
      TrimShape(CollapseWhite(MapChars(text, Typography)));
    }
  }

  /** Clean text is a fixed point of CleanText. */
  lemma CleanTextFixesClean(s: string)
    requires IsClean(s)
    ensures CleanText(s) == s
  {
    TrimShape(s);
    if !IsBlank(s) {
      OnePassKeepsOthers(s);
      CollapseWhiteFixpoint(s);
    }
  }

  /** Cleaning twice is cleaning once, so the second CleanText that
      SummarizeText applies to an already cleaned article changes nothing. */
  lemma CleanTextIdempotent(text: string)
    ensures CleanText(CleanText(text)) == CleanText(text)
  {
    CleanTextIsClean(text);
    CleanTextFixesClean(CleanText(text));
  }

  /** CleanText changes white space and the rewritten characters only: the
      article's other characters all survive, in order. */
  lemma CleanTextKeepsText(text: string)
    ensures !IsBlank(text) ==> NonWhite(CleanText(text)) == NonWhite(MapChars(text, Typography))
  {
    if !IsBlank(text) {
      var replaced := MapChars(text, Typography);
      CollapseWhiteKeepsText(replaced);
      TrimKeepsText(CollapseWhite(replaced));
    }
  }

  // -----------------------------------------------------------------------
  // Token budgets
  // -----------------------------------------------------------------------

  /** Estimated tokens: characters / EstimatedCharsPerToken. */
  function EstimateTokens(length: nat): nat {
    length / EstimatedCharsPerToken
  }

  /** (int)Math.Ceiling(a / (double)b), which is exact for the int range. */
  function CeilDiv(a: nat, b: nat): nat
    requires b > 0
  {
    (a + b - 1) / b
  }

  /** CeilDiv(a, b) is the least q with q * b >= a. */
  lemma CeilDivBounds(a: nat, b: nat)
    requires b > 0
    ensures CeilDiv(a, b) * b >= a
    ensures CeilDiv(a, b) > 0 ==> (CeilDiv(a, b) - 1) * b < a
  {
    var q, r := CeilDiv(a, b), (a + b - 1) % b;
    assert a + b - 1 == q * b + r;
    assert (q - 1) * b == q * b - b;
  }

  lemma MulMonotone(x: int, y: int, m: nat)
    ensures x <= y ==> x * m <= y * m
  {
    if x <= y {
      assert y * m == x * m + (y - x) * m;
    }
  }

  /** CeilDiv is determined by its contract. */
  lemma CeilDivUnique(a: nat, b: nat, q: nat)
    requires b > 0 && q * b >= a && (q > 0 ==> (q - 1) * b < a)
    ensures q == CeilDiv(a, b)
  {
    var c := CeilDiv(a, b);
    CeilDivBounds(a, b);
    MulMonotone(q, c as int - 1, b);
    MulMonotone(c, q as int - 1, b);
  }

  /** The number of chunks (line 60). */
  function ChunkCount(tokens: nat): nat {
    CeilDiv(tokens, MaxTokensPerChunk)
  }

  /** One chunk suffices exactly when the estimate is within the per-chunk
      limit. */
  lemma SingleChunkIff(tokens: nat)
    ensures ChunkCount(tokens) <= 1 <==> tokens <= MaxTokensPerChunk
  {
  }

  /** Single-pass budget: a quarter of the estimate, clamped to
      [MinQuickSummaryTokenBudget, MaxQuickSummaryTokenBudget]. */
  function QuickBudget(tokens: nat): (b: nat)
    ensures MinQuickSummaryTokenBudget <= b <= MaxQuickSummaryTokenBudget
    ensures MinQuickSummaryTokenBudget <= tokens / 4 <= MaxQuickSummaryTokenBudget ==> b == tokens / 4
    ensures tokens / 4 < MinQuickSummaryTokenBudget ==> b == MinQuickSummaryTokenBudget
    ensures tokens / 4 > MaxQuickSummaryTokenBudget ==> b == MaxQuickSummaryTokenBudget
  {
    var quarter := tokens / 4;
    if quarter < MinQuickSummaryTokenBudget then MinQuickSummaryTokenBudget
    else if quarter > MaxQuickSummaryTokenBudget then MaxQuickSummaryTokenBudget
    else quarter
  }

  /** Characters per chunk (line 84). */
  function ChunkSize(length: nat, chunkCount: nat): (size: nat)
    requires chunkCount > 0
    ensures length > 0 ==> size > 0
  {
    var size := CeilDiv(length, chunkCount);
    assert length > 0 ==> size > 0 by {
      CeilDivBounds(length, chunkCount);
    }
    size
  }

  /** Chunks of ChunkSize characters cover the text in at most chunkCount
      pieces, and with two or more pieces asked for, a chunk is shorter than
      the text. */
  lemma ChunkSizeBounds(length: nat, chunkCount: nat)
    requires length > 0 && chunkCount > 0
    ensures CeilDiv(length, ChunkSize(length, chunkCount)) <= chunkCount
    ensures chunkCount >= 2 && length >= 2 ==> ChunkSize(length, chunkCount) < length
  {
    CeilDivOfCeilDiv(length, chunkCount);
  }

  /** Per-chunk summary budget (line 92), (int)Math.Floor(900 / (double)n). */
  function ChunkBudget(chunkCount: nat): nat
    requires chunkCount > 0
  {
    MaxTokensPerChunk / chunkCount
  }

  /** The budget is the largest whose n copies fit in MaxTokensPerChunk. */
  lemma ChunkBudgetBounds(chunkCount: nat)
    requires chunkCount > 0
    ensures chunkCount * ChunkBudget(chunkCount) <= MaxTokensPerChunk < chunkCount * (ChunkBudget(chunkCount) + 1)
  {
  }

  /** min_length (line 143): Math.Max(50, (int)(maxLength * 0.8)). The double
      product truncates to maxLength * 4 / 5 for every budget the service
      passes (all at most 900). */
  function MinLength(maxLength: nat): (m: nat)
    ensures m >= MinSummaryLength && m >= maxLength * 4 / 5
    ensures m > MinSummaryLength ==> 5 * m <= 4 * maxLength < 5 * m + 5
    ensures maxLength >= MinSummaryLength ==> m <= maxLength
    ensures maxLength < MinSummaryLength ==> m > maxLength
  {
    var scaled := maxLength * 4 / 5;
    if scaled < MinSummaryLength then MinSummaryLength else scaled
  }

  /** The per-chunk budget drops below the min_length floor, so that a
      request asks for a minimum above its maximum, exactly when there are
      19 chunks or more. */
  lemma ChunkBudgetBelowFloor(chunkCount: nat)
    requires chunkCount > 0
    ensures ChunkBudget(chunkCount) < MinSummaryLength <==> chunkCount >= 19
    ensures chunkCount >= 19 ==> MinLength(ChunkBudget(chunkCount)) > ChunkBudget(chunkCount)
  {
    var b := ChunkBudget(chunkCount);
    ChunkBudgetBounds(chunkCount);
    if chunkCount >= 19 {
      MulMonotone(19, chunkCount, b);
    } else {
      MulMonotone(chunkCount, 18, b + 1);
    }
  }

  // -----------------------------------------------------------------------
  // ChunkText
  // -----------------------------------------------------------------------

  lemma CeilDivStep(a: nat, b: nat)
    requires 0 < b < a
    ensures CeilDiv(a, b) == CeilDiv(a - b, b) + 1
  {
    var q := CeilDiv(a - b, b);
    CeilDivBounds(a - b, b);
    assert (q + 1) * b == q * b + b;
    assert q * b == (q - 1) * b + b;
    CeilDivUnique(a, b, q + 1);
  }

  lemma CeilDivOne(a: nat, b: nat)
    requires 0 < a <= b
    ensures CeilDiv(a, b) == 1
  {
    CeilDivUnique(a, b, 1);
  }

  /** The chunks ChunkText produces from offset `start` on: consecutive
      slices of chunkSize characters, the last one shorter when the rest is
      not a multiple of chunkSize. */
  function ChunksFrom(text: string, chunkSize: nat, start: nat): seq<string>
    requires chunkSize > 0
    decreases |text| - start
  {
    if start >= |text| then []
    else
      var end := if start + chunkSize < |text| then start + chunkSize else |text|;
      [text[start..end]] + ChunksFrom(text, chunkSize, start + chunkSize)
  }

  /** The chunks ChunkText produces from the whole text. */
  function Chunks(text: string, chunkSize: nat): seq<string>
    requires chunkSize > 0
  {
    ChunksFrom(text, chunkSize, 0)
  }

  /** The chunks put back together are the text: nothing lost, nothing
      repeated, order kept. */
  lemma {:induction false} ChunksConcat(text: string, chunkSize: nat, start: nat)
    requires chunkSize > 0 && start <= |text|
    ensures Concat(ChunksFrom(text, chunkSize, start)) == text[start..]
    decreases |text| - start
  {
    var r := ChunksFrom(text, chunkSize, start);
    if start < |text| {
      var end := if start + chunkSize < |text| then start + chunkSize else |text|;
      var rest := ChunksFrom(text, chunkSize, start + chunkSize);
      assert r[0] == text[start..end] && r[1..] == rest;
      if start + chunkSize < |text| {
        ChunksConcat(text, chunkSize, start + chunkSize);
      }
      assert text[start..] == text[start..end] + text[end..];
    }
  }

  /** Every chunk is non-empty and at most chunkSize long, and all but the
      last are exactly chunkSize long. */
  predicate WellSized(chunks: seq<string>, chunkSize: nat) {
    && (forall i :: 0 <= i < |chunks| ==> 0 < |chunks[i]| <= chunkSize)
    && (forall i :: 0 <= i < |chunks| - 1 ==> |chunks[i]| == chunkSize)
  }

  lemma {:induction false} ChunksSizes(text: string, chunkSize: nat, start: nat)
    requires chunkSize > 0
    ensures WellSized(ChunksFrom(text, chunkSize, start), chunkSize)
    decreases |text| - start
  {
    if start < |text| {
      var r := ChunksFrom(text, chunkSize, start);
      var rest := ChunksFrom(text, chunkSize, start + chunkSize);
      var end := if start + chunkSize < |text| then start + chunkSize else |text|;
      ChunksSizes(text, chunkSize, start + chunkSize);
      assert r == [text[start..end]] + rest;
      assert |rest| > 0 <==> start + chunkSize < |text|;
      forall i | 0 <= i < |r|
        ensures 0 < |r[i]| <= chunkSize && (i < |r| - 1 ==> |r[i]| == chunkSize)
      {
        if i > 0 {
          assert r[i] == rest[i - 1];
        }
      }
    }
  }

  /** ChunkText makes exactly as many chunks as the ceiling of the remaining
      length over the chunk size. */
  lemma {:induction false} ChunksCount(text: string, chunkSize: nat, start: nat)
    requires chunkSize > 0 && start <= |text|
    ensures |ChunksFrom(text, chunkSize, start)| == CeilDiv(|text| - start, chunkSize)
    decreases |text| - start
  {
    if start < |text| {
      if start + chunkSize < |text| {
        ChunksCount(text, chunkSize, start + chunkSize);
        CeilDivStep(|text| - start, chunkSize);
      } else {
        CeilDivOne(|text| - start, chunkSize);
      }
    } else {
      CeilDivBounds(0, chunkSize);
    }
  }

  /** ChunkText (lines 222-231): a for loop stepping i by chunkSizeInChars
      and taking Math.Min(chunkSizeInChars, text.Length - i) characters. */
  method ChunkText(text: string, chunkSizeInChars: nat) returns (chunks: seq<string>)
    requires chunkSizeInChars > 0
    ensures chunks == Chunks(text, chunkSizeInChars)
  {
    chunks := [];
    var i := 0;
    while i < |text|
      invariant chunks + ChunksFrom(text, chunkSizeInChars, i) == Chunks(text, chunkSizeInChars)
    {
      var length := if chunkSizeInChars < |text| - i then chunkSizeInChars else |text| - i;
      var chunk := text[i..i + length];
      ghost var rest := ChunksFrom(text, chunkSizeInChars, i + chunkSizeInChars);
      assert ChunksFrom(text, chunkSizeInChars, i) == [chunk] + rest;
      assert chunks + [chunk] + rest == chunks + ([chunk] + rest);
      chunks := chunks + [chunk];
      i := i + chunkSizeInChars;
    }
  }

  /** Cutting a text of `length` characters into chunks of
      CeilDiv(length, count) characters gives at most `count` chunks, and
      a chunk shorter than the text when count is at least two. */
  lemma CeilDivOfCeilDiv(length: nat, count: nat)
    requires length > 0 && count > 0
    ensures CeilDiv(length, count) > 0
    ensures CeilDiv(length, CeilDiv(length, count)) <= count
    ensures count >= 2 && length >= 2 ==> CeilDiv(length, count) < length
  {
    var size := CeilDiv(length, count);
    CeilDivBounds(length, count);
    assert size > 0;
    var n := CeilDiv(length, size);
    CeilDivBounds(length, size);
    MulMonotone(count, n - 1, size);
    assert count * size == size * count;
    MulMonotone(2, count, size - 1);
    assert count * (size - 1) == (size - 1) * count;
  }

  /** When the text is long enough for the count, pieces of
      CeilDiv(length, count) characters number exactly `count`. */
  lemma CeilDivOfCeilDivExact(length: nat, count: nat)
    requires count > 0 && length > count * (count - 1)
    ensures CeilDiv(length, CeilDiv(length, count)) == count
  {
    var size := CeilDiv(length, count);
    CeilDivBounds(length, count);
    MulMonotone(size, count - 1, count);
    assert size >= count;
    CeilDivOfCeilDiv(length, count);
    var pieces := CeilDiv(length, size);
    CeilDivBounds(length, size);
    MulMonotone(pieces, count - 1, size);
    assert (count - 1) * size == size * count - size;
  }

  /** There are never more chunks than ChunkCount asked for, and at least two
      when there are at least two to ask for. */
  lemma ChunksWithinCount(text: string, chunkCount: nat)
    requires text != [] && chunkCount > 0
    ensures |Chunks(text, ChunkSize(|text|, chunkCount))| <= chunkCount
    ensures chunkCount >= 2 && |text| >= 2 ==> |Chunks(text, ChunkSize(|text|, chunkCount))| >= 2
  {
    var size := ChunkSize(|text|, chunkCount);
    ChunkSizeBounds(|text|, chunkCount);
    ChunksCount(text, size, 0);
    if chunkCount >= 2 && |text| >= 2 {
      CeilDivStep(|text|, size);
      CeilDivBounds(|text| - size, size);
    }
  }

  // -----------------------------------------------------------------------
  // SummarizeTextAsync: one summarize call
  // -----------------------------------------------------------------------

  /** The payload of one summarize call (lines 141-157): the cleaned text and
      the length bounds. length_penalty, early_stopping and
      no_repeat_ngram_size are the same constants on every request. */
  datatype Request = Request(inputs: string, minLength: nat, maxLength: nat)

  function Payload(text: string, maxTokenLength: nat): Request {
    Request(CleanText(text), MinLength(maxTokenLength), maxTokenLength)
  }

  /** What one POST attempt comes back with. */
  datatype Reply =
    | NonSuccess(status: string, body: string)
      // a response whose status is not 2xx; status as StatusCode renders it
    | Parsed(summary: Option<string>)
      // a 2xx response; summary_text of the first list element, None when
      // the list or the element or the text is null or the list is empty
    | Canceled(cancellationRequested: bool, message: string)
      // a TaskCanceledException, and whether its token reports cancellation
    | Faulted(message: string)
      // any other exception (connection failure, JSON that does not parse)

  /** The one case the catch filter at line 203 sends to the retry path. */
  predicate Retryable(reply: Reply) {
    reply.Canceled? && !reply.cancellationRequested
  }

  /** The string a non-retried reply is turned into (lines 181-201, 212-216). */
  function ReplyText(reply: Reply): string
    requires !Retryable(reply)
  {
    match reply
    case NonSuccess(status, body) => "Status: " + status + ", Body: " + body
    case Parsed(summary) =>
      if summary.None? || IsBlank(summary.value) then InvalidSummaryMessage else summary.value
    case Canceled(_, message) => FailurePrefix + message
    case Faulted(message) => FailurePrefix + message
  }

  /** A summarize call never returns a blank string: a failure comes back as
      a message, and a blank summary_text as the invalid-response message. */
  lemma {:induction false} OutcomeNotBlank(script: nat -> Reply, k: nat, remaining: nat)
    requires remaining >= 1
    ensures !IsBlank(Outcome(script, k, remaining))
    decreases remaining
  {
    var reply := script(k);
    if !Retryable(reply) {
      var r := ReplyText(reply);
      match reply
      case NonSuccess(status, body) => assert r[0] == 'S';
      case Parsed(summary) =>
        if summary.None? || IsBlank(summary.value) {
          assert r[0] == 'I';
        }
      case Canceled(_, message) => assert r[0] == 'S';
      case Faulted(message) => assert r[0] == 'S';
    } else if remaining == 1 {
      assert TimeoutMessage[0] == 'S';
    } else {
      OutcomeNotBlank(script, k + 1, remaining - 1);
    }
  }

  /** POSTs made by a call that starts at post k with `remaining` attempts
      left: one more for every retried reply, until the attempts run out. */
  function Attempts(script: nat -> Reply, k: nat, remaining: nat): (n: nat)
    requires remaining >= 1
    ensures 1 <= n <= remaining
    decreases remaining
  {
    if remaining == 1 || !Retryable(script(k)) then 1
    else 1 + Attempts(script, k + 1, remaining - 1)
  }

  /** The string such a call returns. */
  function Outcome(script: nat -> Reply, k: nat, remaining: nat): string
    requires remaining >= 1
    decreases remaining
  {
    if !Retryable(script(k)) then ReplyText(script(k))
    else if remaining == 1 then TimeoutMessage
    else Outcome(script, k + 1, remaining - 1)
  }

  /** A call gives up with the timeout message only after every attempt timed
      out, and then it has used all of them. */
  lemma {:induction false} TimeoutsExhaustAttempts(script: nat -> Reply, k: nat, remaining: nat)
    requires remaining >= 1
    requires forall j :: k <= j < k + remaining ==> Retryable(script(j))
    ensures Attempts(script, k, remaining) == remaining
    ensures Outcome(script, k, remaining) == TimeoutMessage
    decreases remaining
  {
    if remaining > 1 {
      TimeoutsExhaustAttempts(script, k + 1, remaining - 1);
    }
  }

  /** The first reply that is not retried ends the call, and is its result. */
  lemma {:induction false} FirstAnswerEndsCall(script: nat -> Reply, k: nat, remaining: nat, j: nat)
    requires remaining >= 1 && k <= j < k + remaining
    requires forall i :: k <= i < j ==> Retryable(script(i))
    requires !Retryable(script(j))
    ensures Attempts(script, k, remaining) == j - k + 1
    ensures Outcome(script, k, remaining) == ReplyText(script(j))
    decreases remaining
  {
    if j > k {
      FirstAnswerEndsCall(script, k + 1, remaining - 1, j);
    }
  }

  /** The retry policy of SummarizeTextAsync: at most two POSTs; a second
      one only after a timeout; two timeouts give the timeout message. */
  lemma RetryPolicy(script: nat -> Reply, k: nat)
    ensures Attempts(script, k, MaxAttempts) == (if Retryable(script(k)) then 2 else 1)
    ensures !Retryable(script(k)) ==> Outcome(script, k, MaxAttempts) == ReplyText(script(k))
    ensures Retryable(script(k)) && !Retryable(script(k + 1)) ==>
              Outcome(script, k, MaxAttempts) == ReplyText(script(k + 1))
    ensures Retryable(script(k)) && Retryable(script(k + 1)) ==>
              Outcome(script, k, MaxAttempts) == TimeoutMessage
  {
  }

  /** SummarizeTextAsync (lines 139-220): builds the payload once, then posts
      it until an attempt gives an answer. */
  method SummarizeText(text: string, maxTokenLength: nat, script: nat -> Reply, posts: nat)
    returns (summary: string, request: Request, postsAfter: nat)
    ensures request == Payload(text, maxTokenLength)
    ensures postsAfter == posts + Attempts(script, posts, MaxAttempts)
    ensures summary == Outcome(script, posts, MaxAttempts)
  {
    var cleanedText := CleanText(text);
    request := Request(cleanedText, MinLength(maxTokenLength), maxTokenLength);
    summary, postsAfter := PostWithRetries(script, posts);
  }

  /** The retry loop of SummarizeTextAsync (lines 159-219): posts with
      attempt = 1, 2 and returns at the first reply that is not a timeout.
      The request is the same on every attempt; the one-second backoff and
      the logging are left out. */
  method PostWithRetries(script: nat -> Reply, posts: nat) returns (summary: string, postsAfter: nat)
    ensures postsAfter == posts + Attempts(script, posts, MaxAttempts)
    ensures summary == Outcome(script, posts, MaxAttempts)
  {
    postsAfter := posts;
    var attempt := 1;
    while attempt <= MaxAttempts
      invariant 1 <= attempt <= MaxAttempts
      invariant postsAfter == posts + attempt - 1
      invariant Outcome(script, posts, MaxAttempts) == Outcome(script, postsAfter, MaxAttempts - attempt + 1)
      invariant Attempts(script, posts, MaxAttempts) == attempt - 1 + Attempts(script, postsAfter, MaxAttempts - attempt + 1)
    {
      var reply := script(postsAfter);
      postsAfter := postsAfter + 1;
      if !Retryable(reply) {
        summary := ReplyText(reply);
        return;
      } else if attempt == MaxAttempts {
        summary := TimeoutMessage;
        return;
      }
      attempt := attempt + 1;
    }
    summary := UnknownFailureMessage;
  }

  // -----------------------------------------------------------------------
  // SummarizeArticleAsync: the driver
  // -----------------------------------------------------------------------

  /** Summaries, requests and the post counter after summarizing a list of
      chunks in order. */
  datatype Pass = Pass(summaries: seq<string>, calls: seq<Request>, posts: nat)

  /** The foreach over the chunks (lines 95-119): one summarize call per
      chunk, in order, each with the same budget; a failed chunk still
      contributes its message and the loop goes on. */
  function SummarizeChunks(chunks: seq<string>, budget: nat, script: nat -> Reply, posts: nat): (p: Pass)
    ensures |p.summaries| == |chunks| && |p.calls| == |chunks|
    ensures posts + |chunks| <= p.posts <= posts + MaxAttempts * |chunks|
    decreases |chunks|
  {
    if chunks == [] then Pass([], [], posts)
    else
      var next := posts + Attempts(script, posts, MaxAttempts);
      var rest := SummarizeChunks(chunks[1..], budget, script, next);
      Pass([Outcome(script, posts, MaxAttempts)] + rest.summaries,
           [Payload(chunks[0], budget)] + rest.calls,
           rest.posts)
  }

  /** Call i summarizes chunk i, with the shared budget. */
  lemma {:induction false} SummarizeChunksCalls(chunks: seq<string>, budget: nat, script: nat -> Reply, posts: nat)
    ensures var p := SummarizeChunks(chunks, budget, script, posts);
            forall i :: 0 <= i < |chunks| ==> p.calls[i] == Payload(chunks[i], budget)
    decreases |chunks|
  {
    if chunks != [] {
      var next := posts + Attempts(script, posts, MaxAttempts);
      var rest := SummarizeChunks(chunks[1..], budget, script, next);
      SummarizeChunksCalls(chunks[1..], budget, script, next);
      SummarizeChunksCons(chunks, budget, script, posts, Outcome(script, posts, MaxAttempts), Payload(chunks[0], budget), next, rest);
      var p := SummarizeChunks(chunks, budget, script, posts);
      forall i | 0 <= i < |chunks| ensures p.calls[i] == Payload(chunks[i], budget) {
        if i > 0 {
          assert p.calls[i] == rest.calls[i - 1] && chunks[1..][i - 1] == chunks[i];
        }
      }
    }
  }

  /** Summarizing one more chunk extends the pass by that chunk's summary,
      request and POSTs, so the pass can be built front to back as the
      foreach does. */
  lemma {:induction false} SummarizeChunksSnoc(chunks: seq<string>, chunk: string, budget: nat, script: nat -> Reply, posts: nat)
    ensures var p := SummarizeChunks(chunks, budget, script, posts);
            SummarizeChunks(chunks + [chunk], budget, script, posts)
            == Pass(p.summaries + [Outcome(script, p.posts, MaxAttempts)],
                    p.calls + [Payload(chunk, budget)],
                    p.posts + Attempts(script, p.posts, MaxAttempts))
    decreases |chunks|
  {
    if chunks == [] {
      assert chunks + [chunk] == [chunk];
    } else {
      var longer := chunks + [chunk];
      var next := posts + Attempts(script, posts, MaxAttempts);
      assert longer[0] == chunks[0] && longer[1..] == chunks[1..] + [chunk];
      SummarizeChunksSnoc(chunks[1..], chunk, budget, script, next);
      var rest := SummarizeChunks(chunks[1..], budget, script, next);
      var summary, call := Outcome(script, posts, MaxAttempts), Payload(chunks[0], budget);
      var lastSummary, lastCall := Outcome(script, rest.posts, MaxAttempts), Payload(chunk, budget);
      SummarizeChunksCons(chunks, budget, script, posts, summary, call, next, rest);
      SummarizeChunksCons(longer, budget, script, posts, summary, call, next,
        Pass(rest.summaries + [lastSummary], rest.calls + [lastCall], rest.posts + Attempts(script, rest.posts, MaxAttempts)));
      AppendAssoc([summary], rest.summaries, [lastSummary]);
      AppendAssoc([call], rest.calls, [lastCall]);
    }
  }

  /** SummarizeChunks on a non-empty list, one step unfolded. */
  lemma SummarizeChunksCons(chunks: seq<string>, budget: nat, script: nat -> Reply, posts: nat,
                            summary: string, call: Request, next: nat, rest: Pass)
    requires chunks != []
    requires summary == Outcome(script, posts, MaxAttempts) && call == Payload(chunks[0], budget)
    requires next == posts + Attempts(script, posts, MaxAttempts)
    requires rest == SummarizeChunks(chunks[1..], budget, script, next)
    ensures SummarizeChunks(chunks, budget, script, posts)
            == Pass([summary] + rest.summaries, [call] + rest.calls, rest.posts)
  {
  }

  lemma AppendAssoc<T>(a: seq<T>, b: seq<T>, c: seq<T>)
    ensures a + (b + c) == (a + b) + c
  {
  }

  /** The foreach over the chunks (lines 95-119), one SummarizeText call
      per chunk, appending each result. */
  method SummarizeEachChunk(chunks: seq<string>, budget: nat, script: nat -> Reply, posts: nat)
    returns (summaries: seq<string>, calls: seq<Request>, postsAfter: nat)
    ensures Pass(summaries, calls, postsAfter) == SummarizeChunks(chunks, budget, script, posts)
  {
    summaries, calls, postsAfter := [], [], posts;
    for i := 0 to |chunks|
      invariant Pass(summaries, calls, postsAfter) == SummarizeChunks(chunks[..i], budget, script, posts)
    {
      SummarizeChunksSnoc(chunks[..i], chunks[i], budget, script, posts);
      assert chunks[..i + 1] == chunks[..i] + [chunks[i]];
      var chunkSummary, request;
      chunkSummary, request, postsAfter := SummarizeText(chunks[i], budget, script, postsAfter);
      summaries := summaries + [chunkSummary];
      calls := calls + [request];
    }
    assert chunks[..|chunks|] == chunks;
  }

  /** The returned summary, every summarize call's request in order, and the
      number of POSTs. */
  datatype Run = Run(summary: string, calls: seq<Request>, posts: nat)

  /** What SummarizeArticleAsync does with an article and a backend script. */
  function SummarizeSpec(articleText: string, script: nat -> Reply): Run
  {
    if IsBlank(articleText) then Run(EmptyArticleMessage, [], 0)
    else
      var cleaned := CleanText(articleText);
      var tokens := EstimateTokens(|cleaned|);
      if tokens < MinArticleTokens then Run(cleaned, [], 0)
      else
        var chunkCount := ChunkCount(tokens);
        if chunkCount <= 1 then
          Run(Outcome(script, 0, MaxAttempts),
              [Payload(cleaned, QuickBudget(tokens))],
              Attempts(script, 0, MaxAttempts))
        else ChunkedSpec(cleaned, chunkCount, script)
  }

  /** The chunked path: summarize each chunk, then the joined summaries. */
  function ChunkedSpec(cleaned: string, chunkCount: nat, script: nat -> Reply): Run
    requires cleaned != [] && chunkCount > 0
  {
    var chunks := Chunks(cleaned, ChunkSize(|cleaned|, chunkCount));
    var pass := SummarizeChunks(chunks, ChunkBudget(chunkCount), script, 0);
    var combined := Join(" ", pass.summaries);
    Run(Outcome(script, pass.posts, MaxAttempts),
        pass.calls + [Payload(combined, FinalSummaryTokenBudget)],
        pass.posts + Attempts(script, pass.posts, MaxAttempts))
  }

  /** SummarizeArticleAsync (lines 42-136). */
  method SummarizeArticle(articleText: string, script: nat -> Reply)
    returns (summary: string, calls: seq<Request>, posts: nat)
    ensures Run(summary, calls, posts) == SummarizeSpec(articleText, script)
  {
    calls, posts := [], 0;
    if IsBlank(articleText) {
      summary := EmptyArticleMessage;
      return;
    }
    var cleanedArticle := CleanText(articleText);
    var estimatedTotalTokens := |cleanedArticle| / EstimatedCharsPerToken;
    if estimatedTotalTokens < MinArticleTokens {
      summary := cleanedArticle;
      return;
    }
    var chunkCount := CeilDiv(estimatedTotalTokens, MaxTokensPerChunk);
    if chunkCount <= 1 {
      var quickSummaryTokenBudget := QuickBudget(estimatedTotalTokens);
      var request;
      summary, request, posts := SummarizeText(cleanedArticle, quickSummaryTokenBudget, script, posts);
      calls := [request];
      return;
    }
    summary, calls, posts := SummarizeInChunks(cleanedArticle, chunkCount, script);
  }

  /** The chunked path of SummarizeArticleAsync (lines 82-135). */
  method SummarizeInChunks(cleanedArticle: string, chunkCount: nat, script: nat -> Reply)
    returns (summary: string, calls: seq<Request>, posts: nat)
    requires cleanedArticle != [] && chunkCount > 0
    ensures Run(summary, calls, posts) == ChunkedSpec(cleanedArticle, chunkCount, script)
  {
    var chunkSizeInChars := ChunkSize(|cleanedArticle|, chunkCount);
    var chunks := ChunkText(cleanedArticle, chunkSizeInChars);
    var tokenBudgetPerChunkSummary := ChunkBudget(chunkCount);
    var chunkSummaries, chunkCalls;
    chunkSummaries, chunkCalls, posts := SummarizeEachChunk(chunks, tokenBudgetPerChunkSummary, script, 0);
    var combinedSummaries := Join(" ", chunkSummaries);
    var request;
    summary, request, posts := SummarizeText(combinedSummaries, FinalSummaryTokenBudget, script, posts);
    calls := chunkCalls + [request];
  }

  // -----------------------------------------------------------------------
  // Properties of a run
  // -----------------------------------------------------------------------

  /** Blank and very short articles never reach the backend: the first comes
      back as the fixed error message, the second as its cleaned text. */
  lemma ShortArticlesSkipBackend(articleText: string, script: nat -> Reply)
    requires EstimateTokens(|CleanText(articleText)|) < MinArticleTokens
    ensures SummarizeSpec(articleText, script) ==
      Run(if IsBlank(articleText) then EmptyArticleMessage else CleanText(articleText), [], 0)
  {
  }

  /** How many summarize calls and POSTs an article costs: none below
      MinArticleTokens, one up to MaxTokensPerChunk, and beyond that one per
      chunk plus the final call, at least three and at most ChunkCount + 1;
      each call makes one or two POSTs. */
  lemma SummarizeArticleCalls(articleText: string, script: nat -> Reply)
    ensures var run := SummarizeSpec(articleText, script);
            var tokens := EstimateTokens(|CleanText(articleText)|);
            && (run.calls == [] <==> tokens < MinArticleTokens)
            && (|run.calls| == 1 <==> MinArticleTokens <= tokens <= MaxTokensPerChunk)
            && (tokens > MaxTokensPerChunk ==> 3 <= |run.calls| <= ChunkCount(tokens) + 1)
            && |run.calls| <= run.posts <= MaxAttempts * |run.calls|
  {
    var cleaned := CleanText(articleText);
    var tokens := EstimateTokens(|cleaned|);
    SingleChunkIff(tokens);
    if tokens > MaxTokensPerChunk {
      ChunksWithinCount(cleaned, ChunkCount(tokens));
    }
  }

  /** The single-pass call: the cleaned article itself (cleaning it again
      changes nothing) with a budget in [50, 200]. */
  lemma SinglePassCall(articleText: string, script: nat -> Reply)
    requires MinArticleTokens <= EstimateTokens(|CleanText(articleText)|) <= MaxTokensPerChunk
    ensures var run := SummarizeSpec(articleText, script);
            var budget := QuickBudget(EstimateTokens(|CleanText(articleText)|));
            && run.calls == [Request(CleanText(articleText), MinLength(budget), budget)]
            && MinQuickSummaryTokenBudget <= budget <= MaxQuickSummaryTokenBudget
            && MinLength(budget) <= budget
            && run.summary == Outcome(script, 0, MaxAttempts)
  {
    SingleChunkIff(EstimateTokens(|CleanText(articleText)|));
    CleanTextIdempotent(articleText);
  }

  /** The multi-chunk path: the chunks partition the cleaned article, call i
      summarizes chunk i with the shared budget, the budgets of all chunks
      fit in MaxTokensPerChunk, and the last call summarizes the joined chunk
      summaries with FinalSummaryTokenBudget. */
  lemma MultiChunkCalls(articleText: string, script: nat -> Reply)
    requires EstimateTokens(|CleanText(articleText)|) > MaxTokensPerChunk
    ensures var cleaned := CleanText(articleText);
            var count := ChunkCount(EstimateTokens(|cleaned|));
            var chunks := Chunks(cleaned, ChunkSize(|cleaned|, count));
            var budget := ChunkBudget(count);
            var run := SummarizeSpec(articleText, script);
            var pass := SummarizeChunks(chunks, budget, script, 0);
            && 2 <= count && 2 <= |chunks| <= count
            && Concat(chunks) == cleaned
            && count * budget <= MaxTokensPerChunk
            && |run.calls| == |chunks| + 1
            && (forall i :: 0 <= i < |chunks| ==> run.calls[i] == Payload(chunks[i], budget))
            && run.calls[|chunks|] == Payload(Join(" ", pass.summaries), FinalSummaryTokenBudget)
            && run.summary == Outcome(script, pass.posts, MaxAttempts)
  {
    var cleaned := CleanText(articleText);
    var tokens := EstimateTokens(|cleaned|);
    SingleChunkIff(tokens);
    ChunksWithinCount(cleaned, ChunkCount(tokens));
    var count := ChunkCount(tokens);
    ChunkBudgetBounds(count);
    SummarizeChunksCalls(Chunks(cleaned, ChunkSize(|cleaned|, count)), ChunkBudget(count), script, 0);
    ChunksConcat(cleaned, ChunkSize(|cleaned|, ChunkCount(tokens)), 0);
    assert cleaned[0..] == cleaned;
  }

  /** Up to 3600 chunks, the cleaned text is longer than
      count * (count - 1) characters. */
  lemma LongEnoughForChunkCount(length: nat)
    requires MaxTokensPerChunk < EstimateTokens(length)
    requires ChunkCount(EstimateTokens(length)) <= 3600
    ensures var count := ChunkCount(EstimateTokens(length));
            count >= 2 && length > count * (count - 1)
  {
    var tokens := EstimateTokens(length);
    var count := ChunkCount(tokens);
    CeilDivBounds(tokens, MaxTokensPerChunk);
    assert count >= 2;
    MulMonotone(count, 3600, count - 1);
    assert 3600 * (count - 1) == 4 * ((count - 1) * MaxTokensPerChunk);
  }

  /** Long enough a text is cut into exactly `count` chunks. */
  lemma ChunksExactCount(text: string, count: nat)
    requires count > 0 && |text| > count * (count - 1)
    ensures |Chunks(text, ChunkSize(|text|, count))| == count
  {
    var size := ChunkSize(|text|, count);
    assert size == CeilDiv(|text|, count);
    CeilDivOfCeilDivExact(|text|, count);
    ChunksCount(text, size, 0);
  }

  /** Above one chunk's worth of tokens, SummarizeArticle takes the
      chunked path. */
  lemma TakesChunkedPath(articleText: string, script: nat -> Reply)
    requires MaxTokensPerChunk < EstimateTokens(|CleanText(articleText)|)
    ensures var cleaned := CleanText(articleText);
            var count := ChunkCount(EstimateTokens(|cleaned|));
            count >= 2 && SummarizeSpec(articleText, script) == ChunkedSpec(cleaned, count, script)
  {
    SingleChunkIff(EstimateTokens(|CleanText(articleText)|));
  }

  /** Up to 3600 chunks, the chunked path makes exactly one summarize call
      per chunk ChunkCount asks for, plus the final call. */
  lemma ManyChunksExactCalls(articleText: string, script: nat -> Reply)
    requires MaxTokensPerChunk < EstimateTokens(|CleanText(articleText)|)
    requires ChunkCount(EstimateTokens(|CleanText(articleText)|)) <= 3600
    ensures var count := ChunkCount(EstimateTokens(|CleanText(articleText)|));
            |SummarizeSpec(articleText, script).calls| == count + 1
  {
    var cleaned := CleanText(articleText);
    var count := ChunkCount(EstimateTokens(|cleaned|));
    TakesChunkedPath(articleText, script);
    LongEnoughForChunkCount(|cleaned|);
    ChunksExactCount(cleaned, count);
  }
}
