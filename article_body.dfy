/**
  Services/ArticleBodyService.cs: finding the main content of a fetched
  news page, reducing its paragraphs to plain text, and reporting the
  outcome. The HTML parser and its XPath engine are replaced by a tree of
  nodes in which `//x` means "the first match in document order"; the
  HTML entity decoder is a parameter.
*/
module ArticleBodyService {
  import opened Nullable
  import opened Text

  // -----------------------------------------------------------------------
  // The parsed page
  // -----------------------------------------------------------------------

  /** An HtmlNode: an element, with the tag name as the parser reports it
      (lower case), its class and id attributes ("" when absent), and its
      children; or a run of text. */
  datatype Node =
    | Element(name: string, className: string, id: string, children: seq<Node>)
    | TextNode(text: string)

  /** The children of HtmlDocument.DocumentNode. */
  type Document = seq<Node>

  /** A node followed by all its descendants, in document order. */
  function Subtree(n: Node): seq<Node>
    decreases n, 1
  {
    [n] + (if n.Element? then Forest(n.children) else [])
  }

  /** Every node of a list of siblings and of their subtrees, in document
      order: what `//` ranges over. */
  function Forest(nodes: seq<Node>): seq<Node>
    decreases nodes, 0
  {
    if nodes == [] then [] else Subtree(nodes[0]) + Forest(nodes[1..])
  }

  /** The descendants of n, without n itself: what `.//` ranges over. */
  function Descendants(n: Node): seq<Node> {
    if n.Element? then Forest(n.children) else []
  }

  // -----------------------------------------------------------------------
  // The XPath expressions of GetMainContentNode
  // -----------------------------------------------------------------------

  /** The four shapes of location path the service uses, all of the form
      `//tag[...]`. */
  datatype Selector =
    | Tag(tag: string)
      // //tag
    | ClassContains(tag: string, part: string)
      // //tag[contains(@class, 'part')]
    | ClassOrIdContains(tag: string, part: string)
      // //tag[contains(@class, 'part') or contains(@id, 'part')]
    | LowerClassContains(tag: string, part: string)
      // //tag[contains(translate(@class, 'A..Z', 'a..z'), 'part')]

  /** XPath translate() with the ASCII upper- and lower-case alphabets. */
  function LowerAscii(s: string): (r: string)
    ensures |r| == |s|
    decreases |s|
  {
    if s == [] then []
    else [if 'A' <= s[0] <= 'Z' then (s[0] as int + 32) as char else s[0]] + LowerAscii(s[1..])
  }

  predicate Matches(sel: Selector, n: Node) {
    n.Element? && n.name == sel.tag &&
    match sel
    case Tag(_) => true
    case ClassContains(_, part) => Contains(n.className, part)
    case ClassOrIdContains(_, part) => Contains(n.className, part) || Contains(n.id, part)
    case LowerClassContains(_, part) => Contains(LowerAscii(n.className), part)
  }

  /** The position of the first node that matches, |nodes| when none does. */
  function FirstMatch(sel: Selector, nodes: seq<Node>): (i: nat)
    ensures i <= |nodes|
    ensures i < |nodes| ==> Matches(sel, nodes[i])
    ensures forall j :: 0 <= j < i ==> !Matches(sel, nodes[j])
    decreases |nodes|
  {
    if nodes == [] || Matches(sel, nodes[0]) then 0 else 1 + FirstMatch(sel, nodes[1..])
  }

  /** DocumentNode.SelectSingleNode(xpath): the first match in document
      order, or null. */
  function SelectSingleNode(doc: Document, sel: Selector): Option<Node> {
    var nodes := Forest(doc);
    var i := FirstMatch(sel, nodes);
    if i < |nodes| then Some(nodes[i]) else None
  }

  predicate IsParagraph(n: Node) {
    n.Element? && n.name == "p"
  }

  /** The `p` elements among a list of nodes, in order. */
  function Paragraphs(nodes: seq<Node>): (ps: seq<Node>)
    ensures |ps| <= |nodes|
    decreases |nodes|
  {
    if nodes == [] then []
    else (if IsParagraph(nodes[0]) then [nodes[0]] else []) + Paragraphs(nodes[1..])
  }

  /** node.SelectNodes(".//p"): the paragraphs below a node; the parser's
      null for "none" is the empty list here. */
  function SelectParagraphs(n: Node): seq<Node> {
    Paragraphs(Descendants(n))
  }

  /** A fallback candidate is kept when it holds at least two paragraphs. */
  predicate Accepted(n: Node) {
    |SelectParagraphs(n)| >= 2
  }

  // -----------------------------------------------------------------------
  // GetMainContentNode
  // -----------------------------------------------------------------------

  const ArticleElement := Tag("article")
  const ArticleBodyDiv := ClassContains("div", "article-body")

  /** articleBodyXPaths (lines 82-90), in array order. */
  const Fallbacks: seq<Selector> := [
    ClassOrIdContains("div", "story-body"),
    ClassOrIdContains("div", "entry-content"),
    ClassOrIdContains("div", "post-content"),
    ClassOrIdContains("section", "article"),
    ClassOrIdContains("div", "article"),
    LowerClassContains("div", "article")
  ]

  /** The first fallback, from position i on, whose first match is
      accepted. */
  function FirstAccepted(doc: Document, i: nat): Option<Node>
    decreases |Fallbacks| - i
  {
    if i >= |Fallbacks| then None
    else
      var candidate := SelectSingleNode(doc, Fallbacks[i]);
      if candidate.Some? && Accepted(candidate.value) then candidate
      else FirstAccepted(doc, i + 1)
  }

  /** What GetMainContentNode returns for a document. */
  function Locate(doc: Document): Option<Node> {
    var primary := SelectSingleNode(doc, ArticleElement);
    if primary.Some? then primary
    else
      var secondary := SelectSingleNode(doc, ArticleBodyDiv);
      if secondary.Some? then secondary else FirstAccepted(doc, 0)
  }

  /** GetMainContentNode (lines 73-103): the two default selectors, then the
      fallbacks in order until a candidate with two paragraphs turns up. */
  method GetMainContentNode(doc: Document) returns (bodyNode: Option<Node>)
    ensures bodyNode == Locate(doc)
  {
    bodyNode := SelectSingleNode(doc, ArticleElement);
    if bodyNode.None? {
      bodyNode := SelectSingleNode(doc, ArticleBodyDiv);
    }
    if bodyNode.None? {
      var articleBodyXPaths := Fallbacks;
      var i := 0;
      while i < |articleBodyXPaths|
        invariant i <= |articleBodyXPaths|
        invariant FirstAccepted(doc, 0) == FirstAccepted(doc, i)
        invariant bodyNode.None?
      {
        var candidateNode := SelectSingleNode(doc, articleBodyXPaths[i]);
        if candidateNode.Some? && |SelectParagraphs(candidateNode.value)| >= 2 {
          bodyNode := candidateNode;
          break;
        }
        i := i + 1;
      }
    }
  }

  /** The document has a node the selector matches. */
  predicate Present(doc: Document, sel: Selector) {
    exists k :: 0 <= k < |Forest(doc)| && Matches(sel, Forest(doc)[k])
  }

  /** The first match of fallback i is missing or has fewer than two
      paragraphs. */
  predicate Rejected(doc: Document, i: nat)
    requires i < |Fallbacks|
  {
    var candidate := SelectSingleNode(doc, Fallbacks[i]);
    candidate.None? || !Accepted(candidate.value)
  }

  /** The first `article` element in document order wins, whatever it holds;
      without one, the first `div` whose class contains "article-body". */
  lemma LocateDefaults(doc: Document)
    ensures var nodes := Forest(doc);
            forall k :: 0 <= k < |nodes| && Matches(ArticleElement, nodes[k])
                        && (forall j :: 0 <= j < k ==> !Matches(ArticleElement, nodes[j]))
                        ==> Locate(doc) == Some(nodes[k])
    ensures var nodes := Forest(doc);
            forall k :: 0 <= k < |nodes| && !Present(doc, ArticleElement)
                        && Matches(ArticleBodyDiv, nodes[k])
                        && (forall j :: 0 <= j < k ==> !Matches(ArticleBodyDiv, nodes[j]))
                        ==> Locate(doc) == Some(nodes[k])
  {
    var nodes := Forest(doc);
    forall k | 0 <= k < |nodes| && Matches(ArticleElement, nodes[k])
               && (forall j :: 0 <= j < k ==> !Matches(ArticleElement, nodes[j]))
      ensures Locate(doc) == Some(nodes[k])
    {
      FirstMatchIsLeast(ArticleElement, nodes, k);
    }
    forall k | 0 <= k < |nodes| && !Present(doc, ArticleElement)
               && Matches(ArticleBodyDiv, nodes[k])
               && (forall j :: 0 <= j < k ==> !Matches(ArticleBodyDiv, nodes[j]))
      ensures Locate(doc) == Some(nodes[k])
    {
      FirstMatchIsLeast(ArticleBodyDiv, nodes, k);
    }
  }

  lemma FirstMatchIsLeast(sel: Selector, nodes: seq<Node>, k: nat)
    requires k < |nodes| && Matches(sel, nodes[k])
    requires forall j :: 0 <= j < k ==> !Matches(sel, nodes[j])
    ensures FirstMatch(sel, nodes) == k
  {
  }

  /** Without either default, fallback i is used when its first match has two
      paragraphs and every earlier fallback was rejected. */
  lemma LocateFallback(doc: Document, i: nat)
    requires !Present(doc, ArticleElement) && !Present(doc, ArticleBodyDiv)
    requires i < |Fallbacks| && !Rejected(doc, i)
    requires forall j :: 0 <= j < i ==> Rejected(doc, j)
    ensures Locate(doc) == SelectSingleNode(doc, Fallbacks[i])
  {
    FirstAcceptedFrom(doc, 0, i);
  }

  lemma {:induction false} FirstAcceptedFrom(doc: Document, start: nat, i: nat)
    requires start <= i < |Fallbacks| && !Rejected(doc, i)
    requires forall j :: start <= j < i ==> Rejected(doc, j)
    ensures FirstAccepted(doc, start) == SelectSingleNode(doc, Fallbacks[i])
    decreases i - start
  {
    var candidate := SelectSingleNode(doc, Fallbacks[start]);
    if start < i {
      assert Rejected(doc, start);
      assert candidate.None? || !Accepted(candidate.value);
      FirstAcceptedFrom(doc, start + 1, i);
    }
  }

  /** GetMainContentNode returns null exactly when there is no `article`, no
      "article-body" div, and every fallback is rejected. */
  lemma LocateNone(doc: Document)
    ensures Locate(doc).None? <==>
              !Present(doc, ArticleElement) && !Present(doc, ArticleBodyDiv)
              && forall i :: 0 <= i < |Fallbacks| ==> Rejected(doc, i)
  {
    if !Present(doc, ArticleElement) && !Present(doc, ArticleBodyDiv) {
      FirstAcceptedNone(doc, 0);
    }
  }

  lemma {:induction false} FirstAcceptedNone(doc: Document, start: nat)
    requires start <= |Fallbacks|
    ensures FirstAccepted(doc, start).None? <==> forall i :: start <= i < |Fallbacks| ==> Rejected(doc, i)
    decreases |Fallbacks| - start
  {
    if start < |Fallbacks| {
      var candidate := SelectSingleNode(doc, Fallbacks[start]);
      assert Rejected(doc, start) <==> candidate.None? || !Accepted(candidate.value);
      FirstAcceptedNone(doc, start + 1);
    }
  }

  /** Whatever GetMainContentNode returns is a node of the document that one
      of the selectors matches. */
  lemma LocateMatches(doc: Document)
    ensures Locate(doc).Some? ==>
              var n := Locate(doc).value;
              n in Forest(doc)
              && (Matches(ArticleElement, n) || Matches(ArticleBodyDiv, n)
                  || (Accepted(n) && exists i :: 0 <= i < |Fallbacks| && Matches(Fallbacks[i], n)))
  {
    if !Present(doc, ArticleElement) && !Present(doc, ArticleBodyDiv) && Locate(doc).Some? {
      FirstAcceptedMatches(doc, 0);
    }
  }

  lemma {:induction false} FirstAcceptedMatches(doc: Document, start: nat)
    ensures FirstAccepted(doc, start).Some? ==>
              var n := FirstAccepted(doc, start).value;
              n in Forest(doc) && Accepted(n)
              && exists i :: start <= i < |Fallbacks| && Matches(Fallbacks[i], n)
    decreases |Fallbacks| - start
  {
    if start < |Fallbacks| {
      FirstAcceptedMatches(doc, start + 1);
    }
  }

  // -----------------------------------------------------------------------
  // CleanText: the line filter
  // -----------------------------------------------------------------------

  /** char.IsUpper, for ASCII and Latin-1. */
  predicate IsUpper(c: char) {
    'A' <= c <= 'Z' || '\U{C0}' <= c <= '\U{D6}' || '\U{D8}' <= c <= '\U{DE}'
  }

  /** char.IsLetter, for ASCII and Latin-1. */
  predicate IsLetter(c: char) {
    IsUpper(c) || 'a' <= c <= 'z' || c == '\U{AA}' || c == '\U{B5}' || c == '\U{BA}'
    || '\U{DF}' <= c <= '\U{F6}' || '\U{F8}' <= c <= '\U{FF}'
  }

  /** A short line with no letter that is not upper case: a heading, a
      byline in capitals, a button label. */
  predicate IsShouty(line: string) {
    |line| < 40 && forall i :: 0 <= i < |line| ==> IsUpper(line[i]) || !IsLetter(line[i])
  }

  /** skipKeywords (lines 118-122). */
  const SkipKeywords: seq<string> :=
    ["cookie", "advertisement", "sign up", "privacy policy", "terms of use", "get the app"]

  /** Some keyword occurs in the text. */
  predicate MentionsAny(text: string, keywords: seq<string>)
    decreases |keywords|
  {
    keywords != [] && (Contains(text, keywords[0]) || MentionsAny(text, keywords[1..]))
  }

  /** line.Contains(k, OrdinalIgnoreCase) for some skip keyword; the keywords
      are lower-case ASCII, so folding the line to lower case suffices. */
  predicate IsBoilerplate(line: string) {
    MentionsAny(LowerAscii(line), SkipKeywords)
  }

  /** What the second Where (lines 124-129) drops. */
  predicate IsNoise(line: string) {
    IsShouty(line) || IsBoilerplate(line)
  }

  /** Select(line => line.Trim()). */
  function TrimLines(lines: seq<string>): (r: seq<string>)
    ensures |r| == |lines|
    decreases |lines|
  {
    if lines == [] then [] else [Trim(lines[0])] + TrimLines(lines[1..])
  }

  /** Where(line => !string.IsNullOrWhiteSpace(line)). */
  function DropBlank(lines: seq<string>): (r: seq<string>)
    ensures |r| <= |lines|
    decreases |lines|
  {
    if lines == [] then []
    else (if IsBlank(lines[0]) then [] else [lines[0]]) + DropBlank(lines[1..])
  }

  /** Where(line => !shouty && !boilerplate). */
  function DropNoise(lines: seq<string>): (r: seq<string>)
    ensures |r| <= |lines|
    decreases |lines|
  {
    if lines == [] then []
    else (if IsNoise(lines[0]) then [] else [lines[0]]) + DropNoise(lines[1..])
  }

  /** The lines CleanText keeps from decoded text (lines 112-129). */
  function KeptLines(decoded: string): seq<string> {
    DropNoise(DropBlank(TrimLines(Split(decoded, '\n'))))
  }

  /** A line break, \n or \r\n, starts s. */
  predicate StartsBreak(s: string) {
    s != [] && (s[0] == '\n' || (|s| >= 2 && s[0] == '\r' && s[1] == '\n'))
  }

  /** Regex.Replace(s, @"(\r?\n\s*){2,}", "\n\n"), scanning left to right:
      a line break whose white-space run holds another \n turns, run and
      all, into one blank line. */
  function BreakRuns(s: string): string
    decreases |s|
  {
    if s == [] then []
    else
      var run := LeadingWhite(s);
      var firstBreak := if s[0] == '\r' then 1 else 0;
      if StartsBreak(s) && firstBreak < run && '\n' in s[firstBreak + 1..run] then
        "\n\n" + BreakRuns(s[run..])
      else [s[0]] + BreakRuns(s[1..])
  }

  /** Each kept line with its white-space runs collapsed. */
  function CollapseEach(lines: seq<string>): (r: seq<string>)
    ensures |r| == |lines|
    decreases |lines|
  {
    if lines == [] then [] else [CollapseWhite(lines[0])] + CollapseEach(lines[1..])
  }

  /** CleanText (lines 106-137). */
  function CleanBody(text: string, decode: string -> string): (r: string)
    ensures IsBlank(text) ==> r == []
  {
    if IsBlank(text) then []
    else
      var cleaned := Join("\n\n", KeptLines(decode(text)));
      Trim(BreakRuns(CollapseWhite(cleaned)))
  }

  // -----------------------------------------------------------------------
  // What CleanText keeps, and what its output looks like
  // -----------------------------------------------------------------------

  /** On text where white space never repeats, which is what the collapse at
      line 133 produces, the paragraph-break rewrite at line 134 changes
      nothing. */
  lemma {:induction false} BreakRunsIdentity(s: string)
    requires NoAdjacentWhite(s)
    ensures BreakRuns(s) == s
    decreases |s|
  {
    if s != [] {
      var run := LeadingWhite(s);
      assert |s| > 1 ==> !IsWhite(s[0]) || !IsWhite(s[1]);
      assert run <= 1;
      assert !StartsBreak(s) || s[0] == '\n';
      NoAdjacentWhiteTail(s);
      BreakRunsIdentity(s[1..]);
    }
  }

  /** The "\n\n" between two trimmed lines collapses to one space. */
  lemma CollapseBreak(t: string)
    requires t != [] && !IsWhite(t[0])
    ensures CollapseWhite("\n\n" + t) == " " + CollapseWhite(t)
  {
    var s := "\n\n" + t;
    assert s[1..] == "\n" + t && s[1..][1..] == t && s[2..] == t;
    assert LeadingWhite(s) == 2;
    CollapseWhiteRun(s, " ");
  }

  lemma CollapseEachAt(lines: seq<string>, i: nat)
    requires i < |lines|
    ensures CollapseEach(lines)[i] == CollapseWhite(lines[i])
    decreases i
  {
    if i > 0 {
      CollapseEachAt(lines[1..], i - 1);
    }
  }

  /** Lines that are non-empty and trimmed. */
  predicate TrimmedLines(lines: seq<string>) {
    forall i :: 0 <= i < |lines| ==> lines[i] != [] && Trimmed(lines[i])
  }

  /** One line and the blank line after it collapse to the line and a
      single space. */
  lemma CollapseJoinStep(first: string, joined: string)
    requires first != [] && Trimmed(first)
    requires joined != [] && !IsWhite(joined[0])
    ensures CollapseWhite(first + "\n\n" + joined) == CollapseWhite(first) + " " + CollapseWhite(joined)
  {
    assert first + "\n\n" + joined == first + ("\n\n" + joined);
    CollapseWhiteAppend(first, "\n\n" + joined);
    CollapseBreak(joined);
    ConcatAssoc(CollapseWhite(first), " ", CollapseWhite(joined),
                CollapseWhite(first) + (" " + CollapseWhite(joined)), CollapseWhite(first) + " ");
  }

  /** Collapsing white space in lines joined by blank lines is joining the
      collapsed lines with single spaces. */
  lemma {:induction false} CollapseJoin(lines: seq<string>)
    requires TrimmedLines(lines)
    ensures CollapseWhite(Join("\n\n", lines)) == Join(" ", CollapseEach(lines))
    decreases |lines|
  {
    if |lines| > 1 {
      var rest := lines[1..];
      assert rest[0] == lines[1];
      JoinHead("\n\n", rest);
      CollapseJoinStep(lines[0], Join("\n\n", rest));
      CollapseJoin(rest);
      var collapsed := CollapseEach(lines);
      assert collapsed[0] == CollapseWhite(lines[0]) && collapsed[1..] == CollapseEach(rest);
    }
  }

  /** The first Where keeps exactly the non-blank lines, each as often as
      it occurs, in order. */
  lemma {:induction false} DropBlankKeeps(lines: seq<string>)
    ensures forall l :: l in DropBlank(lines) <==> l in lines && !IsBlank(l)
    ensures forall l :: multiset(DropBlank(lines))[l] == if IsBlank(l) then 0 else multiset(lines)[l]
    ensures Subsequence(DropBlank(lines), lines)
    decreases |lines|
  {
    if lines != [] {
      var rest := lines[1..];
      DropBlankKeeps(rest);
      assert lines == [lines[0]] + rest;
      assert multiset(lines) == multiset([lines[0]]) + multiset(rest);
      if IsBlank(lines[0]) {
        assert DropBlank(lines) == DropBlank(rest);
      } else {
        assert DropBlank(lines) == [lines[0]] + DropBlank(rest);
        assert DropBlank(lines)[1..] == DropBlank(rest);
        assert multiset(DropBlank(lines)) == multiset([lines[0]]) + multiset(DropBlank(rest));
      }
    }
  }

  /** The second Where keeps exactly the lines that are not noise, each as
      often as it occurs, in order. */
  lemma {:induction false} DropNoiseKeeps(lines: seq<string>)
    ensures forall l :: l in DropNoise(lines) <==> l in lines && !IsNoise(l)
    ensures forall l :: multiset(DropNoise(lines))[l] == if IsNoise(l) then 0 else multiset(lines)[l]
    ensures Subsequence(DropNoise(lines), lines)
    decreases |lines|
  {
    if lines != [] {
      var rest := lines[1..];
      DropNoiseKeeps(rest);
      assert lines == [lines[0]] + rest;
      assert multiset(lines) == multiset([lines[0]]) + multiset(rest);
      if IsNoise(lines[0]) {
        assert DropNoise(lines) == DropNoise(rest);
      } else {
        assert DropNoise(lines) == [lines[0]] + DropNoise(rest);
        assert DropNoise(lines)[1..] == DropNoise(rest);
        assert multiset(DropNoise(lines)) == multiset([lines[0]]) + multiset(DropNoise(rest));
      }
    }
  }

  /** The lines CleanText keeps are exactly the trimmed lines that are
      neither blank nor noise, each as often as it occurs, in their original
      order. */
  lemma KeptLinesExact(decoded: string)
    ensures var trimmed := TrimLines(Split(decoded, '\n'));
            && (forall l :: l in KeptLines(decoded) <==> l in trimmed && !IsBlank(l) && !IsNoise(l))
            && (forall l :: multiset(KeptLines(decoded))[l] ==
                  if IsBlank(l) || IsNoise(l) then 0 else multiset(trimmed)[l])
            && Subsequence(KeptLines(decoded), trimmed)
  {
    var trimmed := TrimLines(Split(decoded, '\n'));
    DropBlankKeeps(trimmed);
    DropNoiseKeeps(DropBlank(trimmed));
    SubsequenceTransitive(KeptLines(decoded), DropBlank(trimmed), trimmed);
  }

  /** Trimming lines that hold no \n gives trimmed lines that hold
      none either. */
  lemma {:induction false} TrimLinesShape(lines: seq<string>)
    requires forall l :: l in lines ==> '\n' !in l
    ensures forall l :: l in TrimLines(lines) ==> Trimmed(l) && '\n' !in l
    decreases |lines|
  {
    if lines != [] {
      TrimShape(lines[0]);
      TrimLinesShape(lines[1..]);
    }
  }

  /** Every kept line is non-empty, trimmed, free of \n, and passes
      both filters. */
  lemma KeptLinesShape(decoded: string)
    ensures TrimmedLines(KeptLines(decoded))
    ensures forall i :: 0 <= i < |KeptLines(decoded)| ==>
              var line := KeptLines(decoded)[i];
              '\n' !in line && !IsBlank(line) && !IsNoise(line)
  {
    var kept := KeptLines(decoded);
    TrimLinesShape(Split(decoded, '\n'));
    KeptLinesExact(decoded);
    forall i | 0 <= i < |kept|
      ensures kept[i] != [] && Trimmed(kept[i]) && '\n' !in kept[i]
      ensures !IsBlank(kept[i]) && !IsNoise(kept[i])
    {
      assert kept[i] in kept;
    }
  }

  /** Kept lines, collapsed and joined with spaces, hold no \n. */
  lemma JoinedLinesNoBreak(lines: seq<string>)
    requires forall i :: 0 <= i < |lines| ==> '\n' !in lines[i]
    ensures '\n' !in Join(" ", CollapseEach(lines))
  {
    var collapsed := CollapseEach(lines);
    forall i | 0 <= i < |lines| ensures '\n' !in collapsed[i] {
      CollapseEachAt(lines, i);
      CollapseWhiteChars(lines[i]);
    }
    JoinExcludes(" ", collapsed, '\n');
  }

  /** Kept lines, collapsed and joined with spaces, start and end with the
      first and last line's ends, which are not white space. */
  lemma JoinedLinesTrimmed(lines: seq<string>)
    requires TrimmedLines(lines)
    ensures Trimmed(Join(" ", CollapseEach(lines)))
  {
    if lines != [] {
      var collapsed := CollapseEach(lines);
      var last := |lines| - 1;
      CollapseEachAt(lines, 0);
      CollapseEachAt(lines, last);
      CollapseWhiteLast(lines[last]);
      JoinHead(" ", collapsed);
      JoinLast(" ", collapsed);
    }
  }

  /** Kept lines, collapsed and joined with spaces, are free of \n
      and of repeated white space, and are trimmed. */
  lemma JoinedLinesShape(lines: seq<string>)
    requires TrimmedLines(lines)
    requires forall i :: 0 <= i < |lines| ==> '\n' !in lines[i]
    ensures var joined := Join(" ", CollapseEach(lines));
            '\n' !in joined && NoAdjacentWhite(joined) && Trimmed(joined)
  {
    JoinedLinesNoBreak(lines);
    JoinedLinesTrimmed(lines);
    CollapseJoin(lines);
    CollapseWhiteNoAdjacent(Join("\n\n", lines));
  }

  /** Whatever CleanText returns is free of \n and of repeated white
      space, and is trimmed. */
  lemma CleanBodyShape(text: string, decode: string -> string)
    ensures var r := CleanBody(text, decode);
            '\n' !in r && NoAdjacentWhite(r) && Trimmed(r)
  {
    if !IsBlank(text) {
      CleanBodyJoinsLines(text, decode);
      KeptLinesShape(decode(text));
      JoinedLinesShape(KeptLines(decode(text)));
    }
  }

  /** CleanText's output is the kept lines, each with its white-space runs
      collapsed, joined by single spaces: the "\n\n" paragraph separators
      do not survive the collapse at line 133. */
  lemma CleanBodyJoinsLines(text: string, decode: string -> string)
    requires !IsBlank(text)
    ensures CleanBody(text, decode) == Join(" ", CollapseEach(KeptLines(decode(text))))
  {
    var kept := KeptLines(decode(text));
    var joined := Join(" ", CollapseEach(kept));
    KeptLinesShape(decode(text));
    CollapseJoin(kept);
    JoinedLinesShape(kept);
    BreakRunsIdentity(joined);
    TrimShape(joined);
  }

  // -----------------------------------------------------------------------
  // GetArticleBodyAsync and ArticleBodyResult
  // -----------------------------------------------------------------------

  /** HtmlNode.InnerText: the text of every text node below n, in document
      order, still HTML-encoded. */
  function InnerText(n: Node): string
    decreases n, 1
  {
    match n
    case TextNode(text) => text
    case Element(_, _, _, children) => ForestText(children)
  }

  function ForestText(nodes: seq<Node>): string
    decreases nodes, 0
  {
    if nodes == [] then [] else InnerText(nodes[0]) + ForestText(nodes[1..])
  }

  /** paragraphs.Select(p => p.InnerText.Trim()). */
  function ParagraphTexts(paragraphs: seq<Node>): (texts: seq<string>)
    ensures |texts| == |paragraphs|
    decreases |paragraphs|
  {
    if paragraphs == [] then []
    else [Trim(InnerText(paragraphs[0]))] + ParagraphTexts(paragraphs[1..])
  }

  /** What GetStringAsync delivers: the parsed page, or the message of the
      HttpRequestException it threw. */
  datatype Fetch = Page(doc: Document) | RequestFailed(message: string)

  const BodyNotFound := "[INFO] Article body not found on the page."
  const NoParagraphs := "[INFO] No paragraph content found inside article body."
  const FetchFailed := "[ERROR] Failed to fetch article: "

  /** The two properties GetArticleBodyAsync leaves in its result. */
  datatype Report = Report(articleBody: Option<string>, errorMessage: Option<string>)

  /** The outcome GetArticleBodyAsync selects (lines 31-68): the fetch
      error, no main content, no paragraphs in it, or the cleaned text of
      its paragraphs joined by blank lines. */
  function Expected(fetch: Fetch, decode: string -> string): Report {
    match fetch
    case RequestFailed(message) => Report(None, Some(FetchFailed + message))
    case Page(doc) =>
      match Locate(doc)
      case None => Report(None, Some(BodyNotFound))
      case Some(body) =>
        var paragraphs := SelectParagraphs(body);
        if paragraphs == [] then Report(None, Some(NoParagraphs))
        else Report(Some(CleanBody(Join("\n\n", ParagraphTexts(paragraphs)), decode)), None)
  }

  /** ArticleBodyResult (lines 141-146). */
  class ArticleBodyResult {
    var articleBody: Option<string>
    var errorMessage: Option<string>

    constructor()
      ensures articleBody == None && errorMessage == None
    {
      articleBody := None;
      errorMessage := None;
    }

    /** Success => string.IsNullOrEmpty(ErrorMessage). */
    predicate Success()
      reads this
    {
      IsNullOrEmpty(errorMessage)
    }
  }

  /** GetArticleBodyAsync after the download: a fresh result whose two
      properties are the selected outcome, and which reports success
      exactly when a main content node with at least one paragraph was
      found. */
  method GetArticleBody(fetch: Fetch, decode: string -> string) returns (result: ArticleBodyResult)
    ensures fresh(result)
    ensures result.articleBody == Expected(fetch, decode).articleBody
    ensures result.errorMessage == Expected(fetch, decode).errorMessage
    ensures result.Success() <==>
              fetch.Page? && Locate(fetch.doc).Some? && SelectParagraphs(Locate(fetch.doc).value) != []
  {
    result := new ArticleBodyResult();
    match fetch {
      case RequestFailed(message) =>
        result.errorMessage := Some(FetchFailed + message);
      case Page(doc) =>
        var bodyNode := GetMainContentNode(doc);
        if bodyNode.Some? {
          var paragraphs := SelectParagraphs(bodyNode.value);
          if paragraphs != [] {
            var articleText := Join("\n\n", ParagraphTexts(paragraphs));
            result.articleBody := Some(CleanBody(articleText, decode));
          } else {
            result.errorMessage := Some(NoParagraphs);
          }
        } else {
          result.errorMessage := Some(BodyNotFound);
        }
    }
    ExpectedSuccess(fetch, decode);
  }

  /** Exactly one of the two properties is set; the error message, when
      set, is never empty, so Success is false exactly on the three error
      paths. */
  lemma ExpectedSuccess(fetch: Fetch, decode: string -> string)
    ensures var report := Expected(fetch, decode);
            && (report.articleBody.Some? <==> report.errorMessage.None?)
            && (IsNullOrEmpty(report.errorMessage) <==>
                  fetch.Page? && Locate(fetch.doc).Some? && SelectParagraphs(Locate(fetch.doc).value) != [])
  {
    assert FetchFailed != [] && FetchFailed[0] == '[';
    if fetch.RequestFailed? {
      assert (FetchFailed + fetch.message)[0] == '[';
    }
  }

  /** A page without a main content node reports that; a main content node
      without paragraphs reports that; a failed download reports its
      exception message after the fixed prefix. */
  lemma ExpectedErrors(fetch: Fetch, decode: string -> string)
    ensures fetch.RequestFailed? ==>
              Expected(fetch, decode).errorMessage == Some(FetchFailed + fetch.message)
    ensures fetch.Page? && Locate(fetch.doc).None? ==>
              Expected(fetch, decode).errorMessage == Some(BodyNotFound)
    ensures fetch.Page? && Locate(fetch.doc).Some? && SelectParagraphs(Locate(fetch.doc).value) == [] ==>
              Expected(fetch, decode).errorMessage == Some(NoParagraphs)
  {
  }

  /** A successful result carries the paragraph texts, kept line by line,
      collapsed and joined by single spaces (nothing when the texts are
      blank): no \n and no repeated white space survive, and
      neither end is white space. */
  lemma ExpectedBody(fetch: Fetch, decode: string -> string)
    requires Expected(fetch, decode).articleBody.Some?
    ensures var text := Join("\n\n", ParagraphTexts(SelectParagraphs(Locate(fetch.doc).value)));
            var body := Expected(fetch, decode).articleBody.value;
            && body == (if IsBlank(text) then [] else Join(" ", CollapseEach(KeptLines(decode(text)))))
            && '\n' !in body && NoAdjacentWhite(body) && Trimmed(body)
  {
    var text := Join("\n\n", ParagraphTexts(SelectParagraphs(Locate(fetch.doc).value)));
    CleanBodyShape(text, decode);
    if !IsBlank(text) {
      CleanBodyJoinsLines(text, decode);
    }
  }

  /** Success does not promise text: an article whose only paragraph is
      empty is reported as a success with an empty body. */
  lemma EmptyParagraphSucceeds(decode: string -> string)
    ensures var doc := [Element("article", "", "", [Element("p", "", "", [])])];
            Expected(Page(doc), decode) == Report(Some([]), None)
  {
    var paragraph := Element("p", "", "", []);
    var article := Element("article", "", "", [paragraph]);
    assert Forest([paragraph]) == [paragraph] by {
      assert Subtree(paragraph) == [paragraph];
    }
    assert Forest([article]) == [article, paragraph];
    assert Paragraphs([paragraph]) == [paragraph];
    assert SelectParagraphs(article) == [paragraph];
    assert ParagraphTexts([paragraph]) == [Trim([])];
  }
}
