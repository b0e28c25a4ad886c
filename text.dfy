/**
  The .NET string primitives that both services are built from, as pure
  functions over `string` (= `seq<char>`): char.IsWhiteSpace (the same set as
  `\s` in a .NET regular expression), string.IsNullOrWhiteSpace, string.Trim,
  string.Join, string.Split(char), string.Replace(char, string),
  Regex.Replace(s, @"\s{2,}", " "), substring tests, and the order of what
  a LINQ Where keeps.
  A null string is modelled as the empty one wherever the source treats the
  two alike (IsNullOrWhiteSpace, IsNullOrEmpty on a non-null argument).
*/
module Text {
  import opened Nullable

  // ---------------------------------------------------------------------
  // White space
  // ---------------------------------------------------------------------

  /** char.IsWhiteSpace: U+0009..U+000D, U+0085 and the Unicode separators
      (categories Zs, Zl, Zp). */
  predicate IsWhite(c: char) {
    c == ' ' || ('\t' <= c <= '\r') || c == '\U{85}' || c == '\U{A0}' || c == '\U{1680}'
    || ('\U{2000}' <= c <= '\U{200A}') || c == '\U{2028}' || c == '\U{2029}'
    || c == '\U{202F}' || c == '\U{205F}' || c == '\U{3000}'
  }

  /** string.IsNullOrWhiteSpace. */
  predicate IsBlank(s: string) {
    forall i :: 0 <= i < |s| ==> IsWhite(s[i])
  }

  /** string.IsNullOrEmpty. */
  predicate IsNullOrEmpty(s: Option<string>) {
    s.None? || s.value == []
  }

  /** No two white-space characters stand next to each other. */
  predicate NoAdjacentWhite(s: string) {
    forall i :: 0 <= i < |s| - 1 ==> !IsWhite(s[i]) || !IsWhite(s[i + 1])
  }

  /** Neither end of s is white space. */
  predicate Trimmed(s: string) {
    s == [] || (!IsWhite(s[0]) && !IsWhite(s[|s| - 1]))
  }

  /** The length of the white-space run that s starts with. */
  function LeadingWhite(s: string): (k: nat)
    ensures k <= |s|
    ensures forall i :: 0 <= i < k ==> IsWhite(s[i])
    ensures k < |s| ==> !IsWhite(s[k])
  {
    if s != [] && IsWhite(s[0]) then 1 + LeadingWhite(s[1..]) else 0
  }

  /** The length of the white-space run that s ends with. */
  function TrailingWhite(s: string): (k: nat)
    ensures k <= |s|
    ensures forall i :: |s| - k <= i < |s| ==> IsWhite(s[i])
    ensures k < |s| ==> !IsWhite(s[|s| - 1 - k])
  {
    if s != [] && IsWhite(s[|s| - 1]) then 1 + TrailingWhite(s[..|s| - 1]) else 0
  }

  /** string.Trim(): the slice of s between its leading and its trailing
      white space. */
  function Trim(s: string): string
  {
    var rest := s[LeadingWhite(s)..];
    rest[..|rest| - TrailingWhite(rest)]
  }

  /** What Trim leaves: no white space at either end, nothing only when s
      is blank, only characters of s, and s itself when it was trimmed. */
  lemma TrimShape(s: string)
    ensures Trimmed(Trim(s))
    ensures Trim(s) == [] <==> IsBlank(s)
    ensures forall c :: c in Trim(s) ==> c in s
    ensures Trimmed(s) ==> Trim(s) == s
    ensures NoAdjacentWhite(s) ==> NoAdjacentWhite(Trim(s))
  {
    var start := LeadingWhite(s);
    var rest := s[start..];
    var r := Trim(s);
    assert r == s[start..start + |r|];
    assert IsBlank(s) ==> start == |s|;
    assert start < |s| ==> r != [] by {
      if start < |s| {
        assert rest[0] == s[start] && !IsWhite(rest[0]);
        assert TrailingWhite(rest) < |rest|;
      }
    }
  }

  /** Trim(s) is the slice of s left once white space only is cut from
      either end. */
  lemma TrimSlice(s: string)
    ensures exists i, j :: 0 <= i <= j <= |s| && Trim(s) == s[i..j] && IsBlank(s[..i]) && IsBlank(s[j..])
  {
    var start := LeadingWhite(s);
    var r := Trim(s);
    assert r == s[start..start + |r|];
    assert IsBlank(s[..start]) && IsBlank(s[start + |r|..]);
  }

  // ---------------------------------------------------------------------
  // Regex.Replace(s, @"\s{2,}", " ")
  // ---------------------------------------------------------------------

  /** Regex.Replace(s, @"\s{2,}", " "): each maximal run of two or more
      white-space characters becomes a single space; a lone white-space
      character is kept as it is. */
  function CollapseWhite(s: string): (r: string)
    ensures |r| <= |s|
    ensures s != [] ==> r != [] && (IsWhite(r[0]) <==> IsWhite(s[0]))
    ensures s != [] && !IsWhite(s[0]) ==> r[0] == s[0]
    decreases |s|
  {
    if s == [] then []
    else if !IsWhite(s[0]) then [s[0]] + CollapseWhite(s[1..])
    else
      var k := LeadingWhite(s);
      (if k >= 2 then " " else [s[0]]) + CollapseWhite(s[k..])
  }

  /** What the collapse leaves: no white space next to white space, only
      characters of s or the space it writes, and s's last character when
      that is not white space. */
  lemma CollapseWhiteShape(s: string)
    ensures NoAdjacentWhite(CollapseWhite(s))
    ensures forall c :: c in CollapseWhite(s) ==> c in s || c == ' '
    ensures s != [] && !IsWhite(s[|s| - 1]) ==> CollapseWhite(s)[|CollapseWhite(s)| - 1] == s[|s| - 1]
  {
    CollapseWhiteNoAdjacent(s);
    CollapseWhiteChars(s);
    CollapseWhiteLast(s);
  }

  /** One step of CollapseWhite: the first character or white-space run,
      then the rest. */
  lemma CollapseWhiteStep(s: string)
    requires s != []
    ensures var k := if IsWhite(s[0]) then LeadingWhite(s) else 1;
            && 1 <= k <= |s|
            && CollapseWhite(s) == (if IsWhite(s[0]) && k >= 2 then " " else [s[0]]) + CollapseWhite(s[k..])
            && (IsWhite(s[0]) && k < |s| ==> !IsWhite(s[k]))
  {
  }

  lemma {:induction false} CollapseWhiteNoAdjacent(s: string)
    ensures NoAdjacentWhite(CollapseWhite(s))
    decreases |s|
  {
    if s != [] {
      CollapseWhiteStep(s);
      var r := CollapseWhite(s);
      var k := if IsWhite(s[0]) then LeadingWhite(s) else 1;
      var head: string := if IsWhite(s[0]) && k >= 2 then " " else [s[0]];
      var tail := CollapseWhite(s[k..]);
      CollapseWhiteNoAdjacent(s[k..]);
      assert |head| == 1 && IsWhite(head[0]) == IsWhite(s[0]);
      assert tail != [] && IsWhite(s[0]) ==> !IsWhite(tail[0]);
      forall i | 0 <= i < |r| - 1 ensures !IsWhite(r[i]) || !IsWhite(r[i + 1]) {
        if i > 0 {
          assert r[i] == tail[i - 1] && r[i + 1] == tail[i];
        }
      }
    }
  }

  lemma {:induction false} CollapseWhiteChars(s: string)
    ensures forall c :: c in CollapseWhite(s) ==> c in s || c == ' '
    decreases |s|
  {
    if s != [] {
      CollapseWhiteStep(s);
      var k := if IsWhite(s[0]) then LeadingWhite(s) else 1;
      var tail := CollapseWhite(s[k..]);
      CollapseWhiteChars(s[k..]);
      assert s == s[..k] + s[k..];
      forall c | c in tail && c != ' ' ensures c in s {
        assert c in s[k..];
      }
    }
  }

  lemma {:induction false} CollapseWhiteLast(s: string)
    ensures s != [] && !IsWhite(s[|s| - 1]) ==> CollapseWhite(s)[|CollapseWhite(s)| - 1] == s[|s| - 1]
    decreases |s|
  {
    if s != [] {
      CollapseWhiteStep(s);
      var k := if IsWhite(s[0]) then LeadingWhite(s) else 1;
      var tail := CollapseWhite(s[k..]);
      CollapseWhiteLast(s[k..]);
      if !IsWhite(s[|s| - 1]) && tail == [] {
        assert k == 1;
      }
    }
  }


  /** The characters of s that are not white space, in order. */
  function NonWhite(s: string): (r: string)
    ensures forall c :: c in r ==> c in s && !IsWhite(c)
  {
    if s == [] then []
    else (if IsWhite(s[0]) then [] else [s[0]]) + NonWhite(s[1..])
  }

  lemma {:induction false} NonWhiteAppend(x: string, y: string)
    ensures NonWhite(x + y) == NonWhite(x) + NonWhite(y)
    decreases |x|
  {
    if x == [] {
      assert x + y == y;
    } else {
      assert (x + y)[0] == x[0] && (x + y)[1..] == x[1..] + y;
      NonWhiteAppend(x[1..], y);
    }
  }

  lemma {:induction false} NonWhiteOfBlank(s: string)
    requires IsBlank(s)
    ensures NonWhite(s) == []
    decreases |s|
  {
    if s != [] {
      NonWhiteOfBlank(s[1..]);
    }
  }

  /** Collapsing white space never touches the other characters: the text
      with white space removed is the same before and after. */
  lemma {:induction false} CollapseWhiteKeepsText(s: string)
    ensures NonWhite(CollapseWhite(s)) == NonWhite(s)
    decreases |s|
  {
    if s != [] {
      if !IsWhite(s[0]) {
        NonWhiteAppend([s[0]], CollapseWhite(s[1..]));
        CollapseWhiteKeepsText(s[1..]);
      } else {
        var k := LeadingWhite(s);
        var head: string := if k >= 2 then " " else [s[0]];
        NonWhiteAppend(head, CollapseWhite(s[k..]));
        CollapseWhiteKeepsText(s[k..]);
        assert s == s[..k] + s[k..];
        NonWhiteAppend(s[..k], s[k..]);
        NonWhiteOfBlank(s[..k]);
        NonWhiteOfBlank(head);
      }
    }
  }

  /** Trim removes white space only: the other characters stay, in order. */
  lemma TrimKeepsText(s: string)
    ensures NonWhite(Trim(s)) == NonWhite(s)
  {
    TrimSlice(s);
    var i, j :| 0 <= i <= j <= |s| && Trim(s) == s[i..j] && IsBlank(s[..i]) && IsBlank(s[j..]);
    NonWhiteSlice(s, i, j);
  }

  lemma NonWhiteSlice(s: string, i: nat, j: nat)
    requires i <= j <= |s| && IsBlank(s[..i]) && IsBlank(s[j..])
    ensures NonWhite(s[i..j]) == NonWhite(s)
  {
    assert s == s[..i] + s[i..j] + s[j..];
    NonWhiteBetweenBlanks(s[..i], s[i..j], s[j..]);
  }

  lemma NonWhiteBetweenBlanks(a: string, b: string, c: string)
    requires IsBlank(a) && IsBlank(c)
    ensures NonWhite(a + b + c) == NonWhite(b)
  {
    NonWhiteAppend(a + b, c);
    NonWhiteAppend(a, b);
    NonWhiteOfBlank(a);
    NonWhiteOfBlank(c);
  }

  lemma NoAdjacentWhiteTail(s: string)
    requires s != [] && NoAdjacentWhite(s)
    ensures NoAdjacentWhite(s[1..])
  {
    forall i | 0 <= i < |s[1..]| - 1 ensures !IsWhite(s[1..][i]) || !IsWhite(s[1..][i + 1]) {
      assert s[1..][i] == s[i + 1] && s[1..][i + 1] == s[i + 2];
    }
  }

  /** Text in which white space never repeats is left as it is. */
  lemma {:induction false} CollapseWhiteFixpoint(s: string)
    requires NoAdjacentWhite(s)
    ensures CollapseWhite(s) == s
    decreases |s|
  {
    if s != [] {
      NoAdjacentWhiteTail(s);
      CollapseWhiteFixpoint(s[1..]);
      if IsWhite(s[0]) {
        assert |s| > 1 ==> !IsWhite(s[1]);
        assert LeadingWhite(s[1..]) == 0;
      }
    }
  }

  /** A run cannot reach across a non-white character, so the collapse of a
      concatenation splits there. */
  lemma {:induction false} CollapseWhiteAppend(x: string, y: string)
    requires x == [] || !IsWhite(x[|x| - 1])
    ensures CollapseWhite(x + y) == CollapseWhite(x) + CollapseWhite(y)
    decreases |x|, 1
  {
    if x == [] {
      assert x + y == y;
    } else if !IsWhite(x[0]) {
      CollapseWhiteAppendWord(x, y);
    } else {
      CollapseWhiteAppendRun(x, y);
    }
  }

  lemma {:induction false} CollapseWhiteAppendWord(x: string, y: string)
    requires x != [] && !IsWhite(x[0]) && !IsWhite(x[|x| - 1])
    ensures CollapseWhite(x + y) == CollapseWhite(x) + CollapseWhite(y)
    decreases |x|, 0
  {
    DropAppend(x, y, 1);
    CollapseWhiteAppend(x[1..], y);
  }

  lemma {:induction false} CollapseWhiteAppendRun(x: string, y: string)
    requires x != [] && IsWhite(x[0]) && !IsWhite(x[|x| - 1])
    ensures CollapseWhite(x + y) == CollapseWhite(x) + CollapseWhite(y)
    decreases |x|, 0
  {
    var xy := x + y;
    var k := LeadingWhite(x);
    LeadingWhiteAppend(x, y);
    DropAppend(x, y, k);
    var head: string := if k >= 2 then " " else [x[0]];
    CollapseWhiteRun(x, head);
    CollapseWhiteRun(xy, head);
    CollapseWhiteAppend(x[k..], y);
    ConcatAssoc(head, CollapseWhite(x[k..]), CollapseWhite(y), CollapseWhite(xy), CollapseWhite(x));
  }

  /** One step of the collapse on a string that starts with white space. */
  lemma CollapseWhiteRun(s: string, head: string)
    requires s != [] && IsWhite(s[0])
    requires head == if LeadingWhite(s) >= 2 then " " else [s[0]]
    ensures CollapseWhite(s) == head + CollapseWhite(s[LeadingWhite(s)..])
  {
  }

  lemma ConcatAssoc(h: string, a: string, b: string, l: string, r: string)
    requires l == h + (a + b) && r == h + a
    ensures l == r + b
  {
  }

  lemma {:induction false} LeadingWhiteAppend(x: string, y: string)
    requires x != [] && !IsWhite(x[|x| - 1])
    ensures LeadingWhite(x + y) == LeadingWhite(x) < |x|
    decreases |x|
  {
    if IsWhite(x[0]) {
      DropAppend(x, y, 1);
      LeadingWhiteAppend(x[1..], y);
    }
  }

  lemma DropAppend(x: string, y: string, k: nat)
    requires k <= |x|
    ensures x != [] ==> (x + y)[0] == x[0]
    ensures (x + y)[k..] == x[k..] + y
  {
  }

  // ---------------------------------------------------------------------
  // string.Join and string.Split
  // ---------------------------------------------------------------------

  /** string.Join(sep, parts). */
  function Join(sep: string, parts: seq<string>): string
  {
    if parts == [] then []
    else if |parts| == 1 then parts[0]
    else parts[0] + sep + Join(sep, parts[1..])
  }

  /** A join starts with the first part's first character. */
  lemma JoinHead(sep: string, parts: seq<string>)
    requires parts != [] && parts[0] != []
    ensures Join(sep, parts) != [] && Join(sep, parts)[0] == parts[0][0]
  {
  }

  /** A join ends with the last part's last character. */
  lemma {:induction false} JoinLast(sep: string, parts: seq<string>)
    requires parts != [] && parts[|parts| - 1] != []
    ensures var j := Join(sep, parts);
            j != [] && j[|j| - 1] == parts[|parts| - 1][|parts[|parts| - 1]| - 1]
    decreases |parts|
  {
    if |parts| > 1 {
      JoinLast(sep, parts[1..]);
    }
  }

  /** A character in neither the separator nor any part is not in the join. */
  lemma {:induction false} JoinExcludes(sep: string, parts: seq<string>, c: char)
    requires c !in sep
    requires forall i :: 0 <= i < |parts| ==> c !in parts[i]
    ensures c !in Join(sep, parts)
    decreases |parts|
  {
    if |parts| > 1 {
      JoinExcludes(sep, parts[1..], c);
    }
  }

  /** The concatenation of all parts (string.Join with an empty separator). */
  function Concat(parts: seq<string>): string
  {
    if parts == [] then [] else parts[0] + Concat(parts[1..])
  }

  /** string.Split(sep): the pieces between separators, empty pieces
      included, so there is always one piece more than separators. */
  function Split(s: string, sep: char): (r: seq<string>)
    ensures |r| >= 1
    ensures forall p :: p in r ==> sep !in p
    decreases |s|
  {
    if s == [] then [[]]
    else
      var rest := Split(s[1..], sep);
      if s[0] == sep then [[]] + rest
      else [[s[0]] + rest[0]] + rest[1..]
  }

  /** Splitting and joining back with the same separator is the identity. */
  lemma {:induction false} JoinSplit(s: string, sep: char)
    ensures Join([sep], Split(s, sep)) == s
    decreases |s|
  {
    if s != [] {
      var rest := Split(s[1..], sep);
      JoinSplit(s[1..], sep);
      if s[0] != sep {
        var pieces := [[s[0]] + rest[0]] + rest[1..];
        assert pieces[1..] == rest[1..];
        if |rest| == 1 {
          assert Join([sep], rest) == rest[0];
        } else {
          assert Join([sep], rest) == rest[0] + [sep] + Join([sep], rest[1..]);
        }
      }
    }
  }

  // ---------------------------------------------------------------------
  // string.Replace(char, string)
  // ---------------------------------------------------------------------

  /** string.Replace with a one-character pattern. */
  function Replace(s: string, from: char, to: string): (r: string)
    ensures forall c :: c in r ==> (c in s && c != from) || c in to
    ensures from !in s ==> r == s
    decreases |s|
  {
    if s == [] then []
    else (if s[0] == from then to else [s[0]]) + Replace(s[1..], from, to)
  }

  /** A chain of Replace calls, applied in order. */
  function ReplaceAll(s: string, table: seq<(char, string)>): string
    decreases |table|
  {
    if table == [] then s else ReplaceAll(Replace(s, table[0].0, table[0].1), table[1..])
  }

  /** Some entry of the table rewrites c. */
  predicate IsReplacedBy(table: seq<(char, string)>, c: char) {
    exists i :: 0 <= i < |table| && table[i].0 == c
  }

  /** No replacement text holds a character that some entry rewrites. */
  predicate ReplacementsClosed(table: seq<(char, string)>) {
    forall i, j :: 0 <= i < |table| && 0 <= j < |table| ==> table[j].0 !in table[i].1
  }

  /** The chain leaves text alone that holds nothing it rewrites. */
  lemma {:induction false} ReplaceAllIdentity(s: string, table: seq<(char, string)>)
    requires forall c :: c in s ==> !IsReplacedBy(table, c)
    ensures ReplaceAll(s, table) == s
    decreases |table|
  {
    if table != [] {
      assert forall c :: c in s ==> c != table[0].0;
      forall c | c in s ensures !IsReplacedBy(table[1..], c) {
        forall i | 0 <= i < |table[1..]| ensures table[1..][i].0 != c {
          assert table[1..][i] == table[i + 1];
        }
      }
      ReplaceAllIdentity(s, table[1..]);
    }
  }

  /** Replace distributes over concatenation. */
  lemma {:induction false} ReplaceAppend(a: string, b: string, from: char, to: string)
    ensures Replace(a + b, from, to) == Replace(a, from, to) + Replace(b, from, to)
    decreases |a|
  {
    if a == [] {
      assert a + b == b;
    } else {
      assert (a + b)[0] == a[0] && (a + b)[1..] == a[1..] + b;
      ReplaceAppend(a[1..], b, from, to);
    }
  }

  /** So does a chain of them. */
  lemma {:induction false} ReplaceAllAppend(a: string, b: string, table: seq<(char, string)>)
    ensures ReplaceAll(a + b, table) == ReplaceAll(a, table) + ReplaceAll(b, table)
    decreases |table|
  {
    if table != [] {
      ReplaceAppend(a, b, table[0].0, table[0].1);
      ReplaceAllAppend(Replace(a, table[0].0, table[0].1), Replace(b, table[0].0, table[0].1), table[1..]);
    }
  }

  /** What the first entry at or after index i that rewrites c writes, or c
      itself when there is none. */
  function Lookup(table: seq<(char, string)>, c: char, i: nat): string
    decreases |table| - i
  {
    if i >= |table| then [c]
    else if table[i].0 == c then table[i].1
    else Lookup(table, c, i + 1)
  }

  /** Every character of s replaced by its image under f, in one pass. */
  function MapChars(s: string, f: char -> string): string
    decreases |s|
  {
    if s == [] then [] else f(s[0]) + MapChars(s[1..], f)
  }

  /** On one character, the tail of a closed chain from entry i on writes
      what the first matching entry from i on says. */
  lemma {:induction false} ReplaceAllChar(c: char, table: seq<(char, string)>, i: nat)
    requires ReplacementsClosed(table) && i <= |table|
    ensures ReplaceAll([c], table[i..]) == Lookup(table, c, i)
    decreases |table| - i
  {
    if i < |table| {
      var (from, to) := table[i];
      var rest := table[i + 1..];
      assert table[i..][0] == table[i] && table[i..][1..] == rest;
      assert [c][1..] == [];
      if from == c {
        assert Replace([c], from, to) == to + Replace([], from, to);
        assert Replace([c], from, to) == to;
        forall d | d in to ensures !IsReplacedBy(rest, d) {
          forall j | 0 <= j < |rest| ensures rest[j].0 != d {
            assert rest[j] == table[i + 1 + j];
          }
        }
        ReplaceAllIdentity(to, rest);
      } else {
        assert Replace([c], from, to) == [c] + Replace([], from, to);
        ReplaceAllChar(c, table, i + 1);
      }
    } else {
      assert table[i..] == [];
    }
  }

  /** A closed chain of one-character Replace calls is a single pass that
      maps each character on its own. */
  lemma {:induction false} ReplaceAllIsMapChars(s: string, table: seq<(char, string)>, f: char -> string)
    requires ReplacementsClosed(table)
    requires forall c :: f(c) == Lookup(table, c, 0)
    ensures ReplaceAll(s, table) == MapChars(s, f)
    decreases |s|
  {
    assert table[0..] == table;
    if s != [] {
      assert s == [s[0]] + s[1..];
      ReplaceAllAppend([s[0]], s[1..], table);
      ReplaceAllChar(s[0], table, 0);
      ReplaceAllIsMapChars(s[1..], table, f);
      assert ReplaceAll(s, table) == Lookup(table, s[0], 0) + MapChars(s[1..], f);
      assert f(s[0]) == Lookup(table, s[0], 0);
    } else {
      ReplaceAllIdentity(s, table);
    }
  }

  // ---------------------------------------------------------------------
  // Substrings
  // ---------------------------------------------------------------------

  /** prefix is a prefix of s. */
  predicate StartsWith(s: string, prefix: string) {
    |prefix| <= |s| && s[..|prefix|] == prefix
  }

  /** string.Contains(part), ordinal comparison (also XPath contains()). */
  predicate Contains(s: string, part: string)
    decreases |s|
  {
    StartsWith(s, part) || (s != [] && Contains(s[1..], part))
  }

  // ---------------------------------------------------------------------
  // Order of what a filter keeps
  // ---------------------------------------------------------------------

  /** a is b with some elements left out, the rest in the same order. */
  predicate Subsequence<T(==)>(a: seq<T>, b: seq<T>)
    decreases |b|
  {
    a == [] || (b != [] && ((a[0] == b[0] && Subsequence(a[1..], b[1..])) || Subsequence(a, b[1..])))
  }

  lemma {:induction false} SubsequenceTransitive<T>(a: seq<T>, b: seq<T>, c: seq<T>)
    requires Subsequence(a, b) && Subsequence(b, c)
    ensures Subsequence(a, c)
    decreases |c|
  {
    if a != [] {
      if Subsequence(b, c[1..]) {
        SubsequenceTransitive(a, b, c[1..]);
      } else if a[0] == b[0] && Subsequence(a[1..], b[1..]) {
        SubsequenceTransitive(a[1..], b[1..], c[1..]);
      } else {
        SubsequenceTransitive(a, b[1..], c[1..]);
      }
    }
  }
}
