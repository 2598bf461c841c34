/**
 * The query router of both endpoints (main.py:188-195 and 213-220):
 * `query.strip().split()`, then one word goes to the SQL substring search
 * and anything else (no word at all, or several) to the semantic search.
 * Both searches receive the query exactly as the client sent it.
 */
module Router {

  /** The characters CPython's str.split() and str.strip() treat as whitespace. */
  predicate IsSpace(c: char)
  {
    var n := c as int;
    || 0x09 <= n <= 0x0D   // tab, line feed, vertical tab, form feed, carriage return
    || 0x1C <= n <= 0x20   // file/group/record/unit separators, space
    || n == 0x85 || n == 0xA0 || n == 0x1680
    || 0x2000 <= n <= 0x200A
    || n == 0x2028 || n == 0x2029 || n == 0x202F || n == 0x205F || n == 0x3000
  }

  /** Nothing but whitespace (possibly nothing at all). */
  predicate Blank(s: string)
  {
    forall k :: 0 <= k < |s| ==> IsSpace(s[k])
  }

  /** Free of whitespace. */
  predicate NoSpace(s: string)
  {
    forall k :: 0 <= k < |s| ==> !IsSpace(s[k])
  }

  /** Not empty and free of whitespace: a word. */
  predicate IsWord(s: string)
  {
    s != [] && NoSpace(s)
  }

  /** The number of leading whitespace characters. */
  function LeadingSpace(s: string): (n: nat)
    ensures n <= |s| && Blank(s[..n])
    ensures n < |s| ==> !IsSpace(s[n])
  {
    if s == [] || !IsSpace(s[0]) then 0
    else
      var n := 1 + LeadingSpace(s[1..]);
      assert s[..n] == [s[0]] + s[1..][..n - 1];
      n
  }

  /** The number of leading non-whitespace characters. */
  function WordLength(s: string): (n: nat)
    ensures n <= |s|
    ensures forall k :: 0 <= k < n ==> !IsSpace(s[k])
    ensures n < |s| ==> IsSpace(s[n])
  {
    if s == [] || IsSpace(s[0]) then 0 else 1 + WordLength(s[1..])
  }

  /** The number of trailing whitespace characters. */
  function TrailingSpace(s: string): (n: nat)
    ensures n <= |s|
    ensures forall k :: |s| - n <= k < |s| ==> IsSpace(s[k])
    ensures n < |s| ==> !IsSpace(s[|s| - n - 1])
  {
    if s == [] || !IsSpace(s[|s| - 1]) then 0 else 1 + TrailingSpace(s[..|s| - 1])
  }

  /** str.split() with no argument: the maximal runs of non-whitespace, in order. */
  function Split(s: string): (words: seq<string>)
    ensures forall k :: 0 <= k < |words| ==> IsWord(words[k])
    decreases |s|
  {
    var a := LeadingSpace(s);
    if a == |s| then []
    else
      var t := s[a..];
      var w := WordLength(t);
      [t[..w]] + Split(t[w..])
  }

  /** str.strip() with no argument: drop leading and trailing whitespace. */
  function Strip(s: string): (r: string)
    ensures |r| <= |s|
    ensures r == [] <==> Blank(s)
    ensures r != [] ==> !IsSpace(r[0]) && !IsSpace(r[|r| - 1])
  {
    var a := LeadingSpace(s);
    if a == |s| then
      assert s[..a] == s;
      []
    else
      assert !IsSpace(s[a]);
      s[a..|s| - TrailingSpace(s)]
  }

  // ---------------------------------------------------------------------------

  /** A query with no word splits into nothing, and only such a query does. */
  lemma SplitEmptyIffBlank(s: string)
    ensures Split(s) == [] <==> Blank(s)
  {
    var a := LeadingSpace(s);
    if a == |s| {
      assert s[..a] == s;
    }
  }

  /** Whitespace after the last word adds no word. */
  lemma {:induction false} SplitIgnoresTrailingSpace(s: string, b: string)
    requires Blank(b)
    ensures Split(s + b) == Split(s)
    decreases |s|
  {
    var a := LeadingSpace(s);
    if a == |s| {
      assert s[..a] == s;
      assert Blank(s + b);
      SplitEmptyIffBlank(s + b);
    } else {
      var lead, word, rest := FirstWord(s);
      SplitIs(s, lead, word, rest);
      AppendToLast(s, lead, word, rest, b);
      assert rest + b != [] ==> (rest + b)[0] == (if rest != [] then rest[0] else b[0]);
      SplitIs(s + b, lead, word, rest + b);
      SplitIgnoresTrailingSpace(rest, b);
    }
  }

  /** A query with a word is leading whitespace, that word, and a rest that is empty or starts with whitespace. */
  lemma FirstWord(s: string) returns (lead: string, word: string, rest: string)
    requires LeadingSpace(s) < |s|
    ensures s == lead + word + rest
    ensures Blank(lead) && IsWord(word)
    ensures rest != [] ==> IsSpace(rest[0])
  {
    var a := LeadingSpace(s);
    var t := s[a..];
    var w := WordLength(t);
    lead, word, rest := s[..a], t[..w], t[w..];
    assert t[0] == s[a];
    assert rest != [] ==> rest[0] == t[w];
    assert t == word + rest;
  }

  lemma AppendToLast(s: string, p: string, q: string, r: string, b: string)
    requires s == p + q + r
    ensures s + b == p + q + (r + b)
  {
  }

  /** A query made of whitespace, a word, and then nothing or whitespace first splits off that word. */
  lemma SplitIs(x: string, lead: string, word: string, rest: string)
    requires x == lead + word + rest && Blank(lead) && IsWord(word)
    requires rest != [] ==> IsSpace(rest[0])
    ensures Split(x) == [word] + Split(rest)
  {
    var i := |lead|;
    assert x[..i] == lead;
    assert x[i] == word[0];
    LeadingSpaceIs(x, i);
    var t := x[i..];
    assert t == word + rest;
    assert t[..|word|] == word;
    assert t[|word|..] == rest;
    assert |word| < |t| ==> t[|word|] == rest[0];
    WordLengthIs(t, |word|);
  }

  lemma BlankAppend(a: string, b: string)
    requires Blank(a) && Blank(b)
    ensures Blank(a + b)
  {
  }

  /** Leading whitespace adds no word. */
  lemma SplitIgnoresLeadingSpace(b: string, s: string)
    requires Blank(b)
    ensures Split(b + s) == Split(s)
  {
    var a := LeadingSpace(s);
    if a < |s| {
      assert (b + s)[..|b| + a] == b + s[..a];
      BlankAppend(b, s[..a]);
      assert (b + s)[|b| + a] == s[a];
      LeadingSpaceIs(b + s, |b| + a);
      assert (b + s)[|b| + a..] == s[a..];
    } else {
      assert s[..a] == s;
      BlankAppend(b, s);
      SplitEmptyIffBlank(b + s);
      SplitEmptyIffBlank(s);
    }
  }

  /** `query.strip().split()` is `query.split()`: stripping first changes nothing. */
  lemma StripThenSplit(s: string)
    ensures Split(Strip(s)) == Split(s)
  {
    var a := LeadingSpace(s);
    if a == |s| {
      assert s[..a] == s;
      SplitEmptyIffBlank(s);
    } else {
      var e := StripBounds(s);
      var core, tail := s[a..e], s[e..];
      ThreeParts(s, a, e);
      SplitIgnoresLeadingSpace(s[..a], core + tail);
      SplitIgnoresTrailingSpace(core, tail);
    }
  }

  lemma ThreeParts(s: string, a: nat, e: nat)
    requires a <= e <= |s|
    ensures s == s[..a] + (s[a..e] + s[e..])
  {
    assert s[a..] == s[a..e] + s[e..];
  }

  /** A query with a word is its leading whitespace, its stripped core, and whitespace. */
  lemma StripBounds(s: string) returns (e: nat)
    requires LeadingSpace(s) < |s|
    ensures LeadingSpace(s) < e <= |s|
    ensures Strip(s) == s[LeadingSpace(s)..e]
    ensures Blank(s[e..])
  {
    var a := LeadingSpace(s);
    e := |s| - TrailingSpace(s);
    assert !IsSpace(s[a]);
    var tail := s[e..];
    forall k | 0 <= k < |tail| ensures IsSpace(tail[k]) {
      assert tail[k] == s[e + k];
    }
  }

  /** One word exactly: the query is whitespace, a word, whitespace. */
  ghost predicate SingleWord(s: string)
  {
    exists i, j :: 0 <= i < j <= |s| && Blank(s[..i]) && IsWord(s[i..j]) && Blank(s[j..])
  }

  /** Split yields exactly one word iff the query is a single word padded by whitespace. */
  lemma SplitSingleIff(s: string)
    ensures |Split(s)| == 1 <==> SingleWord(s)
  {
    if |Split(s)| == 1 {
      SingleWordFromSplit(s);
    }
    if SingleWord(s) {
      var i, j :| 0 <= i < j <= |s| && Blank(s[..i]) && IsWord(s[i..j]) && Blank(s[j..]);
      SplitOfPaddedWord(s, i, j);
    }
  }

  lemma SingleWordFromSplit(s: string)
    requires |Split(s)| == 1
    ensures SingleWord(s)
  {
    var a := LeadingSpace(s);
    var t := s[a..];
    var w := WordLength(t);
    assert Split(s) == [t[..w]] + Split(t[w..]);
    SplitEmptyIffBlank(t[w..]);
    assert s[a..a + w] == t[..w];
    assert s[a + w..] == t[w..];
  }

  lemma SplitOfPaddedWord(s: string, i: nat, j: nat)
    requires i < j <= |s| && Blank(s[..i]) && IsWord(s[i..j]) && Blank(s[j..])
    ensures Split(s) == [s[i..j]]
  {
    ThreeParts(s, i, j);
    SplitIs(s, s[..i], s[i..j], s[j..]);
    SplitEmptyIffBlank(s[j..]);
  }

  lemma {:induction false} LeadingSpaceIs(s: string, i: nat)
    requires i < |s| && Blank(s[..i]) && !IsSpace(s[i])
    ensures LeadingSpace(s) == i
  {
    if i > 0 {
      assert s[..i][0] == s[0];
      assert s[1..][..i - 1] == s[..i][1..];
      LeadingSpaceIs(s[1..], i - 1);
    }
  }

  lemma {:induction false} WordLengthIs(t: string, w: nat)
    requires w <= |t| && NoSpace(t[..w]) && (w < |t| ==> IsSpace(t[w]))
    ensures WordLength(t) == w
  {
    if w > 0 {
      assert t[..w][0] == t[0];
      assert t[1..][..w - 1] == t[..w][1..];
      assert w - 1 < |t[1..]| ==> t[1..][w - 1] == t[w];
      WordLengthIs(t[1..], w - 1);
    }
  }

  // ---------------------------------------------------------------------------

  /** The two search strategies; each carries the query it is handed. */
  datatype Strategy = Exact(term: string) | Semantic(text: string)

  /** The routing decision of both endpoints. */
  function Route(query: string): (r: Strategy)
    ensures r.Exact? <==> |Split(query)| == 1
    ensures r == Exact(query) || r == Semantic(query)
  {
    StripThenSplit(query);
    if |Split(Strip(query))| == 1 then Exact(query) else Semantic(query)
  }

  /** A single padded word goes to the SQL search; anything else to the semantic search. */
  lemma RouteByWordCount(query: string)
    ensures Route(query) == Exact(query) <==> SingleWord(query)
    ensures Route(query) == Semantic(query) <==> !SingleWord(query)
    ensures Blank(query) ==> Route(query) == Semantic(query)
  {
    SplitSingleIff(query);
    SplitEmptyIffBlank(query);
  }
}
