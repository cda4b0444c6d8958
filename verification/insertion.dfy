/** Where the prototypes go and how the line numbering is repaired
    (preprocessor.rb lines 170-186). The regular expression of lines 170-174
    is modelled by four hand-written recognisers tried in the order of its
    alternatives; the `gsub` loop with `break` by a scanner that advances over
    trivia while a token starts exactly where the previous one ended. */
module Insertion {
  import opened Wrappers
  import opened RubyString
  import opened RubyInteger

  /** The first position at or after `from` where `$` matches: a "\n" or the end. */
  function EndOfLine(s: string, from: nat): (e: nat)
    requires from <= |s|
    ensures from <= e <= |s|
    ensures e < |s| ==> s[e] == '\n'
    ensures forall k | from <= k < e :: s[k] != '\n'
    decreases |s| - from
  {
    if from == |s| || s[from] == '\n' then from else EndOfLine(s, from + 1)
  }

  /** `s[a..b)` is all white space. */
  predicate Blank(s: string, a: nat, b: nat)
    requires a <= b <= |s|
  {
    forall k | a <= k < b :: IsSpace(s[k])
  }

  /** `s[a..e)` is the rest of a line: no "\n" in it, and `e` is where `$`
      matches, at a "\n" or at the end. */
  predicate LineRest(s: string, a: nat, e: nat)
    requires a <= e <= |s|
  {
    && (e == |s| || s[e] == '\n')
    && forall k | a <= k < e :: s[k] != '\n'
  }

  /** The end of the run of `\s` characters starting at `from`. */
  function SkipSpaces(s: string, from: nat): (e: nat)
    requires from <= |s|
    ensures from <= e <= |s|
    ensures forall k | from <= k < e :: IsSpace(s[k])
    ensures e < |s| ==> !IsSpace(s[e])
    decreases |s| - from
  {
    if from < |s| && IsSpace(s[from]) then SkipSpaces(s, from + 1) else from
  }

  /** A comment closer (a star, then a slash) starts at position `k`. */
  predicate CloserAt(s: string, k: int) {
    0 <= k && k + 1 < |s| && s[k] == '*' && s[k + 1] == '/'
  }

  /** The position just after the first comment closer starting at or after
      `from`, if any. */
  function CommentEnd(s: string, from: nat): (r: Option<nat>)
    requires from <= |s|
    ensures r.Some? ==> from + 2 <= r.value <= |s| && CloserAt(s, r.value - 2)
    ensures r.Some? ==> forall k | from <= k < r.value - 2 :: !CloserAt(s, k)
    ensures r.None? ==> forall k | from <= k :: !CloserAt(s, k)
    decreases |s| - from
  {
    if from + 1 >= |s| then None
    else if CloserAt(s, from) then Some(from + 2)
    else CommentEnd(s, from + 1)
  }

  /** Alternative `\s*#.*?$`: blanks, a `#`, and the rest of that line. */
  function DirectiveAt(s: string, pos: nat): (r: Option<nat>)
    requires pos <= |s|
    ensures r.Some? ==> pos < r.value <= |s|
  {
    var h := SkipSpaces(s, pos);
    if h < |s| && s[h] == '#' then Some(EndOfLine(s, h + 1)) else None
  }

  /** The directive alternative matches exactly when blanks and then `#`
      start at `pos`, and it runs to the end of that line. */
  lemma DirectiveAtMeaning(s: string, pos: nat)
    requires pos <= |s|
    ensures var r := DirectiveAt(s, pos);
            && (r.Some? <==> exists h | pos <= h < |s| :: Blank(s, pos, h) && s[h] == '#')
            && (r.Some? ==> exists h | pos <= h < r.value :: Blank(s, pos, h) && s[h] == '#' && LineRest(s, h + 1, r.value))
  {
  }

  /** Alternative `\/\/.*?$`: `//` and the rest of the line. */
  function LineCommentAt(s: string, pos: nat): (r: Option<nat>)
    requires pos <= |s|
    ensures r.Some? ==> pos < r.value <= |s|
  {
    if pos + 1 < |s| && s[pos] == '/' && s[pos + 1] == '/' then Some(EndOfLine(s, pos + 2)) else None
  }

  /** The line-comment alternative matches exactly at `//`, and it runs to
      the end of that line. */
  lemma LineCommentAtMeaning(s: string, pos: nat)
    requires pos <= |s|
    ensures var r := LineCommentAt(s, pos);
            && (r.Some? <==> StartsWith(s[pos..], "//"))
            && (r.Some? ==> pos + 2 <= r.value <= |s| && LineRest(s, pos + 2, r.value))
  {
  }

  /** Alternative `\/\*[^*]*(?:\*(?!\/)[^*]*)*\*\/`: a comment opener
      (a slash, then a star) through the first closer after it; no match
      when the comment is not closed. */
  function BlockCommentAt(s: string, pos: nat): (r: Option<nat>)
    requires pos <= |s|
    ensures r.Some? ==> pos < r.value <= |s|
  {
    if pos + 1 < |s| && s[pos] == '/' && s[pos + 1] == '*' then CommentEnd(s, pos + 2) else None
  }

  /** The block-comment alternative matches exactly when a comment opens at
      `pos` and is closed later, and it ends just after the first closer. */
  lemma BlockCommentAtMeaning(s: string, pos: nat)
    requires pos <= |s|
    ensures var r := BlockCommentAt(s, pos);
            && (r.Some? <==> StartsWith(s[pos..], "/*") && exists k | pos + 2 <= k :: CloserAt(s, k))
            && (r.Some? ==> && pos + 4 <= r.value
                            && CloserAt(s, r.value - 2)
                            && forall k | pos + 2 <= k < r.value - 2 :: !CloserAt(s, k))
  {
  }

  /** Alternative `\s+`. */
  function SpaceAt(s: string, pos: nat): (r: Option<nat>)
    requires pos <= |s|
    ensures r.Some? ==> pos < r.value <= |s|
  {
    if pos < |s| && IsSpace(s[pos]) then Some(SkipSpaces(s, pos)) else None
  }

  /** The white-space alternative matches exactly at white space, and it
      takes the whole run. */
  lemma SpaceAtMeaning(s: string, pos: nat)
    requires pos <= |s|
    ensures var r := SpaceAt(s, pos);
            && (r.Some? <==> pos < |s| && IsSpace(s[pos]))
            && (r.Some? ==> Blank(s, pos, r.value) && (r.value == |s| || !IsSpace(s[r.value])))
  {
  }

  /** The end of the trivia token the pattern matches at `pos`, taking the
      first alternative that matches there. */
  function TriviaAt(s: string, pos: nat): (r: Option<nat>)
    requires pos <= |s|
    ensures r.Some? ==> pos < r.value <= |s|
    ensures r.Some? ==> s[pos] == '#' || s[pos] == '/' || IsSpace(s[pos])
  {
    if DirectiveAt(s, pos).Some? then DirectiveAt(s, pos)
    else if LineCommentAt(s, pos).Some? then LineCommentAt(s, pos)
    else if BlockCommentAt(s, pos).Some? then BlockCommentAt(s, pos)
    else SpaceAt(s, pos)
  }

  /** The pattern matches when one of its alternatives does; a directive wins
      even when it starts with blanks, and a run of white space is never cut
      short. */
  lemma TriviaAtPriority(s: string, pos: nat)
    requires pos <= |s|
    ensures var r := TriviaAt(s, pos);
            && (r.None? <==> DirectiveAt(s, pos).None? && LineCommentAt(s, pos).None? &&
                             BlockCommentAt(s, pos).None? && SpaceAt(s, pos).None?)
            && (DirectiveAt(s, pos).Some? ==> r == DirectiveAt(s, pos))
            && (SpaceAt(s, pos).Some? ==> r.Some? && SpaceAt(s, pos).value <= r.value)
            && (LineCommentAt(s, pos).Some? ==> r == LineCommentAt(s, pos))
            && (BlockCommentAt(s, pos).Some? ==> r == BlockCommentAt(s, pos))
            && (DirectiveAt(s, pos).None? && SpaceAt(s, pos).Some? ==> r == SpaceAt(s, pos))
  {
  }

  /** `s[a..b)` is a chain of trivia tokens, each starting where the previous
      one ended. */
  ghost predicate Chain(s: string, a: nat, b: nat)
    decreases |s| - a
  {
    || a == b
    || (&& a < b <= |s|
        && TriviaAt(s, a).Some?
        && TriviaAt(s, a).value <= b
        && Chain(s, TriviaAt(s, a).value, b))
  }

  /** Advances from `pos` over trivia tokens until none matches. */
  function ScanFrom(s: string, pos: nat): (r: nat)
    requires pos <= |s|
    ensures pos <= r <= |s|
    ensures Chain(s, pos, r)
    ensures TriviaAt(s, r).None?
    decreases |s| - pos
  {
    match TriviaAt(s, pos)
    case None => pos
    case Some(e) => ScanFrom(s, e)
  }

  /** The insertion point (lines 176-180): the end of the leading trivia. */
  function InsertionPoint(s: string): (pos: nat)
    ensures pos <= |s|
  {
    ScanFrom(s, 0)
  }

  /** A chain that ends where no trivia starts is the one the scanner follows. */
  lemma {:induction false} ChainStopIsScan(s: string, a: nat, p: nat)
    requires a <= p <= |s|
    requires Chain(s, a, p) && TriviaAt(s, p).None?
    ensures p == ScanFrom(s, a)
    decreases |s| - a
  {
    if a != p {
      ChainStopIsScan(s, TriviaAt(s, a).value, p);
    }
  }

  /** The insertion point is exactly the position that ends a trivia chain
      from the start and at which no trivia begins: never inside a comment,
      a directive or a run of white space. */
  lemma InsertionPointCharacterised(s: string, p: nat)
    ensures p == InsertionPoint(s) <==> p <= |s| && Chain(s, 0, p) && TriviaAt(s, p).None?
  {
    if p <= |s| && Chain(s, 0, p) && TriviaAt(s, p).None? {
      ChainStopIsScan(s, 0, p);
    }
  }

  /** A text that starts with something other than white space, `#` or `/`
      gets its prototypes at the very beginning. */
  lemma NoLeadingTrivia(s: string)
    requires |s| > 0 && !IsSpace(s[0]) && s[0] != '#' && s[0] != '/'
    ensures InsertionPoint(s) == 0
  {
  }

  /** The leftmost match of the pattern at or after `from`, as `gsub` finds it. */
  function NextMatch(s: string, from: nat): (r: Option<(nat, nat)>)
    requires from <= |s|
    ensures r.Some? ==> from <= r.value.0 <= |s| && TriviaAt(s, r.value.0) == Some(r.value.1)
    ensures r.Some? ==> forall k | from <= k < r.value.0 :: TriviaAt(s, k).None?
    decreases |s| - from
  {
    match TriviaAt(s, from)
    case Some(e) => Some((from, e))
    case None => if from == |s| then None else NextMatch(s, from + 1)
  }

  /** Lines 176-180 as written: walk the matches of `gsub` and stop at the
      first one that does not begin where the previous one ended. */
  method GsubScan(s: string) returns (pos: nat)
    ensures pos == InsertionPoint(s)
  {
    pos := 0;
    var m := NextMatch(s, 0);
    while m.Some? && m.value.0 == pos
      invariant pos <= |s|
      invariant m == NextMatch(s, pos)
      invariant ScanFrom(s, pos) == InsertionPoint(s)
      decreases |s| - pos
    {
      pos := m.value.1;
      m := NextMatch(s, pos);
    }
  }

  /** `#line` followed by a `\s` character starts at position `i`. */
  predicate MarkerAt(p: string, i: int) {
    0 <= i && i + 6 <= |p| && p[i..i + 5] == "#line" && IsSpace(p[i + 5])
  }

  /** `p.scan(/#line\s/).count` (line 182): leftmost, non-overlapping matches. */
  function MarkerCount(p: string): (r: nat)
    ensures 6 * r <= |p|
    decreases |p|
  {
    if |p| < 6 then 0
    else if MarkerAt(p, 0) then 1 + MarkerCount(p[6..])
    else MarkerCount(p[1..])
  }

  /** The number of positions at which a `#line` marker starts. */
  function MarkerStarts(p: string): nat
    decreases |p|
  {
    if p == [] then 0 else (if MarkerAt(p, 0) then 1 else 0) + MarkerStarts(p[1..])
  }

  lemma MarkerShift(p: string, j: nat)
    requires 0 < |p|
    ensures MarkerAt(p[1..], j) <==> MarkerAt(p, j + 1)
  {
    if j + 7 <= |p| {
      assert p[1..][j..j + 5] == p[j + 1..j + 6];
    }
  }

  /** Positions before `k` that start no marker do not count. */
  lemma {:induction false} MarkerStartsDrop(p: string, k: nat)
    requires k <= |p|
    requires forall j | 0 <= j < k :: !MarkerAt(p, j)
    ensures MarkerStarts(p) == MarkerStarts(p[k..])
    decreases k
  {
    if k > 0 {
      forall j | 0 <= j < k - 1
        ensures !MarkerAt(p[1..], j)
      {
        MarkerShift(p, j);
      }
      MarkerStartsDrop(p[1..], k - 1);
      assert p[1..][k - 1..] == p[k..];
    }
  }

  /** Markers cannot overlap, so counting them the way `scan` does misses
      none: the count is the number of positions where one starts. */
  lemma {:induction false} MarkerCountCountsAll(p: string)
    ensures MarkerCount(p) == MarkerStarts(p)
    decreases |p|
  {
    if |p| < 6 {
      MarkerStartsDrop(p, |p|);
    } else if MarkerAt(p, 0) {
      forall j | 0 <= j < 5
        ensures !MarkerAt(p[1..], j)
      {
        assert p[j + 1] != '#' by {
          assert p[..5] == "#line";
          assert j < 4 ==> p[j + 1] == "#line"[j + 1];
        }
        MarkerShift(p, j);
      }
      MarkerStartsDrop(p[1..], 5);
      assert p[1..][5..] == p[6..];
      MarkerCountCountsAll(p[6..]);
    } else {
      MarkerCountCountsAll(p[1..]);
    }
  }

  /** Line 183: the line count of the text before the insertion point, less
      the `#line` markers in it, plus one. In terms of the text: one per "\n",
      one for an unterminated last line, minus every `#line` marker, plus one. */
  function LineNumber(prefix: string): (r: int)
    ensures r == multiset(prefix)['\n'] + (if prefix != [] && prefix[|prefix| - 1] != '\n' then 1 else 0)
                 - MarkerStarts(prefix) + 1
  {
    LinesCount(prefix);
    MarkerCountCountsAll(prefix);
    |Lines(prefix)| - MarkerCount(prefix) + 1
  }

  /** The corrective directive `"#line #{n}\n"`: a single line. */
  function LineDirective(n: int): (d: string)
    ensures |d| > 7 && d[..6] == "#line " && d[|d| - 1] == '\n'
    ensures '\n' !in d[..|d| - 1]
    ensures d[6..|d| - 1] == IntToString(n)
  {
    var digits := IntToString(n);
    assert forall i | 0 <= i < |digits| :: digits[i] == '-' || IsDigit(digits[i]);
    var d := "#line " + digits + "\n";
    assert d[..|d| - 1] == "#line " + digits;
    d
  }

  /** The directive reads back as the number it was made from. */
  lemma LineDirectiveReadsBack(n: int)
    ensures var d := LineDirective(n); ToI(d[6..|d| - 1]) == n
  {
    var d := LineDirective(n);
    assert d[6..|d| - 1] == IntToString(n);
    ToIOfIntToString(n);
  }

  /** `s.insert(pos, block + d)`: two texts inserted at position `pos` of `s`,
      which can be cut out again, and so can the text around them. */
  function InsertAt(s: string, pos: nat, block: string, d: string): (r: string)
    requires pos <= |s|
    ensures |r| == |s| + |block| + |d|
    ensures r[..pos] == s[..pos]
    ensures r[pos..pos + |block|] == block
    ensures r[pos + |block|..pos + |block| + |d|] == d
    ensures r[pos + |block| + |d|..] == s[pos..]
  {
    var r := s[..pos] + block + d + s[pos..];
    assert r == s[..pos] + (block + (d + s[pos..]));
    assert r[pos..] == block + (d + s[pos..]);
    assert r[pos + |block|..] == d + s[pos..];
    r
  }

  /** The directive that restores the numbering after the insertion point
      (lines 182-186). */
  function InsertionDirective(s: string): string {
    LineDirective(LineNumber(s[..InsertionPoint(s)]))
  }

  /** Line 186: the prototype block and the corrective directive inserted at
      the insertion point; the text before and after it is kept unchanged. */
  function Compose(s: string, block: string): (r: string)
    ensures var pos := InsertionPoint(s);
            var d := InsertionDirective(s);
            && |r| == |s| + |block| + |d|
            && r[..pos] == s[..pos]
            && r[pos..pos + |block|] == block
            && r[pos + |block|..pos + |block| + |d|] == d
            && r[pos + |block| + |d|..] == s[pos..]
  {
    InsertAt(s, InsertionPoint(s), block, InsertionDirective(s))
  }
}
