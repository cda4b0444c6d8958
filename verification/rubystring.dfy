/** The handful of Ruby `String` operations the preprocessor relies on, with Ruby's
    own semantics: `include?`, `index`, `rindex`, `chomp`, `strip`, `rstrip`,
    `split` with a one-character pattern, `each_line`/`lines`, `join` and `<=>`. */
module RubyString {
  import opened Wrappers

  /** The characters of Ruby's regex class `\s`: space, \t, \n, \v, \f and \r. */
  predicate IsSpace(c: char) {
    c == ' ' || c == '\t' || c == '\n' || c == '\U{000B}' || c == '\U{000C}' || c == '\r'
  }

  /** What `String#rstrip` removes, and `String#strip` at the end: white
      space and NUL. Before Ruby 2.6, `lstrip` (and `strip` at the start)
      removes white space only. */
  predicate IsBlank(c: char) {
    c == '\0' || IsSpace(c)
  }

  predicate StartsWith(s: string, prefix: string) {
    |prefix| <= |s| && s[..|prefix|] == prefix
  }

  predicate EndsWith(s: string, suffix: string) {
    |suffix| <= |s| && s[|s| - |suffix|..] == suffix
  }

  /** `t` occurs in `s` starting at position `i`. */
  predicate OccursAt(s: string, t: string, i: int) {
    0 <= i && i + |t| <= |s| && s[i..i + |t|] == t
  }

  /** `s.include?(t)`: `t` occurs somewhere in `s`. */
  predicate Includes(s: string, t: string) {
    exists i | 0 <= i <= |s| :: OccursAt(s, t, i)
  }

  /** `s.index(c)`: the position of the first `c`, or nil. */
  function IndexOf(s: string, c: char): (r: Option<nat>)
    ensures r.None? <==> c !in s
    ensures r.Some? ==> r.value < |s| && s[r.value] == c && c !in s[..r.value]
  {
    if |s| == 0 then None
    else if s[0] == c then Some(0)
    else
      match IndexOf(s[1..], c)
      case None => None
      case Some(i) =>
        assert s[..i + 1] == [s[0]] + s[1..][..i];
        Some(i + 1)
  }

  /** A character's first occurrence, found by looking at the text before it. */
  lemma IndexOfAt(s: string, c: char, i: nat)
    requires i < |s| && s[i] == c && c !in s[..i]
    ensures IndexOf(s, c) == Some(i)
  {
    var j := IndexOf(s, c).value;
    assert forall k | 0 <= k < i :: s[..i][k] == s[k];
    assert forall k | 0 <= k < j :: s[..j][k] == s[k];
  }

  /** `c` occurs at `i` and nowhere before. */
  predicate FirstAt(s: string, c: char, i: int) {
    0 <= i < |s| && s[i] == c && c !in s[..i]
  }

  /** `c` occurs at `i` and nowhere after. */
  predicate LastAt(s: string, c: char, i: int) {
    0 <= i < |s| && s[i] == c && forall k | i < k < |s| :: s[k] != c
  }

  /** A character occurs first at one position only. */
  lemma FirstAtUnique(s: string, c: char, i: nat)
    requires FirstAt(s, c, i)
    ensures forall j | FirstAt(s, c, j) :: j == i
  {
    forall j | FirstAt(s, c, j)
      ensures j == i
    {
      IndexOfAt(s, c, i);
      IndexOfAt(s, c, j);
    }
  }

  /** `index` finds the one position where a character occurs first. */
  lemma FirstAtIsIndexOf(s: string, c: char)
    ensures forall i | FirstAt(s, c, i) :: IndexOf(s, c) == Some(i)
  {
    forall i | FirstAt(s, c, i)
      ensures IndexOf(s, c) == Some(i)
    {
      IndexOfAt(s, c, i);
    }
  }

  /** `s.rindex(c)`: the position of the last `c`, or nil. */
  function LastIndexOf(s: string, c: char): (r: Option<nat>)
    ensures r.None? <==> c !in s
    ensures r.Some? ==> LastAt(s, c, r.value)
    ensures r.Some? ==> c !in s[r.value + 1..]
  {
    LastBefore(s, c, |s|)
  }

  /** The position of the last `c` among the first `n` characters, or nil. */
  function LastBefore(s: string, c: char, n: nat): (r: Option<nat>)
    requires n <= |s|
    ensures r.None? <==> forall k | 0 <= k < n :: s[k] != c
    ensures r.Some? ==> r.value < n && s[r.value] == c && forall k | r.value < k < n :: s[k] != c
  {
    if n == 0 then None
    else if s[n - 1] == c then Some(n - 1)
    else LastBefore(s, c, n - 1)
  }

  /** A character's last occurrence, found by looking at the text after it. */
  lemma LastIndexOfAt(s: string, c: char, i: nat)
    requires LastAt(s, c, i)
    ensures LastIndexOf(s, c) == Some(i)
  {
  }

  /** A character occurs last at one position only. */
  lemma LastAtUnique(s: string, c: char, i: nat)
    requires LastAt(s, c, i)
    ensures forall j | LastAt(s, c, j) :: j == i
  {
  }

  /** `rindex` finds the one position where a character occurs last. */
  lemma LastAtIsLastIndexOf(s: string, c: char)
    ensures forall i | LastAt(s, c, i) :: LastIndexOf(s, c) == Some(i)
  {
    forall i | LastAt(s, c, i)
      ensures LastIndexOf(s, c) == Some(i)
    {
      LastIndexOfAt(s, c, i);
    }
  }

  /** `s[a...b]` for a start inside `s`: the text from `a` up to `b`, empty
      when `b` lies before `a`. */
  function Slice(s: string, a: nat, b: nat): (r: string)
    requires a <= |s| && b <= |s|
    ensures |r| == if a <= b then b - a else 0
    ensures forall i | 0 <= i < |r| :: r[i] == s[a + i]
  {
    if a <= b then s[a..b] else ""
  }

  /** `s.chomp`: drops one trailing "\r\n", "\n" or "\r". */
  function Chomp(s: string): (r: string)
    ensures StartsWith(s, r)
    ensures |s| - 2 <= |r|
    ensures forall i | |r| <= i < |s| :: s[i] == '\r' || s[i] == '\n'
    ensures s == [] || (s[|s| - 1] != '\n' && s[|s| - 1] != '\r') ==> r == s
    ensures s != [] && (s[|s| - 1] == '\n' || s[|s| - 1] == '\r') ==> |r| < |s|
    ensures |r| == |s| - 2 <==> EndsWith(s, "\r\n")
  {
    if EndsWith(s, "\r\n") then s[..|s| - 2]
    else if |s| > 0 && (s[|s| - 1] == '\n' || s[|s| - 1] == '\r') then s[..|s| - 1]
    else s
  }

  /** `s.rstrip`: the longest prefix of `s` that does not end in a blank. */
  function RStrip(s: string): (r: string)
    ensures StartsWith(s, r)
    ensures r == [] || !IsBlank(r[|r| - 1])
    ensures forall i | |r| <= i < |s| :: IsBlank(s[i])
  {
    if |s| > 0 && IsBlank(s[|s| - 1]) then RStrip(s[..|s| - 1]) else s
  }

  /** `s.lstrip`: the longest suffix of `s` that does not start with white space. */
  function LStrip(s: string): (r: string)
    ensures EndsWith(s, r)
    ensures r == [] || !IsSpace(r[0])
    ensures forall i | 0 <= i < |s| - |r| :: IsSpace(s[i])
  {
    if |s| > 0 && IsSpace(s[0]) then
      var r := LStrip(s[1..]);
      assert s[|s| - |r|..] == s[1..][|s| - 1 - |r|..];
      assert forall i | 1 <= i < |s| - |r| :: s[i] == s[1..][i - 1];
      r
    else s
  }

  /** Text that does not start with white space is left alone by `lstrip`. */
  lemma LStripNone(s: string)
    requires s == [] || !IsSpace(s[0])
    ensures LStrip(s) == s
  {
  }

  /** `s.strip`: `s` without its leading white space and its trailing blanks. */
  function Strip(s: string): (r: string)
    ensures r == [] || (!IsSpace(r[0]) && !IsBlank(r[|r| - 1]))
    ensures Includes(s, r)
    ensures exists a | 0 <= a <= |s| - |r| ::
              && OccursAt(s, r, a)
              && (forall i | 0 <= i < a :: IsSpace(s[i]))
              && (forall i | a + |r| <= i < |s| :: IsBlank(s[i]))
  {
    var t := RStrip(s);
    var r := LStrip(t);
    StripAround(s, t, r);
    r
  }

  /** The two halves of `strip` leave `r` in place in `s`, with white space
      before it and blanks after it. */
  lemma StripAround(s: string, t: string, r: string)
    requires t == RStrip(s) && r == LStrip(t)
    ensures var a := |t| - |r|;
            && 0 <= a <= |s| - |r|
            && OccursAt(s, r, a)
            && (forall i | 0 <= i < a :: IsSpace(s[i]))
            && (forall i | a + |r| <= i < |s| :: IsBlank(s[i]))
  {
    var a := |t| - |r|;
    assert a + |r| == |t| <= |s|;
    assert t == s[..|t|];
    assert t[a..] == r;
    assert s[a..a + |r|] == t[a..];
    forall i | 0 <= i < a
      ensures IsSpace(s[i])
    {
      assert t[i] == s[i];
    }
  }

  /** `chomp.strip` keeps only characters of its argument. */
  lemma StripChompChars(s: string, c: char)
    requires c in Strip(Chomp(s))
    ensures c in s
  {
    var t := Chomp(s);
    var u := RStrip(t);
    var r := LStrip(u);
    var k :| 0 <= k < |r| && r[k] == c;
    var j := |u| - |r| + k;
    assert u[j] == c;
    assert t[j] == c;
    assert s[j] == c;
  }

  /** `chomp.strip` of a string ending in a non-blank, non-line-break
      character ends in that character, unless the result is empty. */
  lemma StripChompKeepsLast(s: string)
    requires s != [] && !IsBlank(s[|s| - 1])
    ensures var r := Strip(Chomp(s)); r != [] && r[|r| - 1] == s[|s| - 1]
  {
    assert Chomp(s) == s;
    assert RStrip(s) == s;
    var r := LStrip(s);
    assert r != [];
  }

  /** Cutting blanks off the end of `s` before `rstrip` does not change its result. */
  lemma {:induction false} RStripOfBlankTail(s: string, k: nat)
    requires k <= |s|
    requires forall i | k <= i < |s| :: IsBlank(s[i])
    ensures RStrip(s[..k]) == RStrip(s)
    decreases |s|
  {
    if k < |s| {
      assert s[..|s| - 1][..k] == s[..k];
      RStripOfBlankTail(s[..|s| - 1], k);
    }
  }

  /** `chomp.strip`, as the parser writes it, is the same as `strip`. */
  lemma StripAfterChomp(s: string)
    ensures Strip(Chomp(s)) == Strip(s)
  {
    var c := Chomp(s);
    assert s[..|c|] == c;
    RStripOfBlankTail(s, |c|);
  }

  /** Associativity of concatenation, stated apart so that it is proved
      without the definitions of the strings involved in scope. */
  lemma ConcatAssoc(a: string, b: string, c: string)
    ensures a + b + c == a + (b + c)
  {
  }

  /** `parts.join(sep)`. */
  function Join(parts: seq<string>, sep: char): string
  {
    if |parts| == 0 then ""
    else if |parts| == 1 then parts[0]
    else parts[0] + [sep] + Join(parts[1..], sep)
  }

  /** A character that is neither in any part nor the separator is not in the join. */
  lemma {:induction false} JoinAvoids(parts: seq<string>, sep: char, c: char)
    requires c != sep
    requires forall i | 0 <= i < |parts| :: c !in parts[i]
    ensures c !in Join(parts, sep)
  {
    if |parts| > 1 {
      JoinAvoids(parts[1..], sep, c);
    }
  }

  /** Every field of `s` between occurrences of `sep`, empty ones included:
      what `split` computes before it drops trailing empty fields. */
  function Fields(s: string, sep: char): (r: seq<string>)
    ensures |r| >= 1
    ensures forall i | 0 <= i < |r| :: sep !in r[i]
    ensures Join(r, sep) == s
    decreases |s|
  {
    match IndexOf(s, sep)
    case None => [s]
    case Some(i) =>
      var rest := Fields(s[i + 1..], sep);
      assert s == s[..i] + [sep] + s[i + 1..];
      assert ([s[..i]] + rest)[1..] == rest;
      [s[..i]] + rest
  }

  /** Splitting a join gives the parts back, provided no part contains the separator. */
  lemma {:induction false} FieldsOfJoin(parts: seq<string>, sep: char)
    requires |parts| >= 1
    requires forall i | 0 <= i < |parts| :: sep !in parts[i]
    ensures Fields(Join(parts, sep), sep) == parts
  {
    if |parts| > 1 {
      var tail := Join(parts[1..], sep);
      var s := parts[0] + [sep] + tail;
      assert s[..|parts[0]|] == parts[0];
      assert s[|parts[0]| + 1..] == tail;
      assert IndexOf(s, sep) == Some(|parts[0]|);
      FieldsOfJoin(parts[1..], sep);
    }
  }

  /** Drops the empty strings at the end of `parts`. */
  function DropTrailingEmpty(parts: seq<string>): (r: seq<string>)
    ensures |r| <= |parts| && r == parts[..|r|]
    ensures r == [] || r[|r| - 1] != []
    ensures forall i | |r| <= i < |parts| :: parts[i] == []
  {
    if |parts| > 0 && parts[|parts| - 1] == [] then DropTrailingEmpty(parts[..|parts| - 1]) else parts
  }

  /** `s.split(sep)` for a one-character string `sep` other than " ". */
  function Split(s: string, sep: char): (r: seq<string>)
    ensures forall i | 0 <= i < |r| :: sep !in r[i]
    ensures r == [] || r[|r| - 1] != []
    ensures |r| <= |Fields(s, sep)| && r == Fields(s, sep)[..|r|]
    ensures forall i | |r| <= i < |Fields(s, sep)| :: Fields(s, sep)[i] == []
  {
    DropTrailingEmpty(Fields(s, sep))
  }

  /** Every character of `s` is `sep`. */
  predicate AllSep(s: string, sep: char) {
    forall k | 0 <= k < |s| :: s[k] == sep
  }

  /** Every part is empty. */
  predicate AllEmpty(parts: seq<string>) {
    forall j | 0 <= j < |parts| :: parts[j] == []
  }

  lemma AllSepCons(s: string, sep: char)
    requires |s| > 0
    ensures AllSep(s, sep) <==> s[0] == sep && AllSep(s[1..], sep)
  {
    assert forall k | 1 <= k < |s| :: s[k] == s[1..][k - 1];
  }

  lemma AllEmptyCons(parts: seq<string>)
    requires |parts| > 0
    ensures AllEmpty(parts) <==> parts[0] == [] && AllEmpty(parts[1..])
  {
    assert forall j | 1 <= j < |parts| :: parts[j] == parts[1..][j - 1];
  }

  /** Without the separator, `split` gives a non-empty text back whole. */
  lemma SplitWithout(s: string, sep: char)
    requires s != [] && sep !in s
    ensures Split(s, sep) == [s]
  {
    assert Fields(s, sep) == [s];
  }

  /** `s` consists of separators only exactly when all its fields are empty. */
  lemma {:induction false} FieldsAllEmpty(s: string, sep: char)
    ensures AllSep(s, sep) <==> AllEmpty(Fields(s, sep))
    decreases |s|
  {
    var f := Fields(s, sep);
    match IndexOf(s, sep)
    case None =>
      assert f == [s];
      AllEmptyCons(f);
      if |s| > 0 {
        assert s[0] != sep;
      }
    case Some(i) =>
      var rest := Fields(s[i + 1..], sep);
      FieldsAllEmpty(s[i + 1..], sep);
      assert f == [s[..i]] + rest;
      AllEmptyCons(f);
      assert f[1..] == rest;
      AllSepCons(s, sep);
      if i > 0 {
        assert s[0] != sep;
        assert f[0] != [];
      } else {
        assert s[1..] == s[i + 1..];
      }
  }

  /** `split` yields nothing exactly when the string holds separators only. */
  lemma SplitEmptyIff(s: string, sep: char)
    ensures Split(s, sep) == [] <==> forall k | 0 <= k < |s| :: s[k] == sep
  {
    FieldsAllEmpty(s, sep);
    var f := Fields(s, sep);
    if Split(s, sep) != [] {
      assert f[|Split(s, sep)| - 1] != [];
    }
  }

  /** Concatenation of a list of strings. */
  function Concat(parts: seq<string>): string
  {
    if |parts| == 0 then "" else parts[0] + Concat(parts[1..])
  }

  /** Where the line starting at the beginning of `s` ends: just after its
      first "\n", or at the end of `s`. */
  function LineEnd(s: string): (e: nat)
    requires s != []
    ensures 0 < e <= |s|
    ensures '\n' !in s[..e - 1]
    ensures e < |s| ==> s[e - 1] == '\n'
  {
    match IndexOf(s, '\n')
    case Some(i) => i + 1
    case None => |s|
  }

  /** `s.lines` (and the rows `s.each_line` yields): `s` cut just after every "\n". */
  function Lines(s: string): (r: seq<string>)
    ensures Concat(r) == s
    ensures forall i | 0 <= i < |r| :: r[i] != [] && '\n' !in r[i][..|r[i]| - 1]
    ensures forall i | 0 <= i < |r| - 1 :: r[i][|r[i]| - 1] == '\n'
    decreases |s|
  {
    if s == [] then []
    else
      var e := LineEnd(s);
      var rest := Lines(s[e..]);
      LinesStep(s, e, rest);
      [s[..e]] + rest
  }

  /** The first line in front of the cut of the remainder is a cut of the whole. */
  lemma LinesStep(s: string, e: nat, rest: seq<string>)
    requires s != [] && e == LineEnd(s)
    requires Concat(rest) == s[e..]
    requires forall i | 0 <= i < |rest| :: rest[i] != [] && '\n' !in rest[i][..|rest[i]| - 1]
    requires forall i | 0 <= i < |rest| - 1 :: rest[i][|rest[i]| - 1] == '\n'
    ensures Concat([s[..e]] + rest) == s
    ensures forall i | 0 <= i < |rest| + 1 ::
              ([s[..e]] + rest)[i] != [] && '\n' !in ([s[..e]] + rest)[i][..|([s[..e]] + rest)[i]| - 1]
    ensures forall i | 0 <= i < |rest| ::
              ([s[..e]] + rest)[i][|([s[..e]] + rest)[i]| - 1] == '\n'
  {
    var r := [s[..e]] + rest;
    assert r[1..] == rest;
    assert s == s[..e] + s[e..];
    forall i | 1 <= i < |r|
      ensures r[i] == rest[i - 1]
    {
    }
    if |rest| > 0 {
      assert e < |s|;
    }
  }

  /** A line without "\n" in front of any text is the first of its lines. */
  lemma LinesCons(p: string, rest: string)
    requires '\n' !in p
    ensures Lines(p + "\n" + rest) == [p + "\n"] + Lines(rest)
  {
    var s := p + "\n" + rest;
    assert s[..|p|] == p && s[|p|] == '\n';
    assert IndexOf(s, '\n') == Some(|p|);
    assert s[..|p| + 1] == p + "\n" && s[|p| + 1..] == rest;
  }

  /** The number of lines Ruby counts: one per "\n", plus one for an
      unterminated last line. */
  lemma {:induction false} LinesCount(s: string)
    ensures |Lines(s)| == multiset(s)['\n'] + (if s != [] && s[|s| - 1] != '\n' then 1 else 0)
    decreases |s|
  {
    if s != [] {
      var e := LineEnd(s);
      var rest := s[e..];
      LinesCount(rest);
      assert |Lines(s)| == 1 + |Lines(rest)|;
      LineCountOfFirst(s, e);
      assert s == s[..e] + rest;
      assert multiset(s)['\n'] == multiset(s[..e])['\n'] + multiset(rest)['\n'];
      if e < |s| {
        assert rest[|rest| - 1] == s[|s| - 1];
      }
    }
  }

  /** The first line holds one "\n" if it is terminated, none otherwise. */
  lemma LineCountOfFirst(s: string, e: nat)
    requires s != [] && e == LineEnd(s)
    ensures multiset(s[..e])['\n'] == if s[e - 1] == '\n' then 1 else 0
  {
    assert s[..e] == s[..e - 1] + [s[e - 1]];
    assert multiset(s[..e - 1])['\n'] == 0;
  }

  /** Ruby's `a <=> b` on strings: lexicographic by character code, a proper
      prefix sorting first. */
  function Cmp(a: string, b: string): (r: int)
    ensures -1 <= r <= 1
    ensures r == 0 <==> a == b
  {
    if a == [] && b == [] then 0
    else if a == [] then -1
    else if b == [] then 1
    else if a[0] < b[0] then -1
    else if a[0] > b[0] then 1
    else
      var r := Cmp(a[1..], b[1..]);
      assert a == [a[0]] + a[1..] && b == [b[0]] + b[1..];
      r
  }

  lemma {:induction false} CmpAntisymmetric(a: string, b: string)
    ensures Cmp(a, b) == -Cmp(b, a)
  {
    if a != [] && b != [] && a[0] == b[0] {
      CmpAntisymmetric(a[1..], b[1..]);
    }
  }

  /** A proper prefix sorts first. */
  lemma {:induction false} CmpProperPrefix(a: string, b: string)
    requires |a| < |b| && b[..|a|] == a
    ensures Cmp(a, b) == -1
  {
    if a != [] {
      assert b[1..][..|a| - 1] == a[1..];
      CmpProperPrefix(a[1..], b[1..]);
    }
  }

  /** Otherwise the first differing character decides. */
  lemma {:induction false} CmpFirstDifference(a: string, b: string, k: nat)
    requires k < |a| && k < |b| && a[..k] == b[..k] && a[k] != b[k]
    ensures Cmp(a, b) == if a[k] < b[k] then -1 else 1
  {
    if k > 0 {
      assert a[0] == a[..k][0] && b[0] == b[..k][0];
      assert a[1..][..k - 1] == a[..k][1..] && b[1..][..k - 1] == b[..k][1..];
      CmpFirstDifference(a[1..], b[1..], k - 1);
    }
  }

  lemma {:induction false} CmpTransitive(a: string, b: string, c: string)
    requires Cmp(a, b) <= 0 && Cmp(b, c) <= 0
    ensures Cmp(a, c) <= 0
  {
    if a != [] && b != [] && c != [] && a[0] == b[0] == c[0] {
      CmpTransitive(a[1..], b[1..], c[1..]);
    }
  }
}
