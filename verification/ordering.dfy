/** Ordering and emission of the synthesized prototypes in preprocessor.rb
    (lines 163-167): the tags sorted by `line.to_i`, each prototype written
    on a line of its own. */
module Ordering {
  import opened Wrappers
  import opened RubyString
  import opened RubyInteger
  import opened Tags

  /** `tag["line"].to_i`: a missing line counts as 0, and a line number as
      ctags prints it counts as that number. */
  function LineKey(t: Tag): (r: int)
    ensures t.line.None? ==> r == 0
    ensures forall n: nat | t.line == Some(NatToString(n)) :: r == n
  {
    if t.line.Some? then
      var s := t.line.value;
      forall n: nat | s == NatToString(n)
        ensures ToI(s) == n
      {
        ToIOfNatToString(n);
      }
      ToI(s)
    else
      ToI("")
  }

  /** Non-decreasing by line key. */
  ghost predicate ByLine(tags: seq<Tag>) {
    forall i, j | 0 <= i < j < |tags| :: LineKey(tags[i]) <= LineKey(tags[j])
  }

  /** Inserts `t` before the first tag with a larger or equal line. */
  function InsertByLine(t: Tag, sorted: seq<Tag>): (r: seq<Tag>)
    ensures multiset(r) == multiset(sorted) + multiset{t}
    ensures forall x | x in r :: x == t || x in sorted
  {
    if sorted == [] then [t]
    else if LineKey(t) <= LineKey(sorted[0]) then [t] + sorted
    else
      assert sorted == [sorted[0]] + sorted[1..];
      [sorted[0]] + InsertByLine(t, sorted[1..])
  }

  /** A tag placed in front of a list in line order, with a line no larger
      than the first, keeps it in line order. */
  lemma PrependByLine(t: Tag, sorted: seq<Tag>)
    requires ByLine(sorted)
    requires sorted != [] ==> LineKey(t) <= LineKey(sorted[0])
    ensures ByLine([t] + sorted)
  {
    var r := [t] + sorted;
    forall i, j | 0 <= i < j < |r|
      ensures LineKey(r[i]) <= LineKey(r[j])
    {
      assert r[j] == sorted[j - 1];
      if i > 0 {
        assert r[i] == sorted[i - 1];
      } else if j > 1 {
        assert LineKey(sorted[0]) <= LineKey(sorted[j - 1]);
      }
    }
  }

  /** Inserting into a list in line order keeps it in line order. */
  lemma {:induction false} InsertByLineSorted(t: Tag, sorted: seq<Tag>)
    requires ByLine(sorted)
    ensures ByLine(InsertByLine(t, sorted))
  {
    if sorted == [] {
    } else if LineKey(t) <= LineKey(sorted[0]) {
      PrependByLine(t, sorted);
    } else {
      var tail := sorted[1..];
      assert ByLine(tail) by {
        assert forall i | 0 <= i < |tail| :: tail[i] == sorted[i + 1];
      }
      var rest := InsertByLine(t, tail);
      InsertByLineSorted(t, tail);
      forall y | y in rest
        ensures LineKey(sorted[0]) <= LineKey(y)
      {
        if y != t {
          var k :| 0 <= k < |tail| && tail[k] == y;
          assert sorted[k + 1] == y;
        }
      }
      PrependByLine(sorted[0], rest);
    }
  }

  /** Line 163: the tags rearranged into non-decreasing line order. Ruby's
      sort is not stable and leaves the order of equal lines open; this one
      keeps their given order, which is one of the orders Ruby may produce. */
  function SortByLine(tags: seq<Tag>): (r: seq<Tag>)
    ensures multiset(r) == multiset(tags)
    ensures ByLine(r)
  {
    if tags == [] then []
    else
      assert tags == [tags[0]] + tags[1..];
      InsertByLineSorted(tags[0], SortByLine(tags[1..]));
      InsertByLine(tags[0], SortByLine(tags[1..]))
  }

  /** Every tag carries a prototype. */
  predicate HasPrototypes(tags: seq<Tag>) {
    forall t | t in tags :: t.prototype.Some?
  }

  /** Lines 166-167: each prototype followed by "\n" (EmitLines reads the
      block back line by line). */
  function Emit(tags: seq<Tag>): (r: string)
    requires HasPrototypes(tags)
    ensures |r| >= |tags|
    ensures r == [] || r[|r| - 1] == '\n'
    ensures tags == [] <==> r == []
    ensures tags != [] ==> StartsWith(r, tags[0].prototype.value + "\n")
  {
    if tags == [] then ""
    else
      assert tags[0] in tags;
      assert forall t | t in tags[1..] :: t in tags;
      tags[0].prototype.value + "\n" + Emit(tags[1..])
  }

  /** The block of a non-empty list starts with the first prototype's line. */
  lemma EmitLinesCons(tags: seq<Tag>)
    requires tags != [] && HasPrototypes(tags)
    requires '\n' !in tags[0].prototype.value
    ensures HasPrototypes(tags[1..])
    ensures Lines(Emit(tags)) == [tags[0].prototype.value + "\n"] + Lines(Emit(tags[1..]))
  {
    assert forall t | t in tags[1..] :: t in tags;
    assert tags[0] in tags;
    LinesCons(tags[0].prototype.value, Emit(tags[1..]));
  }

  /** Read back line by line, the block gives each prototype in turn, with
      exactly one "\n" after it (prototypes are single lines). */
  lemma {:induction false} EmitLines(tags: seq<Tag>)
    requires HasPrototypes(tags)
    requires forall t | t in tags :: '\n' !in t.prototype.value
    ensures |Lines(Emit(tags))| == |tags|
    ensures forall i | 0 <= i < |tags| :: Lines(Emit(tags))[i] == tags[i].prototype.value + "\n"
  {
    if tags != [] {
      var tail := tags[1..];
      assert tags[0] in tags;
      EmitLinesCons(tags);
      assert forall t | t in tail :: t in tags;
      EmitLines(tail);
      var lines := Lines(Emit(tags));
      var more := Lines(Emit(tail));
      assert lines == [tags[0].prototype.value + "\n"] + more;
      assert |lines| == |tags|;
      forall i | 0 <= i < |tags|
        ensures lines[i] == tags[i].prototype.value + "\n"
      {
        if i > 0 {
          assert lines[i] == more[i - 1];
          assert tail[i - 1] == tags[i];
        }
      }
    }
  }
}
