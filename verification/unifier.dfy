/** The source unifier of preprocessor.rb (lines 63-76): orders the sketch files
    so that the main file comes first and the rest by basename, then
    concatenates them, each behind a `#line 1 "<basename>"` directive. */
module Unifier {
  import opened Wrappers
  import opened RubyString

  /** One `.ino`/`.pde` file of the project: its basename and its text. */
  datatype SketchFile = SketchFile(basename: string, content: string)

  /** The length of the run of dots a name starts with. */
  function LeadingDots(name: string): (n: nat)
    ensures n <= |name|
    ensures forall k | 0 <= k < n :: name[k] == '.'
    ensures n == |name| || name[n] != '.'
  {
    if name != [] && name[0] == '.' then 1 + LeadingDots(name[1..]) else 0
  }

  /** `File.basename(name, ".*")`: the name without its last extension. The
      run of dots a name starts with never begins an extension, so a name with
      no dot after that run is kept whole. */
  function Stem(name: string): (r: string)
    ensures StartsWith(name, r)
    ensures r == name || (|r| > 0 && name[|r|] == '.' && '.' !in name[|r| + 1..])
    ensures LeadingDots(name) <= |r|
    ensures '.' in name[LeadingDots(name)..] ==> |r| < |name|
    ensures '.' !in name[LeadingDots(name)..] ==> r == name
  {
    var d := LeadingDots(name);
    match LastIndexOf(name, '.')
    case Some(i) =>
      if i >= d then
        assert name[d..][i - d] == '.';
        name[..i]
      else
        assert forall k | d <= k < |name| :: name[k] != '.';
        name
    case None => name
  }

  /** An extension after the name is removed. */
  lemma StemCutsExtension()
    ensures Stem("blink.ino") == "blink"
  {
    var name := "blink.ino";
    assert LeadingDots(name) == 0;
    assert name[0..][5] == '.';
    var r := Stem(name);
    assert |r| == 5 by {
      assert name[|r|] == '.';
      assert forall k | 0 <= k < |name| && k != 5 :: name[k] != '.';
    }
    assert r == name[..5];
  }

  /** A name whose only dots lead it has no extension. */
  lemma StemKeepsLeadingDots()
    ensures Stem("..ino") == "..ino"
  {
    var name := "..ino";
    assert LeadingDots(name[2..]) == 0;
    assert LeadingDots(name[1..]) == 1 + LeadingDots(name[1..][1..]) by { assert name[1..][1..] == name[2..]; }
    assert LeadingDots(name) == 2;
    assert name[2..] == "ino";
  }

  /** The main file of the project: its basename without extension is the project name. */
  predicate IsMain(project: string, f: SketchFile) {
    Stem(f.basename) == project
  }

  /** The comparator handed to `sort!` (lines 65-67). */
  function Compare(project: string, x: SketchFile, y: SketchFile): int
  {
    if IsMain(project, x) then -1
    else if IsMain(project, y) then 1
    else Cmp(x.basename, y.basename)
  }

  /** `x` sorts no later than `y` by basename. */
  predicate NameLe(x: SketchFile, y: SketchFile) {
    Cmp(x.basename, y.basename) <= 0
  }

  /** The files in basename order. */
  ghost predicate ByName(files: seq<SketchFile>) {
    forall i, j | 0 <= i < j < |files| :: NameLe(files[i], files[j])
  }

  /** Inserts `f` into a list, before the first file whose basename is not smaller. */
  function InsertByName(f: SketchFile, sorted: seq<SketchFile>): (r: seq<SketchFile>)
    ensures multiset(r) == multiset(sorted) + multiset{f}
    ensures forall x | x in r :: x == f || x in sorted
  {
    if sorted == [] then [f]
    else if NameLe(f, sorted[0]) then [f] + sorted
    else
      assert sorted == [sorted[0]] + sorted[1..];
      [sorted[0]] + InsertByName(f, sorted[1..])
  }

  /** Inserting into a list in basename order keeps it in basename order. */
  lemma {:induction false} InsertByNameSorted(f: SketchFile, sorted: seq<SketchFile>)
    requires ByName(sorted)
    ensures ByName(InsertByName(f, sorted))
  {
    if sorted == [] {
    } else if NameLe(f, sorted[0]) {
      var r := [f] + sorted;
      assert InsertByName(f, sorted) == r;
      forall i, j | 0 <= i < j < |r|
        ensures NameLe(r[i], r[j])
      {
        assert r[j] == sorted[j - 1];
        if i > 0 {
          assert r[i] == sorted[i - 1];
        } else if j > 1 {
          assert NameLe(sorted[0], sorted[j - 1]);
          CmpTransitive(f.basename, sorted[0].basename, sorted[j - 1].basename);
        }
      }
    } else {
      CmpAntisymmetric(f.basename, sorted[0].basename);
      var tail := sorted[1..];
      assert ByName(tail) by {
        assert forall i | 0 <= i < |tail| :: tail[i] == sorted[i + 1];
      }
      var rest := InsertByName(f, tail);
      InsertByNameSorted(f, tail);
      var r := [sorted[0]] + rest;
      assert InsertByName(f, sorted) == r;
      forall i, j | 0 <= i < j < |r|
        ensures NameLe(r[i], r[j])
      {
        var y := rest[j - 1];
        assert r[j] == y;
        if i > 0 {
          assert r[i] == rest[i - 1];
        } else if y != f {
          assert y in tail;
          var k :| 0 <= k < |tail| && tail[k] == y;
          assert sorted[k + 1] == y;
        }
      }
    }
  }

  /** Insertion sort by basename. */
  function SortByName(files: seq<SketchFile>): (r: seq<SketchFile>)
    ensures multiset(r) == multiset(files)
    ensures ByName(r)
  {
    if files == [] then []
    else
      assert files == [files[0]] + files[1..];
      InsertByNameSorted(files[0], SortByName(files[1..]));
      InsertByName(files[0], SortByName(files[1..]))
  }

  /** The main files, in their given order. */
  function MainFiles(project: string, files: seq<SketchFile>): (r: seq<SketchFile>)
    ensures forall f :: f in r <==> f in files && IsMain(project, f)
    ensures multiset(r) + multiset(OtherFiles(project, files)) == multiset(files)
  {
    if files == [] then []
    else
      assert files == [files[0]] + files[1..];
      (if IsMain(project, files[0]) then [files[0]] else []) + MainFiles(project, files[1..])
  }

  /** The files that are not main files, in their given order. */
  function OtherFiles(project: string, files: seq<SketchFile>): (r: seq<SketchFile>)
    ensures forall f :: f in r <==> f in files && !IsMain(project, f)
  {
    if files == [] then []
    else (if IsMain(project, files[0]) then [] else [files[0]]) + OtherFiles(project, files[1..])
  }

  /** Sorting by basename keeps exactly the files it was given. */
  lemma SortByNameMembers(files: seq<SketchFile>)
    ensures forall f | f in SortByName(files) :: f in files
  {
    var r := SortByName(files);
    forall f | f in r
      ensures f in files
    {
      assert f in multiset(r);
    }
  }

  /** Main files followed by non-main files in basename order are in comparator order. */
  lemma MainsThenOthers(project: string, mains: seq<SketchFile>, others: seq<SketchFile>)
    requires forall f | f in mains :: IsMain(project, f)
    requires forall f | f in others :: !IsMain(project, f)
    requires ByName(others)
    ensures forall i, j | 0 <= i < j < |mains + others| ::
              Compare(project, (mains + others)[i], (mains + others)[j]) <= 0
  {
    var r := mains + others;
    forall i, j | 0 <= i < j < |r|
      ensures Compare(project, r[i], r[j]) <= 0
    {
      if i < |mains| {
        assert r[i] in mains;
      } else {
        var x, y := others[i - |mains|], others[j - |mains|];
        assert r[i] == x && r[j] == y;
        assert x in others && y in others;
        assert NameLe(x, y);
      }
    }
  }

  /** The order `allFiles.sort!` establishes: a rearrangement of the files in
      which no pair is out of order for the comparator. A main file therefore
      precedes every other file, and the others follow by basename. Ruby leaves
      the relative order of two main files open (the comparator calls either one
      smaller); this model keeps their given order. */
  function OrderFiles(project: string, files: seq<SketchFile>): (r: seq<SketchFile>)
    ensures multiset(r) == multiset(files)
    ensures forall i, j | 0 <= i < j < |r| :: Compare(project, r[i], r[j]) <= 0
  {
    var mains := MainFiles(project, files);
    var others := SortByName(OtherFiles(project, files));
    SortByNameMembers(OtherFiles(project, files));
    MainsThenOthers(project, mains, others);
    mains + others
  }

  /** The main file comes first: if any file is a main file, the first file is one. */
  lemma MainFileFirst(project: string, files: seq<SketchFile>, k: nat)
    requires k < |files| && IsMain(project, files[k])
    ensures IsMain(project, OrderFiles(project, files)[0])
  {
    var r := OrderFiles(project, files);
    assert files[k] in multiset(r);
    var j :| 0 <= j < |r| && r[j] == files[k];
    if j > 0 {
      assert Compare(project, r[0], r[j]) <= 0;
    }
  }

  /** The `#line` directive written before each file (line 73). */
  function Header(f: SketchFile): string {
    "#line 1 \"" + f.basename + "\"\n"
  }

  /** Appends one file to the buffer as the loop body does (lines 73-75): the
      header, the content, and a "\n" if the buffer does not end in one. */
  function AppendFile(buffer: string, f: SketchFile): (r: string)
    ensures StartsWith(r, buffer + Header(f) + f.content)
    ensures EndsWith(r, "\n")
    ensures |r| <= |buffer| + |Header(f)| + |f.content| + 1
    ensures f.content == [] || EndsWith(f.content, "\n") ==> r == buffer + Header(f) + f.content
  {
    var b := buffer + Header(f) + f.content;
    if EndsWith(b, "\n") then b else b + "\n"
  }

  /** The loop of lines 72-76 over the files, from an initial buffer. */
  function UnifyFrom(buffer: string, files: seq<SketchFile>): string
    decreases |files|
  {
    if files == [] then buffer else UnifyFrom(AppendFile(buffer, files[0]), files[1..])
  }

  /** The unified source. */
  function Unify(files: seq<SketchFile>): (r: string)
    ensures r == Segments(files)
  {
    UnifyFromIsSegments("", files);
    assert "" + Segments(files) == Segments(files);
    UnifyFrom("", files)
  }

  /** What one file contributes: header, content, and a terminating "\n"
      unless the content already ends in one. An empty content needs none,
      because the header ends in "\n". */
  function Segment(f: SketchFile): (r: string)
    ensures StartsWith(r, Header(f) + f.content)
    ensures EndsWith(r, "\n")
    ensures |r| <= |Header(f)| + |f.content| + 1
    ensures f.content == [] || f.content[|f.content| - 1] == '\n' ==> r == Header(f) + f.content
  {
    var b := Header(f) + f.content;
    if f.content != [] && f.content[|f.content| - 1] == '\n' then b
    else if f.content == [] then b
    else b + "\n"
  }

  /** The segments of the files, one after another. */
  function Segments(files: seq<SketchFile>): string {
    if files == [] then "" else Segment(files[0]) + Segments(files[1..])
  }

  /** The buffer-building loop only ever appends whole segments, whatever the
      buffer held before. */
  lemma {:induction false} UnifyFromIsSegments(buffer: string, files: seq<SketchFile>)
    ensures UnifyFrom(buffer, files) == buffer + Segments(files)
    decreases |files|
  {
    if files == [] {
      assert buffer + "" == buffer;
    } else {
      var f := files[0];
      var seg := Segment(f);
      var tail := Segments(files[1..]);
      AppendFileIsSegment(buffer, f);
      assert UnifyFrom(buffer, files) == UnifyFrom(buffer + seg, files[1..]);
      UnifyFromIsSegments(buffer + seg, files[1..]);
      assert Segments(files) == seg + tail;
      ConcatAssoc(buffer, seg, tail);
    }
  }

  /** Whether the loop appends a "\n" depends only on the file, since the
      header it appends first ends in one. */
  lemma AppendFileIsSegment(buffer: string, f: SketchFile)
    ensures AppendFile(buffer, f) == buffer + Segment(f)
  {
    var h := Header(f);
    var b := buffer + h + f.content;
    assert b == buffer + (h + f.content);
    assert h[|h| - 1] == '\n';
    if f.content == [] {
      assert b[|b| - 1] == h[|h| - 1];
    } else {
      assert b[|b| - 1] == f.content[|f.content| - 1];
    }
  }

  /** The unified source is the segments of its files in order, so every
      file's text stands, behind its header, at a known place of the buffer. */
  lemma UnifySplits(files: seq<SketchFile>, i: nat)
    requires i < |files|
    ensures Unify(files) == Segments(files[..i]) + Segment(files[i]) + Segments(files[i + 1..])
  {
    SegmentsSplit(files, i);
  }

  /** The segments of a list around one of its files. */
  lemma SegmentsSplit(files: seq<SketchFile>, i: nat)
    requires i < |files|
    ensures Segments(files) == Segments(files[..i]) + Segment(files[i]) + Segments(files[i + 1..])
  {
    var front, back := files[..i], files[i..];
    assert files == front + back;
    SegmentsAppend(front, back);
    assert back[0] == files[i] && back[1..] == files[i + 1..];
    assert Segments(back) == Segment(files[i]) + Segments(files[i + 1..]);
    ConcatAssoc(Segments(front), Segment(files[i]), Segments(files[i + 1..]));
  }

  lemma {:induction false} SegmentsAppend(a: seq<SketchFile>, b: seq<SketchFile>)
    ensures Segments(a + b) == Segments(a) + Segments(b)
  {
    if a == [] {
      assert a + b == b;
    } else {
      assert (a + b)[0] == a[0];
      assert (a + b)[1..] == a[1..] + b;
      SegmentsAppend(a[1..], b);
      ConcatAssoc(Segment(a[0]), Segments(a[1..]), Segments(b));
    }
  }

  /** The unified source of at least one file ends in "\n". */
  lemma UnifyEndsInNewline(files: seq<SketchFile>)
    requires files != []
    ensures EndsWith(Unify(files), "\n")
  {
    UnifySplits(files, |files| - 1);
    assert files[|files|..] == [];
  }
}
