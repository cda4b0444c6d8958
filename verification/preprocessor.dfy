/** The whole prototype-synthesis pipeline of preprocessor.rb (lines 63-186),
    with the file system and the ctags process replaced by their data: the
    sketch files as (basename, content) pairs and the text ctags printed. */
module Preprocessor {
  import opened Wrappers
  import opened RubyString
  import opened Unifier
  import opened Tags
  import opened Synthesis
  import opened Ordering
  import opened Insertion

  /** A surviving tag from which the script can make a prototype. */
  predicate Buildable(t: Tag) {
    && BuildPrototype(t).Some?
    && StripDefaults(BuildPrototype(t).value).Success?
  }

  /** The unified source of the project (lines 63-76). */
  function UnifiedSource(project: string, files: seq<SketchFile>): string {
    Unify(OrderFiles(project, files))
  }

  /** Building the prototypes of the kept tags and stripping their defaults
      succeeds exactly when every kept tag is buildable; when it fails, the
      failure is that of one of the kept tags. */
  lemma {:induction false} StripAllOfBuilt(kept: seq<Tag>)
    ensures StripAll(AddPrototypes(kept)).Success? <==> forall t | t in kept :: Buildable(t)
    ensures StripAll(AddPrototypes(kept)).Failure? ==> exists t | t in kept ::
              Fails(t.(prototype := BuildPrototype(t)), StripAll(AddPrototypes(kept)).error)
  {
    var built := AddPrototypes(kept);
    assert forall i | 0 <= i < |kept| :: built[i].prototype == BuildPrototype(kept[i]);
    if forall t | t in kept :: Buildable(t) {
      forall u | u in built
        ensures u.prototype.Some? && StripDefaults(u.prototype.value).Success?
      {
        var i :| 0 <= i < |built| && built[i] == u;
        assert Buildable(kept[i]);
      }
    } else {
      var t :| t in kept && !Buildable(t);
      var i :| 0 <= i < |kept| && kept[i] == t;
      assert built[i] in built;
    }
    if StripAll(built).Failure? {
      var i :| 0 <= i < |built| && Fails(built[i], StripAll(built).error);
      assert kept[i] in kept && built[i] == kept[i].(prototype := BuildPrototype(kept[i]));
    }
  }

  /** Every tag that stripping returns carries a prototype, and sorting keeps
      them all. */
  lemma SortedReadyHavePrototypes(built: seq<Tag>)
    requires StripAll(built).Success?
    ensures HasPrototypes(SortByLine(StripAll(built).value))
  {
    var ready := StripAll(built).value;
    var sorted := SortByLine(ready);
    forall t | t in sorted
      ensures t.prototype.Some?
    {
      assert t in multiset(sorted);
      assert t in multiset(ready);
      var i :| 0 <= i < |ready| && ready[i] == t;
    }
  }

  /** The prototype block (lines 127-167) for the ctags output, or the failure
      on which the script stops: on success, the prototypes of the surviving
      tags, defaults stripped, one per line in the order of their lines. */
  function PrototypeBlock(ctagsOutput: string): (r: Result<string, Failure>)
    ensures r.Success? <==> forall t | t in Dedup(ParseTags(ctagsOutput)) :: Buildable(t)
    ensures r.Failure? ==> exists t | t in Dedup(ParseTags(ctagsOutput)) ::
              Fails(t.(prototype := BuildPrototype(t)), r.error)
    ensures r.Success? ==>
              var ready := StripAll(AddPrototypes(Dedup(ParseTags(ctagsOutput))));
              && ready.Success?
              && exists sorted: seq<Tag> | multiset(sorted) == multiset(ready.value) ::
                   ByLine(sorted) && HasPrototypes(sorted) && r.value == Emit(sorted)
  {
    var kept := Dedup(ParseTags(ctagsOutput));
    StripAllOfBuilt(kept);
    match StripAll(AddPrototypes(kept))
    case Failure(e) => Failure(e)
    case Success(ready) =>
      SortedReadyHavePrototypes(AddPrototypes(kept));
      Success(Emit(SortByLine(ready)))
  }

  /** The final text written at line 187: the unified source with the
      prototype block and the corrective `#line` directive inserted after its
      leading trivia, or the failure on which the script stops. */
  function Preprocess(project: string, files: seq<SketchFile>, ctagsOutput: string): (r: Result<string, Failure>)
    ensures r.Success? <==> forall t | t in Dedup(ParseTags(ctagsOutput)) :: Buildable(t)
    ensures r.Success? ==> r.value == Compose(UnifiedSource(project, files), PrototypeBlock(ctagsOutput).value)
    ensures r.Success? ==>
              var s := UnifiedSource(project, files);
              var pos := InsertionPoint(s);
              && |s| <= |r.value|
              && r.value[..pos] == s[..pos]
              && r.value[|r.value| - (|s| - pos)..] == s[pos..]
  {
    var s := UnifiedSource(project, files);
    match PrototypeBlock(ctagsOutput)
    case Failure(e) => Failure(e)
    case Success(block) =>
      ComposeKeeps(s, block);
      Success(Compose(s, block))
  }

  /** The composed text starts with the source up to the insertion point and
      ends with the rest of the source. */
  lemma ComposeKeeps(s: string, block: string)
    ensures var r := Compose(s, block);
            var pos := InsertionPoint(s);
            && |s| <= |r|
            && r[..pos] == s[..pos]
            && r[|r| - (|s| - pos)..] == s[pos..]
  {
    var pos := InsertionPoint(s);
    var d := InsertionDirective(s);
    var r := Compose(s, block);
    assert |r| - (|s| - pos) == pos + |block| + |d|;
  }
}
