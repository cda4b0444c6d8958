/** Prototype synthesis in preprocessor.rb (lines 127-160): keep the function
    and prototype tags, drop every tag named like an existing prototype, build a
    forward declaration for each remaining tag and strip default argument
    values from it. */
module Synthesis {
  import opened Wrappers
  import opened RubyString
  import opened Tags

  /** Why the script stops before it writes the prototypes. */
  datatype Failure =
    /** A tag got no prototype, and line 155 calls `include?` on nil. */
    | MissingPrototype(name: Option<string>)
    /** A prototype with `=` lacks a `(` or a `)`, and line 156 cannot slice it. */
    | MissingParenthesis(prototype: string)

  predicate IsPrototypeKind(t: Tag) {
    t.kind == Some("prototype")
  }

  predicate IsFunctionKind(t: Tag) {
    t.kind == Some("function")
  }

  /** `knownTagKinds.include?(tag["kind"])` (lines 13 and 127). */
  predicate IsKnown(t: Tag) {
    IsPrototypeKind(t) || IsFunctionKind(t)
  }

  /** Line 127: drops the tags of any other kind, or of no kind
      (KeepKnownAppend: keeping order and repetitions). */
  function KeepKnown(tags: seq<Tag>): (r: seq<Tag>)
    ensures forall t :: t in r <==> t in tags && IsKnown(t)
  {
    if tags == [] then []
    else (if IsKnown(tags[0]) then [tags[0]] else []) + KeepKnown(tags[1..])
  }

  /** `select` filters piecewise: the tags of a concatenation are those of
      each part, in order. With KeepKnownOne this pins KeepKnown down as the
      filter that keeps order and repetitions. */
  lemma {:induction false} KeepKnownAppend(a: seq<Tag>, b: seq<Tag>)
    ensures KeepKnown(a + b) == KeepKnown(a) + KeepKnown(b)
  {
    if a == [] {
      assert a + b == b;
    } else {
      assert (a + b)[0] == a[0] && (a + b)[1..] == a[1..] + b;
      KeepKnownAppend(a[1..], b);
    }
  }

  /** One tag stays exactly when its kind is known. */
  lemma KeepKnownOne(t: Tag)
    ensures KeepKnown([t]) == if IsKnown(t) then [t] else []
  {
    assert [t][1..] == [];
  }

  /** Line 130: the tags of kind prototype. */
  function PrototypeTags(tags: seq<Tag>): (r: seq<Tag>)
    ensures forall t :: t in r <==> t in tags && IsPrototypeKind(t)
  {
    if tags == [] then []
    else (if IsPrototypeKind(tags[0]) then [tags[0]] else []) + PrototypeTags(tags[1..])
  }

  /** Lines 133-140: some existing prototype has this name (nil matches nil). */
  predicate NamedIn(existing: seq<Tag>, name: Option<string>) {
    exists p | p in existing :: p.name == name
  }

  /** Lines 132-141: drops every tag whose name is that of an existing
      prototype (RemoveExistingAppend: keeping order and repetitions). */
  function RemoveExisting(tags: seq<Tag>, existing: seq<Tag>): (r: seq<Tag>)
    ensures forall t :: t in r <==> t in tags && !NamedIn(existing, t.name)
  {
    if tags == [] then []
    else (if NamedIn(existing, tags[0].name) then [] else [tags[0]]) + RemoveExisting(tags[1..], existing)
  }

  /** Lines 127-141 as written. Since a prototype tag shares its own name, the
      prototype tags go too, and only function tags remain. */
  function Dedup(tags: seq<Tag>): (r: seq<Tag>)
    ensures forall t | t in r :: IsFunctionKind(t)
    ensures forall t, p | t in r && p in tags && IsPrototypeKind(p) :: p.name != t.name
    ensures forall t | t in tags && Survives(tags, t) :: t in r
  {
    var known := KeepKnown(tags);
    var existing := PrototypeTags(known);
    var r := RemoveExisting(known, existing);
    forall t | t in r
      ensures IsFunctionKind(t)
    {
      assert IsPrototypeKind(t) ==> t in existing;
    }
    r
  }

  /** The rule the two passes implement: a function tag survives when no
      prototype tag of the input has its name. */
  predicate Survives(tags: seq<Tag>, t: Tag) {
    IsFunctionKind(t) && !exists p | p in tags :: IsPrototypeKind(p) && p.name == t.name
  }

  /** The tags of `candidates` that survive against `tags`, in order. */
  function Survivors(candidates: seq<Tag>, tags: seq<Tag>): seq<Tag> {
    if candidates == [] then []
    else (if Survives(tags, candidates[0]) then [candidates[0]] else []) + Survivors(candidates[1..], tags)
  }

  /** The first pass keeps whatever the combined rule keeps, in order. */
  lemma {:induction false} RemoveExistingOfKnown(candidates: seq<Tag>, tags: seq<Tag>)
    requires forall t | t in candidates :: t in tags
    ensures RemoveExisting(KeepKnown(candidates), PrototypeTags(KeepKnown(tags))) == Survivors(candidates, tags)
  {
    var existing := PrototypeTags(KeepKnown(tags));
    if candidates != [] {
      var t := candidates[0];
      RemoveExistingOfKnown(candidates[1..], tags);
      assert KeepKnown(candidates) == (if IsKnown(t) then [t] else []) + KeepKnown(candidates[1..]);
      RemoveExistingAppend(if IsKnown(t) then [t] else [], KeepKnown(candidates[1..]), existing);
      if IsKnown(t) {
        assert IsPrototypeKind(t) ==> t in existing;
        if NamedIn(existing, t.name) {
          var p :| p in existing && p.name == t.name;
          assert IsPrototypeKind(p) && p in tags;
        } else {
          forall p | p in tags && IsPrototypeKind(p)
            ensures p.name != t.name
          {
            assert p in existing;
          }
        }
      }
    }
  }

  /** The removal filters piecewise: what survives of a concatenation is what
      survives of each part, in order. With RemoveExistingOne this pins
      RemoveExisting down as the filter that keeps order and repetitions. */
  lemma {:induction false} RemoveExistingAppend(a: seq<Tag>, b: seq<Tag>, existing: seq<Tag>)
    ensures RemoveExisting(a + b, existing) == RemoveExisting(a, existing) + RemoveExisting(b, existing)
  {
    if a == [] {
      assert a + b == b;
    } else {
      assert (a + b)[0] == a[0] && (a + b)[1..] == a[1..] + b;
      RemoveExistingAppend(a[1..], b, existing);
    }
  }

  /** One tag stays exactly when no existing prototype has its name. */
  lemma RemoveExistingOne(t: Tag, existing: seq<Tag>)
    ensures RemoveExisting([t], existing) == if NamedIn(existing, t.name) then [] else [t]
  {
    assert [t][1..] == [];
  }

  /** Filtering and deduplication keep exactly the surviving function tags,
      in their original order. */
  lemma DedupIsSurvivors(tags: seq<Tag>)
    ensures Dedup(tags) == Survivors(tags, tags)
  {
    RemoveExistingOfKnown(tags, tags);
  }

  /** Line 145: the return type or the declarator starts with `template`. */
  predicate IsTemplate(t: Tag) {
    || (t.returntype.Some? && StartsWith(t.returntype.value, "template"))
    || (t.code.Some? && StartsWith(t.code.value, "template"))
  }

  /** Lines 145-150: a template keeps its declarator verbatim; any other tag
      with a return type, name and signature gets "returntype name(signature);";
      any other tag gets none. */
  function BuildPrototype(t: Tag): (r: Option<string>)
    ensures r.Some? <==> (IsTemplate(t) && t.code.Some?) || (t.returntype.Some? && t.name.Some? && t.signature.Some?)
    ensures IsTemplate(t) && t.code.Some? ==> r == t.code
    ensures r.Some? && !(IsTemplate(t) && t.code.Some?) ==>
              && StartsWith(r.value, t.returntype.value + " " + t.name.value)
              && EndsWith(r.value, t.signature.value + ";")
              && |r.value| == |t.returntype.value| + |t.name.value| + |t.signature.value| + 2
  {
    if IsTemplate(t) && t.code.Some? then t.code
    else if t.returntype.Some? && t.name.Some? && t.signature.Some? then
      var head := t.returntype.value + " " + t.name.value;
      var p := head + t.signature.value + ";";
      assert p[..|head|] == head;
      assert p[|p| - |t.signature.value| - 1..] == t.signature.value + ";";
      Some(p)
    else None
  }

  /** Lines 144-151 over every tag. */
  function AddPrototypes(tags: seq<Tag>): (r: seq<Tag>)
    ensures |r| == |tags|
    ensures forall i | 0 <= i < |tags| :: r[i] == tags[i].(prototype := BuildPrototype(tags[i]))
  {
    seq(|tags|, i requires 0 <= i < |tags| => tags[i].(prototype := BuildPrototype(tags[i])))
  }

  /** One parameter with its default value cut off (line 157): the text up to
      its first `=`. */
  function CutDefault(param: string): (r: string)
    ensures '=' !in r
    ensures StartsWith(param, r)
    ensures '=' in param ==> param[|r|] == '='
    ensures '=' !in param ==> r == param
  {
    match IndexOf(param, '=')
    case Some(i) => param[..i]
    case None => param
  }

  /** A parameter as it is written back: cut at `=`, then right-stripped. */
  function CleanParameter(param: string): (r: string)
    ensures '=' !in r
    ensures StartsWith(param, r)
    ensures r == RStrip(CutDefault(param))
    ensures '=' !in param ==> r == RStrip(param)
  {
    var c := CutDefault(param);
    var r := RStrip(c);
    assert param[..|r|] == c[..|r|];
    r
  }

  function CleanParameters(params: seq<string>): (r: seq<string>)
    ensures |r| == |params|
    ensures forall i | 0 <= i < |params| :: r[i] == CleanParameter(params[i])
  {
    seq(|params|, i requires 0 <= i < |params| => CleanParameter(params[i]))
  }

  /** Line 157: the parameter list split on commas, each piece cleaned, joined
      with commas again. */
  function RewriteParameters(params: string): (r: string)
    ensures '=' !in r
  {
    var pieces := CleanParameters(Split(params, ','));
    JoinAvoids(pieces, ',', '=');
    Join(pieces, ',')
  }

  /** The rewritten list has one comma-separated piece per piece `split` found,
      each the original piece cut at its first `=` and right-stripped. */
  lemma RewriteKeepsPieces(params: string)
    requires Split(params, ',') != []
    ensures Fields(RewriteParameters(params), ',') == CleanParameters(Split(params, ','))
  {
    var pieces := Split(params, ',');
    var cleaned := CleanParameters(pieces);
    forall i | 0 <= i < |cleaned|
      ensures ',' !in cleaned[i]
    {
      assert pieces[i] == Fields(params, ',')[i];
      assert cleaned[i] == pieces[i][..|cleaned[i]|];
    }
    FieldsOfJoin(cleaned, ',');
  }

  /** `p[from...to] = mid`: the text between the two positions replaced. */
  function Replace(p: string, from: nat, to: nat, mid: string): (q: string)
    requires from <= to <= |p|
    ensures |q| == |p| - (to - from) + |mid|
    ensures q[..from] == p[..from]
    ensures q[from..from + |mid|] == mid
    ensures q[from + |mid|..] == p[to..]
  {
    p[..from] + mid + p[to..]
  }

  /** The first `(` of a prototype. */
  function Open(p: string): nat
    requires '(' in p
  {
    IndexOf(p, '(').value
  }

  /** Where the text after the parameter list starts: the first `)`, or just
      after the first `(` when that `)` comes earlier. */
  function AfterParameters(p: string): nat
    requires '(' in p && ')' in p
  {
    var close := IndexOf(p, ')').value;
    if Open(p) < close then close else Open(p) + 1
  }

  /** The parameter list line 156 slices: between the first `(` and the first
      `)`, empty when that `)` comes earlier. */
  function Parameters(p: string): string
    requires '(' in p && ')' in p
  {
    p[Open(p) + 1..AfterParameters(p)]
  }

  /** Lines 155-159 for one prototype: when it contains `=`, the text between
      the first `(` and the first `)` (not the matching one) is rewritten by
      RewriteParameters; without both parentheses the script stops. */
  function StripDefaults(p: string): (r: Result<string, Failure>)
    ensures '=' !in p ==> r == Success(p)
    ensures r.Failure? <==> '=' in p && ('(' !in p || ')' !in p)
    ensures r.Failure? ==> r.error == MissingParenthesis(p)
  {
    if '=' !in p then Success(p)
    else if '(' in p && ')' in p then
      Success(Replace(p, Open(p) + 1, AfterParameters(p), RewriteParameters(Parameters(p))))
    else
      Failure(MissingParenthesis(p))
  }

  /** What StripDefaults keeps and what it rewrites: the text up to the first
      `(` and from the first `)` on stay as they were, and the parameter list
      between them is replaced by its rewriting, which holds no `=`. */
  lemma StripDefaultsSplice(p: string)
    requires '=' in p && '(' in p && ')' in p
    ensures var r := StripDefaults(p).value;
            var from := Open(p) + 1;
            var to := AfterParameters(p);
            var mid := RewriteParameters(Parameters(p));
            && '=' !in mid
            && |r| == |p| - (to - from) + |mid|
            && r[..from] == p[..from]
            && r[from..from + |mid|] == mid
            && r[from + |mid|..] == p[to..]
  {
  }

  /** When the first `)` comes before the first `(`, Ruby slices an empty
      parameter list and puts it back in place: the prototype is unchanged. */
  lemma StripDefaultsReversed(p: string)
    requires '=' in p && '(' in p && ')' in p
    requires IndexOf(p, ')').value < IndexOf(p, '(').value
    ensures StripDefaults(p) == Success(p)
  {
    var from := Open(p) + 1;
    assert AfterParameters(p) == from;
    assert Replace(p, from, from, RewriteParameters(Parameters(p))) == p[..from] + "" + p[from..];
    assert p[..from] + "" + p[from..] == p;
  }

  /** The tags as line 158 leaves them, or the failure of the first tag, in
      order, on which lines 155-156 stop the script. */
  function StripAll(tags: seq<Tag>): (r: Result<seq<Tag>, Failure>)
    ensures r.Success? <==> forall t | t in tags :: t.prototype.Some? && StripDefaults(t.prototype.value).Success?
    ensures r.Success? ==> |r.value| == |tags|
    ensures r.Success? ==> forall i | 0 <= i < |tags| ::
              r.value[i] == tags[i].(prototype := Some(StripDefaults(tags[i].prototype.value).value))
    ensures r.Failure? ==> exists i | 0 <= i < |tags| :: Fails(tags[i], r.error)
  {
    if tags == [] then Success([])
    else
      var t := tags[0];
      assert forall u | u in tags[1..] :: u in tags;
      match t.prototype
      case None => Failure(MissingPrototype(t.name))
      case Some(p) =>
        match StripDefaults(p)
        case Failure(e) => Failure(e)
        case Success(q) =>
          match StripAll(tags[1..])
          case Failure(e) =>
            var i :| 0 <= i < |tags[1..]| && Fails(tags[1..][i], e);
            assert Fails(tags[i + 1], e);
            Failure(e)
          case Success(rest) =>
            assert tags == [t] + tags[1..];
            Success([t.(prototype := Some(q))] + rest)
  }

  /** Tag `t` makes the script stop with failure `e`. */
  predicate Fails(t: Tag, e: Failure) {
    match t.prototype
    case None => e == MissingPrototype(t.name)
    case Some(p) => StripDefaults(p) == Failure(e)
  }
}
