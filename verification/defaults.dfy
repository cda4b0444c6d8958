/** Facts about default-argument stripping (lines 154-160) for prototypes of
    the form `head(args)tail`, and for the case of a single parameter. */
module Defaults {
  import opened Wrappers
  import opened RubyString
  import opened Synthesis

  /** A parameter with a default loses it: the text before its `=`, right-stripped. */
  lemma CleanDropsDefault(param: string, value: string)
    requires '=' !in param
    ensures CleanParameter(param + "=" + value) == RStrip(param)
  {
    var arg := param + "=" + value;
    assert arg[..|param|] == param;
    IndexOfAt(arg, '=', |param|);
  }

  /** A parameter list of one parameter with a default is rewritten to the
      parameter alone. */
  lemma RewriteOneParameter(param: string, value: string)
    requires '=' !in param && ',' !in param && ',' !in value
    ensures RewriteParameters(param + "=" + value) == RStrip(param)
  {
    var args := param + "=" + value;
    SplitWithout(args, ',');
    CleanDropsDefault(param, value);
    assert CleanParameters([args]) == [RStrip(param)];
  }

  /** Where the parts of `head(args)tail` stand when `head` holds no
      parenthesis and `args` no `)`. */
  lemma ParametersParts(p: string, head: string, args: string, tail: string, close: nat)
    requires '(' !in head && ')' !in head && ')' !in args && '=' in args
    requires p == head + "(" + args + ")" + tail && close == |head| + 1 + |args|
    ensures '=' in p && '(' in p && Open(p) == |head|
    ensures IndexOf(p, ')') == Some(close)
    ensures p[..|head| + 1] == head + "("
    ensures p[|head| + 1..close] == args
    ensures p[close..] == ")" + tail
  {
    assert p == (head + "(") + args + (")" + tail);
    assert p[..|head| + 1] == head + "(";
    assert p[|head| + 1..close] == args;
    assert p[close..] == ")" + tail;
    assert p[..|head|] == head && p[|head|] == '(';
    IndexOfAt(p, '(', |head|);
    assert p[..close] == head + "(" + args && p[close] == ')';
    IndexOfAt(p, ')', close);
    var k :| 0 <= k < |args| && args[k] == '=';
    assert p[|head| + 1 + k] == '=';
  }

  /** With `=` present, `(` at `from - 1` and the first `)` at `close` after
      it, StripDefaults splices the rewritten list in between. */
  lemma StripSplices(p: string, from: nat, close: nat, args: string, mid: string)
    requires '=' in p && '(' in p && Open(p) + 1 == from
    requires IndexOf(p, ')') == Some(close) && from <= close
    requires p[from..close] == args && RewriteParameters(args) == mid
    ensures StripDefaults(p) == Success(p[..from] + mid + p[close..])
  {
    assert ')' in p;
    assert Open(p) < close;
    assert AfterParameters(p) == close;
    assert Parameters(p) == args;
    assert RewriteParameters(Parameters(p)) == mid;
    assert StripDefaults(p) ==
      Success(Replace(p, Open(p) + 1, AfterParameters(p), RewriteParameters(Parameters(p))));
    assert Replace(p, from, close, mid) == p[..from] + mid + p[close..];
  }

  /** A prototype `head(args)tail` whose list holds a default and no `)`
      keeps `head(` and `)tail` and has the list rewritten in between
      (lines 155-159). */
  lemma StripParts(head: string, args: string, tail: string)
    requires '(' !in head && ')' !in head && ')' !in args && '=' in args
    ensures StripDefaults(head + "(" + args + ")" + tail) ==
            Success(head + "(" + RewriteParameters(args) + ")" + tail)
  {
    var p := head + "(" + args + ")" + tail;
    var m := RewriteParameters(args);
    var from, close := |head| + 1, |head| + 1 + |args|;
    ParametersParts(p, head, args, tail, close);
    StripSplices(p, from, close, args, m);
    Reassemble(p[..from], head, m, p[close..], tail);
  }

  /** Rebuilding `head(m)tail` from its two outer pieces. */
  lemma Reassemble(pre: string, head: string, m: string, post: string, tail: string)
    requires pre == head + "(" && post == ")" + tail
    ensures pre + m + post == head + "(" + m + ")" + tail
  {
    ConcatAssoc(head + "(" + m, ")", tail);
  }

  /** A prototype with one parameter, `head(param=value)tail`, loses the
      default: it becomes `head(param)tail` with `param` right-stripped
      (lines 155-159). */
  lemma OneDefaultDropped(head: string, param: string, value: string, tail: string)
    requires '(' !in head && ')' !in head
    requires '=' !in param && ',' !in param && ')' !in param
    requires ',' !in value && ')' !in value
    ensures StripDefaults(head + "(" + (param + "=" + value) + ")" + tail) ==
            Success(head + "(" + RStrip(param) + ")" + tail)
  {
    var args := param + "=" + value;
    assert args[|param|] == '=';
    StripParts(head, args, tail);
    RewriteOneParameter(param, value);
  }
}
