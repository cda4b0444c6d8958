/** The ctags row parser of preprocessor.rb (lines 97-124): every row of the
    extractor's output becomes one tag record. */
module Tags {
  import opened Wrappers
  import opened RubyString

  /** One tag: the hash the script builds, with a field per key it can hold.
      `name` is the "functionName" key; `prototype` is added by the synthesis
      stage. Every field is nil until some column sets it. */
  datatype Tag = Tag(
    name: Option<string>,
    kind: Option<string>,
    line: Option<string>,
    typeref: Option<string>,
    signature: Option<string>,
    returntype: Option<string>,
    code: Option<string>,
    prototype: Option<string>)

  /** The recognised `field:value` names (line 12). */
  datatype FieldName = Kind | Line | Typeref | Signature | Returntype

  /** How the extractor spells a field name. */
  function Spelling(f: FieldName): string {
    match f
    case Kind => "kind"
    case Line => "line"
    case Typeref => "typeref"
    case Signature => "signature"
    case Returntype => "returntype"
  }

  /** `fields.include?(s)`: the field spelled `s`, if it is recognised. */
  function Recognise(s: string): (r: Option<FieldName>)
    ensures r.Some? ==> Spelling(r.value) == s
    ensures r.None? ==> forall f: FieldName :: Spelling(f) != s
  {
    if s == "kind" then Some(Kind)
    else if s == "line" then Some(Line)
    else if s == "typeref" then Some(Typeref)
    else if s == "signature" then Some(Signature)
    else if s == "returntype" then Some(Returntype)
    else None
  }

  /** The tag with nothing but its name. */
  function EmptyTag(name: Option<string>): Tag {
    Tag(name, None, None, None, None, None, None, None)
  }

  /** The value of a recognised field. */
  function Field(t: Tag, f: FieldName): Option<string> {
    match f
    case Kind => t.kind
    case Line => t.line
    case Typeref => t.typeref
    case Signature => t.signature
    case Returntype => t.returntype
  }

  /** `tag[field] = value` for a recognised field. */
  function SetField(t: Tag, f: FieldName, value: string): (r: Tag)
    ensures Field(r, f) == Some(value)
    ensures forall g: FieldName | g != f :: Field(r, g) == Field(t, g)
    ensures r.name == t.name && r.code == t.code && r.prototype == t.prototype
  {
    match f
    case Kind => t.(kind := Some(value))
    case Line => t.(line := Some(value))
    case Typeref => t.(typeref := Some(value))
    case Signature => t.(signature := Some(value))
    case Returntype => t.(returntype := Some(value))
  }

  /** A `field:value` column (lines 106-112): the text before the first colon
      names a recognised field, and the value is the rest, chomped and stripped. */
  function FieldColumn(column: string): (r: Option<(FieldName, string)>)
  {
    match IndexOf(column, ':')
    case None => None
    case Some(i) =>
      match Recognise(column[..i])
      case Some(f) => Some((f, Strip(Chomp(column[i + 1..]))))
      case None => None
  }

  /** Every recognised field name is recognised as itself. */
  lemma RecogniseSpelling(f: FieldName)
    ensures Recognise(Spelling(f)) == Some(f)
    ensures ':' !in Spelling(f)
  {
  }

  /** For a name without a colon, a column starts with the name and a colon
      exactly when the name is the text before the column's first colon. */
  lemma ColonPrefix(column: string, n: string)
    requires ':' !in n
    ensures StartsWith(column, n + ":") <==> (IndexOf(column, ':').Some? && column[..IndexOf(column, ':').value] == n)
  {
    if StartsWith(column, n + ":") {
      assert column[|n|] == (n + ":")[|n|];
      assert column[..|n|] == (n + ":")[..|n|];
      assert IndexOf(column, ':') == Some(|n|);
    }
    if IndexOf(column, ':').Some? && column[..IndexOf(column, ':').value] == n {
      var i := IndexOf(column, ':').value;
      assert column[..i + 1] == column[..i] + [column[i]];
    }
  }

  /** A column sets a field exactly when it starts with the field's spelling
      and a colon, and it then sets the stripped text after that colon. */
  lemma FieldColumnMeaning(column: string, f: FieldName)
    ensures (FieldColumn(column).Some? && FieldColumn(column).value.0 == f) <==>
            StartsWith(column, Spelling(f) + ":")
    ensures StartsWith(column, Spelling(f) + ":") ==>
            FieldColumn(column).value.1 == Strip(Chomp(column[|Spelling(f)| + 1..]))
  {
    RecogniseSpelling(f);
    ColonPrefix(column, Spelling(f));
  }

  lemma NoBraceAfterStrip(s: string)
    ensures '{' !in s ==> '{' !in Strip(Chomp(s))
  {
    if '{' in Strip(Chomp(s)) {
      StripChompChars(s, '{');
    }
  }

  lemma ClosedAfterStrip(s: string)
    ensures s != [] && s[|s| - 1] == ')' ==> var c := Strip(Chomp(s)); c != [] && c[|c| - 1] == ')'
  {
    if s != [] && s[|s| - 1] == ')' {
      StripChompKeepsLast(s);
    }
  }

  lemma ParenSlice(column: string, start: nat, close: nat)
    requires start <= |column| && close < |column| && column[close] == ')' && '{' !in column
    ensures var slice := Slice(column, start, close + 1);
            '{' !in slice && (slice == [] || slice[|slice| - 1] == ')')
  {
  }

  lemma ParenSliceCode(slice: string)
    requires '{' !in slice && (slice == [] || slice[|slice| - 1] == ')')
    ensures var c := Strip(Chomp(slice)); '{' !in c && (c == [] || c[|c| - 1] == ')')
  {
    NoBraceAfterStrip(slice);
    ClosedAfterStrip(slice);
    if slice == [] {
      assert Chomp(slice) == [];
    }
  }

  /** The `^` that starts a search pattern. */
  lemma CaretOfPattern(column: string)
    requires Includes(column, "/^")
    ensures '^' in column
  {
    var p :| 0 <= p <= |column| && OccursAt(column, "/^", p);
    assert column[p + 1] == "/^"[1];
  }

  /** `column[start...column.index("{")].chomp.strip` (line 116). */
  function CodeBeforeBrace(column: string, start: nat): (c: string)
    requires start <= |column| && '{' in column
    ensures '{' !in c
  {
    var brace := IndexOf(column, '{').value;
    var slice := Slice(column, start, brace);
    assert '{' !in slice;
    NoBraceAfterStrip(slice);
    Strip(Chomp(slice))
  }

  /** `column[start..column.rindex(")")].chomp.strip` (line 118), for a
      column without `{`. */
  function CodeThroughParen(column: string, start: nat): (c: string)
    requires start <= |column| && ')' in column && '{' !in column
    ensures '{' !in c
    ensures c == [] || c[|c| - 1] == ')'
  {
    var close := LastIndexOf(column, ')').value;
    var slice := Slice(column, start, close + 1);
    ParenSlice(column, start, close);
    ParenSliceCode(slice);
    Strip(Chomp(slice))
  }

  /** A column holding ctags' search pattern `/^...$/;` (lines 114-120): the
      declarator after the first `^`, up to the first `{` (exclusive) or,
      without one, through the last `)`. Ruby slices to "" when the end lies
      before the start. The first and last positions of a character are
      unique (FirstAtUnique, LastAtUnique), so the positions below are the
      ones `index` and `rindex` find. */
  function CodeColumn(column: string): (r: Option<string>)
    ensures r.Some? <==> Includes(column, "/^") && Includes(column, "/;") && ('{' in column || ')' in column)
    ensures r.Some? ==> '{' !in r.value
    ensures r.Some? && '{' !in column ==> r.value == [] || r.value[|r.value| - 1] == ')'
    ensures r.Some? && '{' in column ==>
              exists k, b | FirstAt(column, '^', k) && FirstAt(column, '{', b) ::
                r.value == Strip(Chomp(Slice(column, k + 1, b)))
    ensures r.Some? && '{' !in column ==>
              exists k, c | FirstAt(column, '^', k) && LastAt(column, ')', c) ::
                r.value == Strip(Chomp(Slice(column, k + 1, c + 1)))
  {
    if Includes(column, "/^") && Includes(column, "/;") then
      CaretOfPattern(column);
      var caret := IndexOf(column, '^').value;
      assert FirstAt(column, '^', caret);
      if '{' in column then
        var brace := IndexOf(column, '{').value;
        assert FirstAt(column, '{', brace);
        Some(CodeBeforeBrace(column, caret + 1))
      else if ')' in column then
        var close := LastIndexOf(column, ')').value;
        assert LastAt(column, ')', close);
        Some(CodeThroughParen(column, caret + 1))
      else None
    else
      None
  }

  /** What one column does to the tag: the field it sets, if any, and the
      declarator it sets `code` to, if any. */
  datatype Effect = Effect(field: Option<(FieldName, string)>, code: Option<string>)

  function EffectOf(column: string): Effect {
    Effect(FieldColumn(column), CodeColumn(column))
  }

  function EffectsOf(columns: seq<string>): (r: seq<Effect>)
    ensures |r| == |columns|
    ensures forall i | 0 <= i < |columns| :: r[i] == EffectOf(columns[i])
  {
    seq(|columns|, i requires 0 <= i < |columns| => EffectOf(columns[i]))
  }

  /** One pass of the column loop (lines 105-122): a recognised field column
      sets its field, then a search-pattern column sets `code`. */
  function ScanColumn(t: Tag, e: Effect): (r: Tag)
    ensures r.name == t.name && r.prototype == t.prototype
  {
    var t' := match e.field
              case Some((f, v)) => SetField(t, f, v)
              case None => t;
    match e.code
    case Some(c) => t'.(code := Some(c))
    case None => t'
  }

  /** The column loop over all columns in order, later columns overwriting
      what earlier ones set. */
  function ScanColumns(t: Tag, effects: seq<Effect>): (r: Tag)
    ensures r.name == t.name && r.prototype == t.prototype
  {
    if effects == [] then t
    else ScanColumn(ScanColumns(t, effects[..|effects| - 1]), effects[|effects| - 1])
  }

  /** One row of ctags output (lines 101-123): the tab-separated columns; the
      first column is the name (nil when the row holds tabs only, because
      `split` drops trailing empty fields); then every column, the first one
      included, is scanned. ParseRowField and ParseRowCode say what the scan
      sets. */
  function ParseRow(row: string): (r: Tag)
    ensures r.name.None? <==> forall k | 0 <= k < |row| :: row[k] == '\t'
    ensures r.name.Some? ==> r.name.value == BeforeTab(row)
    ensures r.prototype.None?
  {
    SplitEmptyIff(row, '\t');
    var columns := Split(row, '\t');
    ScanColumns(EmptyTag(if |columns| > 0 then Some(columns[0]) else None), EffectsOf(columns))
  }

  /** `next if row.empty?` (line 99): the rows the loop goes on to parse. */
  function NonEmptyRows(rows: seq<string>): (r: seq<string>)
    ensures forall i | 0 <= i < |r| :: r[i] != []
  {
    if rows == [] then []
    else (if rows[0] == [] then [] else [rows[0]]) + NonEmptyRows(rows[1..])
  }

  /** When no row is empty, the skip never fires. */
  lemma {:induction false} NonEmptyRowsAll(rows: seq<string>)
    requires forall i | 0 <= i < |rows| :: rows[i] != []
    ensures NonEmptyRows(rows) == rows
  {
    if rows != [] {
      NonEmptyRowsAll(rows[1..]);
      assert rows == [rows[0]] + rows[1..];
    }
  }

  /** The rows loop (lines 97-124): one tag per non-empty row, in order. */
  function ParseRows(rows: seq<string>): seq<Tag>
  {
    var kept := NonEmptyRows(rows);
    seq(|kept|, i requires 0 <= i < |kept| => ParseRow(kept[i]))
  }

  /** Parses the whole output of the extractor: every line gives exactly one
      tag, in order. */
  function ParseTags(output: string): (r: seq<Tag>)
    ensures |r| == |Lines(output)|
    ensures forall i | 0 <= i < |Lines(output)| :: r[i] == ParseRow(Lines(output)[i])
  {
    NonEmptyRowsAll(Lines(output));
    ParseRows(Lines(output))
  }

  predicate SetsField(e: Effect, f: FieldName) {
    e.field.Some? && e.field.value.0 == f
  }

  /** The index of the last column that sets field `f`, if any. */
  function LastSetting(effects: seq<Effect>, f: FieldName): (r: Option<nat>)
    ensures r.None? <==> forall i | 0 <= i < |effects| :: !SetsField(effects[i], f)
    ensures r.Some? ==> r.value < |effects| && SetsField(effects[r.value], f)
    ensures r.Some? ==> forall j | r.value < j < |effects| :: !SetsField(effects[j], f)
  {
    if effects == [] then None
    else if SetsField(effects[|effects| - 1], f) then Some(|effects| - 1)
    else LastSetting(effects[..|effects| - 1], f)
  }

  /** The index of the last column that carries a usable search pattern, if any. */
  function LastPattern(effects: seq<Effect>): (r: Option<nat>)
    ensures r.None? <==> forall i | 0 <= i < |effects| :: effects[i].code.None?
    ensures r.Some? ==> r.value < |effects| && effects[r.value].code.Some?
    ensures r.Some? ==> forall j | r.value < j < |effects| :: effects[j].code.None?
  {
    if effects == [] then None
    else if effects[|effects| - 1].code.Some? then Some(|effects| - 1)
    else LastPattern(effects[..|effects| - 1])
  }

  /** A field of the scanned tag is the value of the last column setting it,
      or what it was before the scan when no column sets it. */
  lemma {:induction false} ScanColumnsField(t: Tag, effects: seq<Effect>, f: FieldName)
    ensures Field(ScanColumns(t, effects), f) ==
            match LastSetting(effects, f)
            case None => Field(t, f)
            case Some(i) => Some(effects[i].field.value.1)
  {
    if effects != [] {
      var init := effects[..|effects| - 1];
      ScanColumnsField(t, init, f);
      assert forall i | 0 <= i < |init| :: init[i] == effects[i];
    }
  }

  /** `code` of the scanned tag comes from the last search-pattern column, or
      is what it was before the scan when there is none. */
  lemma {:induction false} ScanColumnsCode(t: Tag, effects: seq<Effect>)
    ensures ScanColumns(t, effects).code ==
            match LastPattern(effects)
            case None => t.code
            case Some(i) => effects[i].code
  {
    if effects != [] {
      var init := effects[..|effects| - 1];
      ScanColumnsCode(t, init);
      assert forall i | 0 <= i < |init| :: init[i] == effects[i];
    }
  }

  /** The text of a row before its first tab. */
  function BeforeTab(row: string): string {
    match IndexOf(row, '\t')
    case Some(i) => row[..i]
    case None => row
  }

  /** A recognised field holds the stripped text after the colon of the last
      column that starts with the field's name and a colon, and stays nil
      when no column does. */
  lemma ParseRowField(row: string, f: FieldName)
    ensures var columns := Split(row, '\t');
            var n := Spelling(f) + ":";
            (Field(ParseRow(row), f).None? <==> forall i | 0 <= i < |columns| :: !StartsWith(columns[i], n)) &&
            (Field(ParseRow(row), f).Some? ==>
              exists i | 0 <= i < |columns| ::
                && StartsWith(columns[i], n)
                && Field(ParseRow(row), f).value == Strip(Chomp(columns[i][|n|..]))
                && forall j | i < j < |columns| :: !StartsWith(columns[j], n))
  {
    var columns := Split(row, '\t');
    var effects := EffectsOf(columns);
    var n := Spelling(f) + ":";
    ScanColumnsField(EmptyTag(if |columns| > 0 then Some(columns[0]) else None), effects, f);
    forall i | 0 <= i < |columns|
      ensures SetsField(effects[i], f) <==> StartsWith(columns[i], n)
    {
      FieldColumnMeaning(columns[i], f);
    }
    match LastSetting(effects, f)
    case None =>
    case Some(i) =>
      FieldColumnMeaning(columns[i], f);
      assert StartsWith(columns[i], n);
  }

  /** `code` comes from the last column carrying a search pattern with a `{`
      or a `)`; it never holds a `{`, and when that column has no `{` it is
      empty or ends with `)`. */
  lemma ParseRowCode(row: string)
    ensures var columns := Split(row, '\t');
            (ParseRow(row).code.None? <==> forall i | 0 <= i < |columns| :: CodeColumn(columns[i]).None?) &&
            (ParseRow(row).code.Some? ==>
              exists i | 0 <= i < |columns| ::
                && ParseRow(row).code == CodeColumn(columns[i])
                && forall j | i < j < |columns| :: CodeColumn(columns[j]).None?)
    ensures ParseRow(row).code.Some? ==> '{' !in ParseRow(row).code.value
  {
    var columns := Split(row, '\t');
    var effects := EffectsOf(columns);
    ScanColumnsCode(EmptyTag(if |columns| > 0 then Some(columns[0]) else None), effects);
  }
}
