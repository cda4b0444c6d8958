# uDino preprocessor: prototype synthesis in Dafny

`preprocessor.rb` turns an Arduino sketch into one C++ translation unit. It
orders the sketch files with the main file first and the rest by basename. It
concatenates them, putting a `#line 1 "<file>"` marker before each one. It runs
ctags on the result and parses the tab-separated rows ctags prints into tags.
It keeps function tags that have no existing prototype and builds a
declaration for each. It strips default argument values from those
declarations and sorts them by source line. Finally, it inserts the block
after the leading comments, directives and white space of the unified source,
followed by a `#line` directive that restores the numbering.

This project models lines 63-186 of the script as pure functions over
strings, in these modules:

- `Wrappers`: `Option` and `Result`.
- `RubyString`: the Ruby `String` operations the script relies on, with
  Ruby's edge cases:
  - `index`/`rindex` return nil on a miss;
  - `chomp`;
  - `strip` and `rstrip`, which also remove NUL at the end;
  - `split`, which drops trailing empty fields;
  - `lines`/`each_line`;
  - `join`;
  - `<=>`.
- `RubyInteger`: `to_i` and `to_s`.
- `Unifier` (lines 63-76): the comparator of `sort!` and the buffer-building
  loop.
- `Tags` (lines 97-124): one tag per row of ctags output.
  - The name is the first column.
  - A recognised `field:value` column sets that field, and a later column
    overwrites an earlier one.
  - A search-pattern column sets `code`.
- `Synthesis` (lines 127-160):
  - the kind filter;
  - removal of tags named like an existing prototype;
  - prototype construction;
  - default-argument stripping, including the two ways the script fails.
- `Defaults`: what stripping does to prototypes of the form `head(args)tail`.
- `Ordering` (lines 162-167): the sort by line and the emitted block.
- `Insertion` (lines 169-186):
  - the trivia pattern as four recognisers tried in the order of its
    alternatives;
  - the `gsub`-with-`break` loop as a scanner;
  - the `#line` count;
  - the line number;
  - the final splice.
- `Preprocessor`: the pipeline from sketch files and ctags output to the text
  written at line 187. The result is `Failure` when the script would stop
  with an exception.

The model follows Ruby 2.2 to 2.5. Three behaviours depend on this.
`lstrip`, and `strip` at the start, remove white space but not NUL. A range
whose end is nil raises instead of running to the end of the string. `\s` in
a regular expression matches "\v", like the white space `strip` removes.

Ruby code that fails on nil is modelled as a `Failure` result. This covers a
tag without a prototype at line 155, and a prototype with `=` but without
`(` or `)` at line 156.

## Model

| member | source | states |
|---|---|---|
| `Unifier.SortByName` | preprocessor.rb:67 | the result is a permutation of the files, in non-decreasing basename order by Ruby's `<=>` |
| `Unifier.OrderFiles` | preprocessor.rb:63-68 | the sorted files are a permutation of the input, and every pair is in the comparator's order: main files before the others, the others by basename |
| `Unifier.MainFileFirst` | preprocessor.rb:65-66 | if any file's basename without extension is the project name, the first file after sorting is such a file |
| `Unifier.Stem` | preprocessor.rb:65 | `File.basename(x, ".*")` is a prefix of the name that keeps the run of dots the name starts with; it is either the whole name or stops at a dot after which no dot follows; it is shorter than the name exactly when a dot follows that leading run |
| `Unifier.StemCutsExtension` | preprocessor.rb:65 | the basename of `blink.ino` without extension is `blink` |
| `Unifier.StemKeepsLeadingDots` | preprocessor.rb:65 | a name whose only dots are the ones it starts with, such as `..ino`, is kept whole |
| `Unifier.UnifyFromIsSegments` | preprocessor.rb:71-76 | the loop only appends: from any initial buffer it yields that buffer followed by one segment per file |
| `Unifier.AppendFileIsSegment` | preprocessor.rb:73-75 | one loop pass appends the file's segment, and that segment does not depend on what was already in the buffer |
| `Unifier.UnifySplits` | preprocessor.rb:71-76 | the unified source is the segments of the files before file `i`, then file `i`'s segment, then the rest |
| `Unifier.AppendFile` | preprocessor.rb:73-75 | one pass appends the header and the file's content to the buffer, then a "\n" only when needed: the result ends in "\n", adds at most one character, and adds nothing after content that is empty (the header ends in "\n") or already ends in one |
| `Unifier.Unify` | preprocessor.rb:71-76 | the loop over the files yields exactly the concatenation of their segments |
| `Unifier.Segment` | preprocessor.rb:73-75 | a segment starts with the `#line 1` header and the file's content, ends in "\n", and adds at most one character; it is exactly header and content when the content is empty or ends in "\n" |
| `Unifier.UnifyEndsInNewline` | preprocessor.rb:75 | the unified source of a non-empty project ends in "\n" |
| `Tags.Recognise` | preprocessor.rb:12 | a column name is recognised exactly when it spells one of the five field names |
| `Tags.FieldColumnMeaning` | preprocessor.rb:106-111 | a column sets field `f` exactly when it starts with `f`'s name and a colon, and the value is the chomped, stripped text after that colon |
| `Tags.CodeColumn` | preprocessor.rb:114-120 | a column gives a code exactly when it holds both `/^` and `/;` and a `{` or a `)`. With a `{`, the code is the chomped, stripped text from after the first `^` up to the first `{`. Without one, it is that text through the last `)`. The text is "" when its end lies before its start. The code never has `{`, and without a `{` in the column it is empty or ends in `)` |
| `Tags.ScanColumnsField` | preprocessor.rb:105-122 | after the column loop a field holds the value of the last column that sets it, or its old value when none does |
| `Tags.ScanColumnsCode` | preprocessor.rb:114-120 | after the column loop `code` comes from the last column with a usable search pattern, or keeps its old value |
| `Tags.ParseRow` | preprocessor.rb:101-103 | the name is nil exactly when the row is all tabs; otherwise it is the text before the first tab; a parsed row has no prototype yet |
| `Tags.ParseRowField` | preprocessor.rb:101-112 | a field is set exactly when some tab-separated column starts with its name and a colon; its value comes from the last such column |
| `Tags.ParseRowCode` | preprocessor.rb:101-120 | `code` is set exactly when some column carries a usable search pattern, from the last such column, and never contains `{` |
| `Tags.NonEmptyRowsAll` | preprocessor.rb:97-99 | the rows that `lines` gives are never empty, so the filter that drops empty rows keeps them all |
| `Tags.ParseTags` | preprocessor.rb:97-124 | there is one tag per line of the ctags output, in order, each parsed from its line |
| `Synthesis.KeepKnown` | preprocessor.rb:127 | the kept tags are exactly the input tags of kind `prototype` or `function` |
| `Synthesis.KeepKnownAppend` | preprocessor.rb:127 | the filter works piecewise, `KeepKnown(a + b) == KeepKnown(a) + KeepKnown(b)`, so it keeps the order and the repetitions of the kept tags |
| `Synthesis.KeepKnownOne` | preprocessor.rb:127 | a single tag stays exactly when its kind is `prototype` or `function` |
| `Synthesis.RemoveExisting` | preprocessor.rb:130-141 | the kept tags are exactly those whose name no existing prototype carries |
| `Synthesis.RemoveExistingAppend` | preprocessor.rb:132-141 | the removal works piecewise over a concatenation, so it keeps the order and the repetitions of the remaining tags |
| `Synthesis.RemoveExistingOne` | preprocessor.rb:132-141 | a single tag stays exactly when no existing prototype has its name (nil matching nil) |
| `Synthesis.Dedup` | preprocessor.rb:127-141 | only function tags remain, none named like a prototype tag, and every such surviving tag is kept |
| `Synthesis.DedupIsSurvivors` | preprocessor.rb:127-141 | the two passes together equal one filter: function tags whose name no prototype tag has, in input order |
| `Synthesis.BuildPrototype` | preprocessor.rb:144-151 | a prototype exists exactly when the tag is a template with code, or has return type, name and signature; a template gets its code verbatim; otherwise the prototype is `returntype + " " + name + signature + ";"` |
| `Synthesis.AddPrototypes` | preprocessor.rb:144-151 | every tag keeps its place and its other fields, and gets the prototype BuildPrototype gives it |
| `Synthesis.CutDefault` | preprocessor.rb:157 | the cut parameter is the prefix of the parameter before its first `=`, or the whole parameter when it has none |
| `Synthesis.RewriteParameters` | preprocessor.rb:157 | the rewritten parameter list holds no `=` |
| `Synthesis.CleanParameter` | preprocessor.rb:157 | a piece is written back as its text before the first `=`, right-stripped, so it holds no `=` and is a prefix of the piece; a piece without `=` loses only its trailing white space |
| `Synthesis.RewriteKeepsPieces` | preprocessor.rb:157 | read back on commas, the rewritten list is the `split` pieces, each cut at `=` and right-stripped, with count and order kept |
| `Synthesis.StripDefaults` | preprocessor.rb:155-159 | without `=` the prototype is unchanged; the script fails exactly when `=` is present and `(` or `)` is missing |
| `Synthesis.StripDefaultsSplice` | preprocessor.rb:156-158 | the text up to the first `(` and from the first `)` on is kept, and the rewritten list in between contains no `=` |
| `Synthesis.StripDefaultsReversed` | preprocessor.rb:156-158 | when the first `)` precedes the first `(`, the empty slice is replaced by the empty list and the prototype is unchanged |
| `Synthesis.StripAll` | preprocessor.rb:153-160 | stripping succeeds exactly when every tag has a prototype that can be stripped, keeps the tags in order with their prototypes stripped, and otherwise fails with the failure of some tag |
| `Defaults.StripParts` | preprocessor.rb:155-158 | for `head(args)tail`, where `head` has no parenthesis and `args` has `=` but no `)`, the result is `head(` + the rewritten list + `)tail` |
| `Defaults.OneDefaultDropped` | preprocessor.rb:155-158 | `head(param=value)tail` becomes `head(param)tail` with `param` right-stripped |
| `Defaults.RewriteOneParameter` | preprocessor.rb:157 | a one-parameter list with a default becomes the parameter name, right-stripped |
| `Ordering.LineKey` | preprocessor.rb:163 | a tag without a line counts as 0, and a line number as ctags prints it counts as that number |
| `Ordering.SortByLine` | preprocessor.rb:163 | the result is a permutation of the tags, in non-decreasing `line.to_i` order |
| `Ordering.Emit` | preprocessor.rb:166-167 | the block is empty exactly when there are no tags, ends in "\n", and starts with the first prototype and "\n" |
| `Ordering.EmitLines` | preprocessor.rb:166-167 | read back with `lines`, the block gives one line per tag, each being that tag's prototype and "\n" |
| `Insertion.DirectiveAtMeaning` | preprocessor.rb:170 | the directive alternative matches exactly when blanks and then a `#` start at the position, and runs to the end of that line |
| `Insertion.LineCommentAtMeaning` | preprocessor.rb:171 | the line-comment alternative matches exactly when `//` starts at the position, and runs to the end of that line |
| `Insertion.BlockCommentAtMeaning` | preprocessor.rb:172 | the block-comment alternative matches exactly when a comment opens at the position and is closed later, and it ends just after the first closer |
| `Insertion.SpaceAtMeaning` | preprocessor.rb:173 | the white-space alternative matches exactly at white space, and takes the whole run |
| `Insertion.TriviaAt` | preprocessor.rb:170-174 | a match is non-empty, ends inside the text, and starts with `#`, `/` or white space |
| `Insertion.TriviaAtPriority` | preprocessor.rb:170-174 | the pattern matches exactly when one of its alternatives does, and the first alternative that matches gives the token: a directive wins even after blanks; otherwise a `//` or `/*` comment gives its own end; otherwise a run of white space is taken whole |
| `Insertion.ScanFrom` | preprocessor.rb:176-180 | the scan stops at the end of a chain of trivia tokens, each starting where the previous one ended, at a place where no trivia token starts |
| `Insertion.InsertionPointCharacterised` | preprocessor.rb:169-180 | a position is the insertion point exactly when a trivia chain leads from 0 to it and no trivia starts there |
| `Insertion.NoLeadingTrivia` | preprocessor.rb:170-178 | a text starting with neither white space, `#` nor `/` gets its prototypes at position 0 |
| `Insertion.GsubScan` | preprocessor.rb:176-180 | the loop that walks the matches of `gsub` and breaks at the first gap computes the insertion point |
| `Insertion.MarkerCount` | preprocessor.rb:182 | each counted `#line\s` marker takes six characters of the text |
| `Insertion.MarkerCountCountsAll` | preprocessor.rb:182 | counting `#line\s` the way `scan` does, non-overlapping from the left, counts every position where the marker starts |
| `Insertion.LineNumber` | preprocessor.rb:182-183 | the line number is the count of "\n" in the prefix, plus one for an unterminated last line, minus the `#line` markers, plus one |
| `Insertion.LineDirective` | preprocessor.rb:186 | the directive is one line: `#line `, then exactly the line number as `to_s` spells it, then "\n" |
| `Insertion.LineDirectiveReadsBack` | preprocessor.rb:186 | the numeral in the directive reads back, by `to_i`, as the line number it was made from |
| `Insertion.InsertAt` | preprocessor.rb:186 | inserting the block and the directive at a position keeps the text before and after it unchanged and adds exactly the two pieces in between |
| `Insertion.Compose` | preprocessor.rb:186 | the result is the source up to the insertion point, then the block, then the directive, then the rest of the source |
| `Preprocessor.PrototypeBlock` | preprocessor.rb:127-167 | the block is produced exactly when every surviving tag yields a strippable prototype; on failure some surviving tag fails in that way. On success the block emits a permutation of the stripped tags, sorted by line, one prototype per line |
| `Preprocessor.Preprocess` | preprocessor.rb:63-186 | the output exists exactly when every surviving tag yields a strippable prototype. It is the unified source with the prototype block and the line directive inserted, so it keeps the unified source before the insertion point and after it |
| `RubyString.IndexOf` | preprocessor.rb:107 | the index is nil exactly when the character is absent; otherwise it is its first position |
| `RubyString.FirstAtUnique` | preprocessor.rb:116-118 | the first position of a character is unique, so the code cut from it is determined |
| `RubyString.FirstAtIsIndexOf` | preprocessor.rb:116-118 | `index` returns the first position of the character |
| `RubyString.LastAtIsLastIndexOf` | preprocessor.rb:118 | `rindex` returns the last position of the character |
| `RubyString.Slice` | preprocessor.rb:116-118 | a slice `s[a...b]` holds the characters from `a` to `b`, and is "" when `b` lies before `a` |
| `RubyString.Chomp` | preprocessor.rb:110 | `chomp` is a prefix of the text, removes "\r\n", "\n" or "\r" at the end and nothing else, and leaves other text alone |
| `RubyString.Strip` | preprocessor.rb:110 | `strip` is the text with leading white space and trailing white space and NUL removed: it occurs in the text with only those around it, does not start with white space, and ends in neither |
| `RubyString.StripAfterChomp` | preprocessor.rb:110 | `chomp.strip` equals `strip` |
| `RubyString.FieldsOfJoin` | preprocessor.rb:157 | splitting a join on its separator gives the parts back when no part holds the separator |
| `RubyString.Split` | preprocessor.rb:101 | `split` gives the separator-free fields of the text in order, with the trailing empty ones dropped |
| `RubyString.SplitEmptyIff` | preprocessor.rb:101 | `split` yields no field exactly when the text consists of separators only |
| `RubyString.Lines` | preprocessor.rb:97 | the lines concatenate to the text; each is non-empty, has "\n" only at its end, and all but the last end in "\n" |
| `RubyString.LinesCount` | preprocessor.rb:183 | `lines.count` is the number of "\n", plus one when the text ends in something else |
| `RubyString.Cmp` | preprocessor.rb:67 | `<=>` on strings is -1, 0 or 1, and 0 exactly for equal strings |
| `RubyString.CmpProperPrefix` | preprocessor.rb:67 | a proper prefix comes first |
| `RubyString.CmpFirstDifference` | preprocessor.rb:67 | otherwise the first differing character decides |
| `RubyString.CmpTransitive` | preprocessor.rb:67 | Ruby's string `<=>` is transitive, so the basename order is a total preorder |
| `RubyInteger.ToI` | preprocessor.rb:163 | `to_i` is 0 when the text after leading white space starts with neither a digit nor a sign, negative only after a `-`, and the value of the digits for a string of digits |
| `RubyInteger.IntToString` | preprocessor.rb:186 | `to_s` of an integer is its shortest decimal numeral, with a `-` before the magnitude exactly when it is negative |
| `RubyInteger.ToIOfIntToString` | preprocessor.rb:186 | `n.to_s.to_i == n` for every integer |

## Left out

- Command-line handling (lines 19-46): the argument count, the folder checks,
  and the test that the folder is an Arduino project. These are input
  validation outside the synthesis core.
- File-system work (lines 55-58, 74, 80, 83-85 and 187): emptying the output
  folder, globbing the sketch files, reading and writing files, copying
  other sources. The files are a parameter: a sequence of (basename, content)
  pairs. The ctags output is a second parameter.
- The ctags subprocess and its shell escaping (lines 91-92): the model takes
  the text ctags printed. `force_encoding` changes no characters and is not
  modelled.
- The general regular-expression engine: only the patterns the script uses
  are modelled. These are the trivia pattern of lines 170-173, `#line\s` at
  line 182, and the column tests of lines 106-118.
- `Ordering.SortByLine`: Ruby's `sort!` is not stable. The model fixes one
  order for equal line numbers, the input order, so the result is one of the
  orders the script may produce. The same holds for `Unifier.OrderFiles` when
  two files are both main files, or have equal basenames.
- `RubyInteger.ToI`: the `0d` radix prefix that `to_i` accepts is not
  modelled. ctags never prints it in the `line:` field.
- Ruby 2.6 and later: there `lstrip` also removes a leading NUL, and a
  missing `)` at line 156 slices to the end of the prototype instead of
  raising. The model does neither.
- Ruby before 2.2: there `\s` does not match "\v", so the white-space
  alternative at line 173 stops before it. The model matches it.
- The in-place `<<` at line 148 also changes `tag["returntype"]`. Nothing
  reads it afterwards, so the model builds a fresh string.
- The script behaves as follows where a reader might expect otherwise:
  - a row with no name gives a tag with a nil name instead of being skipped;
  - a tag that yields no prototype stops the run instead of being dropped;
  - the rewritten parameters are joined with "," and not ", ";
  - the parameter list ends at the first `)`, not the matching one;
  - prototype-kind tags are removed along with the function tags they shadow.
