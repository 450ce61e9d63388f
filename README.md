# Rhino API signature extractors, modelled in Dafny

The repository turns the Rhino API documentation into one typed Python-style signature line
per method. It has two pipelines, and this project models the string transformations at the
core of both. It models them as functions over `seq<char>`, plus methods that keep the
source's loops, each method proved equal to its function.

**Metadata-anchored pipeline** (`extract_api_signatures.py`, RhinoCommon method pages):

- `split_types_list`: a comma splitter that is aware of bracket depth (module `Splitter`).
- `parse_help_id`: reads `M:<container>.<member>(<types>)` identities (module `HelpId`).
- `parse_csharp_signature`: reads the return type, method name, parameter names and static
  flag off the C# declaration (module `CSharpSignature`).
- `map_dotnet_to_python`: rewrites .NET type labels recursively (module `DotnetTypes`).
- `build_signature_line` and `process_file`: write the line `container.name(p: T, ...) -> R`
  (module `SignatureLine`).

**Block-anchored pipeline** (`extract_rhinoscriptsyntax_signatures.py`, RhinoScriptSyntax
pages):

- `norm` and the `map_type` closure of `build_type_mapper`, with both tables (module
  `ScriptTypes`).
- `parse_params_block` (module `ParamsBlock`).
- `parse_returns_block` (module `ReturnsBlock`).
- `parse_signature`, with its own splitter that tracks parentheses only (module
  `ScriptSignature`).
- `build_typed_signature` (module `TypedSignature`).

Module `Text` models the Python string operations these rely on: `strip`, `split`, `find`,
`rsplit`, `replace`, `splitlines`, `lower` and `str(n)`. It also hand-codes the few regular
expressions as character predicates. Module `Wrappers` holds `Option`.

Both splitters share one definition, `Splitter.Pieces`. It reads a string with three clamped
depth counters, and a parameter chooses whether only parentheses count (`parse_signature`)
or all three bracket kinds (`split_types_list`).

The recursive mappers (`MapDotnet`/`Rules` and `MapType`/`Classify`/`Phrase`/`Lookup`) are
mutually recursive functions. Their `decreases` clauses check that every recursive call is
on a strictly shorter string.

Where the code and its description disagree, the model follows the code:

- `self` is added for a non-static method only when the C# declaration gives a name
  (`extract_api_signatures.py:301`).
- Neither mapper is idempotent. `DotnetTypes.NotIdempotent` gives a counterexample. Only
  the alias-table fixed point is proved (`DotnetTypes.AliasFixedPoint`).
- In the tuple pattern `(\d+)\s+([a-zA-Z0-9_.]+)s?$`, the greedy base group keeps a plural
  `s`: `tuple of 3 numbers` has base `numbers`. `ScriptTypes.TupleCountOf` and
  `ScriptTypes.TupleCount` state this as written.
- `parse_help_id` raises on a target that has neither `.#ctor` nor `.`. This is outside the
  `try` of `process_file`, so the model returns `Malformed` and `ProcessPage` returns
  `Raises`.

## Model

| member | source | states |
|---|---|---|
| Splitter.SplitTypesList | extract_api_signatures.py:67-106 | the per-character loop, with three counters, a buffer and the final flush, returns exactly `SplitTypes(s)`: the stripped, non-empty raw pieces of `s` |
| Splitter.StepOfCounters | extract_api_signatures.py:79-101 | `<`, `{` and `(` raise their counter; `>`, `}` and `)` lower it, clamped at zero; other characters change nothing; a comma cuts exactly when all three counters are zero |
| Splitter.SplitTypesShape | extract_api_signatures.py:98-105 | every returned segment is non-empty, whitespace-trimmed and no longer than the input |
| Splitter.NonEmpty | extract_api_signatures.py:105 | the filter keeps only non-empty elements of its input, and keeps a list with no empty string whole |
| Splitter.NonEmptyAppend | extract_api_signatures.py:105 | filtering distributes over concatenation |
| Splitter.JoinPieces | extract_api_signatures.py:78-103 | rejoining the raw pieces with `,` gives back the input: only the cutting commas are dropped |
| Splitter.PieceCount | extract_api_signatures.py:97-103 | there is exactly one more raw piece than there are cuts |
| Splitter.SinglePiece | extract_api_signatures.py:97-103 | a string read without a cut is a single piece |
| Splitter.PiecesAppend | extract_api_signatures.py:78-103 | splitting `a + b`: the last piece of `a` runs on into the first piece of `b`, and `b` is read in the counter state that `a` leaves |
| Splitter.SplitJoined | extract_api_signatures.py:78-103 | sealed pieces joined by commas split back into exactly those pieces; a sealed piece closes every scope it opens and holds no cutting comma |
| Splitter.SplitTypesOfJoin | extract_api_signatures.py:67-106 | `split_types_list` of sealed, trimmed, non-empty types joined by commas returns those types |
| Splitter.SplitTypesNoComma | extract_api_signatures.py:97-105 | comma-free input gives `[s.strip()]`, or `[]` when `s` is blank |
| Splitter.OpenCurlyNeverCuts | extract_api_signatures.py:85-97 | inside an unclosed `{`, with no `}` after it, no comma cuts |
| Splitter.UnterminatedScopeIsLast | extract_api_signatures.py:102-103 | text after an unterminated `{` scope stays in the last segment, which the final flush emits |
| Splitter.JoinInsideCurly | extract_api_signatures.py:85-97 | inside an open `{`, balanced texts joined by commas leave the counters unchanged and never cut |
| Splitter.CurlyGroupIsBalanced | extract_api_signatures.py:85-90 | a brace group of balanced, comma-separated texts is balanced |
| Splitter.GenericPairSplit | extract_api_signatures.py:67-106 | `Base{K,V}, T` (names without brackets or commas) splits into `["Base{K,V}", "T"]`; the comma inside the braces does not cut |
| Splitter.ClampExample | extract_api_signatures.py:82-98 | an unmatched `>` is clamped, so `"a>,b"` still splits into `["a>", "b"]` |
| HelpId.ParseHelpId | extract_api_signatures.py:116-135 | the result is `(None, None, [])` exactly when the id does not start with `M:`; the parameter types are the split of the parameter text |
| HelpId.Target | extract_api_signatures.py:120-124 | the target is the prefix of the body before its first `(`, or the whole body when there is none |
| HelpId.ParamsText | extract_api_signatures.py:120-125 | the parameter text is empty without a `(`, and otherwise follows the target and its `(` in the body |
| HelpId.ParamTypesOf | extract_api_signatures.py:134 | the parameter types are the bracket-aware split (empty for empty text, as the guard gives), each non-empty and trimmed |
| HelpId.SplitTarget | extract_api_signatures.py:128-132 | `Malformed` (the unpacking error) exactly when the target has neither `.#ctor` nor `.`; with `.#ctor` the member is `#ctor` and the container is the text before the first mark; otherwise the target is `container.member` with a dot-free member |
| HelpId.BeforeFirstOccurrence | extract_api_signatures.py:129 | `s.split(pat)[0]` is followed by `pat` in `s` and holds no copy of `pat` |
| HelpId.ParseOfBody | extract_api_signatures.py:118-135 | `M:<left>(<joined>)` with a `(`-free `left` is read as the target `left` and the types of `joined` |
| HelpId.TargetCtor | extract_api_signatures.py:128-130 | `c.#ctor` (no `#` in `c`) has container `c` and member `#ctor` |
| HelpId.TargetMember | extract_api_signatures.py:131-132 | `c.m` with a dot-free `m` (no `#` in either) has container `c` and member `m` |
| HelpId.CtorMarkAfter | extract_api_signatures.py:128-129 | the constructor target `c.#ctor` holds the mark and is cut right before it |
| HelpId.TypesOfJoin | extract_api_signatures.py:134 | sealed, trimmed, non-empty types joined by commas are read back |
| HelpId.RoundTrip | extract_api_signatures.py:116-135 | an identity string composed from container, member and types parses back to exactly those parts |
| CSharpSignature.ParseCSharpSignature | extract_api_signatures.py:140-215 | the method, with its loop over the parameter segments, returns exactly `ParseCSharp(cs)` |
| CSharpSignature.ParseCSharp | extract_api_signatures.py:149-150 | an empty text gives `(None, None, [], False)` |
| CSharpSignature.Truncate | extract_api_signatures.py:158-159 | the declaration is a prefix of the text that ends at its first `)`, or the whole text when there is no `)` |
| CSharpSignature.DeclHead | extract_api_signatures.py:170-175 | the head is a prefix of the one-line declaration |
| CSharpSignature.HeadTokensMembers | extract_api_signatures.py:178 | a word is kept in the head exactly when it is a head word and not an access or modifier keyword |
| CSharpSignature.HeadTokensAppend | extract_api_signatures.py:178 | keyword filtering distributes over concatenation |
| CSharpSignature.KeywordsThen | extract_api_signatures.py:178 | keywords in front of at most two non-keywords are all dropped and the rest kept |
| CSharpSignature.ReturnTypeOf | extract_api_signatures.py:180-188 | there is a return type exactly when at least two head tokens remain |
| CSharpSignature.NameOf | extract_api_signatures.py:180-188 | there is a method name exactly when at least one head token remains |
| CSharpSignature.HeadFields | extract_api_signatures.py:180-188 | the branch on the token count yields `ReturnTypeOf` and `NameOf` of the tokens |
| CSharpSignature.MethodHead | extract_api_signatures.py:178-188 | keywords, then two more words: the next-to-last is the return type and the last is the name |
| CSharpSignature.ConstructorHead | extract_api_signatures.py:182-185 | keywords, then one more word: that word is the name and there is no return type |
| CSharpSignature.StaticFlag | extract_api_signatures.py:155-167 | `is_static` holds exactly when `static` is a whitespace-delimited word of the truncated declaration |
| CSharpSignature.OccursPadded | extract_api_signatures.py:167 | ` word ` occurs in the blank-padded, blank-joined words exactly when `word` is one of them |
| CSharpSignature.ParseLine | extract_api_signatures.py:191-214 | one parameter name per parameter segment |
| CSharpSignature.ParamName | extract_api_signatures.py:196-214 | each name is an identifier `[A-Za-z_]\w*` or the fallback `arg{k}` |
| CSharpSignature.ParamNames | extract_api_signatures.py:192-214 | one name per segment |
| CSharpSignature.NameEach | extract_api_signatures.py:194-214 | the loop gives the `k`-th segment (1-based) the name `name(segment, k)`, `k` being one more than the count of names so far |
| CSharpSignature.ParamNamesShape | extract_api_signatures.py:190-214 | exactly one name per parameter segment, the `k`-th being the cleaned name of segment `k` and either an identifier or `arg{k}` |
| CSharpSignature.DefaultStart | extract_api_signatures.py:197 | the match of `\s*=\s*[^,]+$` starts at an `=` with no comma after it and at least one character after it |
| CSharpSignature.DropDefault | extract_api_signatures.py:197 | removing the default clause leaves a prefix of the segment |
| CSharpSignature.DropDefaultNone | extract_api_signatures.py:197 | a segment without `=` keeps everything |
| CSharpSignature.DropDefaultOf | extract_api_signatures.py:197 | `x = d` loses ` = d` together with the blank before it |
| CSharpSignature.LeadingQualifier | extract_api_signatures.py:198 | a found qualifier is one of `this ref out params in`, starts the segment and is followed by a blank |
| CSharpSignature.NoLeadingQualifier | extract_api_signatures.py:198 | no qualifier is found only when none starts the segment followed by a blank |
| CSharpSignature.NameAfterQualifier | extract_api_signatures.py:198-202 | removing the qualifier leaves the last word of `<text> <name>` in place |
| CSharpSignature.ParamNameOfDecl | extract_api_signatures.py:196-212 | a parameter `<type> <name>` yields `name` |
| CSharpSignature.ParamNameOfDefaulted | extract_api_signatures.py:196-212 | a parameter `<type> <name> = <default>` yields `name` |
| CSharpSignature.CleanIdentifier | extract_api_signatures.py:204-208 | the `,`, `[]` and `@` clean-up leaves an identifier unchanged |
| DotnetTypes.NameRun | extract_api_signatures.py:252 | the longest `[\w\.]` prefix: all name characters, and the next character (if any) is not one |
| DotnetTypes.NullableInner | extract_api_signatures.py:244-246 | a Nullable match captures a non-empty, newline-free text shorter than the label |
| DotnetTypes.GenericMatch | extract_api_signatures.py:252-255 | a generic match splits the label as `base{inner}` with a non-empty dotted base |
| DotnetTypes.MapDotnetOfStrip | extract_api_signatures.py:219 | only the stripped label matters |
| DotnetTypes.ArrayOf | extract_api_signatures.py:240-242 | rule 1: `T[]` maps to `List[T']` |
| DotnetTypes.NullableOf | extract_api_signatures.py:244-247 | rule 2: `System.Nullable{T}` and `Nullable{T}` map to `Optional[T']` |
| DotnetTypes.OptionalOf | extract_api_signatures.py:248-250 | rule 2: `T?` but not `T??` maps to `Optional[T']` |
| DotnetTypes.RulesOptional | extract_api_signatures.py:248-250 | on stripped text, a single trailing `?` is rule 2's second form |
| DotnetTypes.GenericOf | extract_api_signatures.py:252-270 | rule 3: `Base{A,...}` maps to the base's table entry (else its last dotted segment) subscripted by the mapped arguments joined by `, ` |
| DotnetTypes.RulesGeneric | extract_api_signatures.py:252-270 | a generic match maps the split of its inner text argument by argument |
| DotnetTypes.NoNullableGeneric | extract_api_signatures.py:244-253 | a dotted base other than `Nullable`/`System.Nullable`, followed by `{`, is no Nullable match, so rule 3 rather than rule 2 applies |
| DotnetTypes.DottedLeaf | extract_api_signatures.py:240-277 | a bare dotted name skips rules 1-3 and goes to the alias table, the container name and the identity |
| DotnetTypes.AliasShape | extract_api_signatures.py:221-238 | every alias key is a dotted name and no alias value is empty |
| DotnetTypes.AliasOf | extract_api_signatures.py:272-273 | each alias key maps to its table entry, whatever the container |
| DotnetTypes.AliasFixedPoint | extract_api_signatures.py:221-277 | every alias value maps to itself, except the container's own simple name used as a value, which becomes the container's full name |
| DotnetTypes.EmptyIffBlank | extract_api_signatures.py:219-277 | the result is empty exactly when the label is blank |
| DotnetTypes.ArrayOfAlias | extract_api_signatures.py:240-242 | an array of an alias, such as `int[]`, is `List` of the alias's Python name |
| DotnetTypes.NullableOfAlias | extract_api_signatures.py:244-247 | a Nullable alias, such as `Nullable{double}`, is `Optional` of the alias's Python name |
| DotnetTypes.ContainerName | extract_api_signatures.py:275-276 | the container's simple name, when it is no alias, maps to the container's full name (to itself when that is empty) |
| DotnetTypes.NotIdempotent | extract_api_signatures.py:240-277 | `x[[]` maps to `List[x[]`, which maps on to `List[List[x]`: mapping twice differs from mapping once |
| DotnetTypes.ArrayOfOpaque | extract_api_signatures.py:240-242 | an opaque label with `[]` appended becomes `List` of itself |
| DotnetTypes.OpaqueLeaf | extract_api_signatures.py:277 | a label no rule recognises is kept as it is |
| SignatureLine.BuildSignatureLine | extract_api_signatures.py:279-307 | the method, with its annotation loop and its parameter loop, returns `SignatureOf(...)` |
| SignatureLine.NameAndReturn | extract_api_signatures.py:281-288 | the branch gives `__init__`/`None` for a constructor, and otherwise the C# name (else the member) and the mapped return type |
| SignatureLine.AnnotateEach | extract_api_signatures.py:291-293 | the loop maps every parameter type, in order |
| SignatureLine.TypeEach | extract_api_signatures.py:300-304 | the loop appends `name: ann` for each pair after the leading items |
| SignatureLine.SimpleName | extract_api_signatures.py:281 | the simple name holds no `.`, and a dot-free container is its own simple name |
| SignatureLine.AlignedNames | extract_api_signatures.py:296-298 | names are kept when there is one per type, and otherwise become exactly `arg1..argN`, `N` being the number of types |
| SignatureLine.ItemsShape | extract_api_signatures.py:291-304 | the parameter list is `self` (when wanted) and then one `name: ann` per type, in order, where `ann` is the mapped type |
| SignatureLine.SelfIff | extract_api_signatures.py:300-304 | `self` is a parameter exactly when the method is `__init__`, or is non-static and has a C# name |
| SignatureLine.ConstructorLine | extract_api_signatures.py:282-307 | a constructor's line starts `container.__init__(self` and ends `) -> None`, whatever the C# return type |
| SignatureLine.MethodLine | extract_api_signatures.py:285-307 | any other method keeps its C# name (else the member) and ends with its mapped return type, `None` standing in for a missing one |
| SignatureLine.LineEnds | extract_api_signatures.py:306-307 | every line is `container.name(` + the joined items + `) -> ret` |
| SignatureLine.LinePrefix | extract_api_signatures.py:306-307 | every line starts with the container and a `.` |
| SignatureLine.ArgNameNumber | extract_api_signatures.py:211 | the fallback name `arg{k}` is `arg` followed by the decimal digits of `k` |
| SignatureLine.ProcessPage | extract_api_signatures.py:309-320 | a page raises exactly when its identity is malformed; it is skipped when the identity does not start with `M:`; an emitted line starts with the identity's non-empty container and a `.` |
| ScriptTypes.Table | extract_rhinoscriptsyntax_signatures.py:46-77 | both tables hold every key that the heuristics and the guid hint look up, so those lookups never fail |
| ScriptTypes.Norm | extract_rhinoscriptsyntax_signatures.py:41 | the normalised label is empty exactly when the label is blank, holds no upper-case ASCII letter and is never longer than the label |
| ScriptTypes.Normalized | extract_rhinoscriptsyntax_signatures.py:80-82 | the normalised text is empty exactly when the label is blank |
| ScriptTypes.BlankIsAny | extract_rhinoscriptsyntax_signatures.py:80-81 | blank or whitespace-only input maps to `Any` |
| ScriptTypes.FirstKnownAt | extract_rhinoscriptsyntax_signatures.py:85-87 | the union loop stops at the first non-blank stripped alternative that is a key, and no earlier one is |
| ScriptTypes.FirstKnown | extract_rhinoscriptsyntax_signatures.py:85-87 | the loop finds nothing exactly when no alternative is a key |
| ScriptTypes.UnionFirstKey | extract_rhinoscriptsyntax_signatures.py:84-87 | a union maps to the table entry of its first alternative that is a key |
| ScriptTypes.UnionFallback | extract_rhinoscriptsyntax_signatures.py:84-89 | a union none of whose alternatives is a key maps as its text before the first ` or ` |
| ScriptTypes.ListOf | extract_rhinoscriptsyntax_signatures.py:92-94 | `list of X` and `array of X` map to `List[X']` |
| ScriptTypes.TupleCount | extract_rhinoscriptsyntax_signatures.py:97-99 | a tuple match yields a non-empty base of `[a-zA-Z0-9_.]` characters, shorter than the phrase |
| ScriptTypes.TupleCountOf | extract_rhinoscriptsyntax_signatures.py:97-99 | the count written in decimal, a blank, then a base name is read back as that count and that base |
| ScriptTypes.TupleOf | extract_rhinoscriptsyntax_signatures.py:95-101 | `tuple of N X` maps to `Tuple[` and exactly `N` copies of `X'` joined by `, `, then `]` |
| ScriptTypes.TupleOther | extract_rhinoscriptsyntax_signatures.py:95-102 | any other `tuple of ...` maps to `Tuple[Any, ...]` |
| ScriptTypes.KeyLookup | extract_rhinoscriptsyntax_signatures.py:104-106 | after the union and phrasing rules, an exact key maps to its entry |
| ScriptTypes.CommaRule | extract_rhinoscriptsyntax_signatures.py:108-111 | next, text with a comma maps as its stripped text before the first comma |
| ScriptTypes.GuidListRule | extract_rhinoscriptsyntax_signatures.py:113-115 | next, a bracketed `[guid, ...]` hint maps to `List` of the table's guid entry |
| ScriptTypes.HeuristicRule | extract_rhinoscriptsyntax_signatures.py:117-125 | last, the substring heuristics apply in the order point, vector, color, interval, plane, transform/matrix |
| ScriptTypes.NoRuleIsAny | extract_rhinoscriptsyntax_signatures.py:117-125 | text that no rule recognises maps to `Any` |
| ParamsBlock.ParseParamsBlock | extract_rhinoscriptsyntax_signatures.py:132-164 | the line loop, with its inner loop over the names, builds exactly `ParamsBlockOf(mapType, text)` |
| ParamsBlock.AssignEach | extract_rhinoscriptsyntax_signatures.py:162-163 | the name loop computes `Assign(m, names, info)` |
| ParamsBlock.Assign | extract_rhinoscriptsyntax_signatures.py:162-163 | the keys become the old keys plus the names; every name gets the line's entry; every other key keeps its entry |
| ParamsBlock.Names | extract_rhinoscriptsyntax_signatures.py:152 | every kept name is non-empty and stripped |
| ParamsBlock.NamesOf | extract_rhinoscriptsyntax_signatures.py:159 | the names of a names part are non-empty and stripped |
| ParamsBlock.ParamLine | extract_rhinoscriptsyntax_signatures.py:128 | a match ends its names group at a `(`, and its type group holds no `)` |
| ParamsBlock.Entry | extract_rhinoscriptsyntax_signatures.py:145-163 | a line's entry is optional exactly when the line has the word `optional` (in any case), and its names are non-empty and stripped |
| ParamsBlock.BlankLineSkipped | extract_rhinoscriptsyntax_signatures.py:139-141 | a blank line changes nothing |
| ParamsBlock.IndentedLineSkipped | extract_rhinoscriptsyntax_signatures.py:142-144 | once the mapping has an entry, an indented line changes nothing |
| ParamsBlock.LineAssigns | extract_rhinoscriptsyntax_signatures.py:155-163 | a line that declares names gives each of them the line's entry, overwriting earlier entries, and leaves every other name as it was |
| ParamsBlock.NoParensNoEntry | extract_rhinoscriptsyntax_signatures.py:145-157 | a line without both parentheses declares nothing |
| ParamsBlock.KeysAreNames | extract_rhinoscriptsyntax_signatures.py:138-164 | every key of the mapping is a stripped, non-empty name |
| ParamsBlock.GroupedLine | extract_rhinoscriptsyntax_signatures.py:158-163 | in a grouped line `a, b (type) ...`, every name gets the same entry: the mapped text of the parentheses before its first comma, optional exactly when the line says `optional` |
| ParamsBlock.ParamLineOf | extract_rhinoscriptsyntax_signatures.py:128 | a stripped line that starts with a name character, has a `[\w,\s]` run up to `(` and then a `)`-free text up to `)` matches the pattern with those groups |
| ParamsBlock.EntryOfMatch | extract_rhinoscriptsyntax_signatures.py:158-161 | a line that matches declares the names of its names group, with the mapped type group |
| ParamsBlock.NamesOfJoin | extract_rhinoscriptsyntax_signatures.py:159 | splitting a `, `-joined run of identifiers at commas and stripping gives the identifiers back |
| ReturnsBlock.ParseReturnsBlock | extract_rhinoscriptsyntax_signatures.py:166-183 | the loop, with its two first-assignment guards, returns `ReturnsOf(mapType, text)`: the first line's type, wrapped on `None on error` |
| ReturnsBlock.NonBlank | extract_rhinoscriptsyntax_signatures.py:167 | every kept line is non-empty and stripped |
| ReturnsBlock.SawNone | extract_rhinoscriptsyntax_signatures.py:170-172 | the flag is set exactly when some line says `None on error` as whole words, in any case |
| ReturnsBlock.BlankBlockIsNone | extract_rhinoscriptsyntax_signatures.py:179-180 | a block with no non-blank line returns `None` |
| ReturnsBlock.LaterLinesIgnored | extract_rhinoscriptsyntax_signatures.py:173-178 | lines after the first never change the type before wrapping |
| ReturnsBlock.AppendedLine | extract_rhinoscriptsyntax_signatures.py:170-182 | a line added at the end changes the result only through `None on error` |
| ReturnsBlock.OptionalIff | extract_rhinoscriptsyntax_signatures.py:181-182 | the result is `Optional[T]` exactly when some line says `None on error` and `T` is neither `None` nor already `Optional[...]`, and is `T` otherwise |
| ReturnsBlock.FirstNoneIsNone | extract_rhinoscriptsyntax_signatures.py:175-182 | when the first line names `None`, the result is `None` whatever later lines say |
| ScriptSignature.ParseSignature | extract_rhinoscriptsyntax_signatures.py:185-219 | the method, with its character loop and its loop over the parts, returns `SignatureOf(sigText)` |
| ScriptSignature.SignatureOf | extract_rhinoscriptsyntax_signatures.py:185-191 | no name means no parameters (`(None, [])`), and a name is an identifier |
| ScriptSignature.FirstLine | extract_rhinoscriptsyntax_signatures.py:186-187 | the first line holds no line break |
| ScriptSignature.FirstLineOnly | extract_rhinoscriptsyntax_signatures.py:186-187 | text after the first line break is never read |
| ScriptSignature.SameFirstLine | extract_rhinoscriptsyntax_signatures.py:187 | texts with the same first line have the same signature |
| ScriptSignature.SigMatchName | extract_rhinoscriptsyntax_signatures.py:188 | a matched name is an identifier |
| ScriptSignature.CallLine | extract_rhinoscriptsyntax_signatures.py:188 | `name(inner)` matches with that name and the stripped inner text |
| ScriptSignature.CallSignature | extract_rhinoscriptsyntax_signatures.py:185-219 | a one-line call `name(inner)` is read as that name and the parameters of `inner` |
| ScriptSignature.SplitParams | extract_rhinoscriptsyntax_signatures.py:194-210 | the depth loop returns the stripped paren-only pieces of the text, the last flushed only when non-empty |
| ScriptSignature.ParenStep | extract_rhinoscriptsyntax_signatures.py:197-204 | only parentheses move the depth (clamped at zero), and a comma cuts exactly at depth zero |
| ScriptSignature.BracketsDoNotNest | extract_rhinoscriptsyntax_signatures.py:197-208 | angle brackets and braces are not scopes here: a comma after an unclosed `<` or `{` still cuts |
| ScriptSignature.PartsOfPieces | extract_rhinoscriptsyntax_signatures.py:205-210 | trimmed, non-empty raw pieces are the parts themselves |
| ScriptSignature.ReadParams | extract_rhinoscriptsyntax_signatures.py:211-218 | the loop over the parts returns `Defaults(parts)` |
| ScriptSignature.Defaults | extract_rhinoscriptsyntax_signatures.py:211-218 | one parameter per non-empty part |
| ScriptSignature.SplitDefault | extract_rhinoscriptsyntax_signatures.py:214-218 | a part has a default exactly when it holds `=` |
| ScriptSignature.DefaultOf | extract_rhinoscriptsyntax_signatures.py:214-216 | `name=default` splits at its first `=` into the name and the default |
| ScriptSignature.EmptyPartDropped | extract_rhinoscriptsyntax_signatures.py:212-213 | empty parts contribute nothing |
| ScriptSignature.PlainDefaults | extract_rhinoscriptsyntax_signatures.py:217-218 | non-empty parts without `=` become parameters without defaults, in order |
| ScriptSignature.TopLevelParams | extract_rhinoscriptsyntax_signatures.py:193-218 | parts between top-level commas that are sealed for parentheses, non-empty, trimmed and `=`-free become parameters without defaults, in order |
| TypedSignature.BuildTypedSignature | extract_rhinoscriptsyntax_signatures.py:221-235 | the loop over the parameters returns `TypedSignatureOf(...)` |
| TypedSignature.Item | extract_rhinoscriptsyntax_signatures.py:230-233 | every item starts with the parameter's name and `: ` |
| TypedSignature.Items | extract_rhinoscriptsyntax_signatures.py:222-233 | exactly one item per call parameter, in order, each starting with that parameter's name |
| TypedSignature.ItemsAppend | extract_rhinoscriptsyntax_signatures.py:223-233 | the items of concatenated parameter lists are the concatenated items |
| TypedSignature.UndescribedIsAny | extract_rhinoscriptsyntax_signatures.py:224-233 | a parameter missing from the block is typed `Any`, is not widened, and keeps its default |
| TypedSignature.OptionalWidened | extract_rhinoscriptsyntax_signatures.py:227-231 | an optional parameter with no default and a type other than `Any`, `None` or `Optional[...]` is written `name: Optional[T] = None` |
| TypedSignature.DefaultKept | extract_rhinoscriptsyntax_signatures.py:232-233 | a default in the call is kept as `name: T = default`, with `T` never widened |
| TypedSignature.NoDefaultPlain | extract_rhinoscriptsyntax_signatures.py:227-231 | with no default and no widening the item is `name: T` |
| TypedSignature.DefaultIff | extract_rhinoscriptsyntax_signatures.py:227-233 | an item has a default exactly when the call gives one or the parameter is widened |
| TypedSignature.SignatureShape | extract_rhinoscriptsyntax_signatures.py:234-235 | the line starts `rhinoscriptsyntax.<name>(` and ends `) -> <returns type>` |

## Left out

- File and console I/O are left out: `read_text`, directory walking, `filter_namespace`,
  `main` and output writing, because the model starts from strings. For the same reason,
  the sort and `set` de-duplication in `extract_all` are left out.
- Locating text in the HTML is left out: `extract_help_id`, `extract_csharp_pre` (tag
  removal and `html.unescape`), `html_to_text`, `iter_blocks` and the header/`<pre>`
  searches of `extract_all`. These are regular-expression searches over markup and library
  calls. The model takes their results as input strings. `ProcessPage` takes the identity
  and the C# block as strings, with the empty string standing for a missing one.
- No regular-expression engine is modelled. The identifier check, the default and
  qualifier substitutions, the Nullable and generic matches, `PARAM_LINE_RE`,
  `OPTIONAL_TAG_RE`, `\bNone on error\b`, the tuple pattern and the signature pattern are
  each hand-coded as character predicates and functions.
- `\w`, `\d`, `[A-Za-z_]` and `lower()` are restricted to ASCII, and so is case-insensitive
  matching. `\s`, `strip()` and `split()` use Python's whitespace set. Unicode case folding
  and non-ASCII word characters are not modelled.
- The `try/except` in `process_file` that catches errors from `build_signature_line` is not
  modelled: the modelled operations cannot fail there. A `RecursionError` on deep nesting
  is not modelled either, because recursion depth is unbounded in the model.
- `container_simple`, the second argument of `parse_csharp_signature`, is not used by its
  body, so the model omits it.
- `map_type` is passed to `parse_params_block` and `parse_returns_block` as a parameter
  (`mapType: string -> string`), as the source does. The properties of those two parsers
  hold for every mapper.
- ParamsBlock.ParseParamsBlock: the dictionary is a Dafny `map`, so its insertion order (and
  the order of the names a later loop would see) is not modelled.
- ScriptSignature.ParseSignature: requires that the stripped text is not blank. The source
  indexes `splitlines()[0]` and raises `IndexError` on blank text, so it has no result
  there.
- ScriptTypes.KeyLookup: also requires the label not to be blank. A blank label is caught
  earlier by `BlankIsAny`.
- HelpId.RoundTrip: requires that the container holds no `#` and the member is `#ctor` or
  holds no `#`. These conditions are sufficient, not necessary: they keep a `.#ctor` mark
  out of the composed target.
- The literal examples named in the documentation (`Dict{K,V}, str`, `int[]`,
  `Nullable{double}`, the `ColorHSL.CreateFromLCH` page, the `void SetPaintColor(...)` and
  `ColorHSL(...)` declarations) are stated generally instead: `GenericPairSplit`,
  `ArrayOfAlias`, `NullableOfAlias`, `MethodLine`, `ItemsShape`, `MethodHead` and
  `ConstructorHead`. The last two take the declaration's head as its list of
  whitespace-separated words rather than as raw declaration text.
- General idempotence of either mapper is not claimed, because the code does not deliver
  it. `map_type` sends `System.Guid` to `Any`, and `NotIdempotent` shows the .NET mapper
  case.
