# helpgen core in Dafny

helpgen compiles a small plain-text markup language into a help document. It
can render that document as an HTML page or as an RTF file. This project
models the compiler (`parse` and everything it calls in parser.go), the
document it builds (document.go) and the two renderers (generate_html.go,
generate_rtf.go). It then proves what these promise.

The markup, as the compiler reads it:

- The input is split into lines once CR LF and CR have become LF.
- A line of three or more `=`, `-` or `.` characters is a rule.
- A text line directly above a rule is a heading. A text line between two
  `=` rules is the document title, and there may be only one.
- A line `[\name=value]` defines a variable and is removed from the text.
  Redefining a name is an error that names both lines.
- In headings and styled text, `[name]` is replaced by the variable's value.
  The search goes on after the inserted value.
- `*bold*` and `/italic/` spans (and the two combined) become styled text.
- `[...]` is a reference: a variable's value, an escaped character
  (`[[]`, `[*]`, ...), an image, or a link. A link goes to a heading with
  that text, to a web address, or to a mail address. `[text[target]]` gives
  a link its own text.
- References to headings become links to anchors that are inserted in front
  of those headings. A target that is neither a heading, a web address nor a
  mail address is an error.
- Neighbouring text parts are merged.

Modules, one per concern:

| file | module | what it holds |
|---|---|---|
| strings.dfy | Strings | the Go library string functions the core uses |
| document.dfy | Document | `document` and its parts |
| errors.dfy | Errors | the errors `parse` can return |
| lines.dfy | Lines | line breaks, line splitting and line kinds |
| variables.dfy | Variables | variable definitions |
| substitution.dfy | Substitution | `replaceVars` |
| inline.dfy | Inline | `findStyleEnd`, `findRefEnd`, `hasImageExt`, the markup of one line |
| line_parsing.dfy | LineParsing | `parseLines` |
| simplify.dfy | Simplify | `simplifyDoc` |
| resolve.dfy | Resolve | `resolveRefs` |
| parser.dfy | Parser | the `parser` object and `parse` |
| render.dfy | Render | the part-by-part loop shared by both renderers |
| html.dfy | Html | `genHTML`, `escapeHTML` |
| rtf.dfy | Rtf | `genRTF`, `escape`, `toTwips` |
| pipeline.dfy | Pipeline | compilation followed by rendering |

The source changes state step by step in several places:

- the `parser` methods
- the array loops of `extractCodeLines`, `extractVariableDefinitions`,
  `simplifyDoc` and `resolveRefs`
- the buffers of the renderers and the hex loop of the RTF image

Each of these is modelled as imperative Dafny. The class `Parser.Parser` has
the fields `code`, `doc`, `err` and `vars`. Methods return the arrays and
buffers they fill. Each method is proved equal to a specification function,
and the properties are proved about those functions.

## Model

| member | source | states |
|---|---|---|
| Lines.UnifyLineBreaks | parser.go:68-73 | `unifyLineBreaks` as its two replacements (its properties: `UnifyLineBreaksIsNormalized`, `UnifiedHasNoCr`) |
| Lines.UnifyLineBreaksIsNormalized | parser.go:68-73 | replacing CR LF and then CR by LF is the one-pass normalisation that turns CR LF or a lone CR into one LF and keeps every other character |
| Lines.UnifiedHasNoCr | parser.go:68-73 | no carriage return is left after unification |
| Lines.AllSameFrom | parser.go:89-95 | the comparison loop is true exactly when every character from `i` on equals the character before `i` |
| Lines.ComputeLineKind | parser.go:87-108 | a line is an `=`, `-` or `.` rule exactly when it has at least three characters, all that character; otherwise it is a text line |
| Lines.LinesOf | parser.go:75-85 | one line per LF-separated piece (LF count plus one), numbered 1, 2, ... in order, none holding an LF, each with its computed kind, and joining the texts with LF gives the code back |
| Lines.ExtractCodeLines | parser.go:75-85 | the array-filling loop produces exactly `LinesOf(code)` |
| Strings.JoinSplit | parser.go:77 | joining the pieces of `bytes.Split` with the separator gives the input back |
| Strings.SplitShape | parser.go:77 | `bytes.Split` gives one piece more than there are separators, and no piece contains the separator |
| Strings.SplitJoin | parser.go:77 | splitting a join of separator-free pieces gives the pieces back |
| Strings.TrimSpaceEmpty | parser.go:175 | a line trims to nothing exactly when it is all Unicode white space |
| Strings.FormatIntSign | generate_html.go:64-66 | a printed integer starts with `-` exactly when it is negative, followed by its digits |
| Strings.FormatIntInjective | generate_html.go:64-66 | two different ids never print the same |
| Strings.DecimalRoundTrip | generate_rtf.go:23 | the decimal digits of a number read back as that number |
| Variables.NameCharsFrom | parser.go:149-153 | the rune loop accepts exactly when every remaining character is a space, a letter or a digit |
| Variables.ValidVarName | parser.go:146-155 | a name is valid exactly when it is non-empty and made of spaces, letters and digits |
| Variables.UnderscoreIsNotANameChar | parser.go:146-155 | unlike the comment above `validVarName`, the code refuses a name with an underscore |
| Variables.Definition | parser.go:115-120 | a recognised definition has a valid name, and the line is `[\`, the name, `=`, the value and `]` |
| Variables.DefinitionRoundTrip | parser.go:115-130 | every definition line of a valid name is read back as that name and value |
| Variables.ExtractFromOk | parser.go:114-142 | the loop succeeds exactly when no name is defined twice and no name was already in the table |
| Variables.ExtractFromValue | parser.go:130-138 | on success the non-definition lines are kept in order and every definition is added with its value and line number |
| Variables.ExtractVariablesSpec | parser.go:110-144 | extraction succeeds exactly when the defined names are distinct, and then returns the non-definition lines and the table of all definitions |
| Variables.NoDefinitionKept | parser.go:136-138 | no definition line is left among the kept lines |
| Variables.RedefinitionFrom | parser.go:122-129 | a failure reports the first clash: the earliest definition whose name is already in the table or defined above it (the names above it being distinct), with its name and line, then the line of the table's entry or of that earlier definition |
| Variables.RedefinitionReportsBothLines | parser.go:122-129 | a redefinition error names the earliest definition whose name occurs above it, its line first, and then the line of that name's only earlier definition |
| Variables.ReportsRedefinitionUnique | parser.go:122-129 | only one error fits the description of the first clash, so it fixes the reported error completely |
| Variables.FirstClashUnique | parser.go:114-129 | no clash comes before the first one |
| Variables.RedefinedTwiceUnique | parser.go:122-129 | only one error fits the description of the first repeated name, so it fixes the reported error completely |
| Variables.ExtractFrom | parser.go:114-142 | the definition-extraction loop from a given table on: the kept lines and the table, or the first redefinition (its properties: `ExtractFromOk`, `ExtractFromValue`, `RedefinitionFrom`) |
| Variables.ExtractVariables | parser.go:110-144 | `extractVariableDefinitions` from an empty table (its properties: `ExtractVariablesSpec`, `RedefinitionReportsBothLines`) |
| Variables.DefinitionOrderIrrelevant | parser.go:110-144 | moving a definition line to the front changes neither whether extraction succeeds nor its result |
| Variables.NoDefinitionLines | parser.go:110-144 | without definition lines every line is kept and no variable is defined |
| Variables.ExtractVariableDefinitions | parser.go:110-144 | the in-place loop, which deletes a definition line and stays at the same index, computes `ExtractVariables(lines)` |
| Substitution.CloseFrom | parser.go:305-312 | the inner loop finds the first `]` from `c` on that closes a defined name opened at `o`, or shows there is none |
| Substitution.FirstVarFrom | parser.go:303-314 | the outer loop finds the earliest opening bracket, and for it the earliest closing bracket, that enclose a defined name |
| Substitution.FirstVar | parser.go:302-316 | the first defined `[name]` in the source's search order, or a proof that the text holds none |
| Substitution.ReplaceFirstVar | parser.go:302-316 | when found, the text has that `[name]` replaced by its value, and the search resumes right after the inserted value; otherwise the text is unchanged |
| Substitution.SubstStep | parser.go:289-298 | one round of `replaceVars`: the text up to the end of the inserted value is final and substitution goes on in what follows |
| Substitution.Subst | parser.go:285-300 | `replaceVars`: each first defined `[name]` replaced in turn, the search resuming after the inserted value (its properties: `SubstStep`, `SubstVariable`, `SubstNoBracket`, `SubstNoVariables`) |
| Substitution.SubstNoBracket | parser.go:285-300 | text without `[` is left as it is |
| Substitution.SubstNoVariables | parser.go:285-300 | with no variables nothing is replaced |
| Substitution.SubstVariable | parser.go:285-316 | `[name]` becomes the value and the value is never scanned again: substitution continues after the closing bracket |
| Parser.Parser.ReplaceVars | parser.go:285-300 | the loop computes `Subst(vars, text)` |
| Inline.IsSpace | parser.go:320-322 | `isSpace`: only a space or a tab (used by `NoSpanAfterSpace` and `NotAReference`) |
| Inline.StyleEndFrom | parser.go:324-331 | the search result is -1 or a position after `i` |
| Inline.StyleEndFromFirst | parser.go:324-331 | the search from `i` finds the first position that closes the span, or none |
| Inline.FindStyleEnd | parser.go:324-331 | the result is -1 or between 2 and the length |
| Inline.FindStyleEndFirst | parser.go:324-331 | -1 exactly when no delimiter closes the span; otherwise one past the first delimiter that is not first and not after a space or tab |
| Inline.StyleOf | parser.go:223-234 | `*` makes bold and `/` italic, and an interior wrapped in the other delimiter has both styles; the interiors `/` and `/*/` of a `*` span and `*` of a `/` span, and only those, are sliced out of range by the source |
| Inline.StyleSpanCrash | parser.go:227-233 | a span whose interior the source slices out of range is a crash |
| Inline.NoSpanAfterSpace | parser.go:216 | a delimiter at the end of the line or before a space or tab is not markup |
| Inline.StyleUnclosed | parser.go:216-218 | a delimiter without a closing delimiter is not markup |
| Inline.StyledSpan | parser.go:214-245 | a closed span after plain text gives a text part, a styled part whose text has its variables substituted, and then the parts of the rest of the line |
| Inline.ScanSpan | parser.go:214-245 | at a span's opening delimiter the scan emits the text before it and the styled part, and restarts after the closing delimiter |
| Inline.RefScan | parser.go:347-375 | a reference not found leaves the line as it is; a found one consumes at least its brackets |
| Inline.RefScanShape | parser.go:347-375 | a found reference is its text and `]`, or its text, `[`, its target and `]]`, with no brackets inside, followed by the rest |
| Inline.FindRefEnd | parser.go:333-376 | a found reference is not empty and the rest is shorter than the line |
| Inline.FindRefEndShape | parser.go:333-376 | what follows a `[` is `[]` (the escape), a bracket-free text and `]`, or a text, `[`, a target and `]]` |
| Inline.PlainRefRoundTrip | parser.go:333-376 | `text]rest` is read back as the reference `text` and the rest |
| Inline.SubRefRoundTrip | parser.go:333-376 | `text[target]]rest` is read back as text, target and rest |
| Inline.NotAReference | parser.go:335-338 | a `[` at the end of a line or before a space, tab or `]` is literal text |
| Inline.ThirdBracketRejects | parser.go:367-371 | a second inner `[` means no reference |
| Inline.LowerAll | parser.go:380 | lower-casing works character by character |
| Inline.ImageExtFrom | parser.go:379-384 | the loop over the extensions is true exactly when one of the remaining ones ends the name, ignoring case |
| Inline.HasImageExt | parser.go:378-385 | a name is an image name exactly when it ends in `.png`, `.jpg`, `.jpeg`, `.bmp` or `.gif`, ignoring case |
| Inline.ImageNameAnyCase | parser.go:378-385 | an image extension in any case makes an image name |
| Inline.RefPart | parser.go:253-270 | a reference becomes text, an image or a reference to resolve; one with its own text always becomes a reference to resolve, remembering the line |
| Inline.Escapes | parser.go:259-262 | `[[]` stands for `[`, and a bracketed `*`, `/`, `=`, `-`, `.` or `[` for itself, unless a variable has that name |
| Inline.ImageOrReference | parser.go:263-270 | any other reference that is not a variable is an image when it has an image extension, and otherwise a link to resolve |
| Inline.MarkupAt | parser.go:212-277 | markup only starts at `*`, `/` or `[`; what it produces is text, styled text, an image or a reference to resolve that remembers its line and has a target, and it consumes at least one character |
| Inline.StyleMarkup | parser.go:214-245 | a style span found at `i` is a styled part followed by a shorter rest |
| Inline.RefMarkup | parser.go:246-275 | a reference found at `i` is text, an image or a reference to resolve, followed by a shorter rest |
| Inline.StyleSpan | parser.go:219-242 | a span either crashes or is a styled part followed by what comes after the closing delimiter |
| Inline.StyleClosed | parser.go:216-219 | a span closed by `findStyleEnd` ends where the closing delimiter is |
| Inline.SpanMarkup | parser.go:214-245 | a span closing at `end` is the styled, substituted interior followed by the rest of the line |
| Inline.ScanFound | parser.go:220-274 | markup found at `i` follows the text before it, and the scan restarts on the rest |
| Inline.Scan | parser.go:206-283 | the scanning loop of `parseLine` from index `i`: the parts of the line, or `None` for the slicing panic (its properties: `ScanFound`, `ScanSkips`, `ScanKinds`, `PlainPrefix`) |
| Inline.LineParts | parser.go:206-283 | `parseLine` for one whole line (its properties: `PlainLine`, `StyledSpan`, `ReferenceSpan`) |
| Inline.ScanKinds | parser.go:206-283 | every part a line produces is text, styled text, an image, or a reference to resolve that remembers the line and has a target |
| Inline.ScanSkips | parser.go:212-277 | characters that start no markup are passed over |
| Inline.PlainPrefix | parser.go:212-283 | markup-free text at the start of a line becomes one text part in front of what follows |
| Inline.PlainLine | parser.go:206-283 | a line without `*`, `/` and `[` is one text part, or nothing when empty |
| Inline.ReferenceSpan | parser.go:246-275 | a plain reference after plain text becomes its part, and the line is scanned again after the `]` |
| Inline.TextReferenceSpan | parser.go:253-258 | `[text[target]]` becomes a reference to resolve with that text and the line number |
| Parser.Parser.ParseStyleAt | parser.go:214-245 | the style case emits the text before the span and the styled part exactly when a span is found, and emits nothing otherwise |
| Parser.Parser.EmitSpan | parser.go:219-242 | emits the text before the span and the span's styled part, or reports the crash |
| Parser.Parser.ParseRefAt | parser.go:246-275 | the reference case emits the text before it and the reference's part exactly when one is found |
| Parser.Parser.ParseMarkupAt | parser.go:213-276 | one turn of the `switch`: no markup changes nothing, a crash is reported, and found markup is emitted after the text before it |
| Parser.Parser.ParseLine | parser.go:206-283 | the loop appends exactly `LineParts(vars, text, n)` to the document, or records the panic of an out-of-range style slice |
| Parser.ScanAccThen | parser.go:206-283 | the emit-as-you-go loop equals the recursive scan appended to what was emitted before |
| Parser.ScanFoundAfter | parser.go:241-274 | after markup the loop restarts at index 0 of the rest of the line |
| Parser.Parser.Emit | parser.go:64-66 | appends one part and changes nothing else |
| Parser.Parser.EmitBefore | parser.go:220-251 | emits the text before index `i`, or nothing when `i` is 0 |
| Parser.Parser.EmitStyled | parser.go:235-240 | emits the styled part with its variables substituted |
| LineParsing.RoleOf | parser.go:174-201 | a non-text line is a rule; a non-blank text line is the title between two `=` rules, a heading above an `=`, `-` or `.` rule, and otherwise a body line, as is every blank line |
| LineParsing.LineStep | parser.go:173-202 | one line keeps the title line unless it is the title line; it fails only on a second title, naming both lines from 1, or on a crashing body line |
| LineParsing.LineStepParts | parser.go:180-201 | a rule adds nothing; a heading adds one heading part with its variables substituted and no styles parsed; a body line adds its parts and then a line break unless it is the last line |
| LineParsing.AtMostOneTitle | parser.go:171-189 | a parsed document has at most one title part; it has none exactly when no line is a title line, and otherwise its title is that line's substituted text |
| LineParsing.TitleKept | parser.go:183-188 | the title changes only together with the title line |
| LineParsing.TitleRedefinedNamesBoth | parser.go:183-185 | a second title line fails, naming itself and the first title line, both counted from 1 |
| LineParsing.TwoTitlesFail | parser.go:170-204 | two title lines make the line loop fail |
| LineParsing.SecondTitleFails | parser.go:170-204 | when `f` and `l` are the first two title lines and no body line before `l` crashes, the loop fails with exactly `TitleRedefined(l+1, f+1)` |
| LineParsing.ReachFirstTitle | parser.go:172-189 | from before the first title line, with no title yet, the loop reaches the second title line and fails naming both |
| LineParsing.ReachSecondTitle | parser.go:172-185 | once a title is set, the loop reaches the next title line and fails naming it and the recorded one |

| LineParsing.LinesFromTitle | parser.go:172-203 | the title state is kept through the whole loop |
| LineParsing.LineStepTitle | parser.go:181-189 | one line keeps the title state |
| LineParsing.FirstTitleStep | parser.go:181-189 | the first title line records the title, its index and one title part |
| LineParsing.OtherStepKeepsTitle | parser.go:180-201 | a line that is not a title line leaves the title, the title line and the number of title parts unchanged |
| LineParsing.OtherStepTitle | parser.go:180-201 | such a line keeps the title state |

| LineParsing.PlainFrom | parser.go:196-200 | plain body lines give only text parts |
| LineParsing.PlainLinesFrom | parser.go:196-200 | plain lines become their texts with a line break between each two |
| Parser.Parser.ParseLines | parser.go:170-204 | the loop leaves exactly the title and parts of `ParseLinesFrom`, or the error that stopped it |
| Simplify.Merge | parser.go:160-165 | one more part adds at most one part |
| Simplify.Coalesce | parser.go:157-168 | the result is never longer, and empty exactly when the input is |
| Simplify.CoalesceStep | parser.go:159-167 | one more input part is merged into the simplified prefix |
| Simplify.CoalesceNoAdjacentTexts | parser.go:157-168 | after simplification no two text parts are neighbours |
| Simplify.CoalesceFixed | parser.go:157-168 | parts without neighbouring texts are left as they are |
| Simplify.CoalesceIdempotent | parser.go:157-168 | simplifying twice is simplifying once |
| Simplify.CoalesceSpelling | parser.go:157-168 | read as characters and non-text parts, the document is unchanged: only the cuts between texts move |
| Simplify.CoalesceAllText | parser.go:157-168 | parts that are all text become one text part holding their texts in order |
| Parser.MergeTexts | parser.go:158-167 | the in-place merge loop, which steps back after each merge, computes `Coalesce` of the parts |
| Parser.Parser.SimplifyDoc | parser.go:157-168 | the document's parts become `Coalesce` of them; the title and the rest of the parser are unchanged |
| Parser.SimplifyMerged | parser.go:162-165 | a merge keeps the loop invariant |
| Parser.SimplifyKept | parser.go:159-167 | stepping over a non-merge keeps the loop invariant |
| Resolve.InsertFrom | parser.go:402-430 | the insertion only adds anchors |
| Resolve.InsertKeepsParts | parser.go:402-430 | taking the inserted anchors out gives back the parts in order |
| Resolve.AnchorsBeforeReferencedHeadings | parser.go:402-430 | an anchor stands before every heading whose text is referenced, and nowhere else |
| Resolve.TargetsAreAnchored | parser.go:404-413 | every id given to a text is the id of an anchor placed before a heading with that text |
| Resolve.AnchorIdsIncrease | parser.go:404-413 | when no two referenced headings share a text, the anchors get the ids `len(targets)+1`, `len(targets)+2`, ... in document order (1, 2, 3, ... from an empty table), so they strictly increase and no two are equal |
| Resolve.InsertTargets | parser.go:394-430 | the first two phases of `resolveRefs`: the referenced texts, and the insertion from an empty table (its properties: `InsertKeepsParts`, `AnchorsBeforeReferencedHeadings`, `TargetsAreAnchored`, `AnchorIdsIncrease`) |
| Resolve.Resolve | parser.go:393-487 | `resolveRefs` as a whole: insertion, then rewriting of every part (its properties: `ResolvedParts`, `LinksPointToAnchors`, `ResolveWithoutReferences`) |

| Resolve.InsertAtHeading | parser.go:404-428 | a referenced heading gets the anchor `len(targets)+1` in front, and its text that id |
| Resolve.DuplicateAnchorIds | parser.go:404-407 | two headings with the same referenced text take the next id from the table's size, so a later heading gets the same id again |
| Resolve.InsertNothing | parser.go:402-430 | with nothing referenced no anchor is inserted and no id given |
| Resolve.ResolvePart | parser.go:432-485 | other parts are kept; a reference fails only as an unknown target naming its target and line; a link carries its heading text's id and shows the reference's text, or else its target |
| Resolve.ExternalTargets | parser.go:435-474 | a text without an anchor: a web address becomes a web link (`http://` added before a bare `www.`), else a parsed mail address a `mailto:` link, else an unknown target error |
| Resolve.Rewrite | parser.go:432-486 | on success every part is rewritten at its place |
| Resolve.RewriteSpec | parser.go:432-486 | success rewrites each part as `ResolvePart` does; a failure is the error of a part all of whose predecessors resolve |
| Resolve.RewriteAllOk | parser.go:432-486 | parts that each resolve are rewritten into what they resolve to |
| Resolve.RewriteFirstErr | parser.go:469-474 | the first part that does not resolve stops the rewriting with its error |
| Resolve.ResolvedParts | parser.go:393-487 | after resolution no reference is left and every other part is kept at its place |
| Resolve.AnchorsSurviveRewrite | parser.go:432-486 | an anchor before a heading is still there after the rewriting |
| Resolve.LinksPointToAnchors | parser.go:393-487 | every link made points to an anchor standing before a heading whose text the reference named |
| Resolve.ResolveWithoutReferences | parser.go:393-487 | a document without references is left as it is |
| Parser.Parser.FindReferenced | parser.go:394-400 | the set of targets of the references to resolve |
| Parser.Parser.AddTargets | parser.go:401-430 | the in-place insertion loop computes `InsertFrom` of the parts and the id table |
| Parser.InsertAnchorStep | parser.go:404-419 | inserting an anchor keeps the insertion loop's invariant and moves past the heading |
| Parser.InsertOtherStep | parser.go:415-430 | stepping over any other part keeps the invariant |
| Parser.Parser.ReplaceRefs | parser.go:431-486 | the rewriting loop leaves the parts `Rewrite` computes, or records the first error |
| Parser.Parser.ResolveRefs | parser.go:393-487 | the three phases together compute `Resolve` |
| Parser.Parser.constructor | parser.go:12-13 | a fresh parser holds the code, an empty document, no error and no variables |
| Parser.Parser.ParseCode | parser.go:50-62 | `p.parse` leaves the document of `Parsed(code)` or the first error |
| Parser.Compile | parser.go:11-19 | `parse`: parsing, then reference resolution, each stopping at its first error (its properties: `ParsedTwoTitles`, `ParsedSecondTitle`, `PlainText`, `CompiledIsResolved`) |
| Parser.Parsed | parser.go:50-62 | `p.parse`: line unification, line splitting, definition extraction, line parsing and simplification, each stopping at its first error |
| Parser.ParsedTwoTitles | parser.go:50-62 | code whose remaining lines hold two title lines does not compile |
| Parser.ParsedSecondTitle | parser.go:50-62 | with distinct definitions, when the first two title lines are `f` and `l` and no body line before `l` crashes, parsing and compiling fail with exactly `TitleRedefined(l+1, f+1)` |
| Parser.Parse | parser.go:11-19 | `parse` returns the document of `Compile`, or its error |
| Parser.PlainText | parser.go:11-19 | code without markup, rules or carriage returns compiles to its text as one part (or none when empty), with no title |
| Parser.PlainParsed | parser.go:50-62 | the same before reference resolution |
| Parser.PlainFromText | parser.go:196-200 | the parts of plain lines spell the lines joined with line breaks |
| Parser.PlainLinesOfCode | parser.go:75-116 | lines of markup-free code are markup-free and no definitions |
| Pipeline.CompiledIsResolved | parser.go:11-19 | a compiled document holds no reference to resolve |
| Pipeline.CompiledRendersHtml | parser.go:11-19 | a compiled document renders as HTML whenever its images can be found and tagged |
| Pipeline.CompiledRendersRtf | parser.go:11-19 | a compiled document renders as RTF, all 7-bit ASCII, whenever its images can be found and encoded |
| Errors.Message | parser.go:123-128 | the error texts: the redefinition message here, the title message of parser.go:184 and the unknown-target message of parser.go:470-474, with the Go run time's text for the slicing panic |
| Document.KindIndex | document.go:12-44 | nine kinds carry the part marker; the index tells kinds apart |
| Document.TypeNameNamesKind | document.go:12-44 | two parts get the same printed type name exactly when they are of the same kind |
| Render.RenderStep | generate_html.go:37-86 | one more part appends its output, or its error ends the run |
| Render.RenderFirstError | generate_html.go:83-85 | once a part fails, the whole fails with that part's message |
| Render.RenderOk | generate_html.go:37-86 | the parts render exactly when each does, and the output is their outputs in order |
| Html.EscapeHtml | generate_html.go:92-99 | `escapeHTML` as its five replacements in order (its properties: `EscapeHtmlVisible`, `EscapeSpaceRun`, `EscapeLoneSpace`, `EscapeTab`, `EscapeChar`) |
| Html.EscapeHtmlVisible | generate_html.go:92-99 | the five replacements give: tabs as four spaces, each run of two or more spaces as that many `&nbsp;`, a lone space kept, the HTML special characters as references and `®` superscripted |
| Html.EscapeSpaceRun | generate_html.go:95-96 | two or more spaces between plain text become as many `&nbsp;` |
| Html.EscapeLoneSpace | generate_html.go:95-96 | a single space stays a space |
| Html.EscapeTab | generate_html.go:93 | a tab becomes four `&nbsp;` |
| Html.EscapeChar | generate_html.go:94-97 | any other character becomes its reference or superscript, without affecting its neighbours |
| Html.SuperscriptSpaced | generate_html.go:97 | the superscript step acts on each `®` alone |
| Html.TextHtmlOneLine | generate_html.go:40-44 | a text without line breaks is escaped as a whole |
| Html.TextHtmlBreak | generate_html.go:40-44 | a line break becomes `<br>` between the escaped lines |
| Html.TextHtmlNoNewline | generate_html.go:40-44 | no line break is left in the markup of a text |
| Html.EscapeLines | generate_html.go:41-43 | the loop escapes every line of the array in place |
| Html.WriteText | generate_html.go:39-44 | writes exactly the markup of a text part |
| Html.WriteStyled | generate_html.go:69-82 | writes `<b>` before `<i>`, the escaped text, and closes in reverse order |
| Html.WriteImage | generate_html.go:45-54 | writes the image tag, or gives the message of the failing lookup or tag |
| Html.WritePart | generate_html.go:38-85 | writes exactly the markup of the part, or gives its error |
| Html.WriteHead | generate_html.go:23-36 | writes the style sheet, the title element only when there is a title, and the body's opening |
| Html.GenHtml | generate_html.go:14-90 | the whole loop gives the page of `PageHtml`, or the first part's error |
| Html.HeadingTags | generate_html.go:19-62 | title and headings become `h1` to `h4` by level, around the escaped text |
| Html.LinkTags | generate_html.go:63-66 | a link is `<a href="#id">` around its escaped text, an anchor `<a id="id"/>` |
| Html.LinkFindsAnchor | generate_html.go:63-66 | a link's `href` matches an anchor's id exactly when the two ids are equal |
| Html.PartHtmlFails | generate_html.go:45-85 | a part fails exactly when it is an unresolved reference or an image that cannot be found or tagged; the former is reported as `main.tempRef` |
| Html.PartHtml | generate_html.go:37-86 | the markup of one part, or its error (its properties: `HeadingTags`, `LinkTags`, `PartHtmlFails`) |
| Html.PageHtml | generate_html.go:14-90 | the whole page: head, every part's markup, closing tags, or the first error (its properties: `GenHtml`, `ResolvedRendersHtml`) |
| Html.ResolvedRendersHtml | generate_html.go:14-90 | a document without references to resolve, whose images render, becomes a page |
| Rtf.Utf16Encode | generate_rtf.go:21 | one code unit below U+10000, two above |
| Rtf.Utf16RoundTrip | generate_rtf.go:21 | the code units give the character back, and a pair is a high then a low surrogate |
| Rtf.EncodeRune | generate_rtf.go:17-26 | every byte written for a character is 7-bit |
| Rtf.EncodeAscii | generate_rtf.go:18-19 | ASCII text is written byte for byte |
| Rtf.NonAsciiRune | generate_rtf.go:20-24 | a character beyond ASCII is written as `\u`, the decimal value of its first UTF-16 code unit, and `?` |
| Rtf.AstralRunesShareWord | generate_rtf.go:20-24 | the low surrogate is dropped, so U+1F600 and U+1F601 are written alike |
| Rtf.Encode | generate_rtf.go:16-27 | `write` of a whole string, character by character (its properties: `EncodeAppend`, `EncodeIsSevenBit`, `EncodeAscii`, `NonAsciiRune`) |
| Rtf.EncodeAppend | generate_rtf.go:16-27 | writing two strings is writing their concatenation |
| Rtf.EncodeIsSevenBit | generate_rtf.go:16-27 | whatever the text, only 7-bit bytes are written |
| Rtf.Write | generate_rtf.go:16-27 | the rune loop appends exactly the encoding of the string |
| Rtf.Escape | generate_rtf.go:111-115 | `escape` as its two replacements (its properties: `EscapeIsCharMap`, `EscapeRemovesLineBreaks`, `EscapeAppend`) |
| Rtf.EscapeIsCharMap | generate_rtf.go:111-115 | the two replacements act on each character alone |
| Rtf.EscapeRemovesLineBreaks | generate_rtf.go:112 | no line break survives `escape` |
| Rtf.EscapeAppend | generate_rtf.go:111-115 | `escape` distributes over concatenation |
| Rtf.ToTwips | generate_rtf.go:117-120 | `toTwips` with Go's truncating division (its property: `ToTwipsIsFifteenTimes`) |
| Rtf.ToTwipsIsFifteenTimes | generate_rtf.go:117-120 | the truncating division is exact: a pixel is 15 twips, negative sizes included |
| Rtf.HexOf | generate_rtf.go:67-71 | two hex digits per byte |
| Rtf.HexRoundTrip | generate_rtf.go:67-71 | the hex digits read back as the bytes, and are all lowercase hex digits |
| Rtf.HexEncode | generate_rtf.go:67-71 | the array loop writes exactly the two digits of every byte, high nibble first |
| Rtf.WriteCaption | generate_rtf.go:28-35 | the three writes give exactly the caption's bytes |
| Rtf.CaptionControls | generate_rtf.go:28-81 | headings are bold at size 45, 40 and 34 by level (the lowest keeps the size) and end at plain size 22 with a line break |
| Rtf.LinkIsPlainText | generate_rtf.go:82-85 | a link writes only its text, like a text part, and an anchor writes nothing |
| Rtf.WriteStyled | generate_rtf.go:88-101 | `\b ` before `\i `, the escaped text, closed in reverse order |
| Rtf.WriteImage | generate_rtf.go:42-73 | writes the picture header, the hex data and the closing braces, or gives the lookup's or encoder's message |
| Rtf.WritePart | generate_rtf.go:39-104 | writes exactly the part's bytes, or gives its error |
| Rtf.GenRtf | generate_rtf.go:11-109 | the whole loop gives the header, every part and the closing brace, or the first error |
| Rtf.ImageRtf | generate_rtf.go:42-73 | the picture group of an image, or the lookup's or encoder's error (its property: `WriteImage`) |
| Rtf.PartRtf | generate_rtf.go:39-104 | the bytes of one part, or its error (its properties: `CaptionControls`, `LinkIsPlainText`, `PartRtfFails`, `PartRtfSevenBit`) |
| Rtf.DocRtf | generate_rtf.go:11-109 | the whole RTF output: header, every part, closing brace, or the first error (its properties: `GenRtf`, `ResolvedRendersRtf`, `DocRtfSevenBit`) |
| Rtf.PartRtfFails | generate_rtf.go:42-103 | a part fails exactly when it is an unresolved reference or an image that cannot be found or encoded; the former is reported as `main.tempRef` |
| Rtf.ResolvedRendersRtf | generate_rtf.go:11-109 | a document without references to resolve, whose images render, becomes RTF |
| Rtf.PartRtfSevenBit | generate_rtf.go:39-104 | every part is written in 7-bit ASCII, image data included |
| Rtf.DocRtfSevenBit | generate_rtf.go:11-109 | the whole RTF output is 7-bit ASCII |

## Left out

- Left out entirely: main.go (command line, files), image.go (finding images) and `imageTag`. The renderers take the image lookup, the tagging, the image size, the PNG encoder and the height scaling as function parameters.
- The height scaling of a wide image uses floating point and rounding. The model passes it in as `scaleHeight` and does not compute it.
- `net/mail.ParseAddress` is the parameter `parseAddress`: the address it accepts, or none.
- The input is modelled as text, a sequence of Unicode characters, not as bytes. All delimiters are ASCII, so byte positions and character positions pick the same markup. Input that is not valid UTF-8 is not modelled.
- Variables.ValidVarName: letters and digits are the ASCII ones; `unicode.IsLetter` and `unicode.IsDigit` also accept letters and digits of other scripts.
- Inline.HasImageExt: `strings.ToLower` is applied to ASCII letters only. No other character lower-cases to a letter of the five extensions in a way that would change the result.
- Parser.Parse: on an error it states only the error. The source also returns the partly built document, which no caller uses.
- The out-of-range slice for a style interior of `/` or `/*/` in a `*` span, or `*` in a `/` span, is a run-time panic in the source. The model makes it the error `SlicePanic`, which stops compilation.
- The assignment `referenced[ref.text] = true` at the end of the rewriting loop (parser.go:484) has no effect: the set is not read again. It is not modelled.
- Error values are the datatype `CompileError`. `Errors.Message` gives the texts `fmt.Errorf` makes of them.
- Anchor ids are taken from the size of the id table, as in the source. Two referenced headings with the same text therefore leave two anchors with the same id (`Resolve.DuplicateAnchorIds`). Uniqueness, and the numbering 1, 2, 3, ... in document order, are proved only when the referenced heading texts are distinct (`Resolve.AnchorIdsIncrease`).
- The title positions in the title-redefinition error count the lines that remain once the variable definitions are taken out, as the source does. They are not the line numbers of the input.
