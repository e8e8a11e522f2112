# ac-library-rs-parted: the span splicers and code generators

`ac-library-rs-parted` splits the single-crate `ac-library-rs` into one crate per module. Two
programs do the splitting by rewriting Rust source text:

- `xtask` (xtask/src/main.rs) generates each `ac-library-rs-parted-<module>` crate. It removes
  the crate-level `#![doc = "..."]` attributes of the module and keeps their text. It widens
  every restricted visibility (`pub(crate)`, `pub(super)`, ...) to `pub`. It then wraps the
  indented module code in a shell that has the doc header, the `extern crate __acl_x as x;`
  lines and a re-export. For the root it turns each `mod x;` item into
  `pub extern crate __acl_x as x;` when the item is public and deletes it otherwise.
- The build script (ac-library-rs-parted-build/build.rs) does the same rewriting at build time,
  with a different splicer:
  - for a sub-module, it deletes every `doc` attribute and widens only `pub(crate)`, then
    prefixes the `extern crate` lines from its static `DEPS` table;
  - for the root, it rewrites the `mod` items and puts a fixed alias header in front.

Every rewrite is a list of edits: a span of the parsed file (start and end `LineColumn`) and the
text to put there. Two splicers apply those edits:

- xtask's `replace_ranges` turns each span into a byte range of the original text. It applies the
  edits from last to first, so the ranges still to be applied do not move.
- The build script's `replace_ranges` walks the trimmed text line by line and character by
  character. It takes the edits in the key order of a `BTreeMap`.
  - An insertion (`start == end`) emits its text and then the character.
  - A replacement emits its text, then drops characters until its end.
  - Edits that start at or past the end of a line are flushed after that line.
  - A line feed is emitted between lines whatever is being skipped, so a replaced span leaves
    its line feeds behind.

The model has these modules:

- `Text`: Rust's `split('\n')`, `trim_end`, `lines` and UTF-8 length.
- `Positions`: `LineColumn` positions, `from_pos`, and character offsets.
- `Splice`: the offset splice `Applied`, and `KeepBreaks`, the variant that keeps line feeds.
- `ReverseSplice`: xtask's splicer, a method with a reverse loop.
- The build script's splicer is spread over four modules:
  - `ForwardWalk`, the walk as functions of the loop state;
  - `ForwardSplice`, the nested-loop method;
  - `ForwardTheory` and `ForwardBridge`, which prove what the walk computes.
- `Syntax`: the parsed file, as an input.
- `Plan`: shared planning helpers.
- `EditMaps`: the `BTreeMap`, as an ascending sequence held by a class.
- The planners and emitters:
  - `XtaskPlan` for xtask;
  - `BuildPlan` and `BuildBridge` for the build script.

Strings are sequences of characters. Rust indexes a `String` by byte, so `Positions.FromPos`
models the source's byte offset. `Positions.FromPosIsBytePrefix` proves that this byte offset is
the UTF-8 length of the characters before `CharOffset`. Splicing at character offsets therefore
does what the source does at byte offsets.

## Model

| member | source | states |
|---|---|---|
| Positions.FromPos | xtask/src/main.rs:190-200 | `from_pos`, the byte offset of a position, defined on the lines of the text; what it means is stated by `Positions.FromPosIsBytePrefix` and `Positions.CharOffsetBound` |
| Positions.FromPosIsBytePrefix | xtask/src/main.rs:190-200 | `from_pos` (the bytes of the earlier lines plus one per line feed, plus the byte index of the `column`-th character, or the line's byte length past its end) is the UTF-8 length of the text before the clamped character offset |
| Positions.CharOffsetBound | xtask/src/main.rs:195-199 | a column past the end of its line clamps to the line's end, so an offset never passes the end of that line nor of the text |
| Positions.CharOffsetMono | xtask/src/main.rs:201 | positions in order give offsets in order, so a span gives a range that is not reversed |
| Positions.SplitTerminated | ac-library-rs-parted-build/build.rs:160-166 | a helper for `BuildPlan.SubModuleShellLines` and `BuildPlan.RootShellLines`: lines without line feeds, each ended by one, split back into those lines before what follows |
| Positions.CellCompare | ac-library-rs-parted-build/build.rs:181 | comparing character `j` of line `i` with a position, as `(i, j) == (line - 1, column)` and `(i, j) < (line - 1, column)` do, agrees with comparing their offsets |
| Text.Split | xtask/src/main.rs:188 | `split('\n')` gives at least one piece and no piece holds a line feed |
| Text.JoinSplit | xtask/src/main.rs:188 | the pieces of `split('\n')` joined by line feeds give back the text |
| Text.SplitJoin | ac-library-rs-parted-build/build.rs:176 | pieces without line feeds, joined and split again, come back unchanged |
| Text.TrimEnd | ac-library-rs-parted-build/build.rs:176 | `trim_end` gives the longest prefix that does not end in white space: everything removed is white space |
| Text.RustLines | xtask/src/main.rs:85 | no line of `lines()` holds a line feed; what it drops is stated by `Text.RustLinesCarriageReturn` and `Positions.RustLinesRoundTrip` |
| Text.RustLinesCarriageReturn | xtask/src/main.rs:85 | `lines()` has one line per piece of `split('\n')` that a line feed ends, plus the last piece when the text does not end with a line feed. A terminated piece loses one `\r` exactly when it ends with one, and the unterminated last piece is kept whole, so a carriage return is dropped only just before a line feed |
| Positions.RustLinesRoundTrip | xtask/src/main.rs:85 | for a text without carriage returns, `lines()` loses only the line feeds: the lines, each followed by a line feed, give back a text that is empty or ends with a line feed, and the lines joined by line feeds give back any other text |
| Text.BreaksAreLineFeeds | ac-library-rs-parted-build/build.rs:209-211 | what a replaced span leaves behind is line feeds only, one for each line feed of the span |
| Splice.ApplyBackwardsStep | xtask/src/main.rs:206-208 | applying one more range to a text whose later ranges are already applied gives the text with that range and all later ones applied: earlier offsets stay valid |
| Splice.AppliedLength | xtask/src/main.rs:205-209 | the spliced text loses exactly the characters of the ranges and gains exactly the replacements |
| Splice.KeepBreaksWithinLines | ac-library-rs-parted-build/build.rs:177-212 | when no span removes a line feed, keeping line feeds changes nothing: the walk is the plain splice |
| ReverseSplice.ToCuts | xtask/src/main.rs:187-203 | `to_range` applied to each edit: one offset range per edit, each between the character offsets of its span's ends; that the ranges are in order inside the text is stated by `ReverseSplice.CutsOrdered` |
| ReverseSplice.CutsOrdered | xtask/src/main.rs:187-203 | spans on the text, in order and not overlapping, become offset ranges in order inside the text |
| ReverseSplice.ReplaceRanges | xtask/src/main.rs:186-210 | applying the edits from last to first with `replace_range` gives the text before the first range, each replacement with the untouched text between ranges, and the text after the last; with no edits the text is unchanged |
| ForwardWalk.Walked | ac-library-rs-parted-build/build.rs:171-216 | the whole walk, from an empty output over the lines of `code.trim_end()`; what it computes is stated by `ForwardBridge.WalkedKeepsBreaks`, `ForwardBridge.WalkedNoEdits` and `ForwardBridge.WalkedWithinLines` |
| ForwardWalk.LineStep | ac-library-rs-parted-build/build.rs:177-212 | one pass of the outer loop (the characters, the flush, then the line feed when another line follows or the code ends with one) only appends to the output and consumes edits in order |
| ForwardWalk.CharStep | ac-library-rs-parted-build/build.rs:178-197 | one character step only appends to the output and consumes edits from the front, in order, each once |
| ForwardWalk.Flush | ac-library-rs-parted-build/build.rs:198-208 | the flush after a line appends and consumes in order, and stops at the first edit that does not start on that line |
| ForwardWalk.LinesFrom | ac-library-rs-parted-build/build.rs:176-212 | the outer loop only appends to the output and consumes edits in order, each once |
| ForwardSplice.SpliceLine | ac-library-rs-parted-build/build.rs:178-208 | the inner `for` and the flushing `while let` of one line compute one step of the walk |
| ForwardSplice.ReplaceRanges | ac-library-rs-parted-build/build.rs:171-216 | the method computes the walk. On a well-formed map this is the splice of the trimmed text at the spans' offsets, keeping the line feeds of every replaced span, plus a final line feed when the text ends with one. With no edits it is `trim_end` plus that line feed |
| ForwardBridge.WalkedKeepsBreaks | ac-library-rs-parted-build/build.rs:171-216 | on a well-formed map the walk gives the line-feed-keeping splice and consumes every edit. Each insertion keeps the character at its position. Each replacement drops the characters before its end, keeps the one at its end and leaves its line feeds behind |
| ForwardBridge.WalkedNoEdits | ac-library-rs-parted-build/build.rs:176 | with no edits the output is the trimmed text, with a line feed when the input ends with one |
| ForwardBridge.WalkedWithinLines | ac-library-rs-parted-build/build.rs:171-216 | when every span starts and ends on one line, the walk is exactly the offset splice xtask's splicer computes, on the trimmed text |
| EditMaps.Get | ac-library-rs-parted-build/build.rs:146-158 | the lookup that gives meaning to the map the inserts fill (here and at lines 69-76): a key is found exactly when some entry has it, and the text found is that entry's text |
| EditMaps.InsertSorted | ac-library-rs-parted-build/build.rs:172-173 | inserting keeps the entries in strictly ascending `(start, end)` order, so `into_iter` hands them over sorted, each key once |
| EditMaps.InsertGet | ac-library-rs-parted-build/build.rs:151 | `insert` is a map update: the inserted key maps to the new text, every other key to what it mapped to before |
| EditMaps.InsertAllGet | ac-library-rs-parted-build/build.rs:146-158 | after a run of insertions a key maps to the last text inserted under it, or to its earlier text when none was |
| EditMaps.InsertAllInOrder | ac-library-rs-parted-build/build.rs:172 | inserting entries that already come in key order into the empty map gives those entries back, in that order |
| EditMaps.EditMap.constructor | ac-library-rs-parted-build/build.rs:146 | `btreemap!()` is the empty map |
| EditMaps.EditMap.Insert | ac-library-rs-parted-build/build.rs:151 | the entries become the sorted insertion of the new entry and stay ascending |
| Plan.FilterMapMembers | xtask/src/main.rs:124-134 | a `flat_map` over `Option`s yields a result exactly when some node produces it |
| Plan.FilterMapConcat | xtask/src/main.rs:163-168 | planning over `a + b` plans over `a`, then over `b`, in order |
| Plan.FilterMapCount | xtask/src/main.rs:163-181 | one result per kept node |
| Syntax.VisibilitiesConcat | xtask/src/main.rs:141-144 | the visitor over the items of `a + b` meets the visibilities of `a`, then those of `b` |
| XtaskPlan.DocPlan | xtask/src/main.rs:124-134 | the `k`-th doc string comes with the `k`-th deleting edit, and both come from one doc-string attribute. Every doc-string attribute gives such a pair. There is one pair per doc-string attribute |
| XtaskPlan.DocPlannedFrom | xtask/src/main.rs:126-131 | each planned pair is `(attribute span, "")` with the string's value, for a `doc = "..."` attribute |
| XtaskPlan.DocPlannedFor | xtask/src/main.rs:126-131 | each `doc = "..."` attribute is planned, its deletion and value at the same index |
| XtaskPlan.DocsInOrder | xtask/src/main.rs:124-134 | the doc strings and the edits come out in attribute order |
| XtaskPlan.NoDocStrings | xtask/src/main.rs:126-133 | without doc-string attributes nothing is deleted and no doc is returned, so every other attribute stays |
| XtaskPlan.DocEditsInOrder | xtask/src/main.rs:122-136 | attributes in source order give deleting edits the splicer accepts |
| XtaskPlan.TakeCrateLevelDoc | xtask/src/main.rs:121-137 | a parse error is passed on. Otherwise the result is the code with exactly the doc-string attributes spliced out, and their values in order. Without doc strings it is the code unchanged and no docs |
| XtaskPlan.VisPlan | xtask/src/main.rs:152-156 | an edit is planned exactly for each restricted visibility, and it writes `pub` over that visibility's span. `pub`, `crate` and inherited visibilities get none |
| XtaskPlan.NoRestricted | xtask/src/main.rs:152-156 | with no restricted visibility nothing is planned |
| XtaskPlan.VisitItem | xtask/src/main.rs:151-157 | walking one item appends one `pub` edit per restricted visibility, in visiting order, to what was pushed before |
| XtaskPlan.ReplaceVisStricts | xtask/src/main.rs:139-158 | a parse error is passed on. Otherwise the result is the code spliced with a `pub` edit for each restricted visibility of every item, in visiting order |
| XtaskPlan.TopPlan | xtask/src/main.rs:163-181 | every `mod` item gets exactly one edit over its span: the `pub extern crate __acl_x as x;` alias when public, the empty string otherwise. No other item gets one |
| XtaskPlan.TopInOrder | xtask/src/main.rs:163-181 | one edit per `mod` item, in item order |
| XtaskPlan.ModifyTop | xtask/src/main.rs:160-184 | a parse error is passed on. Otherwise the result is the code spliced with the `mod` item edits |
| XtaskPlan.TrimStartMatches | xtask/src/main.rs:78 | `trim_start_matches`; what it removes is stated by `XtaskPlan.TrimStartMatchesDone`, `XtaskPlan.TrimStartMatchesRepeat` and `XtaskPlan.TrimAclPrefix` |
| XtaskPlan.TrimStartMatchesDone | xtask/src/main.rs:78 | after `trim_start_matches(p)` the text no longer starts with `p` |
| XtaskPlan.TrimStartMatchesRepeat | xtask/src/main.rs:78 | what `trim_start_matches(p)` removes is `p` repeated some number of times |
| XtaskPlan.TrimAclPrefix | xtask/src/main.rs:78 | for `__acl_x` (with `x` not itself starting with `__acl_`) the alias is `x` |
| XtaskPlan.ExternCrate | xtask/src/main.rs:77-80 | the `extern crate {from} as {to};` line; its shape for `__acl_x` is stated by `XtaskPlan.ExternCrateAlias` |
| XtaskPlan.ExternCrates | xtask/src/main.rs:75-81 | the lines joined with line feeds; stated by `XtaskPlan.ExternCratesLines` |
| XtaskPlan.ExternCratesLines | xtask/src/main.rs:75-81 | for names without line feeds, the joined text splits back into exactly one `extern crate` line per name, in order |
| XtaskPlan.ExternCrateAlias | xtask/src/main.rs:75-81 | the line for `__acl_x` reads `extern crate __acl_x as x;`, and the root's alias for `mod x` is that line made public |
| XtaskPlan.IndentLine | xtask/src/main.rs:86-89 | one line of the code, indented; its shape is stated by `XtaskPlan.IndentLineShape` |
| XtaskPlan.Indent | xtask/src/main.rs:84-90 | the code's `lines()` indented and concatenated; stated by `XtaskPlan.IndentedSplit` and `XtaskPlan.IndentRoundTrip` |
| XtaskPlan.IndentLineShape | xtask/src/main.rs:86-89 | an empty line becomes a bare line feed, any other line four spaces, the line, then a line feed |
| XtaskPlan.IndentedSplit | xtask/src/main.rs:84-90 | the indented text splits into one indented piece per line, then an empty piece |
| XtaskPlan.IndentRoundTrip | xtask/src/main.rs:84-90 | indenting loses nothing: taking the four spaces off each line of the indented code gives back the code's `lines()`, one for one |
| XtaskPlan.ExpandedModule | xtask/src/main.rs:62-91 | the generated `lib.rs` of a sub-crate; its layout is stated by `XtaskPlan.ExpandedModuleBody` |
| XtaskPlan.ExpandedModuleBody | xtask/src/main.rs:62-91 | the generated file is the head, then the indented module, then a line feed, 13 spaces and the closing brace. The module's lines can be read back, one for one, from between head and tail |
| BuildPlan.IsPubCrate | ac-library-rs-parted-build/build.rs:113-119 | the visitor's test for `pub(crate)`; stated by `BuildPlan.PubCrateKeys` and `BuildPlan.SubModulePlan` |
| BuildPlan.IsDocAttr | ac-library-rs-parted-build/build.rs:149-150 | the attribute loop's test for a `doc` attribute; stated by `BuildPlan.DocMapGet` and `BuildPlan.SubModulePlan` |
| BuildPlan.SubModuleEntries | ac-library-rs-parted-build/build.rs:146-158 | the sub-module's map after both loops; stated by `BuildPlan.SubModulePlan` and `BuildBridge.SubModuleEntriesInOrder` |
| BuildPlan.VisitPubVisibilities | ac-library-rs-parted-build/build.rs:103-128 | the visitor over one item inserts `pub` under the span of each `pub(crate)` it meets, in order, into the map |
| BuildPlan.PlanDocAttrs | ac-library-rs-parted-build/build.rs:148-154 | the attribute loop inserts the empty string under the span of each attribute whose meta parses with path `doc`, in order |
| BuildPlan.ModifySubModule | ac-library-rs-parted-build/build.rs:102-169 | a parse error is passed on. Otherwise the result is the sub-module shell around the walk of the code with the planned map |
| BuildPlan.SubModulePlan | ac-library-rs-parted-build/build.rs:144-158 | the map holds `pub` at the span of a `pub(crate)` visibility, else the empty string at the span of a `doc` attribute, and nothing elsewhere. `pub(super)`, `pub(self)`, `pub(in ...)` and other attributes are left alone |
| BuildPlan.PubCrateKeys | ac-library-rs-parted-build/build.rs:113-122 | `pub` is planned exactly under the spans of visibilities that are restricted, have no `in` token and whose path is the identifier `crate` |
| BuildPlan.DocMapGet | ac-library-rs-parted-build/build.rs:148-154 | after the attribute loop the map holds the empty string exactly at the `doc` attributes |
| BuildPlan.Deps | ac-library-rs-parted-build/build.rs:130-142 | the `DEPS` table, with no entry for other names (`unwrap_or(&&[][..])` at lines 162-163); stated by `BuildPlan.DepsWellFormed`, `BuildPlan.DepsNoCycle` and `BuildPlan.DepLines` |
| BuildPlan.DepsWellFormed | ac-library-rs-parted-build/build.rs:130-142 | the `DEPS` table names only crates that exist and never the crate itself. The internal crates have no entry, and neither has any name outside the table |
| BuildPlan.DepsNoCycle | ac-library-rs-parted-build/build.rs:130-142 | a fact about the table's data, used by no other proof: no crate depends on a crate that depends back on it |
| BuildPlan.DepLines | ac-library-rs-parted-build/build.rs:162-166 | one `extern crate __acl_dep as dep;` line per table entry, in table order |
| BuildPlan.DepLineAsXtask | ac-library-rs-parted-build/build.rs:165 | the build script's dependency line is the line xtask writes for `__acl_dep` |
| BuildPlan.SubModuleShell | ac-library-rs-parted-build/build.rs:160-168 | the sub-module's crate shell; its lines are stated by `BuildPlan.SubModuleShellLines` |
| BuildPlan.SubModuleShellLines | ac-library-rs-parted-build/build.rs:160-166 | the shell's lines are one `extern crate` line per dependency in table order, the `#[doc(inline)]` re-export, `mod items {`, then the module's own lines closed by the brace |
| BuildPlan.RootEntry | ac-library-rs-parted-build/build.rs:68-76 | the entry one item adds to the root's map; stated by `BuildPlan.RootPlan` |
| BuildPlan.RootEntries | ac-library-rs-parted-build/build.rs:65-78 | the root's map after the item loop; stated by `BuildPlan.RootPlan` and `BuildBridge.RootEntriesInOrder` |
| BuildPlan.RootPlan | ac-library-rs-parted-build/build.rs:67-78 | the map has an entry exactly at the spans of `mod` items: the alias of a public item, the empty string for any other |
| BuildPlan.PubAliasLine | ac-library-rs-parted-build/build.rs:72 | a helper for `BuildPlan.RootShellLines`: a crate's public alias is its `extern crate` line with `pub ` in front |
| BuildPlan.AliasLinesNoBreak | ac-library-rs-parted-build/build.rs:81-92 | a helper for `BuildPlan.RootShellLines`: no alias line of the root header holds a line feed |
| BuildPlan.RootShell | ac-library-rs-parted-build/build.rs:80-99 | the root's crate shell; its lines are stated by `BuildPlan.RootShellLines` |
| BuildPlan.RootShellLines | ac-library-rs-parted-build/build.rs:80-97 | the root shell's lines are one alias per public crate in the header's order, a blank line, `pub use self::items::*;`, a blank line, `mod items {`, then the module's lines closed by the brace |
| BuildPlan.ModifyRootModule | ac-library-rs-parted-build/build.rs:62-100 | a parse error is passed on. Otherwise the result is the root shell around the walk of the code with the planned map |
| BuildBridge.RootEntriesInOrder | ac-library-rs-parted-build/build.rs:65-78 | for `mod` items in source order with non-empty spans, the map holds exactly the planned entries in item order and is well formed |
| BuildBridge.RootModuleSplice | ac-library-rs-parted-build/build.rs:62-98 | the code `modify_root_module` wraps is the trimmed text with each `mod` item replaced by its alias or deleted, the line feeds inside a deleted item kept |
| BuildBridge.SubModuleEntriesInOrder | ac-library-rs-parted-build/build.rs:144-158 | when attributes come before the `pub(crate)` visibilities in source order, the map holds exactly the `doc` deletions, then the `pub` widenings, and is well formed |
| BuildBridge.SubModuleSplice | ac-library-rs-parted-build/build.rs:144-167 | the code `modify_sub_module` wraps is the trimmed text with the `doc` attributes deleted and each `pub(crate)` made `pub`, the line feeds inside a deleted attribute kept |

## Left out

- Cargo metadata and package lookup (xtask/src/main.rs:109-119, 233-325; build.rs:20-47) are left out. They are queries over the dependency graph through a foreign library. The names of a crate's dependencies are a parameter of `XtaskPlan.ExpandedModule`.
- File reads and writes, the directory listing and the driver loops (xtask/src/main.rs:18-107, 223-231; build.rs:49-58) are I/O. Each rewrite is modelled for one file's text.
- The `rustfmt` run (xtask/src/main.rs:212-221) is an external tool. The generated text is modelled as written, before formatting. This is why the closing brace of xtask's shell sits after 13 spaces.
- `syn` parsing, `parse_meta` and the `Visit` traversal belong to a foreign parser. Their results are inputs (`Syntax.File`). A parse error is passed on as `Err`, and a failed `parse_meta` is an attribute without a meta. The error text and anyhow's conversion are not modelled.
- The `debug_assert!` re-parse (build.rs:214) depends on the parser and does not change the result.
- ac-library-rs-parted-build/src/lib.rs and ac-library-rs-parted-maxflow/build.rs are not part of this model. They hold no rewriting logic.
- The doc header xtask renders with `quote!` (xtask/src/main.rs:74) is a parameter of `XtaskPlan.ExpandedModule`, because token-stream rendering is foreign.
- A comment in xtask mentions multi-line literals (xtask/src/main.rs:83), but the code does nothing about them. The model follows the code and indents every line, including lines inside a multi-line string literal.
- `XtaskPlan.TakeCrateLevelDoc`, `XtaskPlan.ModifyTop` and `XtaskPlan.ReplaceVisStricts` require the spans they plan to be in source order and not overlapping. `ReverseSplice.ReplaceRanges` requires the same of its edits. The parser guarantees this. With other input the source's `replace_range` panics or edits shifted text, and that behaviour is not modelled.
- ForwardSplice.ReplaceRanges: the closed form is stated for well-formed maps only. These are spans on the text's lines with strictly increasing starts that do not overlap. The model does not describe what the walk emits for two entries that share a start (an insertion and a replacement at one position), or for overlapping spans; the source's planners never produce them. The method's first `ensures` still gives the walk for every map.
- BuildBridge.RootModuleSplice, BuildBridge.SubModuleSplice: both assume that the planned spans are not empty and lie on the lines of the trimmed text. This holds for parsed items, attributes and `pub(crate)`, since each ends on a token.
- The `DEPS` lookup (a `HashMap`) is modelled as a function from names to dependency lists. `BuildPlan.RootHeader` is the header's twelve alias lines, generated from the list of public crates rather than copied as one literal.
- Rust's `str::lines` is modelled as current Rust documents it: a carriage return is removed only just before a line feed.
