# Herb ERB-to-Ruby coordinates in Dafny

Herb lets RuboCop inspect the Ruby code embedded in an ERB template. Every
variant of this bridge works the same way:

- **Extract.** An extractor walks the template tree in pre-order.
  - For each ERB node with content, it appends the trimmed content and a
    newline to one synthetic Ruby buffer.
  - It also records an anchor: the buffer position where that fragment
    starts, paired with the template position of the fragment's first code
    character.
- **Translate.** A translator maps a position that RuboCop reports in the
  buffer back to the template. It picks the last anchor at or before the
  target, then adds the anchor's line offset. It adds the anchor's column
  offset only when the target is on the anchor's own line.
- **Project.** In `@herb-tools/rubocop`, a projector turns template-level
  corrections into character edits of one node's content and splices them in.

The project models three variants of this pipeline, each in its own module.
They share a few modules of definitions.

| file | module | what it holds |
|---|---|---|
| `wrappers.dfy` | `Wrappers` | `Option` and `Result` |
| `text.dfy` | `Text` | the `\s` class, `trim`/`trimStart`/`trimEnd`, counting, `lastIndexOf`, `split("\n")` and the clamping `slice` |
| `template.dfy` | `Template` | positions, locations, tokens and the node tree; `Advance` is the template position reached after writing a text |
| `translation.dfy` | `Translation` | the anchor table; `Translated` is what every translator computes; the search and shift lemmas |
| `extraction.dfy` | `Extraction` | the fragments taken in pre-order, the buffer, `sourcePosition` and the anchor table as functions of the tree |
| `rubocop_package.dfy` | `RubocopPackage` | `javascript/packages/rubocop/src/rubocop.ts` |
| `core_rubocop.dfy` | `CoreRubocop` | `javascript/packages/core/src/rubocop.ts` |
| `linter_erb_rubocop.dfy` | `LinterErbRubocop` | `javascript/packages/linter/src/rules/erb-rubocop.ts` |

How the variants differ, as the model states it:

- **Anchor position.**
  - `RubocopPackage.HostAnchor` follows newlines in the leading whitespace:
    the line advances by their number, and the column counts the characters
    after the last `\n` or `\r`.
  - The core and linter anchors stay on the content's first line and move
    the column by the length of the whitespace. Their `CodeTranslation`
    lemmas prove how far the translated line falls short: exactly the number
    of newlines in that whitespace.
- **Comment tags.** Only the package skips content whose tag opening is `<%#`.
- **Column base.** The core and linter subtract 1 from RuboCop's 1-based
  start column (`ToolRange`); the package's formatter reports 0-based columns.
- **Corrections.**
  - The package translates corrections only of correctable offenses.
  - The core translates every replacement. It fails when an offense has no
    corrector, because `for … of` over `null` throws.
- **Empty input.**
  - The package and the core return no offenses for an empty buffer without
    calling RuboCop.
  - The linter always calls RuboCop. On a tree with no fragments, any
    reported offense makes `translate_position` read a field of an
    undefined anchor, a `TypeError` modelled as `Failure(UndefinedMapping)`.

Two behaviours of the code shape the model:

- A target before every anchor is translated with the **last** anchor.
  `mappings[i - 1]` with `i == 0` is `undefined`, so the search falls back to
  `mappings[mappings.length - 1]`.
- Whitespace-only content is still anchored, and it adds a bare `"\n"` to the
  buffer.

Imperative code is modelled imperatively:

- The visitors are classes whose methods change the buffer and table fields.
- Each translator is a method with the source's search loop and `break`.
- The offense loops, the corrections `flatMap`, the line-start loop of
  `getRelativeIndexFromPosition` and the reverse splice loop of
  `applyCorrectionsToNode` are methods with loop invariants.

Each method is proved equal to a specification function. The properties
are proved as lemmas about those functions.

RuboCop runs in another process. Here it is the parameter `rubocop`, a
function from the buffer to the offenses it reports.

## Model

| member | source | states |
|---|---|---|
| Text.LeadingWhitespaceLength | javascript/packages/rubocop/src/rubocop.ts:333 | the match of `^\s*` is the longest all-whitespace prefix: every character before it is whitespace, and the one after it is not |
| Text.TrailingWhitespaceLength | javascript/packages/core/src/rubocop.ts:227 | what `trimEnd` removes is the longest all-whitespace suffix |
| Text.TrimIsSlice | javascript/packages/rubocop/src/rubocop.ts:353 | the trimmed content is the slice of the content that starts right after its leading whitespace |
| Text.TrimmedPrefix | javascript/packages/core/src/rubocop.ts:225-227 | the leading whitespace followed by the first `j` trimmed characters is the first `L + j` characters of the content |
| Text.LinesCount | javascript/packages/rubocop/src/rubocop.ts:359-360 | `split("\n")` yields one more line than there are newlines |
| Text.LastLine | javascript/packages/rubocop/src/rubocop.ts:361 | the last line of `split("\n")` is the text after the last newline |
| Text.LineStartAfterNewline | javascript/packages/rubocop/src/rubocop.ts:181-184 | summing line lengths plus one per line gives the index just after the d-th newline of the content |
| Text.SliceIndex | javascript/packages/rubocop/src/rubocop.ts:113-116 | `slice` takes an in-range index as is and never goes past the end of the string |
| Template.AdvanceClosedForm | javascript/packages/rubocop/src/rubocop.ts:335-348 | after a text, the line has moved by the number of its newlines; with a newline, the column counts the characters after the last one, otherwise it moves by the text's length |
| Translation.FirstAfterIs | javascript/packages/rubocop/src/rubocop.ts:236-245 | the search stops at the first anchor whose Ruby position lies after the target (lexicographic on line and column), or runs off the end |
| Translation.AnchorChoice | javascript/packages/rubocop/src/rubocop.ts:236-249 | on an increasing table the chosen anchor is the last one at or before the target; a target before the first anchor falls back to the last anchor |
| Translation.SelectedIsUnique | javascript/packages/rubocop/src/rubocop.ts:236-249 | an anchor at or before the target whose successor lies after it is the chosen one |
| Translation.RoundTrip | javascript/packages/rubocop/src/rubocop.ts:236-260 | translating an anchor's own Ruby position gives back its template position |
| Translation.MonotoneWithinAnchor | javascript/packages/rubocop/src/rubocop.ts:251-260 | two targets translated with the same anchor keep their order |
| Translation.FirstAfterAgrees | javascript/packages/rubocop/src/rubocop.ts:236-245 | the search depends on the target only through which anchors lie after it |
| Translation.SameLineSameAnchor | javascript/packages/rubocop/src/rubocop.ts:251-260 | when anchors start buffer lines, two targets on one buffer line use one anchor and land on one template line |
| Extraction.BufferEmpty | javascript/packages/rubocop/src/rubocop.ts:124-126 | the buffer is empty exactly when no fragment was taken |
| Extraction.BufferEndsLine | javascript/packages/rubocop/src/rubocop.ts:353 | the buffer is empty or ends with a newline |
| Extraction.SourcePositionIsAdvance | javascript/packages/rubocop/src/rubocop.ts:358-364 | `sourcePosition` (number of lines, length of the last line) is the position reached by writing the buffer from (1, 0) |
| Extraction.SourcePositionAtLineEnd | javascript/packages/rubocop/src/rubocop.ts:358-364 | for a buffer that ends a line, `sourcePosition` is (1 + number of newlines, 0) |
| Extraction.SourcePositionAppend | javascript/packages/rubocop/src/rubocop.ts:352-353 | `sourcePosition` after appending a text is the old one advanced over that text |
| Extraction.AnchorsLength | javascript/packages/rubocop/src/rubocop.ts:352 | one anchor per fragment |
| Extraction.AnchorsAppend | javascript/packages/rubocop/src/rubocop.ts:352-353 | the anchors of two runs of fragments are the first run's followed by the second's, started where the first run's text ends |
| Extraction.AnchorAt | javascript/packages/rubocop/src/rubocop.ts:352-353 | anchor `k` pairs the buffer position after the first `k` fragments with fragment `k`'s template position |
| Extraction.RubyLineStep | javascript/packages/rubocop/src/rubocop.ts:353 | each fragment takes its own lines plus one |
| Extraction.RubyLineIncreases | javascript/packages/rubocop/src/rubocop.ts:353 | later fragments start on strictly later buffer lines |
| Extraction.AnchorRubyPosition | javascript/packages/rubocop/src/rubocop.ts:352-364 | anchor `k` is at (1 + newlines before fragment `k`, 0) and carries fragment `k`'s template position |
| Extraction.AnchorsIncrease | javascript/packages/rubocop/src/rubocop.ts:352-364 | the table starts at (1, 0), every anchor is at column 0, and anchor positions strictly increase |
| Extraction.ShiftFollowsText | javascript/packages/rubocop/src/rubocop.ts:251-260 | shifting text written from a line start by its anchor gives the same text written from the anchor's template position |
| Extraction.InsideFragment | javascript/packages/rubocop/src/rubocop.ts:353 | text inside fragment `k` lies before the line where fragment `k + 1` starts |
| Extraction.SkipStep | javascript/packages/rubocop/src/rubocop.ts:328-331 | a node whose content is not taken contributes exactly its children's fragments |
| Extraction.TakeStep | javascript/packages/rubocop/src/rubocop.ts:352-355 | a taken node contributes its anchor and text first, then its children's |
| Extraction.ChildStep | javascript/packages/rubocop/src/rubocop.ts:355 | visiting the children one by one builds the buffer and table of all of them |
| Extraction.FragmentTranslation | javascript/packages/rubocop/src/rubocop.ts:251-260 | the buffer position of a code character translates to the anchor's template position advanced over the same code |
| RubocopPackage.HostAnchorIsCodeStart | javascript/packages/rubocop/src/rubocop.ts:333-350 | with `\n` or `\r\n` breaks, the recorded position is where the leading whitespace ends, i.e. the first code character |
| RubocopPackage.HostTextPosition | javascript/packages/rubocop/src/rubocop.ts:333-353 | with `\n` or `\r\n` breaks in the leading whitespace, code written from the anchor reaches the template position of the same content character |
| RubocopPackage.CodeFromAnchor | javascript/packages/rubocop/src/rubocop.ts:230-261 | a code character's buffer position translates to that character written from its fragment's anchor |
| RubocopPackage.CodeTranslation | javascript/packages/rubocop/src/rubocop.ts:333-353 | end to end: code character `j` of fragment `k` translates to the template position of content character `L + j` |
| RubocopPackage.ExtractRubyVisitor.constructor | javascript/packages/rubocop/src/rubocop.ts:268-272 | a new visitor has an empty buffer and table |
| RubocopPackage.ExtractRubyVisitor.Visit | javascript/packages/rubocop/src/rubocop.ts:274-324 | visiting a node appends its subtree's text to the buffer and its anchors to the table |
| RubocopPackage.ExtractRubyVisitor.ExtractRuby | javascript/packages/rubocop/src/rubocop.ts:326-356 | skips content-less and `<%#` nodes (children still visited); otherwise pushes the anchor, appends trimmed content and a newline, then visits children |
| RubocopPackage.ExtractRubyVisitor.VisitChildNodes | javascript/packages/rubocop/src/rubocop.ts:355 | the children's texts and anchors are appended in order |
| RubocopPackage.ExtractRuby | javascript/packages/rubocop/src/rubocop.ts:221-228 | the analysis holds the buffer and table of the whole tree, started at (1, 0) |
| RubocopPackage.TranslatePosition | javascript/packages/rubocop/src/rubocop.ts:230-261 | the search-and-shift loop computes `Translated` |
| RubocopPackage.ReportedOffensesShape | javascript/packages/rubocop/src/rubocop.ts:122-149 | empty buffer gives no offenses; otherwise one offense per reported one, with severity, cop, message, correctability and correction texts kept, and corrections of non-correctable offenses untouched |
| RubocopPackage.OffenseAtCode | javascript/packages/rubocop/src/rubocop.ts:130-134 | with `\n` or `\r\n` breaks in the leading whitespace, an offense reported at a code character's buffer position is reported at that character's template position |
| RubocopPackage.Offenses | javascript/packages/rubocop/src/rubocop.ts:122-149 | the loop overwrites each offense's location, and its corrections' locations if correctable, by their translations |
| RubocopPackage.TranslateOffense | javascript/packages/rubocop/src/rubocop.ts:131-145 | one offense with its location translated, and its corrections' locations only when correctable |
| RubocopPackage.AllCorrectionsMembers | javascript/packages/rubocop/src/rubocop.ts:151-153 | a correction is in the flattening exactly when some offense carries it |
| RubocopPackage.Corrections | javascript/packages/rubocop/src/rubocop.ts:151-153 | the corrections of all offenses, in order |
| RubocopPackage.Flatten | javascript/packages/rubocop/src/rubocop.ts:152 | the loop computes the in-order flattening |
| RubocopPackage.GetRelativeIndexFromPosition | javascript/packages/rubocop/src/rubocop.ts:155-187 | 0 above the content; its length below the last line; clamped column distance on the first line; otherwise line start plus column, with the start summed in a loop |
| RubocopPackage.RelativeIndexRoundTrip | javascript/packages/rubocop/src/rubocop.ts:155-187 | converting the template position of content character `k` gives back `k` |
| RubocopPackage.Relevant | javascript/packages/rubocop/src/rubocop.ts:81-93 | a correction is kept exactly when it starts at or after the content start and ends at or before the content end |
| RubocopPackage.NoneRelevant | javascript/packages/rubocop/src/rubocop.ts:81-93 | with no correction inside the content, nothing is kept |
| RubocopPackage.Insert | javascript/packages/rubocop/src/rubocop.ts:109 | inserting into an ordered list keeps it ordered by start index and adds exactly that edit |
| RubocopPackage.SortByStart | javascript/packages/rubocop/src/rubocop.ts:109 | the edits ordered by start index, a permutation of the input |
| RubocopPackage.ApplyCorrectionsToNode | javascript/packages/rubocop/src/rubocop.ts:69-120 | a content-less node gives ""; otherwise the sorted, projected relevant corrections spliced right to left |
| RubocopPackage.ProjectEdits | javascript/packages/rubocop/src/rubocop.ts:95-108 | each correction becomes an edit with its start and end converted to character indices |
| RubocopPackage.SpliceAll | javascript/packages/rubocop/src/rubocop.ts:111-117 | the reverse loop splices the edits from the last to the first |
| RubocopPackage.NothingRelevant | javascript/packages/rubocop/src/rubocop.ts:73-119 | with no correction inside the content, the content comes back unchanged |
| RubocopPackage.DisjointEdits | javascript/packages/rubocop/src/rubocop.ts:111-117 | for ordered, non-overlapping edits, right-to-left splicing replaces exactly each edit's own slice of the original |
| RubocopPackage.OneCorrection | javascript/packages/rubocop/src/rubocop.ts:69-120 | a single correction spanning content characters `a` to `b` yields `value[..a] + text + value[b..]` |
| RubocopPackage.CorrectedDisjoint | javascript/packages/rubocop/src/rubocop.ts:69-120 | when the sorted, projected relevant corrections do not overlap, the corrected content replaces exactly each correction's own slice of the original content |
| RubocopPackage.ReplacementBeforeInsertion | javascript/packages/rubocop/src/rubocop.ts:95-117 | a replacement of `[a, b)` listed before an insertion at `a` stays first after the stable sort, and splicing then loses the insertion: the result is `text[..a] + t` followed by the original text from `b` minus the insertion's length |
| RubocopPackage.BlankContentAnchored | javascript/packages/rubocop/src/rubocop.ts:326-353 | content made only of whitespace is still taken as a fragment, and it adds a bare newline to the buffer |
| CoreRubocop.HostAnchorLine | javascript/packages/core/src/rubocop.ts:225-232 | the recorded line falls short of the first code character's line by the newlines of the leading whitespace; without any, it is that character's position |
| CoreRubocop.HostTextPosition | javascript/packages/core/src/rubocop.ts:225-235 | code written from the anchor is as many lines short as the leading whitespace has newlines, and exact without them |
| CoreRubocop.CodeFromAnchor | javascript/packages/core/src/rubocop.ts:49-80 | a code character's buffer position translates to that character written from its fragment's anchor |
| CoreRubocop.CodeTranslation | javascript/packages/core/src/rubocop.ts:225-235 | end to end: the translated line of a code character is short by the newlines in its fragment's leading whitespace, and exact without them |
| CoreRubocop.ExtractRubyVisitor.constructor | javascript/packages/core/src/rubocop.ts:161-165 | a new visitor has an empty source and mapping |
| CoreRubocop.ExtractRubyVisitor.Visit | javascript/packages/core/src/rubocop.ts:167-217 | visiting a node appends its subtree's text to `source` and its anchors to `mapping` |
| CoreRubocop.ExtractRubyVisitor.ExtractRuby | javascript/packages/core/src/rubocop.ts:219-238 | skips only content-less nodes (children still visited); otherwise anchors at (start line, start column + `startTrimLength`) and appends the trimmed content and a newline |
| CoreRubocop.ExtractRubyVisitor.VisitChildNodes | javascript/packages/core/src/rubocop.ts:237 | the children's texts and anchors are appended in order |
| CoreRubocop.TranslatePosition | javascript/packages/core/src/rubocop.ts:49-80 | the search-and-shift loop computes `Translated` |
| CoreRubocop.FirstWithoutReplacements | javascript/packages/core/src/rubocop.ts:100-120 | the first offense without a corrector, after offenses that all have one |
| CoreRubocop.FirstAfterNone | javascript/packages/core/src/rubocop.ts:100-120 | a loop that has seen only offenses with correctors stops at the first one without |
| CoreRubocop.ReportedOffensesShape | javascript/packages/core/src/rubocop.ts:82-150 | fails exactly when the buffer is non-empty and some offense has no corrector; otherwise one offense per entry, in order, with message, severity and one correction per replacement keeping its text |
| CoreRubocop.OffenseAtCode | javascript/packages/core/src/rubocop.ts:101-116 | a start column that, made 0-based, is a code character's buffer position lands on that character's template position when the leading whitespace has no newline |
| CoreRubocop.ConvertedAt | javascript/packages/core/src/rubocop.ts:100-148 | entry `i` of a successful conversion converts report entry `i` |
| CoreRubocop.Offenses | javascript/packages/core/src/rubocop.ts:82-150 | empty source gives no offenses without a call; otherwise the converted report |
| CoreRubocop.ConvertReport | javascript/packages/core/src/rubocop.ts:98-149 | the loop pushes one converted offense per entry, and fails at the first entry without a corrector |
| CoreRubocop.ConvertedFailure | javascript/packages/core/src/rubocop.ts:120 | the conversion fails at the first entry without a corrector |
| CoreRubocop.ConvertedSuccess | javascript/packages/core/src/rubocop.ts:98-148 | when every entry has a corrector, the conversion is the entries converted one by one |
| CoreRubocop.ConvertOffense | javascript/packages/core/src/rubocop.ts:101-147 | one offense: the start from (start_line, start_column - 1), the end from (last_line, last_column), and every replacement translated, in order |
| CoreRubocop.AllCorrectionsMembers | javascript/packages/core/src/rubocop.ts:152-154 | a correction is in the flattening exactly when some offense carries it |
| CoreRubocop.Corrections | javascript/packages/core/src/rubocop.ts:152-154 | the corrections of all offenses in order, failing where `offenses` fails |
| CoreRubocop.Flatten | javascript/packages/core/src/rubocop.ts:153 | the loop computes the in-order flattening |
| LinterErbRubocop.HostAnchorLine | javascript/packages/linter/src/rules/erb-rubocop.ts:42-46 | the recorded line falls short of the first code character's line by the newlines of the leading whitespace; without any, it is that character's position |
| LinterErbRubocop.HostTextPosition | javascript/packages/linter/src/rules/erb-rubocop.ts:42-49 | code written from the anchor is as many lines short as the leading whitespace has newlines, and exact without them |
| LinterErbRubocop.CodeFromAnchor | javascript/packages/linter/src/rules/erb-rubocop.ts:76-95 | a code character's buffer position translates to that character written from its fragment's anchor |
| LinterErbRubocop.CodeTranslation | javascript/packages/linter/src/rules/erb-rubocop.ts:42-49 | end to end: the translated line of a code character is short by the newlines in its fragment's leading whitespace, and exact without them |
| LinterErbRubocop.ExtractRubyVisitor.constructor | javascript/packages/linter/src/rules/erb-rubocop.ts:12-16 | a new visitor has an empty source and mapping |
| LinterErbRubocop.ExtractRubyVisitor.Visit | javascript/packages/linter/src/rules/erb-rubocop.ts:18-34 | visiting a node appends its subtree's text to `source` and its anchors to `mapping` |
| LinterErbRubocop.ExtractRubyVisitor.ExtractRuby | javascript/packages/linter/src/rules/erb-rubocop.ts:36-52 | skips only content-less nodes (children still visited); otherwise anchors at (start line, start column + `startTrimLength`) and appends the trimmed content and a newline |
| LinterErbRubocop.ExtractRubyVisitor.VisitChildNodes | javascript/packages/linter/src/rules/erb-rubocop.ts:51 | the children's texts and anchors are appended in order |
| LinterErbRubocop.TranslatePosition | javascript/packages/linter/src/rules/erb-rubocop.ts:76-95 | the search-and-shift loop computes `Translated`; with an empty table it fails |
| LinterErbRubocop.LspSeverity | javascript/packages/linter/src/rules/erb-rubocop.ts:65-72 | `info` maps to hint, `refactor` and `convention` to info, `warning` to warning, `error` and `fatal` to error; any other name gives nothing (`undefined`) |
| LinterErbRubocop.SeverityTable | javascript/packages/linter/src/rules/erb-rubocop.ts:65-72 | each lint severity comes from exactly the RuboCop severities named for it, so no two groups share a name |
| LinterErbRubocop.MappedAt | javascript/packages/linter/src/rules/erb-rubocop.ts:108-131 | over a non-empty table, entry `i` of the result is the lint offense of report entry `i` |
| LinterErbRubocop.CheckShape | javascript/packages/linter/src/rules/erb-rubocop.ts:97-134 | fails exactly when the report is non-empty and the tree has no fragments; an empty report gives no offenses; otherwise one offense per entry, in order, with rule and code "erb-rubocop", source "Herb Linter", the entry's message and its mapped severity |
| LinterErbRubocop.OffenseAtCode | javascript/packages/linter/src/rules/erb-rubocop.ts:111-119 | a start column that, made 0-based, is a code character's buffer position lands on that character's template position when the leading whitespace has no newline |
| LinterErbRubocop.OneLineOffense | javascript/packages/linter/src/rules/erb-rubocop.ts:111-119 | an offense on one buffer line is placed on one template line |
| LinterErbRubocop.Check | javascript/packages/linter/src/rules/erb-rubocop.ts:97-134 | extracts the buffer, asks the tool even for an empty buffer, and maps the report |
| LinterErbRubocop.MapOffenses | javascript/packages/linter/src/rules/erb-rubocop.ts:108-131 | the loop pushes one lint offense per entry, and fails on the first translation over an empty table |

## Left out

- Running RuboCop is not modelled. `execSync` of `bundle exec rubocop`, its
  formatter plugins, the environment variable with extra options, the
  disabled and ignored cop lists, and `JSON.parse` are all replaced by the
  `rubocop` parameter.
- Only `files[0]` of the response is read, as in the source. The `rubocop`
  parameter stands for that file's offense list.
- The debug `console.log` calls in the linter's `check` are not modelled.
- The `Visitor` base class, the node classes, `Position`, `Location` and
  `ParseResult` are not part of this model.
  - The tree is a datatype.
  - The default visit recurses into the children.
  - The seventeen ERB node kinds dispatch to the extractor.
- Text is a sequence of characters, one per UTF-16 code unit. Surrogate
  pairs and normalisation are not modelled.
- RubocopPackage.Offenses: the source overwrites `location` fields in the
  objects it received. The model builds new values, so aliasing of those
  objects is not captured.
- RubocopPackage.SortByStart: its contract states ordering and permutation,
  but not stability. Edits with equal start indices keep their input order
  by construction (`Array.prototype.sort` is stable), but this is not
  proved.
- RubocopPackage.Relevant: its contract states membership. The order of
  the kept corrections follows from the definition but is not stated.
- RubocopPackage.CodeTranslation requires that no lone `\r` follows the last
  `\n` of the leading whitespace. In that case the source counts the column
  from the `\r`, which is not where the code starts on the template line.
- RubocopPackage.HostTextPosition requires the same plain line breaks as
  CodeTranslation, for the same reason: after a lone `\r` the anchor column
  is counted from the `\r`.
- RubocopPackage.OffenseAtCode requires the same plain line breaks as
  CodeTranslation. For the leading whitespace `"\n\r  "` the source anchors
  at column 2 while the code starts at column 3, so an offense on that code
  is not reported on it.
- RubocopPackage.TranslatePosition and CoreRubocop.TranslatePosition require
  a non-empty table. Their callers only translate when the buffer is
  non-empty, and then the table is too. The linter's translator, which can
  see an empty table, models the resulting `TypeError`.
- Overlapping corrections are not checked by the source. DisjointEdits
  covers only ordered, non-overlapping edits.
- RubocopPackage.ApplyCorrectionsToNode: a replacement listed before a
  zero-width insertion at its own start drops the insertion, because the
  stable sort keeps them in that order and the replacement's end index is
  then read against the text the insertion already changed.
  ReplacementBeforeInsertion states this case; the model keeps the source's
  behaviour.
- LinterErbRubocop.LspSeverity: names that a JavaScript object literal
  inherits from `Object.prototype` (`constructor`, `toString`,
  `hasOwnProperty`, `__proto__`) are not modelled; for them the source
  yields a prototype member instead of `undefined`.
- The package's offense type lists the fields the translation reads or
  keeps. Other fields of RuboCop's report pass through untouched and are
  not modelled.
- The build configuration, the Ruby formatter plugins and the end-to-end
  formatter test are not part of this model.
