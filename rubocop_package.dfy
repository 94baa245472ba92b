/**
 * The `@herb-tools/rubocop` package (javascript/packages/rubocop/src/rubocop.ts):
 * extract the Ruby code of an ERB document into one buffer, let RuboCop
 * inspect it, translate the offenses and corrections it reports back to
 * template positions, and splice corrections into a node's content.
 *
 * RuboCop itself runs in another process; here it is the function parameter
 * `rubocop`, which maps the buffer to the offenses reported for it.
 */
module RubocopPackage {
  import opened Wrappers
  import opened Text
  import opened Template
  import opened Translation
  import opened Extraction

  /** The tag opening of an ERB comment, whose content is not Ruby code. */
  const CommentTag := "<%#"

  /** The content the visitor takes from a node: ERB nodes with content that are not comments. */
  function Pick(n: Node): Option<Token> {
    if n.kind.Other? || n.content.None? || n.tagOpening == Some(CommentTag) then None else n.content
  }

  /**
   * The template position recorded for a fragment: where its code starts
   * once the leading whitespace (the match of `^\s*`) is skipped. Each match
   * of `\r?\n` holds exactly one `\n`, so the number of matches is the number
   * of newlines. After a newline the column counts the characters after the
   * last `\n` or `\r`, whichever comes later.
   */
  function HostAnchor(t: Token): Position {
    var ws := LeadingWhitespace(t.value);
    var newlineCount := Count(ws, '\n');
    var line := t.location.start.line + newlineCount;
    if newlineCount > 0 then
      var lastBreak := if LastIndexOf(ws, '\n') >= LastIndexOf(ws, '\r') then LastIndexOf(ws, '\n') else LastIndexOf(ws, '\r');
      Position(line, |ws| - 1 - lastBreak)
    else Position(line, t.location.start.column + |ws|)
  }

  /** No carriage return follows the last line feed of `ws` (CRLF and LF line breaks qualify). */
  predicate PlainLineBreaks(ws: string) {
    Count(ws, '\n') == 0 || LastIndexOf(ws, '\r') < LastIndexOf(ws, '\n')
  }

  /**
   * With plain line breaks, the recorded template position is exactly where
   * writing the leading whitespace from the content's start ends, i.e. the
   * position of the first code character.
   */
  lemma {:induction false} HostAnchorIsCodeStart(t: Token)
    requires PlainLineBreaks(LeadingWhitespace(t.value))
    ensures HostAnchor(t) == Advance(t.location.start, LeadingWhitespace(t.value))
  {
    var ws := LeadingWhitespace(t.value);
    AdvanceClosedForm(t.location.start, ws);
    CountZero(ws, '\n');
  }

  /**
   * End to end: the buffer position of character `j` of fragment `k`'s code
   * translates to the template position of the same character, i.e. of
   * character `L + j` of the content, `L` being its leading whitespace.
   */
  lemma {:induction false} CodeTranslation(frags: seq<Token>, k: nat, j: nat)
    requires k < |frags| && j <= |Trim(frags[k].value)|
    requires PlainLineBreaks(LeadingWhitespace(frags[k].value))
    ensures |Anchors(frags, BufferStart, HostAnchor)| == |frags|
    ensures LeadingWhitespaceLength(frags[k].value) + j <= |frags[k].value|
    ensures Translated(Anchors(frags, BufferStart, HostAnchor), CodePosition(frags, k, j))
         == Advance(frags[k].location.start, frags[k].value[..LeadingWhitespaceLength(frags[k].value) + j])
  {
    CodeFromAnchor(frags, k, j);
    HostTextPosition(frags, k, j);
  }

  /** The buffer position of a code character translates to the same character written from its fragment's anchor. */
  lemma {:induction false} CodeFromAnchor(frags: seq<Token>, k: nat, j: nat)
    requires k < |frags| && j <= |Trim(frags[k].value)|
    ensures |Anchors(frags, BufferStart, HostAnchor)| == |frags|
    ensures Translated(Anchors(frags, BufferStart, HostAnchor), CodePosition(frags, k, j))
         == Advance(HostAnchor(frags[k]), Trim(frags[k].value)[..j])
  {
    FragmentTranslation(frags, HostAnchor, k, j);
  }

  /**
   * Writing the first `j` code characters of fragment `k` from its anchor
   * reaches the template position of content character `L + j`.
   */
  lemma {:induction false} HostTextPosition(frags: seq<Token>, k: nat, j: nat)
    requires k < |frags| && j <= |Trim(frags[k].value)|
    requires PlainLineBreaks(LeadingWhitespace(frags[k].value))
    ensures LeadingWhitespaceLength(frags[k].value) + j <= |frags[k].value|
    ensures Advance(HostAnchor(frags[k]), Trim(frags[k].value)[..j])
         == Advance(frags[k].location.start, frags[k].value[..LeadingWhitespaceLength(frags[k].value) + j])
  {
    var t := frags[k];
    HostAnchorIsCodeStart(t);
    AdvanceAppend(t.location.start, LeadingWhitespace(t.value), Trim(t.value)[..j]);
    TrimmedPrefix(t.value, j);
  }

  /** `ExtractRubyVisitor`: walks the tree and builds the buffer and the anchor table. */
  class ExtractRubyVisitor {
    var ruby: string
    var mappings: seq<PositionMapping>

    constructor()
      ensures ruby == [] && mappings == []
    {
      ruby := [];
      mappings := [];
    }

    /** ERB nodes go to `ExtractRuby`; every other node only has its children visited. */
    method Visit(n: Node)
      modifies this
      decreases n, 2
      ensures ruby == old(ruby) + Buffer(Fragments(n, Pick))
      ensures mappings == old(mappings) + Anchors(Fragments(n, Pick), SourcePosition(old(ruby)), HostAnchor)
    {
      if n.kind.Other? {
        VisitChildNodes(n);
        SkipStep(n, Pick);
      } else {
        ExtractRuby(n);
      }
    }

    method ExtractRuby(n: Node)
      requires !n.kind.Other?
      modifies this
      decreases n, 1
      ensures ruby == old(ruby) + Buffer(Fragments(n, Pick))
      ensures mappings == old(mappings) + Anchors(Fragments(n, Pick), SourcePosition(old(ruby)), HostAnchor)
    {
      if n.content.None? || n.tagOpening == Some(CommentTag) {
        VisitChildNodes(n);
        SkipStep(n, Pick);
        return;
      }
      var content := n.content.value;
      var leadingWhitespace := LeadingWhitespace(content.value);
      var newlineCount := Count(leadingWhitespace, '\n');
      var line := content.location.start.line + newlineCount;
      var column := content.location.start.column + |leadingWhitespace|;
      if newlineCount > 0 {
        var lastNewline := LastIndexOf(leadingWhitespace, '\n');
        var lastReturn := LastIndexOf(leadingWhitespace, '\r');
        column := |leadingWhitespace| - 1 - (if lastNewline >= lastReturn then lastNewline else lastReturn);
      }
      var erbPosition := Position(line, column);

      assert erbPosition == HostAnchor(content);

      mappings := mappings + [PositionMapping(SourcePosition(ruby), erbPosition)];
      ruby := ruby + (Trim(content.value) + "\n");
      TakeStep(old(ruby), old(mappings), n, content, Pick, HostAnchor);
      VisitChildNodes(n);
    }

    method VisitChildNodes(n: Node)
      modifies this
      decreases n, 0
      ensures ruby == old(ruby) + Buffer(FragmentsOf(n.children, Pick))
      ensures mappings == old(mappings) + Anchors(FragmentsOf(n.children, Pick), SourcePosition(old(ruby)), HostAnchor)
    {
      for i := 0 to |n.children|
        invariant ruby == old(ruby) + Buffer(FragmentsOf(n.children[..i], Pick))
        invariant mappings == old(mappings) + Anchors(FragmentsOf(n.children[..i], Pick), SourcePosition(old(ruby)), HostAnchor)
      {
        ChildStep(old(ruby), old(mappings), n.children, i, Pick, HostAnchor);
        Visit(n.children[i]);
      }
      assert n.children[..|n.children|] == n.children;
    }
  }

  datatype RubyAnalysis = RubyAnalysis(ruby: string, mappings: seq<PositionMapping>)

  /** `Rubocop.extractRuby`: the buffer and anchor table of the whole tree. */
  method ExtractRuby(node: Node) returns (analysis: RubyAnalysis)
    ensures analysis.ruby == Buffer(Fragments(node, Pick))
    ensures analysis.mappings == Anchors(Fragments(node, Pick), BufferStart, HostAnchor)
  {
    var visitor := new ExtractRubyVisitor();
    EmptyBufferStart();
    visitor.Visit(node);
    analysis := RubyAnalysis(visitor.ruby, visitor.mappings);
  }

  /**
   * `Rubocop.translatePosition`: scan for the first anchor after the buffer
   * position and shift by the anchor before it; with no such anchor before
   * it, shift by the last anchor.
   */
  method TranslatePosition(mappings: seq<PositionMapping>, rubyPosition: Position) returns (r: Position)
    requires |mappings| > 0
    ensures r == Translated(mappings, rubyPosition)
  {
    var relevantMapping: Option<PositionMapping> := None;
    var i := 0;
    while i < |mappings|
      invariant 0 <= i <= |mappings|
      invariant relevantMapping.None?
      invariant forall j :: 0 <= j < i ==> AtOrBefore(mappings[j].ruby, rubyPosition)
    {
      if mappings[i].ruby.line > rubyPosition.line
         || (mappings[i].ruby.line == rubyPosition.line && mappings[i].ruby.column > rubyPosition.column) {
        if i > 0 {
          relevantMapping := Some(mappings[i - 1]);
        }
        break;
      }
      i := i + 1;
    }
    FirstAfterIs(mappings, rubyPosition, i);
    var anchor := if relevantMapping.Some? then relevantMapping.value else mappings[|mappings| - 1];
    var lineOffset := anchor.erb.line - anchor.ruby.line;
    var columnOffset := if rubyPosition.line == anchor.ruby.line then anchor.erb.column - anchor.ruby.column else 0;
    r := Position(rubyPosition.line + lineOffset, rubyPosition.column + columnOffset);
  }

  /** The severities RuboCop reports. */
  datatype Severity = Info | Refactor | Convention | Warning | Error | Fatal

  /** A replacement of the text at `location` by `text` (the tool's `string` field). */
  datatype RubocopCorrection = RubocopCorrection(text: string, location: Location)

  datatype RubocopOffense = RubocopOffense(
    severity: Severity, copName: string, message: string, location: Location,
    correctable: bool, corrections: seq<RubocopCorrection>)

  function TranslatedLocation(m: seq<PositionMapping>, l: Location): Location
    requires |m| > 0
  {
    Location(Translated(m, l.start), Translated(m, l.end))
  }

  /** An offense with its location, and the locations of its corrections when it is correctable, moved to the template. */
  function TranslatedOffense(m: seq<PositionMapping>, o: RubocopOffense): RubocopOffense
    requires |m| > 0
  {
    var corrections :=
      if o.correctable then
        seq(|o.corrections|, c requires 0 <= c < |o.corrections| =>
          o.corrections[c].(location := TranslatedLocation(m, o.corrections[c].location)))
      else o.corrections;
    o.(location := TranslatedLocation(m, o.location), corrections := corrections)
  }

  /**
   * What `Rubocop.offenses` returns for a tree, given the offenses the tool
   * reports for a buffer: nothing for an empty buffer (the tool is not
   * consulted), otherwise every reported offense translated.
   */
  function ReportedOffenses(node: Node, rubocop: string -> seq<RubocopOffense>): seq<RubocopOffense> {
    var frags := Fragments(node, Pick);
    var ruby := Buffer(frags);
    if ruby == [] then []
    else
      BufferEmpty(frags);
      AnchorsLength(frags, BufferStart, HostAnchor);
      TranslatedOffenses(Anchors(frags, BufferStart, HostAnchor), rubocop(ruby))
  }

  /** Every offense of a report translated over a table. */
  function TranslatedOffenses(m: seq<PositionMapping>, reported: seq<RubocopOffense>): seq<RubocopOffense>
    requires |m| > 0
  {
    seq(|reported|, i requires 0 <= i < |reported| => TranslatedOffense(m, reported[i]))
  }

  /**
   * Translation keeps everything the tool said except positions: one offense
   * per reported offense, same severity, cop, message and correction texts;
   * corrections of an offense that is not correctable keep their buffer
   * locations.
   */
  lemma ReportedOffensesShape(node: Node, rubocop: string -> seq<RubocopOffense>)
    ensures Fragments(node, Pick) == [] ==> ReportedOffenses(node, rubocop) == []
    ensures Fragments(node, Pick) != [] ==>
      var reported := rubocop(Buffer(Fragments(node, Pick)));
      var offenses := ReportedOffenses(node, rubocop);
      |offenses| == |reported|
      && forall i :: 0 <= i < |offenses| ==>
           offenses[i].severity == reported[i].severity
           && offenses[i].copName == reported[i].copName
           && offenses[i].message == reported[i].message
           && offenses[i].correctable == reported[i].correctable
           && |offenses[i].corrections| == |reported[i].corrections|
           && (forall c :: 0 <= c < |offenses[i].corrections| ==>
                 offenses[i].corrections[c].text == reported[i].corrections[c].text)
           && (!reported[i].correctable ==> offenses[i].corrections == reported[i].corrections)
  {
    BufferEmpty(Fragments(node, Pick));
  }

  /**
   * An offense the tool reports at the buffer position of a code character
   * is reported at the template position of that character. For a tree
   * whose buffer is not empty, `ReportedOffenses` is `TranslatedOffenses`
   * over the table and the report of its fragments, so this is stated over
   * those.
   */
  lemma {:induction false} OffenseAtCode(frags: seq<Token>, reported: seq<RubocopOffense>, i: nat, k: nat, j: nat)
    requires k < |frags| && j <= |Trim(frags[k].value)|
    requires PlainLineBreaks(LeadingWhitespace(frags[k].value))
    requires i < |reported|
    requires reported[i].location.start == CodePosition(frags, k, j)
    ensures |TranslatedOffenses(Anchors(frags, BufferStart, HostAnchor), reported)| == |reported|
    ensures LeadingWhitespaceLength(frags[k].value) + j <= |frags[k].value|
    ensures TranslatedOffenses(Anchors(frags, BufferStart, HostAnchor), reported)[i].location.start
         == Advance(frags[k].location.start, frags[k].value[..LeadingWhitespaceLength(frags[k].value) + j])
  {
    AnchorsLength(frags, BufferStart, HostAnchor);
    var m := Anchors(frags, BufferStart, HostAnchor);
    assert TranslatedOffenses(m, reported)[i].location.start == Translated(m, reported[i].location.start);
    CodeTranslation(frags, k, j);
  }

  /**
   * `Rubocop.offenses`: extract the buffer, return nothing when it is empty,
   * otherwise ask the tool and overwrite the location of every offense, and
   * of every correction of a correctable offense, by its translation.
   */
  method Offenses(node: Node, rubocop: string -> seq<RubocopOffense>) returns (offenses: seq<RubocopOffense>)
    ensures offenses == ReportedOffenses(node, rubocop)
  {
    var analysis := ExtractRuby(node);
    if analysis.ruby == [] {
      return [];
    }
    BufferEmpty(Fragments(node, Pick));
    AnchorsLength(Fragments(node, Pick), BufferStart, HostAnchor);
    var mappings := analysis.mappings;
    var response := rubocop(analysis.ruby);
    offenses := response;
    for i := 0 to |response|
      invariant |offenses| == |response|
      invariant forall o :: 0 <= o < i ==> offenses[o] == TranslatedOffense(mappings, response[o])
      invariant forall o :: i <= o < |response| ==> offenses[o] == response[o]
    {
      var offense := TranslateOffense(mappings, offenses[i]);
      offenses := offenses[i := offense];
    }
  }

  /** The body of the loop of `Rubocop.offenses` for one offense. */
  method TranslateOffense(mappings: seq<PositionMapping>, offense: RubocopOffense) returns (translated: RubocopOffense)
    requires |mappings| > 0
    ensures translated == TranslatedOffense(mappings, offense)
  {
    var start := TranslatePosition(mappings, offense.location.start);
    var end := TranslatePosition(mappings, offense.location.end);
    translated := offense.(location := Location(start, end));
    if translated.correctable {
      var corrections := translated.corrections;
      for c := 0 to |corrections|
        invariant |corrections| == |offense.corrections|
        invariant forall d :: 0 <= d < c ==>
          corrections[d] == offense.corrections[d].(location := TranslatedLocation(mappings, offense.corrections[d].location))
        invariant forall d :: c <= d < |corrections| ==> corrections[d] == offense.corrections[d]
      {
        var correctionStart := TranslatePosition(mappings, corrections[c].location.start);
        var correctionEnd := TranslatePosition(mappings, corrections[c].location.end);
        corrections := corrections[c := corrections[c].(location := Location(correctionStart, correctionEnd))];
      }
      translated := translated.(corrections := corrections);
    }
  }

  /** The corrections of a list of offenses, in order (`flatMap`). */
  function AllCorrections(offenses: seq<RubocopOffense>): seq<RubocopCorrection> {
    if offenses == [] then []
    else AllCorrections(offenses[..|offenses| - 1]) + offenses[|offenses| - 1].corrections
  }

  /** A correction is in the flattening exactly when some offense carries it. */
  lemma {:induction false} AllCorrectionsMembers(offenses: seq<RubocopOffense>, c: RubocopCorrection)
    ensures c in AllCorrections(offenses) <==> exists i :: 0 <= i < |offenses| && c in offenses[i].corrections
  {
    if offenses != [] {
      var init := offenses[..|offenses| - 1];
      AllCorrectionsMembers(init, c);
      if c in AllCorrections(init) {
        var i :| 0 <= i < |init| && c in init[i].corrections;
        assert c in offenses[i].corrections;
      }
      if exists i :: 0 <= i < |offenses| && c in offenses[i].corrections {
        var i :| 0 <= i < |offenses| && c in offenses[i].corrections;
        if i < |init| {
          assert c in init[i].corrections;
        }
      }
    }
  }

  /** `Rubocop.corrections`: all corrections of all offenses of the tree. */
  method Corrections(node: Node, rubocop: string -> seq<RubocopOffense>) returns (corrections: seq<RubocopCorrection>)
    ensures corrections == AllCorrections(ReportedOffenses(node, rubocop))
  {
    var offenses := Offenses(node, rubocop);
    corrections := Flatten(offenses);
  }

  /** The corrections of each offense, in order. */
  method Flatten(offenses: seq<RubocopOffense>) returns (corrections: seq<RubocopCorrection>)
    ensures corrections == AllCorrections(offenses)
  {
    corrections := [];
    for i := 0 to |offenses|
      invariant corrections == AllCorrections(offenses[..i])
    {
      assert offenses[..i + 1][..i] == offenses[..i];
      corrections := corrections + offenses[i].corrections;
    }
    assert offenses[..|offenses|] == offenses;
  }

  /**
   * The character index in `source` of template position `position`, where
   * `source` starts at `base`: 0 above the first line, the length below the
   * last line, the column distance clamped to the text on the first line,
   * and on a later line the start of that line plus the column (unclamped).
   */
  function RelativeIndex(source: string, base: Position, position: Position): int {
    var lines := Lines(source);
    var lineDelta := position.line - base.line;
    if lineDelta < 0 then 0
    else if lineDelta > |lines| - 1 then |source|
    else if lineDelta == 0 then
      var index := position.column - base.column;
      if index < 0 then 0 else if index > |source| then |source| else index
    else LineStart(lines, lineDelta) + position.column
  }

  /** `Rubocop.getRelativeIndexFromPosition`: the line starts are summed in a loop. */
  method GetRelativeIndexFromPosition(source: string, base: Position, position: Position) returns (index: int)
    ensures index == RelativeIndex(source, base, position)
  {
    var lines := Lines(source);
    var lineDelta := position.line - base.line;
    if lineDelta < 0 {
      return 0;
    }
    if lineDelta > |lines| - 1 {
      return |source|;
    }
    if lineDelta == 0 {
      index := position.column - base.column;
      index := if |source| < index then |source| else index;
      index := if 0 > index then 0 else index;
      return;
    }
    index := |lines[0]| + 1;
    for i := 1 to lineDelta
      invariant index == LineStart(lines, i)
    {
      index := index + |lines[i]| + 1;
    }
    index := index + position.column;
  }

  /**
   * Converting back the template position reached by writing the first `k`
   * characters of `source` from `base` gives `k`: the conversion inverts
   * `Advance` on every prefix.
   */
  lemma {:induction false} RelativeIndexRoundTrip(source: string, base: Position, k: nat)
    requires k <= |source|
    ensures RelativeIndex(source, base, Advance(base, source[..k])) == k
  {
    var prefix := source[..k];
    var p := Advance(base, prefix);
    AdvanceClosedForm(base, prefix);
    LinesCount(source);
    CountPrefix(source, k, '\n');
    var d := Count(prefix, '\n');
    if d > 0 {
      var last := LastIndexOf(prefix, '\n');
      CountZero(prefix, '\n');
      CountBeforeLast(prefix, '\n');
      assert prefix[..last] == source[..last];
      LineStartAfterNewline(source, d);
      var start := LineStart(Lines(source), d);
      NewlineByRank(source, start - 1, last);
    }
  }

  /** A correction lies within the content's span: it starts at or after its start and ends at or before its end. */
  predicate InContent(content: Location, l: Location) {
    AtOrBefore(content.start, l.start) && AtOrBefore(l.end, content.end)
  }

  /** The corrections that lie within the content's span, in their order. */
  function Relevant(content: Location, corrections: seq<RubocopCorrection>): (r: seq<RubocopCorrection>)
    ensures |r| <= |corrections|
    ensures forall c :: c in r <==> c in corrections && InContent(content, c.location)
  {
    if corrections == [] then []
    else (if InContent(content, corrections[0].location) then [corrections[0]] else [])
         + Relevant(content, corrections[1..])
  }

  /** A correction projected to character indices of the content. */
  datatype Edit = Edit(text: string, startIndex: int, endIndex: int)

  function Projected(source: string, base: Position, corrections: seq<RubocopCorrection>): seq<Edit> {
    seq(|corrections|, i requires 0 <= i < |corrections| =>
      Edit(corrections[i].text,
           RelativeIndex(source, base, corrections[i].location.start),
           RelativeIndex(source, base, corrections[i].location.end)))
  }

  predicate SortedByStart(es: seq<Edit>) {
    forall a, b :: 0 <= a < b < |es| ==> es[a].startIndex <= es[b].startIndex
  }

  /** Put `e` before the first edit that does not start earlier. */
  function Insert(e: Edit, es: seq<Edit>): (r: seq<Edit>)
    requires SortedByStart(es)
    ensures SortedByStart(r)
    ensures multiset(r) == multiset(es) + multiset{e}
  {
    if es == [] || e.startIndex <= es[0].startIndex then
      SortedCons(e, es);
      [e] + es
    else
      var rest := Insert(e, es[1..]);
      InsertStep(e, es, rest);
      [es[0]] + rest
  }

  /** Putting the first edit back in front of the insertion into the rest keeps the order and the elements. */
  lemma {:induction false} InsertStep(e: Edit, es: seq<Edit>, rest: seq<Edit>)
    requires es != [] && SortedByStart(es) && es[0].startIndex < e.startIndex
    requires SortedByStart(rest) && multiset(rest) == multiset(es[1..]) + multiset{e}
    ensures SortedByStart([es[0]] + rest)
    ensures multiset([es[0]] + rest) == multiset(es) + multiset{e}
  {
    assert es == [es[0]] + es[1..];
    forall x | x in rest
      ensures es[0].startIndex <= x.startIndex
    {
      assert x in multiset(rest);
    }
    SortedCons(es[0], rest);
  }

  lemma SortedCons(x: Edit, es: seq<Edit>)
    requires SortedByStart(es)
    requires forall y :: y in es ==> x.startIndex <= y.startIndex
    ensures SortedByStart([x] + es)
  {
    forall a, b | 0 <= a < b < |[x] + es|
      ensures ([x] + es)[a].startIndex <= ([x] + es)[b].startIndex
    {
      assert ([x] + es)[b] == es[b - 1];
      if a > 0 {
        assert ([x] + es)[a] == es[a - 1];
      }
    }
  }

  /** The stable sort of the edits by start index (`Array.prototype.sort` with `a.startIndex - b.startIndex`). */
  function SortByStart(es: seq<Edit>): (r: seq<Edit>)
    ensures SortedByStart(r)
    ensures multiset(r) == multiset(es)
  {
    if es == [] then []
    else
      assert es == [es[0]] + es[1..];
      Insert(es[0], SortByStart(es[1..]))
  }

  /** `text.slice(0, startIndex) + replacement + text.slice(endIndex)`. */
  function Splice(text: string, e: Edit): string {
    SliceTo(text, e.startIndex) + e.text + SliceFrom(text, e.endIndex)
  }

  /** Apply the edits from the last one to the first. */
  function RightToLeft(text: string, es: seq<Edit>): string {
    if es == [] then text else Splice(RightToLeft(text, es[1..]), es[0])
  }

  /** What `Rubocop.applyCorrectionsToNode` returns. */
  function CorrectedContent(node: Node, corrections: seq<RubocopCorrection>): string {
    if node.content.None? then ""
    else
      var content := node.content.value;
      RightToLeft(content.value,
        SortByStart(Projected(content.value, content.location.start, Relevant(content.location, corrections))))
  }

  /** `Rubocop.applyCorrectionsToNode`. */
  method ApplyCorrectionsToNode(node: Node, corrections: seq<RubocopCorrection>) returns (updated: string)
    ensures updated == CorrectedContent(node, corrections)
  {
    if node.content.None? {
      return "";
    }
    var content := node.content.value;
    var nodeSource := content.value;
    var contentStart := content.location.start;
    var relevantCorrections := Relevant(content.location, corrections);
    var projected := ProjectEdits(nodeSource, contentStart, relevantCorrections);
    var translated := SortByStart(projected);
    updated := SpliceAll(nodeSource, translated);
  }

  /** The `map` of `Rubocop.applyCorrectionsToNode`: each correction as an edit of the content text. */
  method ProjectEdits(nodeSource: string, contentStart: Position, relevantCorrections: seq<RubocopCorrection>)
    returns (projected: seq<Edit>)
    ensures projected == Projected(nodeSource, contentStart, relevantCorrections)
  {
    projected := [];
    for i := 0 to |relevantCorrections|
      invariant projected == Projected(nodeSource, contentStart, relevantCorrections[..i])
    {
      var startIndex := GetRelativeIndexFromPosition(nodeSource, contentStart, relevantCorrections[i].location.start);
      var endIndex := GetRelativeIndexFromPosition(nodeSource, contentStart, relevantCorrections[i].location.end);
      projected := projected + [Edit(relevantCorrections[i].text, startIndex, endIndex)];
    }
    assert relevantCorrections[..|relevantCorrections|] == relevantCorrections;
  }

  /** The reverse loop of `Rubocop.applyCorrectionsToNode`: splice the edits from the last one to the first. */
  method SpliceAll(nodeSource: string, translated: seq<Edit>) returns (updated: string)
    ensures updated == RightToLeft(nodeSource, translated)
  {
    updated := nodeSource;
    var i := |translated|;
    while i > 0
      invariant 0 <= i <= |translated|
      invariant updated == RightToLeft(nodeSource, translated[i..])
    {
      i := i - 1;
      updated := SliceTo(updated, translated[i].startIndex) + translated[i].text + SliceFrom(updated, translated[i].endIndex);
      assert translated[i..][1..] == translated[i + 1..];
    }
  }


  /** Without a relevant correction the content comes back unchanged. */
  lemma NothingRelevant(node: Node, corrections: seq<RubocopCorrection>)
    requires node.content.Some?
    requires forall c :: c in corrections ==> !InContent(node.content.value.location, c.location)
    ensures CorrectedContent(node, corrections) == node.content.value.value
  {
    var content := node.content.value;
    NoneRelevant(content.location, corrections);
  }

  lemma {:induction false} NoneRelevant(content: Location, corrections: seq<RubocopCorrection>)
    requires forall c :: c in corrections ==> !InContent(content, c.location)
    ensures Relevant(content, corrections) == []
  {
    if corrections != [] {
      NoneRelevant(content, corrections[1..]);
    }
  }

  /** Edits that start at or after `from`, each ending before the next starts, and the last within `len`. */
  predicate Disjoint(es: seq<Edit>, from: int, len: int) {
    from <= len
    && (es != [] ==> from <= es[0].startIndex <= es[0].endIndex && Disjoint(es[1..], es[0].endIndex, len))
  }

  /** The text from `from` on with every edit replacing its own slice of the original `text`. */
  function Spliced(text: string, es: seq<Edit>, from: nat): string
    requires Disjoint(es, from, |text|)
    decreases |es|
  {
    if es == [] then text[from..]
    else
      assert Disjoint(es[1..], es[0].endIndex, |text|);
      text[from..es[0].startIndex] + es[0].text + Spliced(text, es[1..], es[0].endIndex)
  }

  /**
   * Right-to-left application of disjoint edits sorted by position replaces
   * exactly the slice of the original text that each edit names.
   */
  lemma {:induction false} DisjointEdits(text: string, es: seq<Edit>, from: nat)
    requires Disjoint(es, from, |text|)
    ensures RightToLeft(text, es) == text[..from] + Spliced(text, es, from)
  {
    if es != [] {
      var e := es[0];
      DisjointEdits(text, es[1..], e.endIndex);
      var rest := Spliced(text, es[1..], e.endIndex);
      var w := text[..e.endIndex] + rest;
      assert SliceTo(w, e.startIndex) == text[..e.startIndex];
      assert SliceFrom(w, e.endIndex) == rest;
      assert text[..e.startIndex] == text[..from] + text[from..e.startIndex];
    } else {
      assert text == text[..from] + text[from..];
    }
  }

  /**
   * End to end for any number of corrections: when the relevant corrections,
   * projected and sorted, form disjoint edits, each replaces exactly its own
   * slice of the content.
   */
  lemma {:induction false} CorrectedDisjoint(node: Node, corrections: seq<RubocopCorrection>)
    requires node.content.Some?
    requires Disjoint(SortByStart(Projected(node.content.value.value, node.content.value.location.start,
                                            Relevant(node.content.value.location, corrections))),
                      0, |node.content.value.value|)
    ensures CorrectedContent(node, corrections)
         == Spliced(node.content.value.value,
                    SortByStart(Projected(node.content.value.value, node.content.value.location.start,
                                          Relevant(node.content.value.location, corrections))), 0)
  {
    var v := node.content.value.value;
    var es := SortByStart(Projected(v, node.content.value.location.start, Relevant(node.content.value.location, corrections)));
    DisjointEdits(v, es, 0);
    assert v[..0] == [];
  }

  /**
   * A replacement of `[a, b)` listed before a zero-width insertion at `a`
   * stays first, since the sort is stable, so it is spliced last, over the
   * text the insertion produced. The insertion is lost and the last `|x|`
   * characters of the replaced slice survive, although the two edits do not
   * overlap.
   */
  lemma {:induction false} ReplacementBeforeInsertion(text: string, t: string, x: string, a: nat, b: nat)
    requires a < b <= |text| && |x| <= b - a
    ensures SortByStart([Edit(t, a, b), Edit(x, a, a)]) == [Edit(t, a, b), Edit(x, a, a)]
    ensures RightToLeft(text, [Edit(t, a, b), Edit(x, a, a)]) == text[..a] + t + text[b - |x|..]
  {
    var es := [Edit(t, a, b), Edit(x, a, a)];
    assert es[1..] == [Edit(x, a, a)];
    assert SortByStart([Edit(x, a, a)]) == [Edit(x, a, a)];
    var w := text[..a] + x + text[a..];
    assert es[1..][1..] == [];
    assert RightToLeft(text, es[1..]) == Splice(text, Edit(x, a, a)) == w;
    assert SliceTo(w, a) == text[..a];
    assert SliceFrom(w, b) == text[b - |x|..];
  }

  /**
   * Content made only of whitespace is still taken, and adds a bare newline
   * to the buffer.
   */
  lemma {:induction false} BlankContentAnchored(n: Node)
    requires !n.kind.Other? && n.content.Some? && n.tagOpening != Some(CommentTag)
    requires forall i :: 0 <= i < |n.content.value.value| ==> IsWhitespace(n.content.value.value[i])
    ensures Fragments(n, Pick) == [n.content.value] + FragmentsOf(n.children, Pick)
    ensures Emit(n.content.value) == "\n"
  {
    TrimBlank(n.content.value.value);
  }

  /**
   * End to end: a single correction that spans content characters `a` to
   * `b` (as template positions) replaces exactly `value[a..b]`, provided the
   * content's end is where its text ends.
   */
  lemma {:induction false} OneCorrection(node: Node, c: RubocopCorrection, a: nat, b: nat)
    requires node.content.Some?
    requires node.content.value.location.end == Advance(node.content.value.location.start, node.content.value.value)
    requires a <= b <= |node.content.value.value|
    requires c.location == Location(Advance(node.content.value.location.start, node.content.value.value[..a]),
                                    Advance(node.content.value.location.start, node.content.value.value[..b]))
    ensures CorrectedContent(node, [c])
         == node.content.value.value[..a] + c.text + node.content.value.value[b..]
  {
    var t := node.content.value;
    var v := t.value;
    var start := t.location.start;
    AdvanceForward(start, v[..a]);
    assert v == v[..b] + v[b..];
    AdvanceAppend(start, v[..b], v[b..]);
    AdvanceForward(Advance(start, v[..b]), v[b..]);
    assert InContent(t.location, c.location);
    assert Relevant(t.location, [c]) == [c];
    RelativeIndexRoundTrip(v, start, a);
    RelativeIndexRoundTrip(v, start, b);
    var e := Edit(c.text, a, b);
    assert Projected(v, start, [c]) == [e];
    assert SortByStart([e]) == [e];
    assert CorrectedContent(node, [c]) == RightToLeft(v, [e]);
    assert RightToLeft(v, [e]) == Splice(v, e);
  }
}
