/**
 * The `erb-rubocop` rule of `@herb-tools/linter`
 * (javascript/packages/linter/src/rules/erb-rubocop.ts): the extraction and
 * translation of the core bridge, turning each offense of RuboCop's JSON
 * report into a lint offense.
 *
 * RuboCop runs in another process; here it is the function parameter
 * `rubocop`, which maps the buffer to the offenses of its JSON report.
 */
module LinterErbRubocop {
  import opened Wrappers
  import opened Text
  import opened Template
  import opened Translation
  import opened Extraction

  /** Every ERB node with content is taken; there is no comment check. */
  function Pick(n: Node): Option<Token> {
    if n.kind.Other? || n.content.None? then None else n.content
  }

  /**
   * The template position recorded for a fragment: the content's start moved
   * right by the length of the leading whitespace, on the content's first
   * line whatever that whitespace holds.
   */
  function HostAnchor(t: Token): Position {
    Position(t.location.start.line, t.location.start.column + LeadingWhitespaceLength(t.value))
  }

  /**
   * The recorded line is the content's first line, short of the line of the
   * first code character by the newlines of the leading whitespace; without
   * such a newline the anchor is exactly the first code character.
   */
  lemma {:induction false} HostAnchorLine(t: Token)
    ensures HostAnchor(t).line + Count(LeadingWhitespace(t.value), '\n')
         == Advance(t.location.start, LeadingWhitespace(t.value)).line
    ensures Count(LeadingWhitespace(t.value), '\n') == 0
         ==> HostAnchor(t) == Advance(t.location.start, LeadingWhitespace(t.value))
  {
    AdvanceClosedForm(t.location.start, LeadingWhitespace(t.value));
  }

  /** Writing the first `j` code characters of fragment `k` from its anchor, compared with their template position. */
  lemma {:induction false} HostTextPosition(frags: seq<Token>, k: nat, j: nat)
    requires k < |frags| && j <= |Trim(frags[k].value)|
    ensures LeadingWhitespaceLength(frags[k].value) + j <= |frags[k].value|
    ensures Advance(HostAnchor(frags[k]), Trim(frags[k].value)[..j]).line
            + Count(LeadingWhitespace(frags[k].value), '\n')
         == Advance(frags[k].location.start, frags[k].value[..LeadingWhitespaceLength(frags[k].value) + j]).line
    ensures Count(LeadingWhitespace(frags[k].value), '\n') == 0
         ==> Advance(HostAnchor(frags[k]), Trim(frags[k].value)[..j])
             == Advance(frags[k].location.start, frags[k].value[..LeadingWhitespaceLength(frags[k].value) + j])
  {
    var t := frags[k];
    var ws := LeadingWhitespace(t.value);
    var text := Trim(t.value)[..j];
    HostAnchorLine(t);
    AdvanceAppend(t.location.start, ws, text);
    TrimmedPrefix(t.value, j);
    AdvanceLineShift(HostAnchor(t), Advance(t.location.start, ws), text);
  }

  /** The buffer position of a code character translates to the same character written from its fragment's anchor. */
  lemma {:induction false} CodeFromAnchor(frags: seq<Token>, k: nat, j: nat)
    requires k < |frags| && j <= |Trim(frags[k].value)|
    ensures |Anchors(frags, BufferStart, HostAnchor)| == |frags|
    ensures Translated(Anchors(frags, BufferStart, HostAnchor), CodePosition(frags, k, j))
         == Advance(HostAnchor(frags[k]), Trim(frags[k].value)[..j])
  {
    FragmentTranslation(frags, HostAnchor, k, j);
  }

  /**
   * End to end: the buffer position of code character `j` of fragment `k`
   * translates to a line that is short of the true one by the newlines in
   * the fragment's leading whitespace; without such newlines it translates
   * to the template position of content character `L + j` exactly.
   */
  lemma {:induction false} CodeTranslation(frags: seq<Token>, k: nat, j: nat)
    requires k < |frags| && j <= |Trim(frags[k].value)|
    ensures |Anchors(frags, BufferStart, HostAnchor)| == |frags|
    ensures LeadingWhitespaceLength(frags[k].value) + j <= |frags[k].value|
    ensures Translated(Anchors(frags, BufferStart, HostAnchor), CodePosition(frags, k, j)).line
            + Count(LeadingWhitespace(frags[k].value), '\n')
         == Advance(frags[k].location.start, frags[k].value[..LeadingWhitespaceLength(frags[k].value) + j]).line
    ensures Count(LeadingWhitespace(frags[k].value), '\n') == 0
         ==> Translated(Anchors(frags, BufferStart, HostAnchor), CodePosition(frags, k, j))
             == Advance(frags[k].location.start, frags[k].value[..LeadingWhitespaceLength(frags[k].value) + j])
  {
    CodeFromAnchor(frags, k, j);
    HostTextPosition(frags, k, j);
  }

  /** `ExtractRubyVisitor`: walks the tree and builds `source` and `mapping`. */
  class ExtractRubyVisitor {
    var source: string
    var mapping: seq<PositionMapping>

    constructor()
      ensures source == [] && mapping == []
    {
      source := [];
      mapping := [];
    }

    /** ERB nodes go to `extract_ruby`; every other node only has its children visited. */
    method Visit(n: Node)
      modifies this
      decreases n, 2
      ensures source == old(source) + Buffer(Fragments(n, Pick))
      ensures mapping == old(mapping) + Anchors(Fragments(n, Pick), SourcePosition(old(source)), HostAnchor)
    {
      if n.kind.Other? {
        VisitChildNodes(n);
        SkipStep(n, Pick);
      } else {
        ExtractRuby(n);
      }
    }

    /** `extract_ruby`. */
    method ExtractRuby(n: Node)
      requires !n.kind.Other?
      modifies this
      decreases n, 1
      ensures source == old(source) + Buffer(Fragments(n, Pick))
      ensures mapping == old(mapping) + Anchors(Fragments(n, Pick), SourcePosition(old(source)), HostAnchor)
    {
      if n.content.None? {
        VisitChildNodes(n);
        SkipStep(n, Pick);
        return;
      }
      var token := n.content.value;
      var content := TrimStart(token.value);
      var startTrimLength := |token.value| - |content|;
      content := TrimEnd(content);
      var erbPosition := Position(token.location.start.line, token.location.start.column + startTrimLength);

      mapping := mapping + [PositionMapping(SourcePosition(source), erbPosition)];
      source := source + (content + "\n");
      TakeStep(old(source), old(mapping), n, token, Pick, HostAnchor);
      VisitChildNodes(n);
    }

    method VisitChildNodes(n: Node)
      modifies this
      decreases n, 0
      ensures source == old(source) + Buffer(FragmentsOf(n.children, Pick))
      ensures mapping == old(mapping) + Anchors(FragmentsOf(n.children, Pick), SourcePosition(old(source)), HostAnchor)
    {
      for i := 0 to |n.children|
        invariant source == old(source) + Buffer(FragmentsOf(n.children[..i], Pick))
        invariant mapping == old(mapping) + Anchors(FragmentsOf(n.children[..i], Pick), SourcePosition(old(source)), HostAnchor)
      {
        ChildStep(old(source), old(mapping), n.children, i, Pick, HostAnchor);
        Visit(n.children[i]);
      }
      assert n.children[..|n.children|] == n.children;
    }
  }

  /** Reading a field of `mapping[-1]` (undefined) when the table is empty. */
  datatype TypeError = UndefinedMapping

  /**
   * `ERBRubocopRule.translate_position`: the same search and shift as the
   * other translators; with an empty table there is no anchor to read and
   * the call fails.
   */
  method TranslatePosition(mapping: seq<PositionMapping>, rubyPosition: Position) returns (r: Result<Position, TypeError>)
    ensures |mapping| == 0 ==> r == Failure(UndefinedMapping)
    ensures |mapping| > 0 ==> r == Success(Translated(mapping, rubyPosition))
  {
    var relevantMapping: Option<PositionMapping> := None;
    var i := 0;
    while i < |mapping|
      invariant 0 <= i <= |mapping|
      invariant relevantMapping.None?
      invariant forall j :: 0 <= j < i ==> AtOrBefore(mapping[j].ruby, rubyPosition)
    {
      if mapping[i].ruby.line > rubyPosition.line
         || (mapping[i].ruby.line == rubyPosition.line && mapping[i].ruby.column > rubyPosition.column) {
        if i > 0 {
          relevantMapping := Some(mapping[i - 1]);
        }
        break;
      }
      i := i + 1;
    }
    FirstAfterIs(mapping, rubyPosition, i);
    if relevantMapping.None? {
      if |mapping| == 0 {
        return Failure(UndefinedMapping);
      }
      relevantMapping := Some(mapping[|mapping| - 1]);
    }
    var anchor := relevantMapping.value;
    var lineOffset := anchor.erb.line - anchor.ruby.line;
    var columnOffset := if rubyPosition.line == anchor.ruby.line then anchor.erb.column - anchor.ruby.column else 0;
    r := Success(Position(rubyPosition.line + lineOffset, rubyPosition.column + columnOffset));
  }

  /** The severities of a lint offense. */
  datatype LintSeverity = Error | Warning | Info | Hint

  /** `rubocopToLspSeverity`. */
  const RubocopToLspSeverity: map<string, LintSeverity> :=
    map["info" := Hint, "refactor" := Info, "convention" := Info,
        "warning" := Warning, "error" := Error, "fatal" := Error]

  /**
   * Looking a severity up in the table: `info` becomes a hint, `refactor`
   * and `convention` become info, `warning` a warning, `error` and `fatal`
   * errors; any other name gives `undefined`.
   */
  function LspSeverity(severity: string): (r: Option<LintSeverity>)
    ensures severity == "info" ==> r == Some(Hint)
    ensures severity == "refactor" || severity == "convention" ==> r == Some(Info)
    ensures severity == "warning" ==> r == Some(Warning)
    ensures severity == "error" || severity == "fatal" ==> r == Some(Error)
    ensures r.None? <==> severity !in {"info", "refactor", "convention", "warning", "error", "fatal"}
  {
    if severity in RubocopToLspSeverity then Some(RubocopToLspSeverity[severity]) else None
  }

  /**
   * Each lint severity comes from exactly the RuboCop severities named above:
   * only `info` gives a hint, only `refactor` and `convention` give info,
   * only `warning` a warning, and only `error` and `fatal` an error.
   */
  lemma SeverityTable(severity: string)
    ensures LspSeverity(severity) == Some(Hint) <==> severity == "info"
    ensures LspSeverity(severity) == Some(Info) <==> severity == "refactor" || severity == "convention"
    ensures LspSeverity(severity) == Some(Warning) <==> severity == "warning"
    ensures LspSeverity(severity) == Some(Error) <==> severity == "error" || severity == "fatal"
  {
  }

  /** The rule's name, used as both `rule` and `code`. */
  const RuleName := "erb-rubocop"

  const LinterSource := "Herb Linter"

  /** The location of an offense in RuboCop's JSON report: 1-based start column. */
  datatype OffenseLocation = OffenseLocation(startLine: int, startColumn: int, lastLine: int, lastColumn: int)

  /** One offense of the JSON report, as far as the rule reads it. */
  datatype OffenseJson = OffenseJson(location: OffenseLocation, message: string, severity: string)

  datatype LintOffense = LintOffense(
    rule: string, code: string, source: string, message: string,
    severity: Option<LintSeverity>, location: Location)

  /** The buffer range of an offense: the start column made 0-based, the last column taken as is. */
  function ToolRange(l: OffenseLocation): Location {
    Location(Position(l.startLine, l.startColumn - 1), Position(l.lastLine, l.lastColumn))
  }

  /** The lint offense for one report entry. */
  function LintOffenseOf(m: seq<PositionMapping>, o: OffenseJson): LintOffense
    requires |m| > 0
  {
    var range := ToolRange(o.location);
    LintOffense(RuleName, RuleName, LinterSource, o.message, LspSeverity(o.severity),
                Location(Translated(m, range.start), Translated(m, range.end)))
  }

  /**
   * What `ERBRubocopRule.check` returns for a tree. The tool is asked even
   * for an empty buffer. An empty report gives no offenses; a non-empty
   * report over a tree without fragments fails when translating the first
   * offense; otherwise each entry becomes a lint offense.
   */
  function CheckResult(node: Node, rubocop: string -> seq<OffenseJson>): Result<seq<LintOffense>, TypeError> {
    var frags := Fragments(node, Pick);
    MappedOffenses(Anchors(frags, BufferStart, HostAnchor), rubocop(Buffer(frags)))
  }

  /** The offenses of a report over a table; what the loop of `ERBRubocopRule.check` computes. */
  function MappedOffenses(m: seq<PositionMapping>, report: seq<OffenseJson>): Result<seq<LintOffense>, TypeError> {
    if report == [] then Success([])
    else if m == [] then Failure(UndefinedMapping)
    else Success(seq(|report|, i requires 0 <= i < |report| => LintOffenseOf(m, report[i])))
  }

  /** Entry `i` of the offenses over a non-empty table is the lint offense of report entry `i`. */
  lemma MappedAt(m: seq<PositionMapping>, report: seq<OffenseJson>, i: nat)
    requires |m| > 0 && i < |report|
    ensures MappedOffenses(m, report).Success?
    ensures |MappedOffenses(m, report).value| == |report|
    ensures MappedOffenses(m, report).value[i] == LintOffenseOf(m, report[i])
  {
  }

  /**
   * The rule fails exactly when the report is not empty and the tree has no
   * fragments; otherwise it emits one offense per report entry, in order,
   * named after the rule, from the linter, with the entry's message and its
   * severity looked up in the table.
   */
  lemma CheckShape(node: Node, rubocop: string -> seq<OffenseJson>)
    ensures CheckResult(node, rubocop).Failure? <==>
      Fragments(node, Pick) == [] && rubocop(Buffer(Fragments(node, Pick))) != []
    ensures rubocop(Buffer(Fragments(node, Pick))) == [] ==> CheckResult(node, rubocop) == Success([])
    ensures CheckResult(node, rubocop).Success? ==>
      var report := rubocop(Buffer(Fragments(node, Pick)));
      var offenses := CheckResult(node, rubocop).value;
      |offenses| == |report|
      && forall i :: 0 <= i < |offenses| ==>
           offenses[i].rule == RuleName && offenses[i].code == RuleName
           && offenses[i].source == LinterSource
           && offenses[i].message == report[i].message
           && offenses[i].severity == LspSeverity(report[i].severity)
  {
  }

  /**
   * An offense whose 1-based start column, made 0-based, is the buffer
   * position of a code character starts, in the result, at that character's
   * template position when the fragment's leading whitespace has no newline.
   * `CheckResult` of a tree is `MappedOffenses` over the table and the report
   * of its fragments, so this is stated over those.
   */
  lemma {:induction false} OffenseAtCode(frags: seq<Token>, report: seq<OffenseJson>, i: nat, k: nat, j: nat)
    requires k < |frags| && j <= |Trim(frags[k].value)|
    requires Count(LeadingWhitespace(frags[k].value), '\n') == 0
    requires i < |report|
    requires ToolRange(report[i].location).start == CodePosition(frags, k, j)
    ensures MappedOffenses(Anchors(frags, BufferStart, HostAnchor), report).Success?
    ensures |MappedOffenses(Anchors(frags, BufferStart, HostAnchor), report).value| == |report|
    ensures LeadingWhitespaceLength(frags[k].value) + j <= |frags[k].value|
    ensures MappedOffenses(Anchors(frags, BufferStart, HostAnchor), report).value[i].location.start
         == Advance(frags[k].location.start, frags[k].value[..LeadingWhitespaceLength(frags[k].value) + j])
  {
    AnchorsLength(frags, BufferStart, HostAnchor);
    var m := Anchors(frags, BufferStart, HostAnchor);
    MappedAt(m, report, i);
    var offense := MappedOffenses(m, report).value[i];
    CodeAt(frags, offense, k, j);
  }

  /** An offense translated from the buffer position of a code character starts at that character's template position. */
  lemma {:induction false} CodeAt(frags: seq<Token>, offense: LintOffense, k: nat, j: nat)
    requires k < |frags| && j <= |Trim(frags[k].value)|
    requires Count(LeadingWhitespace(frags[k].value), '\n') == 0
    requires |Anchors(frags, BufferStart, HostAnchor)| > 0
    requires offense.location.start == Translated(Anchors(frags, BufferStart, HostAnchor), CodePosition(frags, k, j))
    ensures LeadingWhitespaceLength(frags[k].value) + j <= |frags[k].value|
    ensures offense.location.start
         == Advance(frags[k].location.start, frags[k].value[..LeadingWhitespaceLength(frags[k].value) + j])
  {
    CodeTranslation(frags, k, j);
  }

  /**
   * An offense the report places on one buffer line (start column at least
   * 1, last column at least 0) is placed on one template line.
   */
  lemma OneLineOffense(node: Node, rubocop: string -> seq<OffenseJson>, i: nat)
    requires CheckResult(node, rubocop).Success?
    requires i < |rubocop(Buffer(Fragments(node, Pick)))|
    requires rubocop(Buffer(Fragments(node, Pick)))[i].location.startLine
          == rubocop(Buffer(Fragments(node, Pick)))[i].location.lastLine
    requires rubocop(Buffer(Fragments(node, Pick)))[i].location.startColumn >= 1
    requires rubocop(Buffer(Fragments(node, Pick)))[i].location.lastColumn >= 0
    ensures |CheckResult(node, rubocop).value| == |rubocop(Buffer(Fragments(node, Pick)))|
    ensures CheckResult(node, rubocop).value[i].location.start.line
         == CheckResult(node, rubocop).value[i].location.end.line
  {
    var frags := Fragments(node, Pick);
    AnchorsIncrease(frags, HostAnchor);
    var m := Anchors(frags, BufferStart, HostAnchor);
    var range := ToolRange(rubocop(Buffer(frags))[i].location);
    SameLineSameAnchor(m, range.start, range.end);
  }

  /**
   * `ERBRubocopRule.check`: extract the buffer, ask the tool, and build one
   * lint offense per report entry; translating fails on an empty table.
   */
  method Check(node: Node, rubocop: string -> seq<OffenseJson>) returns (result: Result<seq<LintOffense>, TypeError>)
    ensures result == CheckResult(node, rubocop)
  {
    var visitor := new ExtractRubyVisitor();
    EmptyBufferStart();
    visitor.Visit(node);
    var mapping := visitor.mapping;
    var json := rubocop(visitor.source);
    AnchorsLength(Fragments(node, Pick), BufferStart, HostAnchor);
    assert visitor.source == Buffer(Fragments(node, Pick));
    assert mapping == Anchors(Fragments(node, Pick), BufferStart, HostAnchor);
    result := MapOffenses(mapping, json);
  }

  /** The loop of `ERBRubocopRule.check` over the entries of the report. */
  method MapOffenses(mapping: seq<PositionMapping>, json: seq<OffenseJson>) returns (result: Result<seq<LintOffense>, TypeError>)
    ensures result == MappedOffenses(mapping, json)
  {
    var offenses: seq<LintOffense> := [];
    for i := 0 to |json|
      invariant |offenses| == i
      invariant i > 0 ==> |mapping| > 0
      invariant forall o :: 0 <= o < i ==> |mapping| > 0 && offenses[o] == LintOffenseOf(mapping, json[o])
    {
      var rubyLocation := ToolRange(json[i].location);
      var start := TranslatePosition(mapping, rubyLocation.start);
      if start.Failure? {
        return Failure(start.error);
      }
      var end := TranslatePosition(mapping, rubyLocation.end);
      var erbLocation := Location(start.value, end.value);
      offenses := offenses + [LintOffense(RuleName, RuleName, LinterSource, json[i].message,
                                          LspSeverity(json[i].severity), erbLocation)];
    }
    if json != [] {
      assert offenses == seq(|json|, i requires 0 <= i < |json| => LintOffenseOf(mapping, json[i]));
    }
    return Success(offenses);
  }
}
