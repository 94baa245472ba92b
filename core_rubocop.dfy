/**
 * The RuboCop bridge of `@herb-tools/core` (javascript/packages/core/src/rubocop.ts):
 * the same extraction and translation as the RuboCop package, with a simpler
 * anchor, no comment check, and the tool's JSON read field by field.
 *
 * RuboCop runs in another process; here it is the function parameter
 * `rubocop`, which maps the buffer to the offenses of its JSON report.
 */
module CoreRubocop {
  import opened Wrappers
  import opened Text
  import opened Template
  import opened Translation
  import opened Extraction

  /** Every ERB node with content is taken; there is no comment check. */
  function Pick(n: Node): Option<Token> {
    if n.kind.Other? || n.content.None? then None else n.content
  }

  /**
   * The template position recorded for a fragment: the content's start moved
   * right by the length of the leading whitespace, on the content's first
   * line whatever that whitespace holds.
   */
  function HostAnchor(t: Token): Position {
    Position(t.location.start.line, t.location.start.column + LeadingWhitespaceLength(t.value))
  }

  /**
   * The recorded line is the content's first line, short of the line of the
   * first code character by the newlines of the leading whitespace; without
   * such a newline the anchor is exactly the first code character.
   */
  lemma {:induction false} HostAnchorLine(t: Token)
    ensures HostAnchor(t).line + Count(LeadingWhitespace(t.value), '\n')
         == Advance(t.location.start, LeadingWhitespace(t.value)).line
    ensures Count(LeadingWhitespace(t.value), '\n') == 0
         ==> HostAnchor(t) == Advance(t.location.start, LeadingWhitespace(t.value))
  {
    AdvanceClosedForm(t.location.start, LeadingWhitespace(t.value));
  }

  /** Writing the first `j` code characters of fragment `k` from its anchor, compared with their template position. */
  lemma {:induction false} HostTextPosition(frags: seq<Token>, k: nat, j: nat)
    requires k < |frags| && j <= |Trim(frags[k].value)|
    ensures LeadingWhitespaceLength(frags[k].value) + j <= |frags[k].value|
    ensures Advance(HostAnchor(frags[k]), Trim(frags[k].value)[..j]).line
            + Count(LeadingWhitespace(frags[k].value), '\n')
         == Advance(frags[k].location.start, frags[k].value[..LeadingWhitespaceLength(frags[k].value) + j]).line
    ensures Count(LeadingWhitespace(frags[k].value), '\n') == 0
         ==> Advance(HostAnchor(frags[k]), Trim(frags[k].value)[..j])
             == Advance(frags[k].location.start, frags[k].value[..LeadingWhitespaceLength(frags[k].value) + j])
  {
    var t := frags[k];
    var ws := LeadingWhitespace(t.value);
    var text := Trim(t.value)[..j];
    HostAnchorLine(t);
    AdvanceAppend(t.location.start, ws, text);
    TrimmedPrefix(t.value, j);
    AdvanceLineShift(HostAnchor(t), Advance(t.location.start, ws), text);
  }

  /** The buffer position of a code character translates to the same character written from its fragment's anchor. */
  lemma {:induction false} CodeFromAnchor(frags: seq<Token>, k: nat, j: nat)
    requires k < |frags| && j <= |Trim(frags[k].value)|
    ensures |Anchors(frags, BufferStart, HostAnchor)| == |frags|
    ensures Translated(Anchors(frags, BufferStart, HostAnchor), CodePosition(frags, k, j))
         == Advance(HostAnchor(frags[k]), Trim(frags[k].value)[..j])
  {
    FragmentTranslation(frags, HostAnchor, k, j);
  }

  /**
   * End to end: the buffer position of code character `j` of fragment `k`
   * translates to a line that is short of the true one by the newlines in
   * the fragment's leading whitespace; without such newlines it translates
   * to the template position of content character `L + j` exactly.
   */
  lemma {:induction false} CodeTranslation(frags: seq<Token>, k: nat, j: nat)
    requires k < |frags| && j <= |Trim(frags[k].value)|
    ensures |Anchors(frags, BufferStart, HostAnchor)| == |frags|
    ensures LeadingWhitespaceLength(frags[k].value) + j <= |frags[k].value|
    ensures Translated(Anchors(frags, BufferStart, HostAnchor), CodePosition(frags, k, j)).line
            + Count(LeadingWhitespace(frags[k].value), '\n')
         == Advance(frags[k].location.start, frags[k].value[..LeadingWhitespaceLength(frags[k].value) + j]).line
    ensures Count(LeadingWhitespace(frags[k].value), '\n') == 0
         ==> Translated(Anchors(frags, BufferStart, HostAnchor), CodePosition(frags, k, j))
             == Advance(frags[k].location.start, frags[k].value[..LeadingWhitespaceLength(frags[k].value) + j])
  {
    CodeFromAnchor(frags, k, j);
    HostTextPosition(frags, k, j);
  }

  /** `ExtractRubyVisitor`: walks the tree and builds `source` and `mapping`. */
  class ExtractRubyVisitor {
    var source: string
    var mapping: seq<PositionMapping>

    constructor()
      ensures source == [] && mapping == []
    {
      source := [];
      mapping := [];
    }

    /** ERB nodes go to `extract_ruby`; every other node only has its children visited. */
    method Visit(n: Node)
      modifies this
      decreases n, 2
      ensures source == old(source) + Buffer(Fragments(n, Pick))
      ensures mapping == old(mapping) + Anchors(Fragments(n, Pick), SourcePosition(old(source)), HostAnchor)
    {
      if n.kind.Other? {
        VisitChildNodes(n);
        SkipStep(n, Pick);
      } else {
        ExtractRuby(n);
      }
    }

    /** `extract_ruby`. */
    method ExtractRuby(n: Node)
      requires !n.kind.Other?
      modifies this
      decreases n, 1
      ensures source == old(source) + Buffer(Fragments(n, Pick))
      ensures mapping == old(mapping) + Anchors(Fragments(n, Pick), SourcePosition(old(source)), HostAnchor)
    {
      if n.content.None? {
        VisitChildNodes(n);
        SkipStep(n, Pick);
        return;
      }
      var token := n.content.value;
      var content := TrimStart(token.value);
      var startTrimLength := |token.value| - |content|;
      content := TrimEnd(content);
      var erbPosition := Position(token.location.start.line, token.location.start.column + startTrimLength);

      mapping := mapping + [PositionMapping(SourcePosition(source), erbPosition)];
      source := source + (content + "\n");
      TakeStep(old(source), old(mapping), n, token, Pick, HostAnchor);
      VisitChildNodes(n);
    }

    method VisitChildNodes(n: Node)
      modifies this
      decreases n, 0
      ensures source == old(source) + Buffer(FragmentsOf(n.children, Pick))
      ensures mapping == old(mapping) + Anchors(FragmentsOf(n.children, Pick), SourcePosition(old(source)), HostAnchor)
    {
      for i := 0 to |n.children|
        invariant source == old(source) + Buffer(FragmentsOf(n.children[..i], Pick))
        invariant mapping == old(mapping) + Anchors(FragmentsOf(n.children[..i], Pick), SourcePosition(old(source)), HostAnchor)
      {
        ChildStep(old(source), old(mapping), n.children, i, Pick, HostAnchor);
        Visit(n.children[i]);
      }
      assert n.children[..|n.children|] == n.children;
    }
  }

  /** `Rubocop.translate_position`: the same search and shift as the other translators. */
  method TranslatePosition(mapping: seq<PositionMapping>, rubyPosition: Position) returns (r: Position)
    requires |mapping| > 0
    ensures r == Translated(mapping, rubyPosition)
  {
    var relevantMapping: Option<PositionMapping> := None;
    var i := 0;
    while i < |mapping|
      invariant 0 <= i <= |mapping|
      invariant relevantMapping.None?
      invariant forall j :: 0 <= j < i ==> AtOrBefore(mapping[j].ruby, rubyPosition)
    {
      if mapping[i].ruby.line > rubyPosition.line
         || (mapping[i].ruby.line == rubyPosition.line && mapping[i].ruby.column > rubyPosition.column) {
        if i > 0 {
          relevantMapping := Some(mapping[i - 1]);
        }
        break;
      }
      i := i + 1;
    }
    FirstAfterIs(mapping, rubyPosition, i);
    if relevantMapping.None? {
      relevantMapping := Some(mapping[|mapping| - 1]);
    }
    var anchor := relevantMapping.value;
    var lineOffset := anchor.erb.line - anchor.ruby.line;
    var columnOffset := if rubyPosition.line == anchor.ruby.line then anchor.erb.column - anchor.ruby.column else 0;
    r := Position(rubyPosition.line + lineOffset, rubyPosition.column + columnOffset);
  }

  /** The location of an offense in RuboCop's JSON report: 1-based start column. */
  datatype OffenseLocation = OffenseLocation(startLine: int, startColumn: int, lastLine: int, lastColumn: int)

  /** One replacement of the corrector: a buffer range and its new text. */
  datatype Replacement = Replacement(range: Location, text: string)

  /** One offense of the JSON report; `replacements` is null when the cop has no corrector. */
  datatype OffenseJson = OffenseJson(
    location: OffenseLocation, message: string, severity: string, replacements: Option<seq<Replacement>>)

  datatype RubocopCorrection = RubocopCorrection(location: Location, replacement: string)

  datatype RubocopOffense = RubocopOffense(
    location: Location, message: string, severity: string, corrections: seq<RubocopCorrection>)

  /** The buffer range of an offense: the start column made 0-based, the last column taken as is. */
  function ToolRange(l: OffenseLocation): Location {
    Location(Position(l.startLine, l.startColumn - 1), Position(l.lastLine, l.lastColumn))
  }

  function TranslatedLocation(m: seq<PositionMapping>, l: Location): Location
    requires |m| > 0
  {
    Location(Translated(m, l.start), Translated(m, l.end))
  }

  /** The offense built from a report entry whose replacements are `rs`. */
  function ConvertedOffense(m: seq<PositionMapping>, o: OffenseJson, rs: seq<Replacement>): RubocopOffense
    requires |m| > 0
  {
    RubocopOffense(
      TranslatedLocation(m, ToolRange(o.location)), o.message, o.severity,
      seq(|rs|, c requires 0 <= c < |rs| => RubocopCorrection(TranslatedLocation(m, rs[c].range), rs[c].text)))
  }

  /** The index of the first entry without replacements, or `|report|`. */
  function FirstWithoutReplacements(report: seq<OffenseJson>): (i: nat)
    ensures i <= |report|
    ensures forall o :: 0 <= o < i ==> report[o].replacements.Some?
    ensures i < |report| ==> report[i].replacements.None?
  {
    if report == [] then 0
    else if report[0].replacements.None? then 0
    else 1 + FirstWithoutReplacements(report[1..])
  }

  /**
   * The offenses built from a report: when every entry has replacements, one
   * offense per entry; when one has none, iterating over null fails at the
   * first such entry (reported here by its index).
   */
  function ConvertedReport(m: seq<PositionMapping>, report: seq<OffenseJson>): Result<seq<RubocopOffense>, nat>
    requires |m| > 0
  {
    var i := FirstWithoutReplacements(report);
    if i < |report| then Failure(i)
    else Success(seq(|report|, o requires 0 <= o < |report| => ConvertedOffense(m, report[o], report[o].replacements.value)))
  }

  /** What `Rubocop.offenses` gives for a tree: nothing for an empty buffer, otherwise the converted report. */
  function ReportedOffenses(node: Node, rubocop: string -> seq<OffenseJson>): Result<seq<RubocopOffense>, nat> {
    var frags := Fragments(node, Pick);
    var source := Buffer(frags);
    if source == [] then Success([])
    else
      BufferEmpty(frags);
      AnchorsLength(frags, BufferStart, HostAnchor);
      ConvertedReport(Anchors(frags, BufferStart, HostAnchor), rubocop(source))
  }

  /**
   * The result fails exactly when the buffer is not empty and some entry has
   * no replacements; otherwise it holds one offense per entry, in order, with
   * the entry's message and severity and one correction per replacement,
   * keeping the replacement text.
   */
  lemma ReportedOffensesShape(node: Node, rubocop: string -> seq<OffenseJson>)
    ensures Fragments(node, Pick) == [] ==> ReportedOffenses(node, rubocop) == Success([])
    ensures ReportedOffenses(node, rubocop).Failure? <==>
      Fragments(node, Pick) != []
      && exists i :: 0 <= i < |rubocop(Buffer(Fragments(node, Pick)))|
                     && rubocop(Buffer(Fragments(node, Pick)))[i].replacements.None?
    ensures ReportedOffenses(node, rubocop).Success? && Fragments(node, Pick) != [] ==>
      var report := rubocop(Buffer(Fragments(node, Pick)));
      var offenses := ReportedOffenses(node, rubocop).value;
      |offenses| == |report|
      && forall i :: 0 <= i < |offenses| ==>
           report[i].replacements.Some?
           && offenses[i].message == report[i].message
           && offenses[i].severity == report[i].severity
           && |offenses[i].corrections| == |report[i].replacements.value|
           && forall c :: 0 <= c < |offenses[i].corrections| ==>
                offenses[i].corrections[c].replacement == report[i].replacements.value[c].text
  {
    BufferEmpty(Fragments(node, Pick));
  }

  /**
   * An offense whose 1-based start column, made 0-based, is the buffer
   * position of a code character starts, in the result, at that character's
   * template position when the fragment's leading whitespace has no newline.
   * For a tree whose buffer is not empty, `ReportedOffenses` is
   * `ConvertedReport` over the table and the report of its fragments, so
   * this is stated over those.
   */
  lemma {:induction false} OffenseAtCode(frags: seq<Token>, report: seq<OffenseJson>, i: nat, k: nat, j: nat)
    requires k < |frags| && j <= |Trim(frags[k].value)|
    requires Count(LeadingWhitespace(frags[k].value), '\n') == 0
    requires ConvertedReport(Anchors(frags, BufferStart, HostAnchor), report).Success?
    requires i < |report|
    requires ToolRange(report[i].location).start == CodePosition(frags, k, j)
    ensures |ConvertedReport(Anchors(frags, BufferStart, HostAnchor), report).value| == |report|
    ensures LeadingWhitespaceLength(frags[k].value) + j <= |frags[k].value|
    ensures ConvertedReport(Anchors(frags, BufferStart, HostAnchor), report).value[i].location.start
         == Advance(frags[k].location.start, frags[k].value[..LeadingWhitespaceLength(frags[k].value) + j])
  {
    AnchorsLength(frags, BufferStart, HostAnchor);
    var m := Anchors(frags, BufferStart, HostAnchor);
    ConvertedAt(m, report, i);
    var offense := ConvertedReport(m, report).value[i];
    CodeAt(frags, offense, k, j);
  }

  /** Entry `i` of a successful conversion is the conversion of report entry `i`. */
  lemma ConvertedAt(m: seq<PositionMapping>, report: seq<OffenseJson>, i: nat)
    requires |m| > 0 && ConvertedReport(m, report).Success? && i < |report|
    ensures |ConvertedReport(m, report).value| == |report|
    ensures report[i].replacements.Some?
    ensures ConvertedReport(m, report).value[i] == ConvertedOffense(m, report[i], report[i].replacements.value)
  {
  }

  /** An offense translated from the buffer position of a code character starts at that character's template position. */
  lemma {:induction false} CodeAt(frags: seq<Token>, offense: RubocopOffense, k: nat, j: nat)
    requires k < |frags| && j <= |Trim(frags[k].value)|
    requires Count(LeadingWhitespace(frags[k].value), '\n') == 0
    requires |Anchors(frags, BufferStart, HostAnchor)| > 0
    requires offense.location.start == Translated(Anchors(frags, BufferStart, HostAnchor), CodePosition(frags, k, j))
    ensures LeadingWhitespaceLength(frags[k].value) + j <= |frags[k].value|
    ensures offense.location.start
         == Advance(frags[k].location.start, frags[k].value[..LeadingWhitespaceLength(frags[k].value) + j])
  {
    CodeTranslation(frags, k, j);
  }

  /**
   * `Rubocop.offenses`: extract the buffer, return nothing when it is empty,
   * otherwise build one offense per report entry with its translated range
   * and one correction per replacement.
   */
  method Offenses(node: Node, rubocop: string -> seq<OffenseJson>) returns (result: Result<seq<RubocopOffense>, nat>)
    ensures result == ReportedOffenses(node, rubocop)
  {
    var visitor := new ExtractRubyVisitor();
    EmptyBufferStart();
    visitor.Visit(node);
    if visitor.source == [] {
      return Success([]);
    }
    BufferEmpty(Fragments(node, Pick));
    AnchorsLength(Fragments(node, Pick), BufferStart, HostAnchor);
    var mapping := visitor.mapping;
    var json := rubocop(visitor.source);
    assert ReportedOffenses(node, rubocop) == ConvertedReport(mapping, json) by {
      assert visitor.source == Buffer(Fragments(node, Pick));
      assert mapping == Anchors(Fragments(node, Pick), BufferStart, HostAnchor);
    }
    result := ConvertReport(mapping, json);
  }

  /** The loop of `Rubocop.offenses` over the entries of the report. */
  method ConvertReport(mapping: seq<PositionMapping>, json: seq<OffenseJson>) returns (result: Result<seq<RubocopOffense>, nat>)
    requires |mapping| > 0
    ensures result == ConvertedReport(mapping, json)
  {
    var offenses: seq<RubocopOffense> := [];
    for i := 0 to |json|
      invariant |offenses| == i
      invariant forall o :: 0 <= o < i ==>
        json[o].replacements.Some? && offenses[o] == ConvertedOffense(mapping, json[o], json[o].replacements.value)
    {
      var offense := ConvertOffense(mapping, json[i]);
      if offense.None? {
        ConvertedFailure(mapping, json, i);
        return Failure(i);
      }
      offenses := offenses + [offense.value];
    }
    ConvertedSuccess(mapping, json, offenses);
    return Success(offenses);
  }

  /** The conversion fails at the first entry without replacements. */
  lemma ConvertedFailure(mapping: seq<PositionMapping>, json: seq<OffenseJson>, i: nat)
    requires |mapping| > 0 && i < |json| && json[i].replacements.None?
    requires forall o :: 0 <= o < i ==> json[o].replacements.Some?
    ensures ConvertedReport(mapping, json) == Failure(i)
  {
    FirstAfterNone(json, i);
  }

  /** When every entry has replacements, the conversion is the entries converted one by one. */
  lemma ConvertedSuccess(mapping: seq<PositionMapping>, json: seq<OffenseJson>, offenses: seq<RubocopOffense>)
    requires |mapping| > 0 && |offenses| == |json|
    requires forall o :: 0 <= o < |json| ==>
      json[o].replacements.Some? && offenses[o] == ConvertedOffense(mapping, json[o], json[o].replacements.value)
    ensures ConvertedReport(mapping, json) == Success(offenses)
  {
    FirstAfterNone(json, |json|);
    assert offenses == seq(|json|, o requires 0 <= o < |json| => ConvertedOffense(mapping, json[o], json[o].replacements.value));
  }

  /**
   * The body of the loop of `Rubocop.offenses` for one report entry: nothing
   * when iterating over its replacements fails because there are none.
   */
  method ConvertOffense(mapping: seq<PositionMapping>, offenseJson: OffenseJson) returns (offense: Option<RubocopOffense>)
    requires |mapping| > 0
    ensures offenseJson.replacements.None? ==> offense.None?
    ensures offenseJson.replacements.Some? ==>
      offense == Some(ConvertedOffense(mapping, offenseJson, offenseJson.replacements.value))
  {
    var range := ToolRange(offenseJson.location);
    var start := TranslatePosition(mapping, range.start);
    var end := TranslatePosition(mapping, range.end);
    var offenseLocation := Location(start, end);
    if offenseJson.replacements.None? {
      return None;
    }
    var replacements := offenseJson.replacements.value;
    var corrections: seq<RubocopCorrection> := [];
    for c := 0 to |replacements|
      invariant |corrections| == c
      invariant forall d :: 0 <= d < c ==>
        corrections[d] == RubocopCorrection(TranslatedLocation(mapping, replacements[d].range), replacements[d].text)
    {
      var rubyLocation := Location(replacements[c].range.start, replacements[c].range.end);
      var erbStart := TranslatePosition(mapping, rubyLocation.start);
      var erbEnd := TranslatePosition(mapping, rubyLocation.end);
      corrections := corrections + [RubocopCorrection(Location(erbStart, erbEnd), replacements[c].text)];
    }
    assert corrections == ConvertedOffense(mapping, offenseJson, replacements).corrections;
    offense := Some(RubocopOffense(offenseLocation, offenseJson.message, offenseJson.severity, corrections));
  }

  /** When every entry before `i` has replacements, the first one without is at `i` or later, and at `i` if `i` has none. */
  lemma {:induction false} FirstAfterNone(report: seq<OffenseJson>, i: nat)
    requires i <= |report|
    requires forall o :: 0 <= o < i ==> report[o].replacements.Some?
    ensures i <= FirstWithoutReplacements(report)
    ensures i < |report| && report[i].replacements.None? ==> FirstWithoutReplacements(report) == i
  {
    if i > 0 {
      FirstAfterNone(report[1..], i - 1);
    }
  }

  /** The corrections of a list of offenses, in order (`flatMap`). */
  function AllCorrections(offenses: seq<RubocopOffense>): seq<RubocopCorrection> {
    if offenses == [] then []
    else AllCorrections(offenses[..|offenses| - 1]) + offenses[|offenses| - 1].corrections
  }

  /** A correction is in the flattening exactly when some offense carries it. */
  lemma {:induction false} AllCorrectionsMembers(offenses: seq<RubocopOffense>, c: RubocopCorrection)
    ensures c in AllCorrections(offenses) <==> exists i :: 0 <= i < |offenses| && c in offenses[i].corrections
  {
    if offenses != [] {
      var init := offenses[..|offenses| - 1];
      AllCorrectionsMembers(init, c);
      if c in AllCorrections(init) {
        var i :| 0 <= i < |init| && c in init[i].corrections;
        assert c in offenses[i].corrections;
      }
      if exists i :: 0 <= i < |offenses| && c in offenses[i].corrections {
        var i :| 0 <= i < |offenses| && c in offenses[i].corrections;
        if i < |init| {
          assert c in init[i].corrections;
        }
      }
    }
  }

  /** `Rubocop.corrections`: all corrections of all offenses, failing where `offenses` fails. */
  method Corrections(node: Node, rubocop: string -> seq<OffenseJson>) returns (result: Result<seq<RubocopCorrection>, nat>)
    ensures ReportedOffenses(node, rubocop).Failure? ==> result == Failure(ReportedOffenses(node, rubocop).error)
    ensures ReportedOffenses(node, rubocop).Success? ==> result == Success(AllCorrections(ReportedOffenses(node, rubocop).value))
  {
    var offenses := Offenses(node, rubocop);
    if offenses.Failure? {
      return Failure(offenses.error);
    }
    var corrections := Flatten(offenses.value);
    return Success(corrections);
  }

  /** The loop of `Rubocop.corrections`: the corrections of each offense, in order. */
  method Flatten(offenses: seq<RubocopOffense>) returns (corrections: seq<RubocopCorrection>)
    ensures corrections == AllCorrections(offenses)
  {
    corrections := [];
    for i := 0 to |offenses|
      invariant corrections == AllCorrections(offenses[..i])
    {
      assert offenses[..i + 1][..i] == offenses[..i];
      corrections := corrections + offenses[i].corrections;
    }
    assert offenses[..|offenses|] == offenses;
  }
}
