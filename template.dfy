/**
 * The parts of the template parser's output that the coordinate machinery
 * reads: positions, locations, content tokens and the node tree.
 */
module Template {
  import opened Wrappers
  import opened Text

  /** A place in a document: line 1-based, column 0-based. */
  datatype Position = Position(line: int, column: int)

  /** A range; its end is exclusive. */
  datatype Location = Location(start: Position, end: Position)

  /** `a` lies strictly before `b`: line first, then column. */
  predicate Before(a: Position, b: Position) {
    a.line < b.line || (a.line == b.line && a.column < b.column)
  }

  predicate AtOrBefore(a: Position, b: Position) {
    a.line < b.line || (a.line == b.line && a.column <= b.column)
  }

  /**
   * Where text `s` written from position `p` ends: a newline starts the next
   * line at column 0, every other character moves one column right.
   */
  function Advance(p: Position, s: string): Position {
    if s == [] then p
    else
      var q := Advance(p, s[..|s| - 1]);
      if s[|s| - 1] == '\n' then Position(q.line + 1, 0) else Position(q.line, q.column + 1)
  }

  /** After `s`, the line has moved by the newlines of `s`, and the column counts what follows the last one. */
  lemma {:induction false} AdvanceClosedForm(p: Position, s: string)
    ensures Advance(p, s).line == p.line + Count(s, '\n')
    ensures Advance(p, s).column
         == if Count(s, '\n') == 0 then p.column + |s| else |s| - 1 - LastIndexOf(s, '\n')
  {
    if s != [] {
      AdvanceClosedForm(p, s[..|s| - 1]);
    }
  }

  /** Writing the same text from two positions keeps the distance between their lines. */
  lemma {:induction false} AdvanceLineShift(p: Position, q: Position, s: string)
    ensures Advance(q, s).line - Advance(p, s).line == q.line - p.line
  {
    AdvanceClosedForm(p, s);
    AdvanceClosedForm(q, s);
  }

  lemma {:induction false} AdvanceAppend(p: Position, a: string, b: string)
    ensures Advance(p, a + b) == Advance(Advance(p, a), b)
  {
    if b == [] {
      assert a + b == a;
    } else {
      assert (a + b)[..|a + b| - 1] == a + b[..|b| - 1];
      AdvanceAppend(p, a, b[..|b| - 1]);
    }
  }

  /** Writing text never moves backwards. */
  lemma AdvanceForward(p: Position, s: string)
    ensures AtOrBefore(p, Advance(p, s))
  {
    AdvanceClosedForm(p, s);
  }

  /** A content token: its text and where it lies in the template. */
  datatype Token = Token(value: string, location: Location)

  /** The seventeen ERB node kinds the extractor visits, and every other node. */
  datatype NodeKind =
    | ERBContent | ERBEnd | ERBElse | ERBIf | ERBBlock | ERBWhen | ERBCase | ERBCaseMatch
    | ERBWhile | ERBUntil | ERBFor | ERBRescue | ERBEnsure | ERBBegin | ERBUnless | ERBYield | ERBIn
    | Other

  /** A template node: its kind, its optional content, its opening tag text and its children. */
  datatype Node = Node(kind: NodeKind, content: Option<Token>, tagOpening: Option<string>, children: seq<Node>)
}
