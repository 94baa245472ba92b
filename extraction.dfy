/**
 * What the three extractors build, as functions of the template tree: the
 * fragments they take in pre-order, the synthetic Ruby buffer (each fragment
 * trimmed and followed by a newline) and the anchor table. The extractors
 * differ only in which node contents they take (`pick`) and in the template
 * position they record for a fragment (`host`).
 */
module Extraction {
  import opened Wrappers
  import opened Text
  import opened Template
  import opened Translation

  /** The content tokens taken from `n` and its descendants, in pre-order. */
  function Fragments(n: Node, pick: Node -> Option<Token>): seq<Token>
    decreases n
  {
    (match pick(n) case Some(t) => [t] case None => []) + FragmentsOf(n.children, pick)
  }

  function FragmentsOf(ns: seq<Node>, pick: Node -> Option<Token>): seq<Token>
    decreases ns
  {
    if ns == [] then [] else Fragments(ns[0], pick) + FragmentsOf(ns[1..], pick)
  }

  lemma {:induction false} FragmentsOfSnoc(ns: seq<Node>, i: nat, pick: Node -> Option<Token>)
    requires i < |ns|
    ensures FragmentsOf(ns[..i + 1], pick) == FragmentsOf(ns[..i], pick) + Fragments(ns[i], pick)
  {
    if i == 0 {
      assert ns[..1][1..] == [];
    } else {
      assert ns[..i + 1][1..] == ns[1..][..i];
      assert ns[..i][1..] == ns[1..][..i - 1];
      FragmentsOfSnoc(ns[1..], i - 1, pick);
    }
  }

  /** What one fragment adds to the buffer. */
  function Emit(t: Token): string {
    Trim(t.value) + "\n"
  }

  /** The synthetic Ruby buffer made of `frags`. */
  function Buffer(frags: seq<Token>): string {
    if frags == [] then [] else Emit(frags[0]) + Buffer(frags[1..])
  }

  lemma {:induction false} BufferAppend(a: seq<Token>, b: seq<Token>)
    ensures Buffer(a + b) == Buffer(a) + Buffer(b)
  {
    if a == [] {
      assert a + b == b;
    } else {
      assert (a + b)[1..] == a[1..] + b;
      BufferAppend(a[1..], b);
    }
  }

  /** The buffer is empty exactly when no fragment was taken. */
  lemma BufferEmpty(frags: seq<Token>)
    ensures Buffer(frags) == [] <==> frags == []
  {
  }

  predicate EndsLine(s: string) {
    s == [] || s[|s| - 1] == '\n'
  }

  lemma {:induction false} BufferEndsLine(frags: seq<Token>)
    ensures EndsLine(Buffer(frags))
  {
    if frags != [] {
      BufferEndsLine(frags[1..]);
    }
  }

  /** Where the buffer's first character stands. */
  const BufferStart := Position(1, 0)

  /**
   * `sourcePosition`: the line count and last-line length of `split("\n")`,
   * which is where the next character appended to the buffer will stand.
   */
  function SourcePosition(ruby: string): Position {
    var lines := Lines(ruby);
    Position(|lines|, |lines[|lines| - 1]|)
  }

  /** The position `split` reports is the one reached by writing the buffer from (1, 0). */
  lemma SourcePositionIsAdvance(ruby: string)
    ensures SourcePosition(ruby) == Advance(BufferStart, ruby)
  {
    LinesCount(ruby);
    LastLine(ruby);
    AdvanceClosedForm(BufferStart, ruby);
    CountZero(ruby, '\n');
  }

  /** At the end of a finished line the next position is column 0 of the line after the last newline. */
  lemma SourcePositionAtLineEnd(ruby: string)
    requires EndsLine(ruby)
    ensures SourcePosition(ruby) == Position(1 + Count(ruby, '\n'), 0)
  {
    SourcePositionIsAdvance(ruby);
    AdvanceClosedForm(BufferStart, ruby);
    if ruby != [] {
      assert Count(ruby, '\n') > 0;
    }
  }

  /** What `sourcePosition` reports once `s` has been appended. */
  lemma {:induction false} SourcePositionAppend(ruby: string, s: string)
    ensures SourcePosition(ruby + s) == Advance(SourcePosition(ruby), s)
  {
    SourcePositionIsAdvance(ruby);
    SourcePositionIsAdvance(ruby + s);
    AdvanceAppend(BufferStart, ruby, s);
  }

  lemma EmptyBufferStart()
    ensures SourcePosition([]) == BufferStart
  {
  }

  /**
   * The anchors recorded for `frags` when the buffer position reached so far
   * is `at`: each fragment is anchored at the position where its text starts.
   */
  function Anchors(frags: seq<Token>, at: Position, host: Token -> Position): seq<PositionMapping> {
    if frags == [] then []
    else [PositionMapping(at, host(frags[0]))] + Anchors(frags[1..], Advance(at, Emit(frags[0])), host)
  }

  lemma {:induction false} AnchorsAppend(a: seq<Token>, b: seq<Token>, at: Position, host: Token -> Position)
    ensures Anchors(a + b, at, host) == Anchors(a, at, host) + Anchors(b, Advance(at, Buffer(a)), host)
  {
    if a == [] {
      assert a + b == b;
    } else {
      assert (a + b)[1..] == a[1..] + b;
      AnchorsAppend(a[1..], b, Advance(at, Emit(a[0])), host);
      AdvanceAppend(at, Emit(a[0]), Buffer(a[1..]));
    }
  }

  lemma {:induction false} AnchorsLength(frags: seq<Token>, at: Position, host: Token -> Position)
    ensures |Anchors(frags, at, host)| == |frags|
  {
    if frags != [] {
      AnchorsLength(frags[1..], Advance(at, Emit(frags[0])), host);
    }
  }

  /** Anchor `k` pairs the buffer position after the first `k` fragments with the host position of fragment `k`. */
  lemma {:induction false} AnchorAt(frags: seq<Token>, at: Position, host: Token -> Position, k: nat)
    requires k < |frags|
    ensures |Anchors(frags, at, host)| == |frags|
    ensures Anchors(frags, at, host)[k] == PositionMapping(Advance(at, Buffer(frags[..k])), host(frags[k]))
  {
    AnchorsLength(frags, at, host);
    if k > 0 {
      var before := frags[1..][..k - 1];
      AnchorAt(frags[1..], Advance(at, Emit(frags[0])), host, k - 1);
      assert frags[..k][1..] == before;
      assert Buffer(frags[..k]) == Emit(frags[0]) + Buffer(before);
      AdvanceAppend(at, Emit(frags[0]), Buffer(before));
      assert Anchors(frags, at, host)[k] == Anchors(frags[1..], Advance(at, Emit(frags[0])), host)[k - 1];
    }
  }

  /** The buffer line on which fragment `k` starts. */
  function RubyLine(frags: seq<Token>, k: nat): int
    requires k <= |frags|
  {
    1 + Count(Buffer(frags[..k]), '\n')
  }

  /** Each fragment takes up its own lines plus one. */
  lemma RubyLineStep(frags: seq<Token>, k: nat)
    requires k < |frags|
    ensures RubyLine(frags, k + 1) == RubyLine(frags, k) + Count(Trim(frags[k].value), '\n') + 1
  {
    assert frags[..k + 1] == frags[..k] + [frags[k]];
    BufferAppend(frags[..k], [frags[k]]);
    assert Buffer([frags[k]]) == Emit(frags[k]);
    CountAppend(Buffer(frags[..k]), Emit(frags[k]), '\n');
    CountAppend(Trim(frags[k].value), "\n", '\n');
  }

  lemma {:induction false} RubyLineIncreases(frags: seq<Token>, a: nat, b: nat)
    requires a < b <= |frags|
    ensures RubyLine(frags, a) < RubyLine(frags, b)
    decreases b - a
  {
    RubyLineStep(frags, a);
    if a + 1 < b {
      RubyLineIncreases(frags, a + 1, b);
    }
  }

  /** Anchor `k` of a fresh extraction sits at column 0 of line `RubyLine(frags, k)`. */
  lemma AnchorRubyPosition(frags: seq<Token>, host: Token -> Position, k: nat)
    requires k < |frags|
    ensures |Anchors(frags, BufferStart, host)| == |frags|
    ensures Anchors(frags, BufferStart, host)[k].ruby == Advance(BufferStart, Buffer(frags[..k]))
    ensures Anchors(frags, BufferStart, host)[k].ruby == Position(RubyLine(frags, k), 0)
    ensures Anchors(frags, BufferStart, host)[k].erb == host(frags[k])
  {
    AnchorAt(frags, BufferStart, host, k);
    BufferEndsLine(frags[..k]);
    SourcePositionIsAdvance(Buffer(frags[..k]));
    SourcePositionAtLineEnd(Buffer(frags[..k]));
  }

  /**
   * A fresh extraction's table starts at (1, 0), every anchor starts a buffer
   * line, and anchor lines strictly increase.
   */
  lemma AnchorsIncrease(frags: seq<Token>, host: Token -> Position)
    ensures |Anchors(frags, BufferStart, host)| == |frags|
    ensures |frags| > 0 ==> Anchors(frags, BufferStart, host)[0].ruby == Position(1, 0)
    ensures AtLineStarts(Anchors(frags, BufferStart, host))
    ensures StrictlyIncreasing(Anchors(frags, BufferStart, host))
  {
    var m := Anchors(frags, BufferStart, host);
    AnchorsLength(frags, BufferStart, host);
    forall k | 0 <= k < |m|
      ensures m[k].ruby == Position(RubyLine(frags, k), 0)
    {
      AnchorRubyPosition(frags, host, k);
    }
    forall a, b | 0 <= a < b < |m|
      ensures Before(m[a].ruby, m[b].ruby)
    {
      RubyLineIncreases(frags, a, b);
    }
    if |frags| > 0 {
      assert frags[..0] == [];
    }
  }

  /**
   * Text written from the start of a buffer line, shifted by an anchor at that
   * line start, lands where the same text written from the anchor's template
   * position would end.
   */
  lemma {:induction false} ShiftFollowsText(a: PositionMapping, text: string)
    requires a.ruby.column == 0
    ensures Shift(a, Advance(a.ruby, text)) == Advance(a.erb, text)
  {
    AdvanceClosedForm(a.ruby, text);
    AdvanceClosedForm(a.erb, text);
  }

  /** Text inside fragment `k` stays above the line where fragment `k + 1` starts. */
  lemma {:induction false} InsideFragment(frags: seq<Token>, k: nat, j: nat)
    requires k + 1 < |frags| && j <= |Trim(frags[k].value)|
    ensures Before(Advance(Position(RubyLine(frags, k), 0), Trim(frags[k].value)[..j]), Position(RubyLine(frags, k + 1), 0))
  {
    RubyLineStep(frags, k);
    AdvanceClosedForm(Position(RubyLine(frags, k), 0), Trim(frags[k].value)[..j]);
    CountPrefix(Trim(frags[k].value), j, '\n');
  }

  /**
   * One step of a visitor's loop over the children of a node: visiting child
   * `i` after the first `i` children extends buffer and table to the first
   * `i + 1` children.
   */
  lemma {:induction false} ChildStep(ruby: string, table: seq<PositionMapping>, ns: seq<Node>, i: nat,
                                     pick: Node -> Option<Token>, host: Token -> Position)
    requires i < |ns|
    ensures ruby + Buffer(FragmentsOf(ns[..i], pick)) + Buffer(Fragments(ns[i], pick))
         == ruby + Buffer(FragmentsOf(ns[..i + 1], pick))
    ensures table + Anchors(FragmentsOf(ns[..i], pick), SourcePosition(ruby), host)
              + Anchors(Fragments(ns[i], pick), SourcePosition(ruby + Buffer(FragmentsOf(ns[..i], pick))), host)
         == table + Anchors(FragmentsOf(ns[..i + 1], pick), SourcePosition(ruby), host)
  {
    var before := FragmentsOf(ns[..i], pick);
    var here := Fragments(ns[i], pick);
    FragmentsOfSnoc(ns, i, pick);
    BufferAppend(before, here);
    Regroup(ruby, Buffer(before), Buffer(here), Buffer(FragmentsOf(ns[..i + 1], pick)));
    SourcePositionAppend(ruby, Buffer(before));
    AnchorsSplit(before, here, SourcePosition(ruby), SourcePosition(ruby + Buffer(before)), host);
    Regroup(table, Anchors(before, SourcePosition(ruby), host), Anchors(here, SourcePosition(ruby + Buffer(before)), host),
      Anchors(FragmentsOf(ns[..i + 1], pick), SourcePosition(ruby), host));
  }

  lemma Regroup<X>(a: seq<X>, b: seq<X>, c: seq<X>, d: seq<X>)
    requires b + c == d
    ensures a + b + c == a + d
  {
  }

  lemma AnchorsSplit(a: seq<Token>, b: seq<Token>, at: Position, next: Position, host: Token -> Position)
    requires next == Advance(at, Buffer(a))
    ensures Anchors(a, at, host) + Anchors(b, next, host) == Anchors(a + b, at, host)
  {
    AnchorsAppend(a, b, at, host);
  }

  /**
   * A node whose content is taken: its anchor and text come first, then
   * those of its children.
   */
  lemma {:induction false} TakeStep(ruby: string, table: seq<PositionMapping>, n: Node, t: Token,
                                    pick: Node -> Option<Token>, host: Token -> Position)
    requires pick(n) == Some(t)
    ensures ruby + Emit(t) + Buffer(FragmentsOf(n.children, pick)) == ruby + Buffer(Fragments(n, pick))
    ensures table + [PositionMapping(SourcePosition(ruby), host(t))]
              + Anchors(FragmentsOf(n.children, pick), SourcePosition(ruby + Emit(t)), host)
         == table + Anchors(Fragments(n, pick), SourcePosition(ruby), host)
  {
    var rest := FragmentsOf(n.children, pick);
    assert Fragments(n, pick) == [t] + rest;
    assert Buffer([t] + rest) == Emit(t) + Buffer(rest);
    Regroup(ruby, Emit(t), Buffer(rest), Buffer(Fragments(n, pick)));
    SourcePositionAppend(ruby, Emit(t));
    TakeAnchors(t, rest, SourcePosition(ruby), SourcePosition(ruby + Emit(t)), host);
    Regroup(table, [PositionMapping(SourcePosition(ruby), host(t))], Anchors(rest, SourcePosition(ruby + Emit(t)), host),
      Anchors(Fragments(n, pick), SourcePosition(ruby), host));
  }

  lemma TakeAnchors(t: Token, rest: seq<Token>, at: Position, next: Position, host: Token -> Position)
    requires next == Advance(at, Emit(t))
    ensures [PositionMapping(at, host(t))] + Anchors(rest, next, host) == Anchors([t] + rest, at, host)
  {
    assert ([t] + rest)[1..] == rest;
  }

  /** A node whose content is not taken contributes only its children. */
  lemma SkipStep(n: Node, pick: Node -> Option<Token>)
    requires pick(n).None?
    ensures Fragments(n, pick) == FragmentsOf(n.children, pick)
  {
  }

  /** The buffer position of character `j` of fragment `k`'s trimmed text. */
  function CodePosition(frags: seq<Token>, k: nat, j: nat): Position
    requires k < |frags| && j <= |Trim(frags[k].value)|
  {
    Advance(BufferStart, Buffer(frags[..k]) + Trim(frags[k].value)[..j])
  }

  /**
   * Translating the buffer position of character `j` of fragment `k`'s
   * trimmed text gives the host position of fragment `k` advanced over the
   * same characters: lines inside a fragment are copied verbatim, so only the
   * anchor's own line needs a column shift.
   */
  lemma {:induction false} FragmentTranslation(frags: seq<Token>, host: Token -> Position, k: nat, j: nat)
    requires k < |frags| && j <= |Trim(frags[k].value)|
    ensures |Anchors(frags, BufferStart, host)| == |frags|
    ensures Translated(Anchors(frags, BufferStart, host), CodePosition(frags, k, j))
         == Advance(host(frags[k]), Trim(frags[k].value)[..j])
  {
    var m := Anchors(frags, BufferStart, host);
    var text := Trim(frags[k].value)[..j];
    AnchorsIncrease(frags, host);
    AnchorRubyPosition(frags, host, k);
    AdvanceAppend(BufferStart, Buffer(frags[..k]), text);
    var p := Advance(m[k].ruby, text);
    AdvanceForward(m[k].ruby, text);
    if k + 1 < |m| {
      AnchorRubyPosition(frags, host, k + 1);
      InsideFragment(frags, k, j);
    }
    SelectedIsUnique(m, p, k);
    ShiftFollowsText(m[k], text);
  }
}
