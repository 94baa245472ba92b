/**
 * The anchor table that pairs positions in the synthetic Ruby buffer with
 * positions in the template, and what translating a buffer position means.
 * The three translators of the code base run the same search; each is a
 * method in its own module proved to compute `Translated`.
 */
module Translation {
  import opened Template

  /** One anchor: a buffer position and the template position it stands for. */
  datatype PositionMapping = PositionMapping(ruby: Position, erb: Position)

  /** Index of the first anchor whose Ruby position lies after `p`, or `|m|` when there is none. */
  function FirstAfter(m: seq<PositionMapping>, p: Position): (i: nat)
    ensures i <= |m|
    ensures forall j :: 0 <= j < i ==> AtOrBefore(m[j].ruby, p)
    ensures i < |m| ==> Before(p, m[i].ruby)
  {
    if m == [] then 0
    else if Before(p, m[0].ruby) then 0
    else 1 + FirstAfter(m[1..], p)
  }

  /** The three facts a left-to-right scan establishes pin down `FirstAfter`. */
  lemma FirstAfterIs(m: seq<PositionMapping>, p: Position, i: nat)
    requires i <= |m|
    requires forall j :: 0 <= j < i ==> AtOrBefore(m[j].ruby, p)
    requires i < |m| ==> Before(p, m[i].ruby)
    ensures FirstAfter(m, p) == i
  {
  }

  /**
   * The anchor the search settles on: the one before the first anchor after
   * `p`; when that is the very first anchor (`mappings[-1]` is undefined) or
   * there is none, the last anchor.
   */
  function SelectedIndex(m: seq<PositionMapping>, p: Position): (k: nat)
    requires |m| > 0
    ensures k < |m|
  {
    var i := FirstAfter(m, p);
    if 0 < i < |m| then i - 1 else |m| - 1
  }

  /** Move `p` by the anchor's line offset, and by its column offset only on the anchor's own line. */
  function Shift(a: PositionMapping, p: Position): Position {
    Position(
      p.line + (a.erb.line - a.ruby.line),
      if p.line == a.ruby.line then p.column + (a.erb.column - a.ruby.column) else p.column)
  }

  /** The template position of buffer position `p`. */
  function Translated(m: seq<PositionMapping>, p: Position): Position
    requires |m| > 0
  {
    Shift(m[SelectedIndex(m, p)], p)
  }

  predicate StrictlyIncreasing(m: seq<PositionMapping>) {
    forall a, b :: 0 <= a < b < |m| ==> Before(m[a].ruby, m[b].ruby)
  }

  /** Every anchor sits at the start of a buffer line. */
  predicate AtLineStarts(m: seq<PositionMapping>) {
    forall j :: 0 <= j < |m| ==> m[j].ruby.column == 0
  }

  /**
   * On an increasing table the search picks the last anchor at or before the
   * target; a target before every anchor falls back to the last anchor.
   */
  lemma AnchorChoice(m: seq<PositionMapping>, p: Position)
    requires |m| > 0 && StrictlyIncreasing(m)
    ensures Before(p, m[0].ruby) ==> SelectedIndex(m, p) == |m| - 1
    ensures AtOrBefore(m[0].ruby, p) ==>
              AtOrBefore(m[SelectedIndex(m, p)].ruby, p)
              && forall j :: SelectedIndex(m, p) < j < |m| ==> Before(p, m[j].ruby)
  {
    var i := FirstAfter(m, p);
    if AtOrBefore(m[0].ruby, p) && i < |m| {
      forall j | i < j < |m|
        ensures Before(p, m[j].ruby)
      {
        assert Before(m[i].ruby, m[j].ruby);
      }
    }
  }

  /**
   * On an increasing table, an anchor at or before `p` whose successor lies
   * after `p` is the one the search picks.
   */
  lemma SelectedIsUnique(m: seq<PositionMapping>, p: Position, k: nat)
    requires StrictlyIncreasing(m) && k < |m|
    requires AtOrBefore(m[k].ruby, p)
    requires k + 1 == |m| || Before(p, m[k + 1].ruby)
    ensures SelectedIndex(m, p) == k
  {
    assert AtOrBefore(m[0].ruby, p) by {
      if k > 0 { assert Before(m[0].ruby, m[k].ruby); }
    }
    AnchorChoice(m, p);
  }

  /** Translating an anchor's own buffer position gives back its template position. */
  lemma RoundTrip(m: seq<PositionMapping>, k: nat)
    requires StrictlyIncreasing(m) && k < |m|
    ensures Translated(m, m[k].ruby) == m[k].erb
  {
    SelectedIsUnique(m, m[k].ruby, k);
  }

  /** Two targets that select the same anchor keep their order. */
  lemma MonotoneWithinAnchor(m: seq<PositionMapping>, p: Position, q: Position)
    requires |m| > 0
    requires SelectedIndex(m, p) == SelectedIndex(m, q)
    requires AtOrBefore(p, q)
    ensures AtOrBefore(Translated(m, p), Translated(m, q))
  {
  }

  /** The search depends on the target only through which anchors lie after it. */
  lemma FirstAfterAgrees(m: seq<PositionMapping>, p: Position, q: Position)
    requires forall j :: 0 <= j < |m| ==> (Before(p, m[j].ruby) <==> Before(q, m[j].ruby))
    ensures FirstAfter(m, p) == FirstAfter(m, q)
  {
  }

  /**
   * When every anchor starts a buffer line, two targets on one buffer line
   * (at columns >= 0) use the same anchor and land on one template line.
   */
  lemma SameLineSameAnchor(m: seq<PositionMapping>, p: Position, q: Position)
    requires |m| > 0 && AtLineStarts(m)
    requires p.line == q.line && p.column >= 0 && q.column >= 0
    ensures SelectedIndex(m, p) == SelectedIndex(m, q)
    ensures Translated(m, p).line == Translated(m, q).line
  {
    FirstAfterAgrees(m, p, q);
  }
}
