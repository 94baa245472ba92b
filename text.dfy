/**
 * Character-level helpers that the TypeScript code takes from the JavaScript
 * runtime: the `\s` class, `trimStart`/`trimEnd`/`trim`, counting and
 * searching characters, `split("\n")` and the clamping `slice`.
 * Text is a sequence of characters; one character stands for one UTF-16 unit.
 */
module Text {

  /**
   * The whitespace class matched by `\s` and stripped by `trim`: the
   * ECMAScript WhiteSpace and LineTerminator characters.
   */
  predicate IsWhitespace(c: char) {
    c == ' ' || c == '\t' || c == '\n' || c == '\r' || c == '\U{000B}' || c == '\U{000C}'
    || c == '\U{00A0}' || c == '\U{1680}' || ('\U{2000}' <= c <= '\U{200A}')
    || c == '\U{2028}' || c == '\U{2029}' || c == '\U{202F}' || c == '\U{205F}'
    || c == '\U{3000}' || c == '\U{FEFF}'
  }

  // Length of the match of the pattern `^\s*`: the longest all-whitespace prefix.
  function LeadingWhitespaceLength(s: string): (n: nat)
    ensures n <= |s|
    ensures forall i :: 0 <= i < n ==> IsWhitespace(s[i])
    ensures n < |s| ==> !IsWhitespace(s[n])
  {
    if s == [] || !IsWhitespace(s[0]) then 0 else 1 + LeadingWhitespaceLength(s[1..])
  }

  // The text the pattern `^\s*` matches.
  function LeadingWhitespace(s: string): string {
    s[..LeadingWhitespaceLength(s)]
  }

  /** Length of the longest all-whitespace suffix. */
  function TrailingWhitespaceLength(s: string): (n: nat)
    ensures n <= |s|
    ensures forall i :: |s| - n <= i < |s| ==> IsWhitespace(s[i])
    ensures n < |s| ==> !IsWhitespace(s[|s| - 1 - n])
  {
    if s == [] || !IsWhitespace(s[|s| - 1]) then 0
    else 1 + TrailingWhitespaceLength(s[..|s| - 1])
  }

  function TrimStart(s: string): string {
    s[LeadingWhitespaceLength(s)..]
  }

  function TrimEnd(s: string): string {
    s[..|s| - TrailingWhitespaceLength(s)]
  }

  /** JavaScript's `trim()`, which is `trimEnd()` after `trimStart()`. */
  function Trim(s: string): string {
    TrimEnd(TrimStart(s))
  }

  /** The trimmed text is the slice of `s` that starts after the leading whitespace. */
  lemma TrimIsSlice(s: string)
    ensures LeadingWhitespaceLength(s) + |Trim(s)| <= |s|
    ensures Trim(s) == s[LeadingWhitespaceLength(s)..LeadingWhitespaceLength(s) + |Trim(s)|]
  {
  }

  /** The leading whitespace followed by the first `j` trimmed characters is a prefix of `s`. */
  lemma TrimmedPrefix(s: string, j: nat)
    requires j <= |Trim(s)|
    ensures LeadingWhitespaceLength(s) + j <= |s|
    ensures LeadingWhitespace(s) + Trim(s)[..j] == s[..LeadingWhitespaceLength(s) + j]
  {
    TrimIsSlice(s);
  }

  /** Text made only of whitespace trims to nothing. */
  lemma TrimBlank(s: string)
    requires forall i :: 0 <= i < |s| ==> IsWhitespace(s[i])
    ensures Trim(s) == []
  {
  }

  /** Number of occurrences of `c` in `s`. */
  function Count(s: string, c: char): nat {
    if s == [] then 0 else Count(s[..|s| - 1], c) + (if s[|s| - 1] == c then 1 else 0)
  }

  lemma {:induction false} CountAppend(a: string, b: string, c: char)
    ensures Count(a + b, c) == Count(a, c) + Count(b, c)
  {
    if b == [] {
      assert a + b == a;
    } else {
      assert (a + b)[..|a + b| - 1] == a + b[..|b| - 1];
      CountAppend(a, b[..|b| - 1], c);
    }
  }

  lemma {:induction false} CountZero(s: string, c: char)
    ensures Count(s, c) == 0 <==> forall i :: 0 <= i < |s| ==> s[i] != c
  {
    if s != [] {
      CountZero(s[..|s| - 1], c);
      assert forall i :: 0 <= i < |s| - 1 ==> s[..|s| - 1][i] == s[i];
    }
  }

  lemma CountPrefix(s: string, j: nat, c: char)
    requires j <= |s|
    ensures Count(s[..j], c) <= Count(s, c)
  {
    assert s == s[..j] + s[j..];
    CountAppend(s[..j], s[j..], c);
  }

  /** `s.lastIndexOf(c)`: the last index holding `c`, or -1. */
  function LastIndexOf(s: string, c: char): (i: int)
    ensures -1 <= i < |s|
    ensures i >= 0 ==> s[i] == c
    ensures forall j :: i < j < |s| ==> s[j] != c
  {
    if s == [] then -1
    else if s[|s| - 1] == c then |s| - 1
    else LastIndexOf(s[..|s| - 1], c)
  }

  /** The text after the last occurrence of `c` holds no `c`, and everything before it holds one fewer. */
  lemma {:induction false} CountBeforeLast(s: string, c: char)
    requires LastIndexOf(s, c) >= 0
    ensures Count(s[..LastIndexOf(s, c)], c) + 1 == Count(s, c)
  {
    var i := LastIndexOf(s, c);
    assert s == s[..i] + [s[i]] + s[i + 1..];
    CountAppend(s[..i] + [s[i]], s[i + 1..], c);
    CountAppend(s[..i], [s[i]], c);
    CountZero(s[i + 1..], c);
  }

  lemma CountCons(s: string, c: char)
    requires s != []
    ensures Count(s, c) == (if s[0] == c then 1 else 0) + Count(s[1..], c)
  {
    assert s == [s[0]] + s[1..];
    CountAppend([s[0]], s[1..], c);
  }

  /** Searching backwards in `s` against searching in `s` without its first character. */
  lemma LastIndexCons(s: string, c: char)
    requires s != []
    ensures LastIndexOf(s, c)
         == if LastIndexOf(s[1..], c) >= 0 then 1 + LastIndexOf(s[1..], c)
            else if s[0] == c then 0 else -1
  {
    var k := LastIndexOf(s[1..], c);
    var l := LastIndexOf(s, c);
    if l >= 1 {
      assert s[1..][l - 1] == c;
    }
    if k >= 0 {
      assert s[1 + k] == s[1..][k];
    }
  }

  /** `s.split("\n")`: the lines of `s`; a trailing newline leaves an empty last line. */
  function Lines(s: string): (ls: seq<string>)
    ensures |ls| >= 1
  {
    if s == [] then [[]]
    else
      var rest := Lines(s[1..]);
      if s[0] == '\n' then [[]] + rest else [[s[0]] + rest[0]] + rest[1..]
  }

  /** There is one more line than there are newlines. */
  lemma {:induction false} LinesCount(s: string)
    ensures |Lines(s)| == Count(s, '\n') + 1
  {
    if s != [] {
      LinesCount(s[1..]);
      CountCons(s, '\n');
    }
  }

  /** The last line of `s` is the text after its last newline. */
  lemma {:induction false} LastLine(s: string)
    ensures Lines(s)[|Lines(s)| - 1] == s[LastIndexOf(s, '\n') + 1..]
  {
    if s != [] {
      var tail := s[1..];
      var rest := Lines(tail);
      LastLine(tail);
      LastIndexCons(s, '\n');
      LinesCount(tail);
      var k := LastIndexOf(tail, '\n');
      if k >= 0 {
        CountBeforeLast(tail, '\n');
        assert |rest| >= 2;
        assert tail[k + 1..] == s[k + 2..];
      } else {
        CountZero(tail, '\n');
        assert |rest| == 1;
        if s[0] != '\n' {
          assert [s[0]] + tail == s;
        }
      }
    }
  }

  /**
   * Offset of the start of line `d` (0-based) among `lines`: the lengths of
   * the lines before it, plus one separator each.
   */
  function LineStart(lines: seq<string>, d: nat): int
    requires d <= |lines|
  {
    if d == 0 then 0 else LineStart(lines, d - 1) + |lines[d - 1]| + 1
  }

  lemma {:induction false} LineStartCons(first: string, rest: seq<string>, d: nat)
    requires 1 <= d <= |rest| + 1
    ensures LineStart([first] + rest, d) == |first| + 1 + LineStart(rest, d - 1)
  {
    if d > 1 {
      LineStartCons(first, rest, d - 1);
      assert ([first] + rest)[d - 1] == rest[d - 2];
    }
  }

  /** Growing the first line by one character moves every later line start by one. */
  lemma LineStartGrowFirst(x: char, rest: seq<string>, d: nat)
    requires 1 <= d < |rest|
    ensures LineStart([[x] + rest[0]] + rest[1..], d) == 1 + LineStart(rest, d)
  {
    LineStartCons([x] + rest[0], rest[1..], d);
    assert rest == [rest[0]] + rest[1..];
    LineStartCons(rest[0], rest[1..], d);
  }

  /**
   * The start of line `d >= 1` of `s` is the index just after the d-th
   * newline of `s`.
   */
  lemma {:induction false} LineStartAfterNewline(s: string, d: nat)
    requires 1 <= d < |Lines(s)|
    ensures 0 < LineStart(Lines(s), d) <= |s|
    ensures s[LineStart(Lines(s), d) - 1] == '\n'
    ensures Count(s[..LineStart(Lines(s), d) - 1], '\n') == d - 1
  {
    var rest := Lines(s[1..]);
    if s[0] == '\n' {
      LineStartCons([], rest, d);
      if d > 1 {
        LineStartAfterNewline(s[1..], d - 1);
        var k := LineStart(rest, d - 1);
        assert s[..k] == [s[0]] + s[1..][..k - 1];
        CountCons(s[..k], '\n');
      }
    } else {
      LineStartGrowFirst(s[0], rest, d);
      LineStartAfterNewline(s[1..], d);
      var k := LineStart(rest, d);
      assert s[..k] == [s[0]] + s[1..][..k - 1];
      CountCons(s[..k], '\n');
    }
  }

  /** Two newlines with the same number of newlines before them are the same newline. */
  lemma NewlineByRank(s: string, a: nat, b: nat)
    requires a < |s| && b < |s| && s[a] == '\n' && s[b] == '\n'
    requires Count(s[..a], '\n') == Count(s[..b], '\n')
    ensures a == b
  {
    if a < b {
      assert s[..b] == s[..a] + [s[a]] + s[a + 1..b];
      CountAppend(s[..a] + [s[a]], s[a + 1..b], '\n');
      CountAppend(s[..a], [s[a]], '\n');
    } else if b < a {
      assert s[..a] == s[..b] + [s[b]] + s[b + 1..a];
      CountAppend(s[..b] + [s[b]], s[b + 1..a], '\n');
      CountAppend(s[..b], [s[b]], '\n');
    }
  }

  /** How `slice` reads an index against a string of length `len`: negative counts from the end, then clamped. */
  function SliceIndex(len: nat, k: int): (r: nat)
    ensures r <= len
    ensures 0 <= k <= len ==> r == k
  {
    if k < 0 then (if len + k < 0 then 0 else len + k)
    else if k > len then len
    else k
  }

  /** `s.slice(0, k)`. */
  function SliceTo(s: string, k: int): string {
    s[..SliceIndex(|s|, k)]
  }

  /** `s.slice(k)`. */
  function SliceFrom(s: string, k: int): string {
    s[SliceIndex(|s|, k)..]
  }
}
