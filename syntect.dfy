/**
  The parts of the syntect library that the painter calls, at their interface:
  colours and styles, a syntax reference, the line highlighter (an arrow-typed
  value supplied by the caller) and `LinesWithEndings`, which is small enough
  to be defined here.
 */
module Syntect {

  type Byte = x: int | 0 <= x < 256

  /** `syntect::highlighting::Color`: 8-bit red, green, blue and alpha. */
  datatype Color = Color(r: Byte, g: Byte, b: Byte, a: Byte)

  /** The part of `syntect::highlighting::Style` that the painter reads. */
  datatype Style = Style(foreground: Color)

  /** A syntax definition of the syntax set, identified by its name. */
  datatype SyntaxRef = SyntaxRef(name: string)

  /** One piece of highlighter output: a style and the substring it applies to. */
  type StyledRange = (Style, string)

  /**
    `HighlightLines::highlight`. A highlighter is created per call of `paint_text`
    and keeps parse state from line to line, so the ranges for a line depend on
    the syntax, the theme, and the lines highlighted before it by the same
    highlighter (the third argument).
   */
  type Highlighter = (SyntaxRef, string, seq<string>, string) -> seq<StyledRange>

  /** The substrings of `ranges`, in order, concatenated. */
  function RangesText(ranges: seq<StyledRange>): string
  {
    if ranges == [] then "" else RangesText(ranges[..|ranges| - 1]) + ranges[|ranges| - 1].1
  }

  /** The covering contract of a highlighter: its ranges spell out the line it was given. */
  ghost predicate Covers(highlight: Highlighter)
  {
    forall syntax, theme, earlier, line :: RangesText(highlight(syntax, theme, earlier, line)) == line
  }

  /** The pieces of `pieces`, in order, concatenated. */
  function Concat(pieces: seq<string>): string
  {
    if pieces == [] then "" else Concat(pieces[..|pieces| - 1]) + pieces[|pieces| - 1]
  }

  lemma {:induction false} ConcatCons(p: string, pieces: seq<string>)
    ensures Concat([p] + pieces) == p + Concat(pieces)
    decreases |pieces|
  {
    if pieces != [] {
      var init := pieces[..|pieces| - 1];
      assert ([p] + pieces)[..|pieces|] == [p] + init;
      ConcatCons(p, init);
    }
  }

  /**
    The length of the first line of `s` including its terminator: one past the
    first newline, or all of `s` when it holds none.
   */
  function FirstLineLength(s: string): (n: nat)
    ensures n <= |s| && (s != [] ==> 0 < n)
    ensures forall k :: 0 <= k < n - 1 ==> s[k] != '\n'
    ensures n < |s| ==> s[n - 1] == '\n'
    ensures n == |s| && s != [] && s[n - 1] != '\n' ==> '\n' !in s
  {
    if s == [] then 0
    else if s[0] == '\n' then 1
    else 1 + FirstLineLength(s[1..])
  }

  /**
    `syntect::util::LinesWithEndings`: `s` cut after every newline, with the
    remainder after the last newline as a final piece when it is not empty.
   */
  function LinesWithEndings(s: string): (pieces: seq<string>)
    ensures s == [] <==> pieces == []
    decreases |s|
  {
    if s == [] then []
    else
      var n := FirstLineLength(s);
      [s[..n]] + LinesWithEndings(s[n..])
  }

  /**
    The shape of the pieces: none is empty, every piece but the last ends with a
    newline, no piece holds a newline before its end, and the last piece ends
    with a newline exactly when the text does.
   */
  ghost predicate WellCut(s: string, pieces: seq<string>)
  {
    (forall i :: 0 <= i < |pieces| ==> pieces[i] != [])
    && (forall i :: 0 <= i < |pieces| - 1 ==> pieces[i][|pieces[i]| - 1] == '\n')
    && (forall i, k :: 0 <= i < |pieces| && 0 <= k < |pieces[i]| - 1 ==> pieces[i][k] != '\n')
    && (pieces != [] && s != [] ==> (pieces[|pieces| - 1][|pieces[|pieces| - 1]| - 1] == '\n' <==> s[|s| - 1] == '\n'))
  }

  lemma {:induction false} LinesWithEndingsShape(s: string)
    ensures WellCut(s, LinesWithEndings(s))
    decreases |s|
  {
    if s != [] {
      var n := FirstLineLength(s);
      var rest := LinesWithEndings(s[n..]);
      LinesWithEndingsShape(s[n..]);
      var pieces := [s[..n]] + rest;
      assert pieces == LinesWithEndings(s);
      forall i, k | 0 <= i < |pieces| && 0 <= k < |pieces[i]| - 1 ensures pieces[i][k] != '\n' {
        if i > 0 { assert pieces[i] == rest[i - 1]; }
      }
      forall i | 0 <= i < |pieces| - 1 ensures pieces[i][|pieces[i]| - 1] == '\n' {
        if i > 0 { assert pieces[i] == rest[i - 1]; }
      }
      if rest == [] {
        assert n == |s|;
      } else {
        assert pieces[|pieces| - 1] == rest[|rest| - 1];
        assert s[n..][|s[n..]| - 1] == s[|s| - 1];
      }
    }
  }

  /** The pieces put back together give the text again. */
  lemma {:induction false} LinesWithEndingsConcat(s: string)
    ensures Concat(LinesWithEndings(s)) == s
    decreases |s|
  {
    if s != [] {
      var n := FirstLineLength(s);
      LinesWithEndingsConcat(s[n..]);
      ConcatCons(s[..n], LinesWithEndings(s[n..]));
      assert s[..n] + s[n..] == s;
    }
  }
}
