/**
  src/paint.rs: configuration resolution, the escape-writing functions
  `paint_text`, `paint_ranges` and `paint`, and the `Painter`, which holds the
  pending removed/added lines and writes painted blocks to its writer.

  The writer is modelled as the sequence of lines written to it so far: one
  `writeln!` appends one element.
 */
module Paint {
  import opened Wrappers
  import opened Syntect
  import opened Strings
  import opened Sgr

  // ---------------------------------------------------------------------------
  // Configuration

  const LightThemes: seq<string> := ["GitHub", "Monokai Extended Light", "OneHalfLight", "ansi-light"]

  function IsLightTheme(theme: string): (light: bool)
    ensures light <==> theme == "GitHub" || theme == "Monokai Extended Light"
                       || theme == "OneHalfLight" || theme == "ansi-light"
  {
    theme in LightThemes
  }

  const LightThemePlusColor: Color := Color(0xd0, 0xff, 0xd0, 0xff)
  const LightThemeMinusColor: Color := Color(0xff, 0xd0, 0xd0, 0xff)
  const DarkThemePlusColor: Color := Color(0x01, 0x3B, 0x01, 0xff)
  const DarkThemeMinusColor: Color := Color(0x3F, 0x00, 0x01, 0xff)

  /**
    The resolved configuration. The theme is identified by its name in the theme
    set; the syntax set is not represented (the highlighter value carries it).
   */
  datatype Config = Config(
    theme: string,
    plusColor: Color,
    minusColor: Color,
    width: Option<nat>,
    highlightRemoved: bool,
    pager: string)

  /** The theme name: the requested one, else a default that depends on the background hint. */
  function ThemeName(theme: Option<string>, lightBackground: bool): (name: string)
    ensures theme.Some? ==> name == theme.value
    ensures theme.None? ==> name == (if lightBackground then "GitHub" else "Monokai Extended")
    ensures theme.None? ==> (IsLightTheme(name) <==> lightBackground)
  {
    match theme
    case Some(t) => t
    case None => if lightBackground then "GitHub" else "Monokai Extended"
  }

  /** The colour a user-supplied colour string names: none when the string is absent or does not parse. */
  function ParsedColor(colorStr: Option<string>, colorFromStr: string -> Option<Color>): Option<Color>
  {
    match colorStr
    case Some(s) => colorFromStr(s)
    case None => None
  }

  /** `get_config`. `colorFromStr` stands for `Color::from_str`, with a parse error as `None`. */
  function GetConfig(
    theme: Option<string>,
    lightBackground: bool,
    plusColorStr: Option<string>,
    minusColorStr: Option<string>,
    highlightRemoved: bool,
    width: Option<nat>,
    colorFromStr: string -> Option<Color>): (config: Config)
    ensures config.theme == ThemeName(theme, lightBackground)
    ensures plusColorStr.Some? && colorFromStr(plusColorStr.value).Some? ==>
              config.plusColor == colorFromStr(plusColorStr.value).value
    ensures plusColorStr.None? || colorFromStr(plusColorStr.value).None? ==>
              config.plusColor == if IsLightTheme(config.theme) then LightThemePlusColor else DarkThemePlusColor
    ensures minusColorStr.Some? && colorFromStr(minusColorStr.value).Some? ==>
              config.minusColor == colorFromStr(minusColorStr.value).value
    ensures minusColorStr.None? || colorFromStr(minusColorStr.value).None? ==>
              config.minusColor == if IsLightTheme(config.theme) then LightThemeMinusColor else DarkThemeMinusColor
    ensures config.width == width && config.highlightRemoved == highlightRemoved
    ensures config.pager == "less"
  {
    var themeName := ThemeName(theme, lightBackground);
    var minusColor := ParsedColor(minusColorStr, colorFromStr);
    var plusColor := ParsedColor(plusColorStr, colorFromStr);
    var isLightTheme := IsLightTheme(themeName);
    Config(
      themeName,
      if plusColor.Some? then plusColor.value
      else if isLightTheme then LightThemePlusColor else DarkThemePlusColor,
      if minusColor.Some? then minusColor.value
      else if isLightTheme then LightThemeMinusColor else DarkThemeMinusColor,
      width,
      highlightRemoved,
      "less")
  }

  /** With no theme requested and a dark background, the removed-line tint is the deep red. */
  lemma DarkDefaultsIgnoreMalformedOverride(
    plusColorStr: Option<string>, minusColorStr: Option<string>, highlightRemoved: bool,
    width: Option<nat>, colorFromStr: string -> Option<Color>)
    requires minusColorStr.Some? && colorFromStr(minusColorStr.value).None?
    ensures GetConfig(None, false, plusColorStr, minusColorStr, highlightRemoved, width, colorFromStr).minusColor
         == Color(0x3F, 0x00, 0x01, 0xff)
  {
  }

  // ---------------------------------------------------------------------------
  // What the escape-writing functions append

  /** `Vec<String>::join(sep)` */
  function Join(parts: seq<string>, sep: string): string
  {
    if parts == [] then ""
    else if |parts| == 1 then parts[0]
    else parts[0] + sep + Join(parts[1..], sep)
  }

  function BackgroundPart(background: Option<Color>): string
  {
    if background.Some? then BackgroundEscape(background.value) else ""
  }

  /** What `paint` appends. */
  function Painted(text: string, foreground: Option<Color>, background: Option<Color>): string
  {
    BackgroundPart(background) + (if foreground.Some? then ForegroundEscape(foreground.value) + text else text)
  }

  function Foreground(style: Style, applySyntaxHighlighting: bool): Option<Color>
  {
    if applySyntaxHighlighting then Some(style.foreground) else None
  }

  /** What `paint_ranges` appends: each range painted in turn. */
  function PaintedRanges(ranges: seq<StyledRange>, background: Option<Color>, applySyntaxHighlighting: bool): string
  {
    if ranges == [] then ""
    else
      var last := ranges[|ranges| - 1];
      PaintedRanges(ranges[..|ranges| - 1], background, applySyntaxHighlighting)
        + Painted(last.1, Foreground(last.0, applySyntaxHighlighting), background)
  }

  /** What one iteration of `paint_text`'s loop appends for `line`, after the pieces `earlier`. */
  function PaintedLine(
    earlier: seq<string>, line: string, syntax: SyntaxRef, background: Option<Color>,
    config: Config, applySyntaxHighlighting: bool, highlight: Highlighter): string
  {
    BackgroundPart(background)
      + PaintedRanges(highlight(syntax, config.theme, earlier, line), None, applySyntaxHighlighting)
  }

  /** What `paint_text`'s loop appends for the pieces `pieces`, highlighted by one highlighter. */
  function PaintedPieces(
    pieces: seq<string>, syntax: SyntaxRef, background: Option<Color>,
    config: Config, applySyntaxHighlighting: bool, highlight: Highlighter): string
  {
    if pieces == [] then ""
    else
      var earlier := pieces[..|pieces| - 1];
      PaintedPieces(earlier, syntax, background, config, applySyntaxHighlighting, highlight)
        + PaintedLine(earlier, pieces[|pieces| - 1], syntax, background, config, applySyntaxHighlighting, highlight)
  }

  /** What `paint_text` appends for `text`. */
  function PaintedText(
    text: string, syntax: SyntaxRef, background: Option<Color>,
    config: Config, applySyntaxHighlighting: bool, highlight: Highlighter): string
  {
    PaintedPieces(LinesWithEndings(text), syntax, background, config, applySyntaxHighlighting, highlight)
  }

  // ---------------------------------------------------------------------------
  // The escape-writing functions; `buf` is the string they append to

  /** `paint`: an optional background escape, then an optional foreground escape, then the text. */
  method Paint(text: string, foreground: Option<Color>, background: Option<Color>, buf: string) returns (out: string)
    ensures out == buf + Painted(text, foreground, background)
  {
    out := buf;
    match background {
      case Some(color) => out := out + BackgroundEscape(color);
      case None =>
    }
    match foreground {
      case Some(color) => out := out + (ForegroundEscape(color) + text);
      case None => out := out + text;
    }
    AppendAssoc(buf, BackgroundPart(background),
                if foreground.Some? then ForegroundEscape(foreground.value) + text else text);
  }

  /** `paint_ranges` */
  method PaintRanges(
    foregroundStyleRanges: seq<StyledRange>, background: Option<Color>,
    applySyntaxHighlighting: bool, buf: string) returns (out: string)
    ensures out == buf + PaintedRanges(foregroundStyleRanges, background, applySyntaxHighlighting)
  {
    out := buf;
    for i := 0 to |foregroundStyleRanges|
      invariant out == buf + PaintedRanges(foregroundStyleRanges[..i], background, applySyntaxHighlighting)
    {
      var (style, text) := foregroundStyleRanges[i];
      ghost var done := PaintedRanges(foregroundStyleRanges[..i], background, applySyntaxHighlighting);
      ghost var next := Painted(text, Foreground(style, applySyntaxHighlighting), background);
      out := Paint(text, Foreground(style, applySyntaxHighlighting), background, out);
      PaintedRangesSnoc(foregroundStyleRanges, i, background, applySyntaxHighlighting);
      AppendAssoc(buf, done, next);
    }
    assert foregroundStyleRanges[..|foregroundStyleRanges|] == foregroundStyleRanges;
  }

  lemma PaintedRangesSnoc(ranges: seq<StyledRange>, i: nat, background: Option<Color>, applySyntaxHighlighting: bool)
    requires i < |ranges|
    ensures PaintedRanges(ranges[..i + 1], background, applySyntaxHighlighting)
         == PaintedRanges(ranges[..i], background, applySyntaxHighlighting)
            + Painted(ranges[i].1, Foreground(ranges[i].0, applySyntaxHighlighting), background)
  {
    assert ranges[..i + 1][..i] == ranges[..i];
  }

  /** `paint_text`: each piece of `text` gets the background escape, then its painted ranges. */
  method PaintText(
    text: string, syntax: SyntaxRef, background: Option<Color>, config: Config,
    applySyntaxHighlighting: bool, highlight: Highlighter, buf: string) returns (out: string)
    ensures out == buf + PaintedText(text, syntax, background, config, applySyntaxHighlighting, highlight)
  {
    var pieces := LinesWithEndings(text);
    out := buf;
    for i := 0 to |pieces|
      invariant out == buf + PaintedPieces(pieces[..i], syntax, background, config, applySyntaxHighlighting, highlight)
    {
      var line := pieces[i];
      ghost var mark := out;
      match background {
        case Some(color) => out := out + BackgroundEscape(color);
        case None =>
      }
      assert out == mark + BackgroundPart(background);
      var ranges := highlight(syntax, config.theme, pieces[..i], line);
      out := PaintRanges(ranges, None, applySyntaxHighlighting, out);
      PaintedPiecesExtend(pieces, i, syntax, background, config, applySyntaxHighlighting, highlight, buf, mark, out);
    }
    assert pieces[..|pieces|] == pieces;
  }

  /** Appending the next piece's background escape and painted ranges extends what is painted by one piece. */
  lemma PaintedPiecesExtend(
    pieces: seq<string>, i: nat, syntax: SyntaxRef, background: Option<Color>,
    config: Config, applySyntaxHighlighting: bool, highlight: Highlighter, buf: string, mark: string, out: string)
    requires i < |pieces|
    requires mark == buf + PaintedPieces(pieces[..i], syntax, background, config, applySyntaxHighlighting, highlight)
    requires out == mark + BackgroundPart(background)
                    + PaintedRanges(highlight(syntax, config.theme, pieces[..i], pieces[i]), None, applySyntaxHighlighting)
    ensures out == buf + PaintedPieces(pieces[..i + 1], syntax, background, config, applySyntaxHighlighting, highlight)
  {
    var done := PaintedPieces(pieces[..i], syntax, background, config, applySyntaxHighlighting, highlight);
    var bgPart := BackgroundPart(background);
    var rangesPart := PaintedRanges(highlight(syntax, config.theme, pieces[..i], pieces[i]), None, applySyntaxHighlighting);
    assert pieces[..i + 1][..i] == pieces[..i];
    AppendAssoc(buf + done, bgPart, rangesPart);
    AppendAssoc(buf, done, bgPart + rangesPart);
  }

  // ---------------------------------------------------------------------------
  // What painted text amounts to

  /** Painting ranges with neither colour writes exactly their text. */
  lemma {:induction false} PlainRanges(ranges: seq<StyledRange>)
    ensures PaintedRanges(ranges, None, false) == RangesText(ranges)
    decreases |ranges|
  {
    if ranges != [] {
      var last := ranges[|ranges| - 1];
      PlainRanges(ranges[..|ranges| - 1]);
      assert Painted(last.1, None, None) == last.1 by { assert "" + last.1 == last.1; }
    }
  }

  lemma {:induction false} PlainPieces(pieces: seq<string>, syntax: SyntaxRef, config: Config, highlight: Highlighter)
    requires Covers(highlight)
    ensures PaintedPieces(pieces, syntax, None, config, false, highlight) == Concat(pieces)
    decreases |pieces|
  {
    if pieces != [] {
      var earlier, line := pieces[..|pieces| - 1], pieces[|pieces| - 1];
      var ranges := highlight(syntax, config.theme, earlier, line);
      PlainPieces(earlier, syntax, config, highlight);
      PlainRanges(ranges);
      assert RangesText(ranges) == line;
      assert "" + line == line;
    }
  }

  /**
    With no background and highlighting off, `paint_text` writes the text back
    unchanged, provided the highlighter's ranges cover each line.
   */
  lemma PlainPaintIsIdentity(text: string, syntax: SyntaxRef, config: Config, highlight: Highlighter)
    requires Covers(highlight)
    ensures PaintedText(text, syntax, None, config, false, highlight) == text
  {
    PlainPieces(LinesWithEndings(text), syntax, config, highlight);
    LinesWithEndingsConcat(text);
  }

  /** `text` empty: `paint_text` writes nothing at all. */
  lemma EmptyTextPaintsNothing(syntax: SyntaxRef, background: Option<Color>, config: Config,
                               applySyntaxHighlighting: bool, highlight: Highlighter)
    ensures PaintedText("", syntax, background, config, applySyntaxHighlighting, highlight) == ""
  {
  }

  /** The pieces, each preceded by the background escape for `c`. */
  function Tinted(pieces: seq<string>, c: Color): string
  {
    if pieces == [] then ""
    else Tinted(pieces[..|pieces| - 1], c) + (BackgroundEscape(c) + pieces[|pieces| - 1])
  }

  /** What `paint_text` writes after the background escape of each piece: that piece's ranges, painted with no background. */
  function PieceBodies(
    pieces: seq<string>, syntax: SyntaxRef, config: Config,
    applySyntaxHighlighting: bool, highlight: Highlighter): seq<string>
  {
    seq(|pieces|, i requires 0 <= i < |pieces| =>
      PaintedRanges(highlight(syntax, config.theme, pieces[..i], pieces[i]), None, applySyntaxHighlighting))
  }

  lemma {:induction false} TintedPieces(
    pieces: seq<string>, syntax: SyntaxRef, c: Color, config: Config,
    applySyntaxHighlighting: bool, highlight: Highlighter)
    ensures PaintedPieces(pieces, syntax, Some(c), config, applySyntaxHighlighting, highlight)
         == Tinted(PieceBodies(pieces, syntax, config, applySyntaxHighlighting, highlight), c)
    decreases |pieces|
  {
    if pieces != [] {
      var n := |pieces|;
      var earlier := pieces[..n - 1];
      var bodies := PieceBodies(pieces, syntax, config, applySyntaxHighlighting, highlight);
      TintedPieces(earlier, syntax, c, config, applySyntaxHighlighting, highlight);
      assert bodies[..n - 1] == PieceBodies(earlier, syntax, config, applySyntaxHighlighting, highlight) by {
        forall i | 0 <= i < n - 1
          ensures bodies[..n - 1][i] == PieceBodies(earlier, syntax, config, applySyntaxHighlighting, highlight)[i]
        {
          assert earlier[..i] == pieces[..i];
        }
      }
    }
  }

  /** With highlighting off, the body of each piece is the piece itself. */
  lemma PlainBodies(pieces: seq<string>, syntax: SyntaxRef, config: Config, highlight: Highlighter)
    requires Covers(highlight)
    ensures PieceBodies(pieces, syntax, config, false, highlight) == pieces
  {
    var bodies := PieceBodies(pieces, syntax, config, false, highlight);
    forall i | 0 <= i < |pieces| ensures bodies[i] == pieces[i] {
      var ranges := highlight(syntax, config.theme, pieces[..i], pieces[i]);
      PlainRanges(ranges);
      assert RangesText(ranges) == pieces[i];
    }
  }

  /** With either highlighting choice, the body of each escape-free piece strips back to the piece. */
  lemma DecodedBodies(
    pieces: seq<string>, syntax: SyntaxRef, config: Config,
    applySyntaxHighlighting: bool, highlight: Highlighter)
    requires Covers(highlight)
    requires forall i :: 0 <= i < |pieces| ==> Esc !in pieces[i]
    ensures forall i :: 0 <= i < |pieces|
              ==> StripSgr(PieceBodies(pieces, syntax, config, applySyntaxHighlighting, highlight)[i]) == pieces[i]
  {
    var bodies := PieceBodies(pieces, syntax, config, applySyntaxHighlighting, highlight);
    forall i | 0 <= i < |pieces| ensures StripSgr(bodies[i]) == pieces[i] {
      var ranges := highlight(syntax, config.theme, pieces[..i], pieces[i]);
      assert RangesText(ranges) == pieces[i];
      StripRangesAhead(ranges, None, applySyntaxHighlighting, "");
      assert bodies[i] + "" == bodies[i];
      assert pieces[i] + StripSgr("") == pieces[i];
    }
  }

  lemma {:induction false} EscapeFreePieces(pieces: seq<string>)
    requires Esc !in Concat(pieces)
    ensures forall i :: 0 <= i < |pieces| ==> Esc !in pieces[i]
    decreases |pieces|
  {
    if pieces != [] {
      var init := pieces[..|pieces| - 1];
      EscapeFreePieces(init);
      forall i | 0 <= i < |pieces| - 1 ensures Esc !in pieces[i] {
        assert pieces[i] == init[i];
      }
    }
  }

  /**
    With a background, every piece of the text (split after each newline) is
    written as one background escape followed by its body, whatever the
    highlighting choice. Each body strips back to its piece when the text holds
    no escape character, and is the piece itself when highlighting is off.
   */
  lemma BackgroundPerPiece(
    text: string, syntax: SyntaxRef, c: Color, config: Config,
    applySyntaxHighlighting: bool, highlight: Highlighter)
    requires Covers(highlight)
    ensures var pieces := LinesWithEndings(text);
            var bodies := PieceBodies(pieces, syntax, config, applySyntaxHighlighting, highlight);
            && PaintedText(text, syntax, Some(c), config, applySyntaxHighlighting, highlight) == Tinted(bodies, c)
            && (Esc !in text ==> forall i :: 0 <= i < |pieces| ==> StripSgr(bodies[i]) == pieces[i])
            && (!applySyntaxHighlighting ==> bodies == pieces)
  {
    var pieces := LinesWithEndings(text);
    TintedPieces(pieces, syntax, c, config, applySyntaxHighlighting, highlight);
    if Esc !in text {
      LinesWithEndingsConcat(text);
      EscapeFreePieces(pieces);
      DecodedBodies(pieces, syntax, config, applySyntaxHighlighting, highlight);
    }
    if !applySyntaxHighlighting {
      PlainBodies(pieces, syntax, config, highlight);
    }
  }

  lemma StripPaintedAhead(text: string, foreground: Option<Color>, background: Option<Color>, t: string)
    requires Esc !in text
    ensures StripSgr(Painted(text, foreground, background) + t) == text + StripSgr(t)
  {
    var fgPart := if foreground.Some? then ForegroundEscape(foreground.value) + text else text;
    AppendAssoc(BackgroundPart(background), fgPart, t);
    if background.Some? {
      StripBackgroundEscape(background.value, fgPart + t);
    } else {
      assert "" + (fgPart + t) == fgPart + t;
    }
    if foreground.Some? {
      AppendAssoc(ForegroundEscape(foreground.value), text, t);
      StripForegroundEscape(foreground.value, text + t);
    }
    StripPlain(text, t);
  }

  lemma {:induction false} StripRangesAhead(ranges: seq<StyledRange>, background: Option<Color>,
                                            applySyntaxHighlighting: bool, t: string)
    requires Esc !in RangesText(ranges)
    ensures StripSgr(PaintedRanges(ranges, background, applySyntaxHighlighting) + t) == RangesText(ranges) + StripSgr(t)
    decreases |ranges|
  {
    if ranges == [] {
      assert "" + t == t;
      assert "" + StripSgr(t) == StripSgr(t);
    } else {
      var init, last := ranges[..|ranges| - 1], ranges[|ranges| - 1];
      var head := PaintedRanges(init, background, applySyntaxHighlighting);
      var next := Painted(last.1, Foreground(last.0, applySyntaxHighlighting), background);
      AppendAssoc(head, next, t);
      StripRangesAhead(init, background, applySyntaxHighlighting, next + t);
      StripPaintedAhead(last.1, Foreground(last.0, applySyntaxHighlighting), background, t);
      AppendAssoc(RangesText(init), last.1, StripSgr(t));
    }
  }

  lemma {:induction false} StripPiecesAhead(pieces: seq<string>, syntax: SyntaxRef, background: Option<Color>,
                                            config: Config, applySyntaxHighlighting: bool, highlight: Highlighter, t: string)
    requires Covers(highlight) && Esc !in Concat(pieces)
    ensures StripSgr(PaintedPieces(pieces, syntax, background, config, applySyntaxHighlighting, highlight) + t)
         == Concat(pieces) + StripSgr(t)
    decreases |pieces|
  {
    if pieces == [] {
      assert "" + t == t;
      assert "" + StripSgr(t) == StripSgr(t);
    } else {
      var earlier, line := pieces[..|pieces| - 1], pieces[|pieces| - 1];
      var ranges := highlight(syntax, config.theme, earlier, line);
      var head := PaintedPieces(earlier, syntax, background, config, applySyntaxHighlighting, highlight);
      var painted := PaintedRanges(ranges, None, applySyntaxHighlighting);
      var next := BackgroundPart(background) + painted;
      AppendAssoc(head, next, t);
      StripPiecesAhead(earlier, syntax, background, config, applySyntaxHighlighting, highlight, next + t);
      AppendAssoc(BackgroundPart(background), painted, t);
      if background.Some? {
        StripBackgroundEscape(background.value, painted + t);
      } else {
        assert "" + (painted + t) == painted + t;
      }
      assert RangesText(ranges) == line;
      StripRangesAhead(ranges, None, applySyntaxHighlighting, t);
      AppendAssoc(Concat(earlier), line, StripSgr(t));
    }
  }

  /**
    The escapes are additive: removing every colour sequence from what
    `paint_text` writes gives back the text, for any background and either
    highlighting choice, provided the text holds no escape character and the
    highlighter's ranges cover each line.
   */
  lemma StripPaintedText(text: string, syntax: SyntaxRef, background: Option<Color>, config: Config,
                         applySyntaxHighlighting: bool, highlight: Highlighter)
    requires Covers(highlight) && Esc !in text
    ensures StripSgr(PaintedText(text, syntax, background, config, applySyntaxHighlighting, highlight)) == text
  {
    var pieces := LinesWithEndings(text);
    var painted := PaintedText(text, syntax, background, config, applySyntaxHighlighting, highlight);
    LinesWithEndingsConcat(text);
    StripPiecesAhead(pieces, syntax, background, config, applySyntaxHighlighting, highlight, "");
    assert painted + "" == painted;
    assert text + "" == text;
  }

  /** The lines, each but the last followed by a newline. */
  function Terminated(lines: seq<string>): seq<string>
  {
    seq(|lines|, i requires 0 <= i < |lines| => if i < |lines| - 1 then lines[i] + "\n" else lines[i])
  }

  lemma LinesWithEndingsAfterLine(line: string, t: string)
    requires '\n' !in line
    ensures LinesWithEndings(line + "\n" + t) == [line + "\n"] + LinesWithEndings(t)
  {
    var s := line + "\n" + t;
    assert s[|line|] == '\n';
    var n := FirstLineLength(s);
    assert n == |line| + 1;
    assert s[..n] == line + "\n";
    assert s[n..] == t;
  }

  lemma LinesWithEndingsOfLine(line: string)
    requires line != [] && '\n' !in line
    ensures LinesWithEndings(line) == [line]
  {
    assert FirstLineLength(line) == |line|;
    assert line[..|line|] == line;
    assert line[|line|..] == [];
  }

  lemma TerminatedCons(lines: seq<string>)
    requires |lines| > 1
    ensures Terminated(lines) == [lines[0] + "\n"] + Terminated(lines[1..])
  {
  }

  /**
    Joining lines that are non-empty and hold no newline, and cutting the result
    after each newline, gives one piece per line: each buffered line is painted
    as a piece of its own.
   */
  lemma {:induction false} JoinedLinesPieces(lines: seq<string>)
    requires forall i :: 0 <= i < |lines| ==> lines[i] != [] && '\n' !in lines[i]
    ensures LinesWithEndings(Join(lines, "\n")) == Terminated(lines)
    decreases |lines|
  {
    if |lines| == 1 {
      LinesWithEndingsOfLine(lines[0]);
    } else if |lines| > 1 {
      JoinedLinesPieces(lines[1..]);
      LinesWithEndingsAfterLine(lines[0], Join(lines[1..], "\n"));
      TerminatedCons(lines);
    }
  }

  // ---------------------------------------------------------------------------
  // Flushing

  /** What a flush of the pending buffers writes: nothing, or the removed block and then the added block. */
  function FlushedLines(
    minusLines: seq<string>, plusLines: seq<string>, syntax: Option<SyntaxRef>,
    config: Config, highlight: Highlighter): (written: seq<string>)
    requires (minusLines == [] && plusLines == []) || syntax.Some?
    ensures |written| == if minusLines == [] && plusLines == [] then 0 else 2
    ensures |written| == 2 && minusLines == [] ==> written[0] == ""
    ensures |written| == 2 && plusLines == [] ==> written[1] == ""
  {
    if minusLines == [] && plusLines == [] then []
    else
      [PaintedText(Join(minusLines, "\n"), syntax.value, Some(config.minusColor), config, config.highlightRemoved, highlight),
       PaintedText(Join(plusLines, "\n"), syntax.value, Some(config.plusColor), config, true, highlight)]
  }

  /**
    Under the covering contract, removing the colour sequences from the two
    lines a flush writes gives back the removed lines and the added lines,
    each joined by newlines.
   */
  lemma FlushDecodes(minusLines: seq<string>, plusLines: seq<string>, syntax: Option<SyntaxRef>,
                     config: Config, highlight: Highlighter)
    requires Covers(highlight) && syntax.Some? && (minusLines != [] || plusLines != [])
    requires Esc !in Join(minusLines, "\n") && Esc !in Join(plusLines, "\n")
    ensures |FlushedLines(minusLines, plusLines, syntax, config, highlight)| == 2
    ensures StripSgr(FlushedLines(minusLines, plusLines, syntax, config, highlight)[0]) == Join(minusLines, "\n")
    ensures StripSgr(FlushedLines(minusLines, plusLines, syntax, config, highlight)[1]) == Join(plusLines, "\n")
  {
    StripPaintedText(Join(minusLines, "\n"), syntax.value, Some(config.minusColor), config, config.highlightRemoved, highlight);
    StripPaintedText(Join(plusLines, "\n"), syntax.value, Some(config.plusColor), config, true, highlight);
  }

  /**
    With highlighting of removed lines off, the removed block a flush writes is
    each removed line preceded by one removed-background escape.
   */
  lemma FlushTintsRemovedLines(minusLines: seq<string>, plusLines: seq<string>, syntax: Option<SyntaxRef>,
                               config: Config, highlight: Highlighter)
    requires Covers(highlight) && syntax.Some? && !config.highlightRemoved && minusLines != []
    requires forall i :: 0 <= i < |minusLines| ==> minusLines[i] != [] && '\n' !in minusLines[i]
    ensures FlushedLines(minusLines, plusLines, syntax, config, highlight)[0]
         == Tinted(Terminated(minusLines), config.minusColor)
  {
    JoinedLinesPieces(minusLines);
    BackgroundPerPiece(Join(minusLines, "\n"), syntax.value, config.minusColor, config, false, highlight);
  }

  /**
    Whatever the highlighting choices, each removed line of a flush is written
    after one removed-background escape and each added line after one
    added-background escape; with no escape character in the lines, what follows
    each escape strips back to that line (with its newline, all but the last).
   */
  lemma FlushTintsEachLine(minusLines: seq<string>, plusLines: seq<string>, syntax: Option<SyntaxRef>,
                           config: Config, highlight: Highlighter)
    requires Covers(highlight) && syntax.Some? && (minusLines != [] || plusLines != [])
    requires forall i :: 0 <= i < |minusLines| ==> minusLines[i] != [] && '\n' !in minusLines[i]
    requires forall i :: 0 <= i < |plusLines| ==> plusLines[i] != [] && '\n' !in plusLines[i]
    ensures var written := FlushedLines(minusLines, plusLines, syntax, config, highlight);
            var removed := PieceBodies(Terminated(minusLines), syntax.value, config, config.highlightRemoved, highlight);
            var added := PieceBodies(Terminated(plusLines), syntax.value, config, true, highlight);
            && |written| == 2
            && written[0] == Tinted(removed, config.minusColor)
            && written[1] == Tinted(added, config.plusColor)
            && (Esc !in Join(minusLines, "\n") ==>
                  forall i :: 0 <= i < |minusLines| ==> StripSgr(removed[i]) == Terminated(minusLines)[i])
            && (Esc !in Join(plusLines, "\n") ==>
                  forall i :: 0 <= i < |plusLines| ==> StripSgr(added[i]) == Terminated(plusLines)[i])
  {
    JoinedLinesPieces(minusLines);
    JoinedLinesPieces(plusLines);
    BackgroundPerPiece(Join(minusLines, "\n"), syntax.value, config.minusColor, config, config.highlightRemoved, highlight);
    BackgroundPerPiece(Join(plusLines, "\n"), syntax.value, config.plusColor, config, true, highlight);
  }

  /**
    `Painter`: the pending removed (`minusLines`) and added (`plusLines`) lines,
    the active syntax, the reusable output buffer, and the writer.
   */
  class Painter {
    var minusLines: seq<string>
    var plusLines: seq<string>
    var writer: seq<string>
    var syntax: Option<SyntaxRef>
    const config: Config
    const highlighter: Highlighter
    var outputBuffer: string

    /** Between calls, the output buffer is empty. */
    ghost predicate Valid()
      reads this
    {
      outputBuffer == ""
    }

    constructor (config: Config, highlighter: Highlighter)
      ensures Valid() && this.config == config && this.highlighter == highlighter
      ensures minusLines == [] && plusLines == [] && writer == [] && syntax == None
    {
      this.config := config;
      this.highlighter := highlighter;
      minusLines := [];
      plusLines := [];
      writer := [];
      syntax := None;
      outputBuffer := "";
    }

    predicate IsEmpty(): (empty: bool)
      reads this
      ensures empty <==> minusLines == [] && plusLines == []
    {
      |minusLines| == 0 && |plusLines| == 0
    }

    /** `paint_and_emit_buffered_lines` */
    method PaintAndEmitBufferedLines()
      requires Valid()
      requires (minusLines == [] && plusLines == []) || syntax.Some?
      modifies this
      ensures Valid() && syntax == old(syntax)
      ensures writer == old(writer) + FlushedLines(old(minusLines), old(plusLines), old(syntax), config, highlighter)
      ensures minusLines == [] && plusLines == []
    {
      if IsEmpty() {
        return;
      }
      ghost var written := FlushedLines(minusLines, plusLines, syntax, config, highlighter);
      ghost var before := writer;
      assert "" + written[0] == written[0] && "" + written[1] == written[1];
      PaintAndEmitText(Join(minusLines, "\n"), Some(config.minusColor), config.highlightRemoved);
      assert writer == before + [written[0]];
      minusLines := [];
      ghost var middle := writer;
      PaintAndEmitText(Join(plusLines, "\n"), Some(config.plusColor), true);
      assert writer == middle + [written[1]];
      AppendAssoc(before, [written[0]], [written[1]]);
      assert [written[0]] + [written[1]] == written;
      plusLines := [];
    }

    /** `paint_and_emit_text`: paint into the output buffer, write it as one line, truncate it. */
    method PaintAndEmitText(text: string, backgroundColor: Option<Color>, applySyntaxHighlighting: bool)
      requires syntax.Some?
      modifies this
      ensures writer == old(writer) + [old(outputBuffer)
                + PaintedText(text, old(syntax).value, backgroundColor, config, applySyntaxHighlighting, highlighter)]
      ensures Valid()
      ensures minusLines == old(minusLines) && plusLines == old(plusLines) && syntax == old(syntax)
    {
      outputBuffer := PaintText(text, syntax.value, backgroundColor, config, applySyntaxHighlighting,
                                highlighter, outputBuffer);
      writer := writer + [outputBuffer];
      outputBuffer := outputBuffer[..0];
    }
  }
}
