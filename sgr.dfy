/**
  The 24-bit colour control sequences the painter writes (SGR, "select graphic
  rendition", section 8.3.117 of ECMA-48, in the semicolon form
  ESC [ 48 ; 2 ; R ; G ; B m for a background and ESC [ 38 ; 2 ; R ; G ; B m
  for a foreground), together with a decoder for one sequence and a remover of
  every such sequence, which serve as their inverses.
 */
module Sgr {
  import opened Wrappers
  import opened Syntect
  import opened Strings
  import opened Fmt

  const Esc: char := 27 as char

  /** The parameter part `selector;2;R;G;B` of a colour sequence. */
  function ColorParams(selector: string, c: Color): string
  {
    selector + (";2;" + (Decimal(c.r) + (";" + (Decimal(c.g) + (";" + Decimal(c.b))))))
  }

  function ColorEscape(selector: string, c: Color): string
  {
    [Esc] + ("[" + (ColorParams(selector, c) + "m"))
  }

  /** The background sequence: selector 48, then the colour's red, green and blue in decimal. */
  function BackgroundEscape(c: Color): string
  {
    ColorEscape("48", c)
  }

  /** The foreground sequence: selector 38, then the colour's red, green and blue in decimal. */
  function ForegroundEscape(c: Color): string
  {
    ColorEscape("38", c)
  }

  // ---------------------------------------------------------------------------
  // Decoding one colour sequence

  /** What a colour sequence says: its selector (38 or 48) and the three components. */
  datatype ColorSpec = ColorSpec(selector: nat, r: nat, g: nat, b: nat)

  function Expect(c: char, s: string): Option<string>
  {
    if s != [] && s[0] == c then Some(s[1..]) else None
  }

  /** A non-empty run of decimal digits at the start of `s`, its value and what follows it. */
  function ReadNumber(s: string): Option<(nat, string)>
  {
    var k := DigitRun(s);
    if k == 0 then None else Some((DecimalValue(s[..k]), s[k..]))
  }

  /** A number at the start of `s` followed by the character `sep`; the number and what follows `sep`. */
  function ReadField(s: string, sep: char): Option<(nat, string)>
  {
    var num :- ReadNumber(s);
    var rest :- Expect(sep, num.1);
    Some((num.0, rest))
  }

  /** Reads one colour sequence at the start of `s`; returns what it says and the rest of `s`. */
  function ParseColorEscape(s: string): Option<(ColorSpec, string)>
  {
    var s1 :- Expect(Esc, s);
    var s2 :- Expect('[', s1);
    var sel :- ReadField(s2, ';');
    var two :- ReadField(sel.1, ';');
    if two.0 != 2 then None
    else
      var r :- ReadField(two.1, ';');
      var g :- ReadField(r.1, ';');
      var b :- ReadField(g.1, 'm');
      Some((ColorSpec(sel.0, r.0, g.0, b.0), b.1))
  }

  lemma ReadDecimalField(n: nat, sep: char, t: string)
    requires !IsDigit(sep)
    ensures ReadField(Decimal(n) + ([sep] + t), sep) == Some((n, t))
  {
    var d := Decimal(n);
    var u := [sep] + t;
    DigitRunAfterDigits(d, u);
    assert DigitRun(u) == 0;
    assert (d + u)[..|d|] == d && (d + u)[|d|..] == u;
    DecimalRoundTrip(n);
  }

  /** The colour sequence as a chain of fields, each a number and its terminator. */
  lemma ColorEscapeFields(n: nat, c: Color, rest: string)
    ensures ColorEscape(Decimal(n), c) + rest
         == [Esc] + ("[" + (Decimal(n) + (";" + (Decimal(2) + (";" + (Decimal(c.r) + (";"
            + (Decimal(c.g) + (";" + (Decimal(c.b) + ("m" + rest)))))))))))
  {
    assert Decimal(2) == "2";
  }

  /** Decoding a written colour sequence gives back its selector and colour, and the rest intact. */
  lemma ParseColorEscapeRoundTrip(n: nat, c: Color, rest: string)
    ensures ParseColorEscape(ColorEscape(Decimal(n), c) + rest)
         == Some((ColorSpec(n, c.r, c.g, c.b), rest))
  {
    var s6 := Decimal(c.b) + ("m" + rest);
    var s5 := Decimal(c.g) + (";" + s6);
    var s4 := Decimal(c.r) + (";" + s5);
    var s3 := Decimal(2) + (";" + s4);
    var s2 := Decimal(n) + (";" + s3);
    var s1 := "[" + s2;
    ColorEscapeFields(n, c, rest);
    assert ColorEscape(Decimal(n), c) + rest == [Esc] + s1;
    assert Expect(Esc, [Esc] + s1) == Some(s1);
    assert Expect('[', s1) == Some(s2);
    ReadDecimalField(n, ';', s3);
    ReadDecimalField(2, ';', s4);
    ReadDecimalField(c.r, ';', s5);
    ReadDecimalField(c.g, ';', s6);
    ReadDecimalField(c.b, 'm', rest);
  }

  lemma BackgroundEscapeDecodes(c: Color, rest: string)
    ensures ParseColorEscape(BackgroundEscape(c) + rest) == Some((ColorSpec(48, c.r, c.g, c.b), rest))
  {
    assert Decimal(48) == "48";
    ParseColorEscapeRoundTrip(48, c, rest);
  }

  lemma ForegroundEscapeDecodes(c: Color, rest: string)
    ensures ParseColorEscape(ForegroundEscape(c) + rest) == Some((ColorSpec(38, c.r, c.g, c.b), rest))
  {
    assert Decimal(38) == "38";
    ParseColorEscapeRoundTrip(38, c, rest);
  }

  // ---------------------------------------------------------------------------
  // Removing colour sequences

  predicate IsParamChar(c: char) {
    IsDigit(c) || c == ';'
  }

  predicate AllParamChars(s: string) {
    forall i :: 0 <= i < |s| ==> IsParamChar(s[i])
  }

  /** The length of the longest prefix of `s` made of digits and semicolons. */
  function ParamRun(s: string): (k: nat)
    ensures k <= |s|
  {
    if s != [] && IsParamChar(s[0]) then 1 + ParamRun(s[1..]) else 0
  }

  /** `s` with every complete `ESC [ <digits and semicolons> m` sequence taken out. */
  function StripSgr(s: string): string
    decreases |s|
  {
    if s == [] then ""
    else if |s| >= 2 && s[0] == Esc && s[1] == '[' && 2 + ParamRun(s[2..]) < |s|
         && s[2 + ParamRun(s[2..])] == 'm'
    then StripSgr(s[3 + ParamRun(s[2..])..])
    else [s[0]] + StripSgr(s[1..])
  }

  lemma {:induction false} ParamRunAfterParams(p: string, t: string)
    requires AllParamChars(p)
    ensures ParamRun(p + t) == |p| + ParamRun(t)
    decreases |p|
  {
    if p != [] {
      assert (p + t)[0] == p[0] && IsParamChar(p[0]);
      assert (p + t)[1..] == p[1..] + t;
      assert AllParamChars(p[1..]) by {
        forall i | 0 <= i < |p| - 1 ensures IsParamChar(p[1..][i]) { assert p[1..][i] == p[i + 1]; }
      }
      ParamRunAfterParams(p[1..], t);
    } else {
      assert p + t == t;
    }
  }

  lemma ColorParamsAreParamChars(selector: string, c: Color)
    requires AllDigits(selector)
    ensures AllParamChars(ColorParams(selector, c))
  {
  }

  /** A colour sequence disappears under StripSgr, whatever follows it. */
  lemma StripColorEscape(selector: string, c: Color, t: string)
    requires AllDigits(selector)
    ensures StripSgr(ColorEscape(selector, c) + t) == StripSgr(t)
  {
    var p := ColorParams(selector, c);
    var s := ColorEscape(selector, c) + t;
    ColorParamsAreParamChars(selector, c);
    assert s == [Esc, '['] + (p + ("m" + t));
    assert s[2..] == p + ("m" + t);
    ParamRunAfterParams(p, "m" + t);
    assert ParamRun("m" + t) == 0;
    assert s[2 + |p|] == 'm';
    assert s[3 + |p|..] == t;
  }

  lemma StripBackgroundEscape(c: Color, t: string)
    ensures StripSgr(BackgroundEscape(c) + t) == StripSgr(t)
  {
    StripColorEscape("48", c, t);
  }

  lemma StripForegroundEscape(c: Color, t: string)
    ensures StripSgr(ForegroundEscape(c) + t) == StripSgr(t)
  {
    StripColorEscape("38", c, t);
  }

  /** Text without an escape character passes through StripSgr unchanged. */
  lemma {:induction false} StripPlain(p: string, t: string)
    requires Esc !in p
    ensures StripSgr(p + t) == p + StripSgr(t)
    decreases |p|
  {
    if p != [] {
      var s := p + t;
      assert s[0] == p[0] != Esc;
      assert s[1..] == p[1..] + t;
      StripPlain(p[1..], t);
      assert p == [p[0]] + p[1..];
    } else {
      assert p + t == t;
    }
  }
}
