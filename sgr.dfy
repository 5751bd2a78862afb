/**
 * Colours: the console attribute bits, `outputSetColorSgrParams`, and the
 * heuristic `sendLine` uses to turn a console foreground/background pair
 * into SGR (Select Graphic Rendition) parameters (agent/Terminal.cc).
 */
module Sgr {
  import opened Bytes
  import opened Digits
  import opened Vt

  // Console attribute bits, with the values Microsoft documents for windows.h.
  const FOREGROUND_BLUE := 0x1
  const FOREGROUND_GREEN := 0x2
  const FOREGROUND_RED := 0x4
  const FOREGROUND_INTENSITY := 0x8
  const BACKGROUND_BLUE := 0x10
  const BACKGROUND_GREEN := 0x20
  const BACKGROUND_RED := 0x40
  const BACKGROUND_INTENSITY := 0x80

  const COLOR_ATTRIBUTE_MASK := FOREGROUND_BLUE + FOREGROUND_GREEN + FOREGROUND_RED + FOREGROUND_INTENSITY
    + BACKGROUND_BLUE + BACKGROUND_GREEN + BACKGROUND_RED + BACKGROUND_INTENSITY

  // The renderer's own colour encoding: red, green, blue in the bit order of
  // the ANSI palette (red = 1, green = 2, blue = 4), plus intensity.
  const FLAG_RED := 1
  const FLAG_GREEN := 2
  const FLAG_BLUE := 4
  const FLAG_BRIGHT := 8

  const BLACK := 0
  const DKGRAY := BLACK + FLAG_BRIGHT
  const LTGRAY := FLAG_RED + FLAG_GREEN + FLAG_BLUE
  const WHITE := LTGRAY + FLAG_BRIGHT

  const SGR_FORE := 30
  const SGR_FORE_HI := 90
  const SGR_BACK := 40
  const SGR_BACK_HI := 100

  const SGR_BOLD := 1
  const SGR_INVERT := 7
  const SGR_CONCEAL := 8

  /** A foreground or background colour in the renderer's encoding. */
  type Nibble = c: int | 0 <= c < 16

  /** `x & flag` is non-zero, for a flag that is a single bit. */
  predicate Has(x: int, flag: nat)
    requires 0 <= x && 0 < flag
  {
    (x / flag) % 2 == 1
  }

  function Fore(color: nat): (f: Nibble)
    ensures Has(f, FLAG_RED) == Has(color, FOREGROUND_RED)
    ensures Has(f, FLAG_GREEN) == Has(color, FOREGROUND_GREEN)
    ensures Has(f, FLAG_BLUE) == Has(color, FOREGROUND_BLUE)
    ensures Has(f, FLAG_BRIGHT) == Has(color, FOREGROUND_INTENSITY)
  {
    (if Has(color, FOREGROUND_RED) then FLAG_RED else 0)
    + (if Has(color, FOREGROUND_GREEN) then FLAG_GREEN else 0)
    + (if Has(color, FOREGROUND_BLUE) then FLAG_BLUE else 0)
    + (if Has(color, FOREGROUND_INTENSITY) then FLAG_BRIGHT else 0)
  }

  function Back(color: nat): (b: Nibble)
    ensures Has(b, FLAG_RED) == Has(color, BACKGROUND_RED)
    ensures Has(b, FLAG_GREEN) == Has(color, BACKGROUND_GREEN)
    ensures Has(b, FLAG_BLUE) == Has(color, BACKGROUND_BLUE)
    ensures Has(b, FLAG_BRIGHT) == Has(color, BACKGROUND_INTENSITY)
  {
    (if Has(color, BACKGROUND_RED) then FLAG_RED else 0)
    + (if Has(color, BACKGROUND_GREEN) then FLAG_GREEN else 0)
    + (if Has(color, BACKGROUND_BLUE) then FLAG_BLUE else 0)
    + (if Has(color, BACKGROUND_INTENSITY) then FLAG_BRIGHT else 0)
  }

  /** For a 4-bit colour, `color & FLAG_BRIGHT` is the upper half of the range. */
  lemma BrightBit(c: Nibble)
    ensures Has(c, FLAG_BRIGHT) <==> c >= 8
    ensures c % 8 == if c >= 8 then c - FLAG_BRIGHT else c
  {
  }

  /**
   * The parameters `outputSetColorSgrParams` writes: the plain 3X/4X code,
   * and for an intense colour the 9X/10X code after it.
   */
  function SetColorParams(isFore: bool, color: Nibble): (ps: seq<nat>)
    ensures 1 <= |ps| <= 2
    ensures |ps| == 2 <==> Has(color, FLAG_BRIGHT)
    ensures forall i | 0 <= i < |ps| :: 30 <= ps[i] <= 107
  {
    var sgrBase := SgrBase(isFore);
    if Has(color, FLAG_BRIGHT) then
      var colorBase := color - FLAG_BRIGHT;
      [sgrBase + colorBase, sgrBase + (SGR_FORE_HI - SGR_FORE) + colorBase]
    else
      [sgrBase + color]
  }

  /** The colour a terminal shows for `c`: the intensity bit is lost on one without 9X/10X support. */
  function Shade(c: Nibble, bright: bool): Colour
  {
    Index(if bright then c else c % 8)
  }

  /**
   * The fallback pairing works: a terminal that honours 9X/10X shows the
   * intense colour, one that ignores them keeps the plain code, and
   * nothing else of the rendition changes.
   */
  lemma SetColorParamsMeaning(r: Rendition, isFore: bool, color: Nibble, bright: bool)
    ensures ApplyAll(r, SetColorParams(isFore, color), bright)
         == if isFore then r.(fg := Shade(color, bright)) else r.(bg := Shade(color, bright))
  {
    var ps := SetColorParams(isFore, color);
    BrightBit(color);
    var r1 := ApplySgr(r, ps[0], bright);
    assert ApplyAll(r, ps, bright) == ApplyAll(r1, ps[1..], bright);
    if |ps| == 2 {
      assert ps[1..][1..] == [];
      assert ApplyAll(r1, ps[1..], bright) == ApplySgr(r1, ps[1], bright);
    } else {
      assert ps[1..] == [];
    }
  }

  function SgrBase(isFore: bool): nat
  {
    if isFore then SGR_FORE else SGR_BACK
  }

  /** The text of an intense colour's two parameters. */
  lemma BrightColorText(isFore: bool, color: Nibble)
    requires Has(color, FLAG_BRIGHT)
    ensures Prefixed(SetColorParams(isFore, color))
         == [SEMICOLON] + Decimal(SgrBase(isFore) + (color - FLAG_BRIGHT)) + [SEMICOLON]
            + Decimal(SgrBase(isFore) + (SGR_FORE_HI - SGR_FORE) + (color - FLAG_BRIGHT))
  {
    var ps := SetColorParams(isFore, color);
    assert ps == [ps[0]] + [ps[1]];
    PrefixedAppend([ps[0]], [ps[1]]);
    PrefixedSingle(ps[0]);
    PrefixedSingle(ps[1]);
  }

  /** The text of a plain colour's one parameter. */
  lemma PlainColorText(isFore: bool, color: Nibble)
    requires !Has(color, FLAG_BRIGHT)
    ensures Prefixed(SetColorParams(isFore, color)) == [SEMICOLON] + Decimal(SgrBase(isFore) + color)
  {
    PrefixedSingle(SgrBase(isFore) + color);
  }

  /** `outputSetColorSgrParams`: append ';' and the colour's parameters. */
  method OutputSetColorSgrParams(out: seq<Byte>, isFore: bool, color: Nibble) returns (r: seq<Byte>)
    ensures r == out + Prefixed(SetColorParams(isFore, color))
  {
    r := out + [SEMICOLON];
    var sgrBase := SgrBase(isFore);
    if Has(color, FLAG_BRIGHT) {
      var colorBase := color - FLAG_BRIGHT;
      r := OutUInt(r, sgrBase + colorBase);
      r := r + [SEMICOLON];
      r := OutUInt(r, sgrBase + (SGR_FORE_HI - SGR_FORE) + colorBase);
      BrightColorText(isFore, color);
      Assoc(out + [SEMICOLON], Decimal(sgrBase + colorBase), [SEMICOLON],
        Decimal(sgrBase + (SGR_FORE_HI - SGR_FORE) + colorBase));
    } else {
      r := OutUInt(r, sgrBase + color);
      PlainColorText(isFore, color);
    }
  }

  /**
   * The colour parameters `sendLine` chooses for a pair, by background
   * class: black, white, anything else.
   */
  function ColorChoice(fore: Nibble, back: Nibble): (ps: seq<nat>)
    ensures forall i | 0 <= i < |ps| :: ps[i] == SGR_BOLD || ps[i] == SGR_INVERT || 30 <= ps[i] <= 107
  {
    if back == BLACK then
      if fore == LTGRAY then []
      else if fore == WHITE then [SGR_BOLD]
      else if fore == DKGRAY then [SGR_FORE + LTGRAY, SGR_FORE_HI + BLACK]
      else SetColorParams(true, fore)
    else if back == WHITE then
      [SGR_INVERT] + (if fore == LTGRAY || fore == BLACK then [] else SetColorParams(false, fore))
    else
      SetColorParams(true, fore) + SetColorParams(false, back)
  }

  /** All parameters after the leading reset (0): the colours, then conceal when they coincide. */
  function SgrParams(fore: Nibble, back: Nibble): seq<nat>
  {
    ColorChoice(fore, back) + (if fore == back then [SGR_CONCEAL] else [])
  }

  /** The complete SGR control sequence for a colour pair: CSI "0", the parameters, 'm'. */
  function ColorSgr(fore: Nibble, back: Nibble): seq<Byte>
  {
    CSI + [ZERO] + Prefixed(SgrParams(fore, back)) + [FINAL_SGR]
  }

  /**
   * The rendition the heuristic intends for a colour pair on a terminal
   * whose default colours are unknown, as the mapping table in the comment of `sendLine`
   * (agent/Terminal.cc:173-188) and the notes on each case (194-207) describe it.
   */
  function Intended(fore: Nibble, back: Nibble, bright: bool): Rendition
  {
    var conceal := fore == back;
    if back == BLACK then
      // The terminal's own default colours; white is approximated by bold;
      // dark gray falls back to light gray rather than to black.
      Rendition(
        if fore == LTGRAY || fore == WHITE then Default
        else if fore == DKGRAY && !bright then Index(LTGRAY)
        else Shade(fore, bright),
        Default, fore == WHITE, false, conceal)
    else if back == WHITE then
      // Inverted default colours; the foreground is set as a background.
      Rendition(Default, if fore == LTGRAY || fore == BLACK then Default else Shade(fore, bright), false, true, conceal)
    else
      Rendition(Shade(fore, bright), Shade(back, bright), false, false, conceal)
  }

  lemma ColorChoiceMeaning(fore: Nibble, back: Nibble, bright: bool)
    ensures ApplyAll(Plain, ColorChoice(fore, back), bright) == Intended(fore, back, bright).(conceal := false)
  {
    var ps := ColorChoice(fore, back);
    if back == BLACK {
      if fore == LTGRAY {
      } else if fore == WHITE {
        assert ps[1..] == [];
      } else if fore == DKGRAY {
        var r1 := Plain.(fg := Index(LTGRAY));
        assert ps == [SGR_FORE + LTGRAY, SGR_FORE_HI];
        assert ps[1..] == [SGR_FORE_HI];
        assert ApplyAll(Plain, ps, bright) == ApplyAll(r1, [SGR_FORE_HI], bright);
        assert [SGR_FORE_HI][1..] == [];
        assert ApplyAll(r1, [SGR_FORE_HI], bright) == ApplySgr(r1, SGR_FORE_HI, bright);
      } else {
        SetColorParamsMeaning(Plain, true, fore, bright);
      }
    } else if back == WHITE {
      var inv := Plain.(inverse := true);
      assert ApplyAll(Plain, [SGR_INVERT], bright) == inv by {
        assert [SGR_INVERT][1..] == [];
      }
      if fore == LTGRAY || fore == BLACK {
        assert ps == [SGR_INVERT];
      } else {
        ApplyAllAppend(Plain, [SGR_INVERT], SetColorParams(false, fore), bright);
        SetColorParamsMeaning(inv, false, fore, bright);
      }
    } else {
      ApplyAllAppend(Plain, SetColorParams(true, fore), SetColorParams(false, back), bright);
      SetColorParamsMeaning(Plain, true, fore, bright);
      SetColorParamsMeaning(Plain.(fg := Shade(fore, bright)), false, back, bright);
    }
  }

  /** Whatever the rendition before, the heuristic's parameters produce the intended one. */
  lemma SgrParamsMeaning(r: Rendition, fore: Nibble, back: Nibble, bright: bool)
    ensures ApplyAll(r, [0] + SgrParams(fore, back), bright) == Intended(fore, back, bright)
  {
    var choice := ColorChoice(fore, back);
    var tail := if fore == back then [SGR_CONCEAL] else [];
    assert ([0] + SgrParams(fore, back))[1..] == choice + tail;
    ApplyAllAppend(Plain, choice, tail, bright);
    ColorChoiceMeaning(fore, back, bright);
    if fore == back {
      assert tail[1..] == [];
    }
  }

  /** A terminal reading the colour sequence ends in plain text with the intended rendition. */
  lemma ColorSgrMeaning(s: Screen, fore: Nibble, back: Nibble, bright: bool)
    requires s.mode == Ground
    ensures Run(s, ColorSgr(fore, back), bright) == s.(rend := Intended(fore, back, bright))
  {
    assert [ZERO] == Decimal(0);
    RunControl(s, 0, SgrParams(fore, back), FINAL_SGR, bright);
    SgrParamsMeaning(s.rend, fore, back, bright);
  }

  /** The last three bytes are ";8m": the sequence ends by concealing. */
  predicate EndsWithConceal(s: seq<Byte>)
  {
    |s| >= 3 && s[|s| - 3..] == [SEMICOLON, Digit(SGR_CONCEAL), FINAL_SGR]
  }

  lemma EndsWithParam(x: seq<Byte>, p: nat)
    ensures EndsWithConceal(x + [SEMICOLON] + Decimal(p) + [FINAL_SGR]) <==> p == SGR_CONCEAL
  {
    var d := Decimal(p);
    var s := x + [SEMICOLON] + d + [FINAL_SGR];
    if p < 10 {
      assert s[|s| - 3..] == [SEMICOLON, Digit(p), FINAL_SGR];
    } else {
      DecimalDigits(p);
      assert s[|s| - 3] == d[|d| - 2];
      assert IsDigit(d[|d| - 2]);
    }
  }

  /**
   * Every colour sequence is a complete SGR sequence that starts by
   * resetting the rendition: CSI "0", then parameters, then 'm'.
   */
  lemma ColorSgrShape(fore: Nibble, back: Nibble)
    ensures var r := ColorSgr(fore, back);
      |r| >= 4 && r[..3] == CSI + Ascii("0") && r[|r| - 1] == FINAL_SGR
  {
    var r := ColorSgr(fore, back);
    assert r == (CSI + [ZERO]) + (Prefixed(SgrParams(fore, back)) + [FINAL_SGR]);
  }

  lemma ChoiceNeverConceals(fore: Nibble, back: Nibble)
    requires ColorChoice(fore, back) != []
    ensures var ps := ColorChoice(fore, back); ps[|ps| - 1] != SGR_CONCEAL
  {
    var ps := ColorChoice(fore, back);
    assert ps[|ps| - 1] == SGR_BOLD || ps[|ps| - 1] == SGR_INVERT || 30 <= ps[|ps| - 1];
  }

  /** The last parameter is the conceal parameter exactly when the colours coincide. */
  lemma LastParamConceals(fore: Nibble, back: Nibble)
    ensures var ps := SgrParams(fore, back);
      && (ps == [] ==> fore != back)
      && (ps != [] ==> (ps[|ps| - 1] == SGR_CONCEAL <==> fore == back))
  {
    if fore != back && ColorChoice(fore, back) != [] {
      assert SgrParams(fore, back) == ColorChoice(fore, back);
      ChoiceNeverConceals(fore, back);
    }
  }

  lemma ColorSgrLast(fore: Nibble, back: Nibble)
    requires SgrParams(fore, back) != []
    ensures var ps := SgrParams(fore, back);
      ColorSgr(fore, back)
        == CSI + [ZERO] + Prefixed(ps[..|ps| - 1]) + [SEMICOLON] + Decimal(ps[|ps| - 1]) + [FINAL_SGR]
  {
    PrefixedLast(SgrParams(fore, back));
  }

  /** ";8" stands immediately before the final 'm' exactly when the two colours are equal. */
  lemma ConcealIff(fore: Nibble, back: Nibble)
    ensures EndsWithConceal(ColorSgr(fore, back)) <==> fore == back
  {
    var ps := SgrParams(fore, back);
    LastParamConceals(fore, back);
    if ps == [] {
      assert ColorSgr(fore, back) == [ESC, 0x5B, ZERO, FINAL_SGR];
    } else {
      ColorSgrLast(fore, back);
      EndsWithParam(CSI + [ZERO] + Prefixed(ps[..|ps| - 1]), ps[|ps| - 1]);
    }
  }

  // The parameter strings `sendLine` writes as literals.
  function ParamBold(): seq<Byte> { Ascii(";1") }
  function ParamInvert(): seq<Byte> { Ascii(";7") }
  function ParamConceal(): seq<Byte> { Ascii(";8") }
  function ParamDkGray(): seq<Byte> { Ascii(";37;90") }

  lemma BoldParam()
    ensures Prefixed([SGR_BOLD]) == ParamBold()
  {
    PrefixedSingle(SGR_BOLD);
  }

  lemma InvertParam()
    ensures Prefixed([SGR_INVERT]) == ParamInvert()
  {
    PrefixedSingle(SGR_INVERT);
  }

  lemma ConcealParam()
    ensures Prefixed([SGR_CONCEAL]) == ParamConceal()
  {
    PrefixedSingle(SGR_CONCEAL);
  }

  lemma DkGrayParams()
    ensures Prefixed([SGR_FORE + LTGRAY, SGR_FORE_HI + BLACK]) == ParamDkGray()
  {
    assert [37, 90] == [37] + [90];
    PrefixedAppend([37], [90]);
    PrefixedSingle(37);
    PrefixedSingle(90);
  }

  /** Light gray on black is the terminal's default: a bare reset. */
  lemma LtGrayOnBlack()
    ensures ColorSgr(LTGRAY, BLACK) == CSI + Ascii("0m")
  {
    assert SgrParams(LTGRAY, BLACK) == [];
  }

  /** White on black is rendered as bold, not as a literal white. */
  lemma WhiteOnBlack()
    ensures ColorSgr(WHITE, BLACK) == CSI + Ascii("0;1m")
  {
    BoldParam();
    assert SgrParams(WHITE, BLACK) == [SGR_BOLD];
    AsciiAppend("0", ";1");
    AsciiAppend("0;1", "m");
  }

  /** Dark gray on black: light gray (37) as the fallback, then bright black (90). */
  lemma DkGrayOnBlack()
    ensures ColorSgr(DKGRAY, BLACK) == CSI + Ascii("0;37;90m")
  {
    assert SgrParams(DKGRAY, BLACK) == [37, 90];
    DkGrayParams();
    assert ColorSgr(DKGRAY, BLACK) == CSI + ([ZERO] + ParamDkGray() + [FINAL_SGR]);
    AsciiAppend("0", ";37;90");
    AsciiAppend("0;37;90", "m");
    assert "0" + ";37;90" + "m" == "0;37;90m";
  }

  lemma InvertFirst(fore: Nibble)
    ensures ColorSgr(fore, WHITE)
         == CSI + [ZERO] + ParamInvert() + Prefixed(SgrParams(fore, WHITE)[1..]) + [FINAL_SGR]
  {
    var ps := SgrParams(fore, WHITE);
    ColorChoiceCases(fore, WHITE);
    assert ps == [SGR_INVERT] + ps[1..];
    PrefixedAppend([SGR_INVERT], ps[1..]);
    InvertParam();
  }

  /**
   * A white background inverts the terminal's default colours, and sets no
   * colour when the foreground is light gray or black.
   */
  lemma WhiteBackground(fore: Nibble)
    ensures ColorSgr(fore, WHITE)[..5] == CSI + Ascii("0;7")
    ensures fore == LTGRAY || fore == BLACK ==> ColorSgr(fore, WHITE) == CSI + Ascii("0;7m")
  {
    var rest := SgrParams(fore, WHITE)[1..];
    InvertFirst(fore);
    var head := CSI + [ZERO] + ParamInvert();
    assert head == CSI + Ascii("0;7");
    assert ColorSgr(fore, WHITE) == head + (Prefixed(rest) + [FINAL_SGR]);
    if fore == LTGRAY || fore == BLACK {
      ColorChoiceCases(fore, WHITE);
      assert rest == [];
      assert head + [FINAL_SGR] == CSI + Ascii("0;7m");
    }
  }

  /** Lines 144-153: split the masked attribute into the renderer's fore and back colours. */
  method UnpackColor(color: nat) returns (fore: Nibble, back: Nibble)
    ensures fore == Fore(color) && back == Back(color)
  {
    var f := 0;
    var b := 0;
    // Each flag is set at most once, so adding it is `|=`.
    if Has(color, FOREGROUND_RED) { f := f + FLAG_RED; }
    if Has(color, FOREGROUND_GREEN) { f := f + FLAG_GREEN; }
    if Has(color, FOREGROUND_BLUE) { f := f + FLAG_BLUE; }
    if Has(color, FOREGROUND_INTENSITY) { f := f + FLAG_BRIGHT; }
    if Has(color, BACKGROUND_RED) { b := b + FLAG_RED; }
    if Has(color, BACKGROUND_GREEN) { b := b + FLAG_GREEN; }
    if Has(color, BACKGROUND_BLUE) { b := b + FLAG_BLUE; }
    if Has(color, BACKGROUND_INTENSITY) { b := b + FLAG_BRIGHT; }
    fore, back := f, b;
  }

  /** The branches of ColorChoice, one fact each. */
  lemma ColorChoiceCases(fore: Nibble, back: Nibble)
    ensures back == BLACK && fore == LTGRAY ==> ColorChoice(fore, back) == []
    ensures back == BLACK && fore == WHITE ==> ColorChoice(fore, back) == [SGR_BOLD]
    ensures back == BLACK && fore == DKGRAY ==> ColorChoice(fore, back) == [SGR_FORE + LTGRAY, SGR_FORE_HI + BLACK]
    ensures back == BLACK && fore != LTGRAY && fore != WHITE && fore != DKGRAY ==>
      ColorChoice(fore, back) == SetColorParams(true, fore)
    ensures back == WHITE && (fore == LTGRAY || fore == BLACK) ==> ColorChoice(fore, back) == [SGR_INVERT]
    ensures back == WHITE && fore != LTGRAY && fore != BLACK ==>
      ColorChoice(fore, back) == [SGR_INVERT] + SetColorParams(false, fore)
    ensures back != BLACK && back != WHITE ==>
      ColorChoice(fore, back) == SetColorParams(true, fore) + SetColorParams(false, back)
  {
  }

  /** Lines 192-210: the colour parameters on a black background. */
  method AppendOnBlack(out: seq<Byte>, fore: Nibble) returns (r: seq<Byte>)
    ensures r == out + Prefixed(ColorChoice(fore, BLACK))
  {
    if fore == LTGRAY {
      // The terminal's default colours.
      assert ColorChoice(fore, BLACK) == [];
      r := out;
    } else if fore == WHITE {
      assert ColorChoice(fore, BLACK) == [SGR_BOLD];
      BoldParam();
      r := out + ParamBold();
    } else if fore == DKGRAY {
      assert ColorChoice(fore, BLACK) == [SGR_FORE + LTGRAY, SGR_FORE_HI + BLACK];
      DkGrayParams();
      r := out + ParamDkGray();
    } else {
      assert ColorChoice(fore, BLACK) == SetColorParams(true, fore);
      r := OutputSetColorSgrParams(out, true, fore);
    }
  }

  /** Lines 211-225: the colour parameters on a white background. */
  method AppendOnWhite(out: seq<Byte>, fore: Nibble) returns (r: seq<Byte>)
    ensures r == out + Prefixed(ColorChoice(fore, WHITE))
  {
    InvertParam();
    r := out + ParamInvert();
    if fore == LTGRAY || fore == BLACK {
      // Inverted default colours only.
      assert ColorChoice(fore, WHITE) == [SGR_INVERT];
    } else {
      assert ColorChoice(fore, WHITE) == [SGR_INVERT] + SetColorParams(false, fore);
      r := OutputSetColorSgrParams(r, false, fore);
      PrefixedAppend([SGR_INVERT], SetColorParams(false, fore));
    }
  }

  /** Lines 192-231: the colour parameters of the heuristic, by background class. */
  method AppendColorChoice(out: seq<Byte>, fore: Nibble, back: Nibble) returns (r: seq<Byte>)
    ensures r == out + Prefixed(ColorChoice(fore, back))
  {
    if back == BLACK {
      r := AppendOnBlack(out, fore);
    } else if back == WHITE {
      r := AppendOnWhite(out, fore);
    } else {
      assert ColorChoice(fore, back) == SetColorParams(true, fore) + SetColorParams(false, back);
      r := OutputSetColorSgrParams(out, true, fore);
      r := OutputSetColorSgrParams(r, false, back);
      PrefixedAppend(SetColorParams(true, fore), SetColorParams(false, back));
    }
  }

  lemma ColorSgrAppend(out: seq<Byte>, ps: seq<nat>, c: seq<nat>)
    ensures out + CSI + [ZERO] + Prefixed(ps) + Prefixed(c) + [FINAL_SGR]
         == out + (CSI + [ZERO] + Prefixed(ps + c) + [FINAL_SGR])
  {
    PrefixedAppend(ps, c);
  }

  /** Lines 191-238: append the SGR sequence the heuristic chooses for a colour pair. */
  method AppendColorSgr(out: seq<Byte>, fore: Nibble, back: Nibble) returns (r: seq<Byte>)
    ensures r == out + ColorSgr(fore, back)
  {
    r := out + CSI + [ZERO];  // CSI "0"
    r := AppendColorChoice(r, fore, back);
    ghost var conceal: seq<nat> := [];
    if fore == back {
      ConcealParam();
      r := r + ParamConceal();
      conceal := [SGR_CONCEAL];
    }
    assert r == out + CSI + [ZERO] + Prefixed(ColorChoice(fore, back)) + Prefixed(conceal);
    r := r + [FINAL_SGR];
    ColorSgrAppend(out, ColorChoice(fore, back), conceal);
  }
}
