/**
 * A reference reading of the byte stream: how a VT100/xterm-style terminal
 * interprets the control sequences this renderer emits (ECMA-48 CSI
 * sequences, C0 controls CR and LF, printable text).  It is the meaning
 * against which the renderer's output is proved, not part of the renderer.
 *
 * `row` counts text lines, so an LF on the last screen line (which scrolls)
 * still advances it; the top margin and the right margin are not modelled.
 * `bright` says whether the terminal honours the 90-97/100-107 colour
 * parameters; a terminal that does not ignores them.
 */
module Vt {
  import opened Bytes
  import opened Digits

  datatype Colour = Default | Index(n: nat)

  datatype Rendition = Rendition(fg: Colour, bg: Colour, bold: bool, inverse: bool, conceal: bool)

  const Plain := Rendition(Default, Default, false, false, false)

  /** The effect of one SGR parameter (ECMA-48 section 8.3.117). */
  function ApplySgr(r: Rendition, p: nat, bright: bool): Rendition
  {
    if p == 0 then Plain
    else if p == 1 then r.(bold := true)
    else if p == 7 then r.(inverse := true)
    else if p == 8 then r.(conceal := true)
    else if 30 <= p <= 37 then r.(fg := Index(p - 30))
    else if 40 <= p <= 47 then r.(bg := Index(p - 40))
    else if 90 <= p <= 97 && bright then r.(fg := Index(p - 90 + 8))
    else if 100 <= p <= 107 && bright then r.(bg := Index(p - 100 + 8))
    else r
  }

  /** SGR parameters take effect left to right. */
  function ApplyAll(r: Rendition, ps: seq<nat>, bright: bool): Rendition
    decreases ps
  {
    if ps == [] then r else ApplyAll(ApplySgr(r, ps[0], bright), ps[1..], bright)
  }

  lemma {:induction false} ApplyAllAppend(r: Rendition, a: seq<nat>, b: seq<nat>, bright: bool)
    ensures ApplyAll(r, a + b, bright) == ApplyAll(ApplyAll(r, a, bright), b, bright)
    decreases a
  {
    if a != [] {
      assert (a + b)[1..] == a[1..] + b;
      ApplyAllAppend(ApplySgr(r, a[0], bright), a[1..], b, bright);
    } else {
      assert a + b == b;
    }
  }

  /** Parser state: plain text, after ESC, or inside a control sequence. */
  datatype Mode = Ground | Escape | Csi(private: bool, done: seq<nat>, cur: nat)

  datatype Screen = Screen(row: int, col: int, visible: bool, rend: Rendition, mode: Mode)

  /** A missing or zero count parameter means 1. */
  function Count(ps: seq<nat>, i: nat): nat
  {
    if i < |ps| && ps[i] != 0 then ps[i] else 1
  }

  const FINAL_CUU: Byte := 0x41  // 'A'
  const FINAL_CHA: Byte := 0x47  // 'G'
  const FINAL_CUP: Byte := 0x48  // 'H'
  const FINAL_ED: Byte := 0x4A   // 'J'
  const FINAL_EL: Byte := 0x4B   // 'K'
  const FINAL_SET: Byte := 0x68  // 'h'
  const FINAL_RESET: Byte := 0x6C  // 'l'
  const FINAL_SGR: Byte := 0x6D  // 'm'

  /** The '?' that marks a DEC private parameter. */
  const PRIVATE: Byte := 0x3F

  /** The action of a complete control sequence; ED and EL change content only. */
  function Dispatch(s: Screen, private: bool, ps: seq<nat>, final: Byte, bright: bool): Screen
  {
    var g := s.(mode := Ground);
    if private then
      if ps == [25] && final == FINAL_SET then g.(visible := true)
      else if ps == [25] && final == FINAL_RESET then g.(visible := false)
      else g
    else if final == FINAL_CUU then g.(row := g.row - Count(ps, 0))
    else if final == FINAL_CHA then g.(col := Count(ps, 0) - 1)
    else if final == FINAL_CUP then g.(row := Count(ps, 0) - 1, col := Count(ps, 1) - 1)
    else if final == FINAL_SGR then g.(rend := ApplyAll(g.rend, ps, bright))
    else g
  }

  /** One byte of input. */
  function Feed(s: Screen, b: Byte, bright: bool): Screen
  {
    match s.mode
    case Ground =>
      if b == ESC then s.(mode := Escape)
      else if b == CR then s.(col := 0)
      else if b == LF then s.(row := s.row + 1)
      else if 0x20 <= b < 0x7F || 0xC0 <= b then s.(col := s.col + 1)
      else s
    case Escape =>
      if b == 0x5B then s.(mode := Csi(false, [], 0)) else s.(mode := Ground)
    case Csi(private, done, cur) =>
      if IsDigit(b) then s.(mode := Csi(private, done, cur * 10 + (b - ZERO)))
      else if b == SEMICOLON then s.(mode := Csi(private, done + [cur], 0))
      else if b == PRIVATE then s.(mode := Csi(true, done, cur))
      else if 0x40 <= b <= 0x7E then Dispatch(s, private, done + [cur], b, bright)
      else s
  }

  /** A byte string, fed in order. */
  function Run(s: Screen, bs: seq<Byte>, bright: bool): Screen
  {
    if bs == [] then s else Feed(Run(s, bs[..|bs| - 1], bright), bs[|bs| - 1], bright)
  }

  lemma {:induction false} RunAppend(s: Screen, a: seq<Byte>, b: seq<Byte>, bright: bool)
    ensures Run(s, a + b, bright) == Run(Run(s, a, bright), b, bright)
  {
    if b == [] {
      assert a + b == a;
    } else {
      assert (a + b)[..|a + b| - 1] == a + b[..|b| - 1];
      RunAppend(s, a, b[..|b| - 1], bright);
    }
  }

  lemma RunOne(s: Screen, b: Byte, bright: bool)
    ensures Run(s, [b], bright) == Feed(s, b, bright)
  {
    assert [b][..0] == [];
  }

  lemma RunIntroducer(s: Screen, bright: bool)
    requires s.mode == Ground
    ensures Run(s, CSI, bright) == s.(mode := Csi(false, [], 0))
  {
    RunOne(s, ESC, bright);
    RunOne(s.(mode := Escape), 0x5B, bright);
    RunAppend(s, [ESC], [0x5B], bright);
    assert CSI == [ESC] + [0x5B];
  }

  /** Control-sequence parameters, each preceded by ';'. */
  function Prefixed(ps: seq<nat>): (r: seq<Byte>)
    ensures ps == [] <==> r == []
    ensures ps != [] ==> r[0] == SEMICOLON
  {
    if ps == [] then [] else [SEMICOLON] + Decimal(ps[0]) + Prefixed(ps[1..])
  }

  lemma {:induction false} PrefixedAppend(a: seq<nat>, b: seq<nat>)
    ensures Prefixed(a + b) == Prefixed(a) + Prefixed(b)
  {
    if a == [] {
      assert a + b == b;
    } else {
      assert (a + b)[1..] == a[1..] + b;
      PrefixedAppend(a[1..], b);
    }
  }

  lemma PrefixedSingle(p: nat)
    ensures Prefixed([p]) == [SEMICOLON] + Decimal(p)
  {
    assert [p][1..] == [];
  }

  lemma PrefixedLast(ps: seq<nat>)
    requires ps != []
    ensures Prefixed(ps) == Prefixed(ps[..|ps| - 1]) + ([SEMICOLON] + Decimal(ps[|ps| - 1]))
  {
    var init := ps[..|ps| - 1];
    var last := ps[|ps| - 1];
    assert ps == init + [last];
    PrefixedAppend(init, [last]);
    assert Prefixed(ps) == Prefixed(init) + Prefixed([last]);
    PrefixedSingle(last);
  }

  /** The digits of a parameter accumulate into the current parameter. */
  lemma {:induction false} RunDecimal(s: Screen, n: nat, bright: bool)
    requires s.mode.Csi? && s.mode.cur == 0
    ensures Run(s, Decimal(n), bright) == s.(mode := s.mode.(cur := n))
  {
    if n < 10 {
      assert Decimal(n) == [] + [Digit(n)];
    } else {
      RunDecimal(s, n / 10, bright);
      RunAppend(s, Decimal(n / 10), [Digit(n % 10)], bright);
    }
  }

  /** One ';'-prefixed parameter closes the current one and becomes current. */
  lemma RunParam(s: Screen, q: nat, bright: bool)
    requires s.mode.Csi?
    ensures Run(s, [SEMICOLON] + Decimal(q), bright)
         == s.(mode := s.mode.(done := s.mode.done + [s.mode.cur], cur := q))
  {
    var s1 := s.(mode := s.mode.(done := s.mode.done + [s.mode.cur], cur := 0));
    RunOne(s, SEMICOLON, bright);
    RunDecimal(s1, q, bright);
    RunAppend(s, [SEMICOLON], Decimal(q), bright);
  }

  /** The parser state once the parameters `qs` have been read. */
  function AfterParams(m: Mode, qs: seq<nat>): (r: Mode)
    requires m.Csi?
    ensures r.Csi? && r.private == m.private
    ensures r.done + [r.cur] == m.done + [m.cur] + qs
  {
    if qs == [] then m
    else m.(done := m.done + [m.cur] + qs[..|qs| - 1], cur := qs[|qs| - 1])
  }

  /** Each ';'-separated parameter is completed in turn. */
  lemma {:induction false} RunPrefixed(s: Screen, qs: seq<nat>, bright: bool)
    requires s.mode.Csi?
    ensures Run(s, Prefixed(qs), bright) == s.(mode := AfterParams(s.mode, qs))
    decreases |qs|
  {
    if qs != [] {
      var init := qs[..|qs| - 1];
      var last := qs[|qs| - 1];
      PrefixedLast(qs);
      RunPrefixed(s, init, bright);
      var s1 := s.(mode := AfterParams(s.mode, init));
      RunAppend(s, Prefixed(init), [SEMICOLON] + Decimal(last), bright);
      RunParam(s1, last, bright);
      assert s1.mode.done + [s1.mode.cur] == s.mode.done + [s.mode.cur] + init;
    }
  }

  lemma FeedFinal(s: Screen, final: Byte, bright: bool)
    requires s.mode.Csi? && 0x40 <= final <= 0x7E
    ensures Feed(s, final, bright)
         == Dispatch(s.(mode := Ground), s.mode.private, s.mode.done + [s.mode.cur], final, bright)
  {
  }

  /** CSI and a first parameter, read from plain text. */
  lemma RunHeader(s: Screen, q: nat, bright: bool)
    requires s.mode == Ground
    ensures Run(s, CSI + Decimal(q), bright) == s.(mode := Csi(false, [], q))
  {
    var s1 := s.(mode := Csi(false, [], 0));
    RunIntroducer(s, bright);
    RunDecimal(s1, q, bright);
    RunAppend(s, CSI, Decimal(q), bright);
  }

  /**
   * A complete control sequence CSI q ; q1 ; ... final, read from plain
   * text, performs its action once and returns to plain text.
   */
  lemma RunControl(s: Screen, q: nat, qs: seq<nat>, final: Byte, bright: bool)
    requires s.mode == Ground
    requires 0x40 <= final <= 0x7E
    ensures Run(s, CSI + Decimal(q) + Prefixed(qs), bright) == s.(mode := AfterParams(Csi(false, [], q), qs))
    ensures Run(s, CSI + Decimal(q) + Prefixed(qs) + [final], bright)
         == Dispatch(s, false, [q] + qs, final, bright)
  {
    var s2 := s.(mode := Csi(false, [], q));
    RunHeader(s, q, bright);
    RunPrefixed(s2, qs, bright);
    var s3 := s.(mode := AfterParams(s2.mode, qs));
    RunAppend(s, CSI + Decimal(q), Prefixed(qs), bright);
    RunAppend(s, CSI + Decimal(q) + Prefixed(qs), [final], bright);
    RunOne(s3, final, bright);
    FeedFinal(s3, final, bright);
    assert s3.mode.done + [s3.mode.cur] == [q] + qs;
    assert s3.(mode := Ground) == s;
  }

  /** A private sequence CSI ? q final, such as the cursor-visibility modes, performs its action. */
  lemma RunPrivate(s: Screen, q: nat, final: Byte, bright: bool)
    requires s.mode == Ground
    requires 0x40 <= final <= 0x7E
    ensures Run(s, CSI + [PRIVATE] + Decimal(q) + [final], bright) == Dispatch(s, true, [q], final, bright)
  {
    var s1 := s.(mode := Csi(true, [], 0));
    RunIntroducer(s, bright);
    RunOne(s.(mode := Csi(false, [], 0)), PRIVATE, bright);
    RunAppend(s, CSI, [PRIVATE], bright);
    RunDecimal(s1, q, bright);
    RunAppend(s, CSI + [PRIVATE], Decimal(q), bright);
    var s2 := s.(mode := Csi(true, [], q));
    RunAppend(s, CSI + [PRIVATE] + Decimal(q), [final], bright);
    RunOne(s2, final, bright);
    assert s2.(mode := Ground) == s;
  }
}
