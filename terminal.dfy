/**
 * The `Terminal` class of agent/Terminal.cc: the object that keeps track of
 * what the remote terminal shows (its cursor line, whether the cursor is
 * hidden, the colour last sent) and writes the VT/ANSI bytes that bring it
 * up to date with the Windows console.
 *
 * The output `NamedPipe` is an append-only byte log.  The fixed strings the
 * class writes are functions below; what they do to a terminal is proved
 * against the reference interpreter of module Vt.
 */
module Terminal {
  import opened Bytes
  import opened Digits
  import opened Vt
  import opened Sgr
  import opened Row
  import Utf8

  /** The agent's output channel: everything written to it, in order. */
  class NamedPipe {
    var log: seq<Byte>

    constructor ()
      ensures log == []
    {
      log := [];
    }

    method Write(data: seq<Byte>)
      modifies this
      ensures log == old(log) + data
    {
      log := log + data;
    }
  }

  /** CSI "0m" CSI "1;1H" CSI "2J": plain rendition, cursor home, clear the screen. */
  function ClearScreen(): seq<Byte>
  {
    CSI + Ascii("0m") + CSI + Ascii("1;1H") + CSI + Ascii("2J")
  }

  /** CSI "?25l": hide the cursor. */
  function HideCursor(): seq<Byte> { CSI + Ascii("?25l") }

  /** CSI "?25h": show the cursor. */
  function ShowCursor(): seq<Byte> { CSI + Ascii("?25h") }

  /** CSI "2K": erase the whole line. */
  function EraseLine(): seq<Byte> { CSI + Ascii("2K") }

  const CRLF: seq<Byte> := [CR, LF]

  /** "\r" CSI n "A": to the start of the line, then n lines up. */
  function CursorUp(n: nat): seq<Byte>
  {
    [CR] + CSI + Decimal(n) + [FINAL_CUU]
  }

  /** CSI (col + 1) "G": to column `col`, counted from 0 (`%d`, so a negative number keeps its sign). */
  function CursorColumn(col: int): seq<Byte>
  {
    CSI + FormatInt(col + 1) + [FINAL_CHA]
  }

  function Repeat(s: seq<Byte>, k: nat): (r: seq<Byte>)
    ensures |r| == k * |s|
  {
    if k == 0 then [] else Repeat(s, k - 1) + s
  }

  /** What `reset` writes. */
  function ResetBytes(sendClearFirst: bool, console: bool): seq<Byte>
  {
    if sendClearFirst && !console then ClearScreen() else []
  }

  /** What `hideTerminalCursor` writes: nothing when already hidden or in console mode. */
  function HideBytes(hidden: bool, console: bool): seq<Byte>
  {
    if hidden || console then [] else HideCursor()
  }

  /**
   * What `moveTerminalToLine` writes to go from line `from` to line `to`:
   * CUU upwards, one CR LF per line downwards (neither in console mode),
   * and a lone CR, in every mode, for the same line.
   */
  function LineMove(from: int, to: int, console: bool): seq<Byte>
  {
    if to < from then (if console then [] else CursorUp(from - to))
    else if to > from then (if console then [] else Repeat(CRLF, to - from))
    else [CR]
  }

  /** What `finishOutput` writes. */
  function FinishBytes(from: int, hidden: bool, pos: (int, int), console: bool, newPos: (int, int)): seq<Byte>
  {
    if hidden || newPos != pos then
      HideBytes(hidden, console) + LineMove(from, newPos.1, console)
        + (if console then [] else CursorColumn(newPos.0) + ShowCursor())
    else []
  }

  /** What `sendLine` writes before the row itself. */
  function LinePrelude(from: int, hidden: bool, console: bool, line: int): seq<Byte>
  {
    HideBytes(hidden, console) + LineMove(from, line, console) + (if console then [] else EraseLine())
  }

  lemma PieceAppend(t: seq<Byte>, prev: int, c: Cell, console: bool)
    ensures t + SgrPart(prev, c, console) + CharPart(c) == t + Piece(prev, c, console)
  {
  }

  /** The number of cells a loop `for (i = 0; i < width; ++i)` visits. */
  function Visited(width: int): nat
  {
    if width < 0 then 0 else width
  }

  lemma EncodedEmpty(cells: seq<Cell>, prev: int, console: bool)
    ensures Encoded(cells[..0], prev, console) == [] && LastColor(cells[..0], prev) == prev
  {
    assert cells[..0] == [];
  }

  class Terminal {
    const output: NamedPipe
    /** The line the remote cursor is on, in console coordinates. */
    var remoteLine: int
    var cursorHidden: bool
    /** Where the console's cursor was last shown: (column, line). */
    var cursorPos: (int, int)
    /** The masked attribute last sent as a colour; -1 after a reset. */
    var remoteColor: int
    var consoleMode: bool
    /** The bytes of the row being rendered; reused by every `sendLine`. */
    var termLine: seq<Byte>

    /** Lines 98-105. */
    constructor (output: NamedPipe)
      ensures this.output == output
      ensures remoteLine == 0 && !cursorHidden && cursorPos == (0, 0)
      ensures remoteColor == -1 && !consoleMode && termLine == []
    {
      this.output := output;
      remoteLine := 0;
      cursorHidden := false;
      cursorPos := (0, 0);
      remoteColor := -1;
      consoleMode := false;
      termLine := [];
    }

    /** Lines 107-113: console mode is mode 1; every other mode turns it off. */
    method SetConsoleMode(mode: int)
      modifies this
      ensures consoleMode <==> mode == 1
      ensures remoteLine == old(remoteLine) && cursorHidden == old(cursorHidden)
      ensures cursorPos == old(cursorPos) && remoteColor == old(remoteColor) && termLine == old(termLine)
    {
      if mode == 1 {
        consoleMode := true;
      } else {
        consoleMode := false;
      }
    }

    /** Lines 115-127. */
    method Reset(sendClearFirst: bool, newLine: int)
      modifies this, output
      ensures output.log == old(output.log) + ResetBytes(sendClearFirst, consoleMode)
      ensures remoteLine == newLine && !cursorHidden && cursorPos == (0, newLine) && remoteColor == -1
      ensures consoleMode == old(consoleMode) && termLine == old(termLine)
    {
      if sendClearFirst && !consoleMode {
        output.Write(ClearScreen());
      }
      remoteLine := newLine;
      cursorHidden := false;
      cursorPos := (0, newLine);
      remoteColor := -1;
    }

    /** Lines 313-320. */
    method HideTerminalCursor()
      modifies this, output
      ensures output.log == old(output.log) + HideBytes(old(cursorHidden), consoleMode)
      ensures cursorHidden
      ensures remoteLine == old(remoteLine) && cursorPos == old(cursorPos) && remoteColor == old(remoteColor)
      ensures consoleMode == old(consoleMode) && termLine == old(termLine)
    {
      if cursorHidden {
        return;
      }
      if !consoleMode {
        output.Write(HideCursor());
      }
      cursorHidden := true;
    }

    /** Lines 322-345: relative moves only. */
    method MoveTerminalToLine(line: int)
      modifies this, output
      ensures output.log == old(output.log) + LineMove(old(remoteLine), line, consoleMode)
      ensures remoteLine == line
      ensures cursorHidden == old(cursorHidden) && cursorPos == old(cursorPos) && remoteColor == old(remoteColor)
      ensures consoleMode == old(consoleMode) && termLine == old(termLine)
    {
      if line < remoteLine {
        if !consoleMode {
          output.Write(CursorUp(remoteLine - line));
        }
        remoteLine := line;
      } else if line > remoteLine {
        ghost var from := remoteLine;
        while line > remoteLine
          invariant from <= remoteLine <= line
          invariant output.log == old(output.log) + (if consoleMode then [] else Repeat(CRLF, remoteLine - from))
          invariant cursorHidden == old(cursorHidden) && cursorPos == old(cursorPos) && remoteColor == old(remoteColor)
          invariant consoleMode == old(consoleMode) && termLine == old(termLine)
          decreases line - remoteLine
        {
          if !consoleMode {
            output.Write(CRLF);
          }
          remoteLine := remoteLine + 1;
        }
      } else {
        output.Write([CR]);
      }
    }

    /** Lines 298-311. */
    method FinishOutput(newCursorPos: (int, int))
      modifies this, output
      ensures output.log == old(output.log)
        + FinishBytes(old(remoteLine), old(cursorHidden), old(cursorPos), consoleMode, newCursorPos)
      ensures !cursorHidden && cursorPos == newCursorPos
      ensures remoteLine == if old(cursorHidden) || newCursorPos != old(cursorPos) then newCursorPos.1 else old(remoteLine)
      ensures remoteColor == old(remoteColor) && consoleMode == old(consoleMode) && termLine == old(termLine)
    {
      ghost var log0, from, hidden := output.log, remoteLine, cursorHidden;
      ghost var console := consoleMode;
      if newCursorPos != cursorPos {
        HideTerminalCursor();
      }
      ghost var hiding := (if newCursorPos != old(cursorPos) then HideBytes(hidden, console) else []);
      assert output.log == log0 + hiding;
      if cursorHidden {
        MoveTerminalToLine(newCursorPos.1);
        ghost var moving := LineMove(from, newCursorPos.1, console);
        assert output.log == log0 + hiding + moving;
        ghost var showing := (if console then [] else CursorColumn(newCursorPos.0) + ShowCursor());
        if !consoleMode {
          output.Write(CursorColumn(newCursorPos.0) + ShowCursor());
        }
        assert output.log == log0 + hiding + moving + showing;
        assert hiding == HideBytes(hidden, console);
        assert FinishBytes(from, hidden, old(cursorPos), console, newCursorPos) == hiding + moving + showing;
        Assoc(log0, hiding, moving, showing);
        cursorHidden := false;
      }
      cursorPos := newCursorPos;
    }

    /**
     * Lines 142-241: the colour step of the loop in `sendLine`.  A cell
     * whose colour differs from the remote colour gets a colour sequence
     * (never in console mode), and the remote colour becomes the cell's
     * either way.  `length`, the untrimmed length, moves to the end of the
     * sequence.
     */
    method SendCellColor(cell: Cell, length: int) returns (newLength: int)
      requires length == |TrimRight(termLine)|
      modifies this
      ensures termLine == old(termLine) + SgrPart(old(remoteColor), cell, consoleMode)
      ensures remoteColor == CellColor(cell)
      ensures newLength == |TrimRight(termLine)|
      ensures remoteLine == old(remoteLine) && cursorHidden == old(cursorHidden)
      ensures cursorPos == old(cursorPos) && consoleMode == old(consoleMode)
    {
      newLength := length;
      var color := CellColor(cell);
      if color != remoteColor && !consoleMode {
        var fore, back := UnpackColor(color);
        ghost var before := termLine;
        termLine := AppendColorSgr(termLine, fore, back);
        ColorSgrShape(fore, back);
        newLength := |termLine|;
        TrimNonSpace(before, ColorSgr(fore, back));
      }
      remoteColor := color;
    }

    /**
     * Lines 242-292: the character step of the loop in `sendLine`.  The
     * trailing half of a double-width character adds nothing; any other
     * cell adds its remapped character in UTF-8, or "?".  `length` moves
     * past everything but a space.
     */
    method SendCellChar(cell: Cell, length: int) returns (newLength: int)
      requires length == |TrimRight(termLine)|
      modifies this
      ensures termLine == old(termLine) + CharPart(cell)
      ensures newLength == |TrimRight(termLine)|
      ensures remoteLine == old(remoteLine) && cursorHidden == old(cursorHidden) && remoteColor == old(remoteColor)
      ensures cursorPos == old(cursorPos) && consoleMode == old(consoleMode)
    {
      newLength := length;
      if IsTrailing(cell) {
        // The second half of a double-width character has no bytes of its own.
        return;
      }
      var ch := cell.ch;
      if ch <= 6 {
        ch := Remap(ch);
      }
      var mb := Utf8.Encode(ch);
      if |mb| <= 0 {
        mb := [QUESTION];
      }
      assert mb == CellBytes(cell);
      ghost var before := termLine;
      if |mb| == 1 && mb[0] == SPACE {
        termLine := termLine + [SPACE];
        TrimSpace(before);
      } else {
        termLine := termLine + mb;
        newLength := |termLine|;
        TrimNonSpace(before, mb);
      }
    }

    /**
     * Lines 138-293: the loop of `sendLine`.  `termLine` becomes the
     * encoding of the first `width` cells, and the result is the length of
     * that encoding without its trailing spaces.
     */
    method BuildRow(lineData: array<Cell>, width: int) returns (length: int)
      requires width <= lineData.Length
      modifies this
      ensures termLine == Encoded(lineData[..Visited(width)], old(remoteColor), consoleMode)
      ensures remoteColor == LastColor(lineData[..Visited(width)], old(remoteColor))
      ensures length == |TrimRight(termLine)|
      ensures remoteLine == old(remoteLine) && cursorHidden == old(cursorHidden)
      ensures cursorPos == old(cursorPos) && consoleMode == old(consoleMode)
    {
      termLine := [];
      ghost var cells := lineData[..Visited(width)];
      ghost var prev := remoteColor;
      length := 0;
      var i := 0;
      EncodedEmpty(cells, prev, consoleMode);
      while i < width
        invariant 0 <= i <= Visited(width)
        invariant termLine == Encoded(cells[..i], prev, consoleMode)
        invariant remoteColor == LastColor(cells[..i], prev)
        invariant length == |TrimRight(termLine)|
        invariant remoteLine == old(remoteLine) && cursorHidden == old(cursorHidden)
        invariant cursorPos == old(cursorPos) && consoleMode == old(consoleMode)
      {
        EncodedStep(cells, i, prev, consoleMode);
        assert lineData[i] == cells[i];
        length := SendCell(lineData[i], length);
        i := i + 1;
      }
      assert cells[..i] == cells;
    }

    /** One pass of the loop in `sendLine` (lines 141-292): the cell's colour step, then its character step. */
    method SendCell(cell: Cell, length: int) returns (newLength: int)
      requires length == |TrimRight(termLine)|
      modifies this
      ensures termLine == old(termLine) + Piece(old(remoteColor), cell, consoleMode)
      ensures remoteColor == CellColor(cell)
      ensures newLength == |TrimRight(termLine)|
      ensures remoteLine == old(remoteLine) && cursorHidden == old(cursorHidden)
      ensures cursorPos == old(cursorPos) && consoleMode == old(consoleMode)
    {
      ghost var before, prev := termLine, remoteColor;
      newLength := SendCellColor(cell, length);
      newLength := SendCellChar(cell, newLength);
      PieceAppend(before, prev, cell, consoleMode);
    }

    /**
     * Lines 129-296: render the first `width` cells of `lineData` on remote
     * line `line`.  The row is built in `termLine` and written without its
     * trailing spaces; colour sequences are sent only on a change of colour.
     */
    method SendLine(line: int, lineData: array<Cell>, width: int)
      requires width <= lineData.Length
      modifies this, output
      ensures termLine == Encoded(lineData[..Visited(width)], old(remoteColor), consoleMode)
      ensures remoteColor == LastColor(lineData[..Visited(width)], old(remoteColor))
      ensures output.log == old(output.log) + LinePrelude(old(remoteLine), old(cursorHidden), consoleMode, line)
        + TrimRight(termLine)
      ensures cursorHidden && remoteLine == line
      ensures cursorPos == old(cursorPos) && consoleMode == old(consoleMode)
    {
      ghost var log0, from, hidden := output.log, remoteLine, cursorHidden;
      HideTerminalCursor();
      MoveTerminalToLine(line);
      ghost var erasing: seq<Byte> := [];
      if !consoleMode {
        output.Write(EraseLine());
        erasing := EraseLine();
      }
      ghost var prelude := LinePrelude(from, hidden, consoleMode, line);
      Assoc(log0, HideBytes(hidden, consoleMode), LineMove(from, line, consoleMode), erasing);
      assert output.log == log0 + prelude;
      var length := BuildRow(lineData, width);
      TrimRightMeaning(termLine);
      output.Write(termLine[..length]);
    }
  }

  lemma ResetRenditionMeaning(s: Screen, bright: bool)
    requires s.mode == Ground
    ensures Run(s, CSI + Ascii("0m"), bright) == s.(rend := Plain)
  {
    assert CSI + Ascii("0m") == CSI + Decimal(0) + Prefixed([]) + [FINAL_SGR];
    RunControl(s, 0, [], FINAL_SGR, bright);
    assert ApplyAll(s.rend, [0], bright) == Plain;
  }

  lemma HomeMeaning(s: Screen, bright: bool)
    requires s.mode == Ground
    ensures Run(s, CSI + Ascii("1;1H"), bright) == s.(row := 0, col := 0)
  {
    PrefixedSingle(1);
    assert CSI + Ascii("1;1H") == CSI + Decimal(1) + Prefixed([1]) + [FINAL_CUP];
    RunControl(s, 1, [1], FINAL_CUP, bright);
  }

  lemma EraseScreenMeaning(s: Screen, bright: bool)
    requires s.mode == Ground
    ensures Run(s, CSI + Ascii("2J"), bright) == s
  {
    assert CSI + Ascii("2J") == CSI + Decimal(2) + Prefixed([]) + [FINAL_ED];
    RunControl(s, 2, [], FINAL_ED, bright);
  }

  /** Clearing resets the rendition and homes the cursor; erasing changes no cursor state. */
  lemma ClearScreenMeaning(s: Screen, bright: bool)
    requires s.mode == Ground
    ensures Run(s, ClearScreen(), bright) == s.(row := 0, col := 0, rend := Plain)
  {
    var sgr, cup, ed := CSI + Ascii("0m"), CSI + Ascii("1;1H"), CSI + Ascii("2J");
    assert ClearScreen() == sgr + cup + ed;
    ResetRenditionMeaning(s, bright);
    HomeMeaning(s.(rend := Plain), bright);
    EraseScreenMeaning(s.(row := 0, col := 0, rend := Plain), bright);
    RunAppend(s, sgr, cup, bright);
    RunAppend(s, sgr + cup, ed, bright);
  }

  lemma EraseLineMeaning(s: Screen, bright: bool)
    requires s.mode == Ground
    ensures Run(s, EraseLine(), bright) == s
  {
    assert EraseLine() == CSI + Decimal(2) + Prefixed([]) + [FINAL_EL];
    RunControl(s, 2, [], FINAL_EL, bright);
  }

  lemma Decimal25()
    ensures Decimal(25) == Ascii("25")
  {
    assert Decimal(25) == Decimal(2) + [Digit(5)];
  }

  /** Hiding and showing the cursor change its visibility and nothing else. */
  lemma CursorVisibilityMeaning(s: Screen, bright: bool)
    requires s.mode == Ground
    ensures Run(s, HideCursor(), bright) == s.(visible := false)
    ensures Run(s, ShowCursor(), bright) == s.(visible := true)
  {
    Decimal25();
    assert HideCursor() == CSI + [PRIVATE] + Decimal(25) + [FINAL_RESET];
    assert ShowCursor() == CSI + [PRIVATE] + Decimal(25) + [FINAL_SET];
    RunPrivate(s, 25, FINAL_RESET, bright);
    RunPrivate(s, 25, FINAL_SET, bright);
  }

  /** Repeated CR LF moves down one line each, to the first column. */
  lemma {:induction false} RunLinesDown(s: Screen, k: nat, bright: bool)
    requires s.mode == Ground
    ensures Run(s, Repeat(CRLF, k), bright) == if k == 0 then s else s.(row := s.row + k, col := 0)
  {
    if k > 0 {
      RunLinesDown(s, k - 1, bright);
      var t := Run(s, Repeat(CRLF, k - 1), bright);
      RunAppend(t, [CR], [LF], bright);
      RunOne(t, CR, bright);
      RunOne(t.(col := 0), LF, bright);
      assert CRLF == [CR] + [LF];
      RunAppend(s, Repeat(CRLF, k - 1), CRLF, bright);
    }
  }

  /**
   * Whatever the direction, a line move outside console mode leaves the
   * cursor at the start of the line `to - from` lines away.
   */
  lemma LineMoveMeaning(s: Screen, from: int, to: int, bright: bool)
    requires s.mode == Ground
    ensures Run(s, LineMove(from, to, false), bright) == s.(row := s.row + (to - from), col := 0)
  {
    if to < from {
      var up := CSI + Decimal(from - to) + Prefixed([]) + [FINAL_CUU];
      assert CursorUp(from - to) == [CR] + up;
      RunOne(s, CR, bright);
      RunControl(s.(col := 0), from - to, [], FINAL_CUU, bright);
      RunAppend(s, [CR], up, bright);
    } else if to > from {
      RunLinesDown(s, to - from, bright);
    } else {
      RunOne(s, CR, bright);
    }
  }

  /** In console mode only the same-line carriage return is written. */
  lemma ConsoleLineMove(from: int, to: int)
    ensures LineMove(from, to, true) == if from == to then [CR] else []
  {
  }

  /** Writes nothing once the cursor is hidden, so two hides write at most one sequence. */
  lemma HideIdempotent(hidden: bool, console: bool)
    ensures HideBytes(true, console) == []
    ensures HideBytes(hidden, console) + HideBytes(true, console) == HideBytes(hidden, console)
  {
  }

  /** Nothing is written when the cursor is visible and has not moved. */
  lemma FinishQuiet(from: int, pos: (int, int), console: bool)
    ensures FinishBytes(from, false, pos, console, pos) == []
  {
  }

  lemma ShowAtMeaning(s: Screen, col: int, bright: bool)
    requires s.mode == Ground && col >= 0
    ensures Run(s, CursorColumn(col) + ShowCursor(), bright) == s.(col := col, visible := true)
  {
    assert CursorColumn(col) == CSI + Decimal(col + 1) + Prefixed([]) + [FINAL_CHA];
    RunControl(s, col + 1, [], FINAL_CHA, bright);
    CursorVisibilityMeaning(s.(col := col), bright);
    RunAppend(s, CursorColumn(col), ShowCursor(), bright);
  }

  /**
   * Outside console mode, when `finishOutput` writes anything it leaves the
   * remote cursor visible on the new line (relative to where it was) and in
   * the new column.
   */
  lemma FinishMeaning(s: Screen, from: int, hidden: bool, pos: (int, int), newPos: (int, int), bright: bool)
    requires s.mode == Ground && newPos.0 >= 0
    requires hidden || newPos != pos
    ensures Run(s, FinishBytes(from, hidden, pos, false, newPos), bright)
         == s.(row := s.row + (newPos.1 - from), col := newPos.0, visible := true)
  {
    var h := HideBytes(hidden, false);
    var m := LineMove(from, newPos.1, false);
    var c := CursorColumn(newPos.0) + ShowCursor();
    var s1 := if hidden then s else s.(visible := false);
    if !hidden {
      CursorVisibilityMeaning(s, bright);
    }
    assert Run(s, h, bright) == s1;
    LineMoveMeaning(s1, from, newPos.1, bright);
    var s2 := s1.(row := s.row + (newPos.1 - from), col := 0);
    assert Run(s1, m, bright) == s2;
    ShowAtMeaning(s2, newPos.0, bright);
    assert Run(s2, c, bright) == s.(row := s.row + (newPos.1 - from), col := newPos.0, visible := true);
    RunAppend(s, h, m, bright);
    RunAppend(s, h + m, c, bright);
    assert FinishBytes(from, hidden, pos, false, newPos) == h + m + c;
  }

  /**
   * Outside console mode, `sendLine` leaves the remote cursor hidden at
   * the start of the target line before the row's bytes.
   */
  lemma LinePreludeMeaning(s: Screen, from: int, hidden: bool, line: int, bright: bool)
    requires s.mode == Ground && (hidden ==> !s.visible)
    ensures Run(s, LinePrelude(from, hidden, false, line), bright)
         == s.(row := s.row + (line - from), col := 0, visible := false)
  {
    var h := HideBytes(hidden, false);
    var m := LineMove(from, line, false);
    var s1 := s.(visible := false);
    if !hidden {
      CursorVisibilityMeaning(s, bright);
    }
    assert Run(s, h, bright) == s1;
    LineMoveMeaning(s1, from, line, bright);
    var s2 := s1.(row := s.row + (line - from), col := 0);
    EraseLineMeaning(s2, bright);
    RunAppend(s, h, m, bright);
    RunAppend(s, h + m, EraseLine(), bright);
  }
}
