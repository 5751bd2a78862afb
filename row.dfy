/**
 * What `sendLine` (agent/Terminal.cc) makes of one row of console cells,
 * stated as functions: the bytes of one cell, the colour sequences it
 * inserts, and the trimming of trailing spaces.  The loop that builds the
 * same bytes in place is `Terminal.SendLine`, proved against these.
 */
module Row {
  import opened Bytes
  import opened Utf8
  import opened Sgr

  /** A console cell (`CHAR_INFO`): a UTF-16 code unit and its attribute word. */
  datatype Cell = Cell(ch: Word, attributes: Word)

  const LEADING_BYTE := 0x100
  const TRAILING_BYTE := 0x200

  const QUESTION: Byte := 0x3F

  /** `Attributes & COLOR_ATTRIBUTE_MASK`: the low eight bits. */
  function CellColor(c: Cell): (color: nat)
    ensures color < 0x100
    ensures c.attributes < 0x100 ==> color == c.attributes
  {
    // COLOR_ATTRIBUTE_MASK is 0xFF, all eight low bits, so the mask keeps the remainder by 0x100.
    c.attributes % (COLOR_ATTRIBUTE_MASK + 1)
  }

  /** The second cell of a double-width pair. */
  predicate IsTrailing(c: Cell)
  {
    Has(c.attributes, TRAILING_BYTE)
  }

  /** The double box-drawing characters, U+2550 to U+256C. */
  predicate IsDoubleBox(u: Word)
  {
    0x2550 <= u <= 0x256C
  }

  /**
   * The code units 1 to 6 that the CP932/CP949 console popups use for
   * their borders become the double box-drawing characters.
   */
  function Remap(ch: Word): (r: Word)
    ensures r != ch <==> 1 <= ch <= 6
    ensures 1 <= ch <= 6 ==> IsDoubleBox(r)
  {
    if ch == 1 then 0x2554       // DOUBLE DOWN AND RIGHT
    else if ch == 2 then 0x2557  // DOUBLE DOWN AND LEFT
    else if ch == 3 then 0x255A  // DOUBLE UP AND RIGHT
    else if ch == 4 then 0x255D  // DOUBLE UP AND LEFT
    else if ch == 5 then 0x2551  // DOUBLE VERTICAL
    else if ch == 6 then 0x2550  // DOUBLE HORIZONTAL
    else ch
  }

  /** The six border code units go to six different characters: the corners stay apart. */
  lemma RemapBorders(a: Word, b: Word)
    requires 1 <= a <= 6 && 1 <= b <= 6 && a != b
    ensures Remap(a) != Remap(b)
  {
  }

  /** The bytes of a character cell: its UTF-8 form, or "?" when it has none. */
  function CellBytes(c: Cell): (r: seq<Byte>)
    ensures 1 <= |r| <= 3
    ensures r[|r| - 1] == SPACE <==> r == [SPACE]
  {
    var mb := Encode(Remap(c.ch));
    if |mb| <= 0 then [QUESTION] else mb
  }

  /** A cell is written as its (remapped) character, or as "?" when it cannot be converted. */
  lemma CellBytesMeaning(c: Cell)
    ensures var u := Remap(c.ch);
      && (IsSurrogate(u) ==> CellBytes(c) == [QUESTION])
      && (!IsSurrogate(u) ==> Decode(CellBytes(c)) == Some(u))
      && (CellBytes(c) == [SPACE] <==> u == 0x20)
  {
    var u := Remap(c.ch);
    if !IsSurrogate(u) {
      DecodeEncode(u);
    }
  }

  /** The colour sequence cell `c` causes after colour `prev`: none if unchanged or in console mode. */
  function SgrPart(prev: int, c: Cell, console: bool): (r: seq<Byte>)
    ensures r != [] <==> CellColor(c) != prev && !console
  {
    var color := CellColor(c);
    if color != prev && !console then
      ColorSgrShape(Fore(color), Back(color));
      ColorSgr(Fore(color), Back(color))
    else []
  }

  /** The character bytes of `c`: none for the second half of a double-width character. */
  function CharPart(c: Cell): (r: seq<Byte>)
    ensures r == [] <==> IsTrailing(c)
  {
    if IsTrailing(c) then [] else CellBytes(c)
  }

  /** One cell's contribution: its colour sequence, if any, then its character bytes. */
  function Piece(prev: int, c: Cell, console: bool): seq<Byte>
  {
    SgrPart(prev, c, console) + CharPart(c)
  }

  /** Byte strings, one after the other. */
  function Concat(parts: seq<seq<Byte>>): seq<Byte>
  {
    if parts == [] then [] else Concat(parts[..|parts| - 1]) + parts[|parts| - 1]
  }

  lemma {:induction false} ConcatAppend(p: seq<seq<Byte>>, q: seq<seq<Byte>>)
    ensures Concat(p + q) == Concat(p) + Concat(q)
    decreases |q|
  {
    if q == [] {
      assert p + q == p;
    } else {
      var init, last := q[..|q| - 1], q[|q| - 1];
      var pq := p + q;
      assert pq[..|pq| - 1] == p + init && pq[|pq| - 1] == last;
      ConcatAppend(p, init);
      assert Concat(pq) == Concat(p + init) + last;
      assert Concat(q) == Concat(init) + last;
    }
  }

  lemma ConcatSingle(x: seq<Byte>)
    ensures Concat([x]) == x
  {
    var one: seq<seq<Byte>> := [x];
    assert one[..0] == [];
  }

  /** The remote colour when cell `i` is reached: `prev`, or the colour of the cell before. */
  function ColorBefore(cells: seq<Cell>, prev: int, i: nat): int
    requires i <= |cells|
  {
    if i == 0 then prev else CellColor(cells[i - 1])
  }

  /** The remote colour after the row: the last cell's colour, or `prev` for an empty row. */
  function LastColor(cells: seq<Cell>, prev: int): int
  {
    ColorBefore(cells, prev, |cells|)
  }

  /** The parts of a row, one per cell, each from the colour before it and the cell. */
  function Pieces(cells: seq<Cell>, prev: int, console: bool): (r: seq<seq<Byte>>)
    ensures |r| == |cells|
  {
    seq(|cells|, i requires 0 <= i < |cells| => Piece(ColorBefore(cells, prev, i), cells[i], console))
  }

  /** The whole buffer `sendLine` builds for `cells`, starting from remote colour `prev`. */
  function Encoded(cells: seq<Cell>, prev: int, console: bool): seq<Byte>
  {
    Concat(Pieces(cells, prev, console))
  }

  lemma ColorBeforeAppend(a: seq<Cell>, b: seq<Cell>, prev: int, i: nat)
    requires i <= |a| + |b|
    ensures ColorBefore(a + b, prev, i)
         == if i <= |a| then ColorBefore(a, prev, i) else ColorBefore(b, LastColor(a, prev), i - |a|)
  {
    if 0 < i <= |a| {
      assert (a + b)[i - 1] == a[i - 1];
    } else if i > |a| + 1 {
      assert (a + b)[i - 1] == b[i - 1 - |a|];
    } else if i == |a| + 1 && |a| > 0 {
      assert (a + b)[i - 1] == b[0];
    }
  }

  lemma PiecesAppendAt(a: seq<Cell>, b: seq<Cell>, prev: int, console: bool, i: nat)
    requires i < |a| + |b|
    ensures Pieces(a + b, prev, console)[i]
         == (Pieces(a, prev, console) + Pieces(b, LastColor(a, prev), console))[i]
  {
    ColorBeforeAppend(a, b, prev, i);
    if i < |a| {
      assert (a + b)[i] == a[i];
    } else {
      assert (a + b)[i] == b[i - |a|];
    }
  }

  lemma PiecesAppend(a: seq<Cell>, b: seq<Cell>, prev: int, console: bool)
    ensures Pieces(a + b, prev, console) == Pieces(a, prev, console) + Pieces(b, LastColor(a, prev), console)
  {
    var p := Pieces(a + b, prev, console);
    var q := Pieces(a, prev, console) + Pieces(b, LastColor(a, prev), console);
    forall i | 0 <= i < |p| ensures p[i] == q[i] {
      PiecesAppendAt(a, b, prev, console, i);
    }
  }

  /** Rows are encoded cell after cell: the second row continues from the first's last colour. */
  lemma EncodedAppend(a: seq<Cell>, b: seq<Cell>, prev: int, console: bool)
    ensures Encoded(a + b, prev, console) == Encoded(a, prev, console) + Encoded(b, LastColor(a, prev), console)
    ensures LastColor(a + b, prev) == LastColor(b, LastColor(a, prev))
  {
    PiecesAppend(a, b, prev, console);
    ConcatAppend(Pieces(a, prev, console), Pieces(b, LastColor(a, prev), console));
    ColorBeforeAppend(a, b, prev, |a| + |b|);
  }

  lemma EncodedSingle(c: Cell, prev: int, console: bool)
    ensures Encoded([c], prev, console) == Piece(prev, c, console)
  {
    assert Pieces([c], prev, console) == [Piece(prev, c, console)];
    ConcatSingle(Piece(prev, c, console));
  }

  lemma LastColorPrefix(cells: seq<Cell>, prev: int, i: nat)
    requires i < |cells|
    ensures LastColor(cells[..i], prev) == ColorBefore(cells, prev, i)
    ensures LastColor(cells[..i + 1], prev) == CellColor(cells[i])
  {
    if i > 0 {
      assert cells[..i][i - 1] == cells[i - 1];
    }
    assert cells[..i + 1][i] == cells[i];
  }

  /** The buffer grows by one piece per cell, and each cell moves the remote colour to its own. */
  lemma EncodedStep(cells: seq<Cell>, i: nat, prev: int, console: bool)
    requires i < |cells|
    ensures Encoded(cells[..i + 1], prev, console)
         == Encoded(cells[..i], prev, console) + Piece(ColorBefore(cells, prev, i), cells[i], console)
    ensures LastColor(cells[..i], prev) == ColorBefore(cells, prev, i)
    ensures LastColor(cells[..i + 1], prev) == CellColor(cells[i])
  {
    assert cells[..i + 1] == cells[..i] + [cells[i]];
    EncodedAppend(cells[..i], [cells[i]], prev, console);
    LastColorPrefix(cells, prev, i);
    EncodedSingle(cells[i], ColorBefore(cells, prev, i), console);
  }

  /** The character bytes of a row, without any colour sequence. */
  function Text(cells: seq<Cell>): seq<Byte>
  {
    Concat(TextParts(cells))
  }

  function TextParts(cells: seq<Cell>): (r: seq<seq<Byte>>)
    ensures |r| == |cells|
  {
    seq(|cells|, i requires 0 <= i < |cells| => CharPart(cells[i]))
  }

  /** In console mode no colour sequence is ever written. */
  lemma ConsoleRowIsText(cells: seq<Cell>, prev: int)
    ensures Encoded(cells, prev, true) == Text(cells)
  {
    var p := Pieces(cells, prev, true);
    forall i | 0 <= i < |cells| ensures p[i] == CharPart(cells[i]) {
      assert [] + CharPart(cells[i]) == CharPart(cells[i]);
    }
    assert p == TextParts(cells);
  }

  predicate AllColored(cells: seq<Cell>, color: int)
  {
    forall i | 0 <= i < |cells| :: CellColor(cells[i]) == color
  }

  /** A row in the colour the terminal already has gets no colour sequence. */
  lemma SameColorRowIsText(cells: seq<Cell>, prev: int, console: bool)
    requires AllColored(cells, prev)
    ensures Encoded(cells, prev, console) == Text(cells)
  {
    var p := Pieces(cells, prev, console);
    forall i | 0 <= i < |cells| ensures p[i] == CharPart(cells[i]) {
      assert ColorBefore(cells, prev, i) == prev;
    }
    assert p == TextParts(cells);
  }

  lemma ConcatCons(x: seq<Byte>, rest: seq<seq<Byte>>)
    ensures Concat([x] + rest) == x + Concat(rest)
  {
    ConcatAppend([x], rest);
    ConcatSingle(x);
  }

  /** Two lists of parts that differ only by a prefix `x` on the first part. */
  lemma ConcatHead(p: seq<seq<Byte>>, t: seq<seq<Byte>>, x: seq<Byte>)
    requires |p| == |t| > 0 && p[0] == x + t[0] && p[1..] == t[1..]
    ensures Concat(p) == x + Concat(t)
  {
    assert p == [p[0]] + p[1..];
    assert t == [t[0]] + t[1..];
    ConcatCons(p[0], p[1..]);
    ConcatCons(t[0], t[1..]);
  }

  lemma SameColorTail(cells: seq<Cell>, prev: int)
    requires cells != [] && AllColored(cells, CellColor(cells[0]))
    ensures Pieces(cells, prev, false)[1..] == TextParts(cells)[1..]
  {
    var p, t := Pieces(cells, prev, false), TextParts(cells);
    forall i | 1 <= i < |cells| ensures p[i] == t[i] {
      assert ColorBefore(cells, prev, i) == CellColor(cells[0]);
    }
  }

  lemma FirstPiece(cells: seq<Cell>, prev: int)
    requires cells != [] && CellColor(cells[0]) != prev
    ensures var color := CellColor(cells[0]);
      Pieces(cells, prev, false)[0] == ColorSgr(Fore(color), Back(color)) + TextParts(cells)[0]
  {
  }

  /** A one-colour row in a new colour gets exactly one colour sequence, before its first cell. */
  lemma NewColorRow(cells: seq<Cell>, prev: int)
    requires cells != [] && AllColored(cells, CellColor(cells[0])) && CellColor(cells[0]) != prev
    ensures var color := CellColor(cells[0]);
      Encoded(cells, prev, false) == ColorSgr(Fore(color), Back(color)) + Text(cells)
  {
    var color := CellColor(cells[0]);
    SameColorTail(cells, prev);
    FirstPiece(cells, prev);
    ConcatHead(Pieces(cells, prev, false), TextParts(cells), ColorSgr(Fore(color), Back(color)));
  }

  /** `s` without its trailing spaces. */
  function TrimRight(s: seq<Byte>): (r: seq<Byte>)
    ensures |r| <= |s|
  {
    if s != [] && s[|s| - 1] == SPACE then TrimRight(s[..|s| - 1]) else s
  }

  /**
   * The trimmed row is the longest prefix that does not end in a space:
   * it is a prefix, what it drops is all spaces, and it is empty or ends
   * in something else.
   */
  lemma {:induction false} TrimRightMeaning(s: seq<Byte>)
    ensures var r := TrimRight(s);
      && r == s[..|r|]
      && (forall i | |r| <= i < |s| :: s[i] == SPACE)
      && (r == [] || r[|r| - 1] != SPACE)
  {
    if s != [] && s[|s| - 1] == SPACE {
      TrimRightMeaning(s[..|s| - 1]);
    }
  }

  /** A space is the only byte the trimming can drop. */
  lemma TrimSpace(s: seq<Byte>)
    ensures TrimRight(s + [SPACE]) == TrimRight(s)
  {
    assert (s + [SPACE])[..|s|] == s;
  }

  lemma TrimNonSpace(s: seq<Byte>, t: seq<Byte>)
    requires t != [] && t[|t| - 1] != SPACE
    ensures TrimRight(s + t) == s + t
  {
  }
}
