/**
 * Bytes and the fixed strings of the VT/ANSI output stream.
 *
 * The renderer writes `char` data (std::string, `const char *`) to its byte
 * sink; a `Byte` is one such octet.  A `Word` is a 16-bit unsigned quantity:
 * the console's `WORD Attributes` and its UTF-16 `wchar_t` code units.
 */
module Bytes {

  type Byte = x: int | 0 <= x < 0x100
  type Word = x: int | 0 <= x < 0x1_0000

  const ESC: Byte := 0x1B
  const CR: Byte := 0x0D
  const LF: Byte := 0x0A
  const SPACE: Byte := 0x20
  const SEMICOLON: Byte := 0x3B

  /** The Control Sequence Introducer, ESC '['. */
  const CSI: seq<Byte> := [ESC, 0x5B]

  /**
   * The octets of a string literal.  Every literal the renderer writes is
   * 7-bit ASCII, where each character is the octet of the same value.
   */
  function Ascii(s: string): (r: seq<Byte>)
    ensures |r| == |s|
  {
    seq(|s|, i requires 0 <= i < |s| => s[i] as int % 0x100)
  }

  /** Regrouping four byte strings written one after the other. */
  lemma Assoc(a: seq<Byte>, b: seq<Byte>, c: seq<Byte>, d: seq<Byte>)
    ensures a + b + c + d == a + (b + c + d)
  {
  }

  lemma AsciiAppend(a: string, b: string)
    ensures Ascii(a + b) == Ascii(a) + Ascii(b)
  {
  }
}
