/**
 * The character conversion `sendLine` performs for one UTF-16 code unit
 * (`WideCharToMultiByte(CP_UTF8, 0, &ch, 1, ...)`), and its inverse.
 *
 * A code unit is converted on its own, so a surrogate code unit is never
 * part of a pair; the model treats it as unconvertible (an empty result,
 * which the caller sees as a length of 0).
 */
module Utf8 {
  import opened Bytes

  datatype Option<T> = None | Some(value: T)

  predicate IsSurrogate(u: Word) { 0xD800 <= u <= 0xDFFF }

  predicate IsContinuation(b: Byte) { 0x80 <= b < 0xC0 }

  /** UTF-8 encoding of one code unit; empty when it cannot be converted. */
  function Encode(u: Word): (r: seq<Byte>)
    ensures |r| <= 3
    ensures r == [] <==> IsSurrogate(u)
    ensures |r| == 1 ==> r == [u]
    ensures |r| > 1 ==> IsContinuation(r[|r| - 1])
  {
    if u < 0x80 then [u]
    else if u < 0x800 then [0xC0 + u / 0x40, 0x80 + u % 0x40]
    else if IsSurrogate(u) then []
    else [0xE0 + u / 0x1000, 0x80 + (u / 0x40) % 0x40, 0x80 + u % 0x40]
  }

  /** Decoding of one well-formed, shortest-form UTF-8 sequence of a BMP code unit. */
  function Decode(b: seq<Byte>): Option<Word>
  {
    if |b| == 1 && b[0] < 0x80 then Some(b[0])
    else if |b| == 2 && 0xC2 <= b[0] < 0xE0 && IsContinuation(b[1]) then
      Some((b[0] as int - 0xC0) * 0x40 + (b[1] as int - 0x80))
    else if |b| == 3 && 0xE0 <= b[0] < 0xF0 && IsContinuation(b[1]) && IsContinuation(b[2]) then
      var u: int := (b[0] as int - 0xE0) * 0x1000 + (b[1] as int - 0x80) * 0x40 + (b[2] as int - 0x80);
      if u < 0x800 || IsSurrogate(u) then None else Some(u)
    else None
  }

  /** Six low bits split off a number and put back. */
  lemma Split(hi: nat, lo: nat)
    requires lo < 0x40
    ensures (hi * 0x40 + lo) / 0x40 == hi && (hi * 0x40 + lo) % 0x40 == lo
  {
  }

  /** Twelve low bits split off a number. */
  lemma Split12(hi: nat, lo: nat)
    requires lo < 0x1000
    ensures (hi * 0x1000 + lo) / 0x1000 == hi
  {
  }

  /** Every convertible code unit decodes back from its encoding ... */
  lemma DecodeEncode(u: Word)
    requires !IsSurrogate(u)
    ensures Decode(Encode(u)) == Some(u)
  {
  }

  /** ... and every decodable sequence is the encoding of what it decodes to. */
  lemma EncodeDecode(b: seq<Byte>)
    requires Decode(b).Some?
    ensures Encode(Decode(b).value) == b
  {
    var u := Decode(b).value;
    if |b| == 2 {
      var x0: int, x1: int := b[0] as int, b[1] as int;
      Split(x0 - 0xC0, x1 - 0x80);
    } else if |b| == 3 {
      var x0: int, x1: int, x2: int := b[0] as int, b[1] as int, b[2] as int;
      var lo := (x1 - 0x80) * 0x40 + (x2 - 0x80);
      assert u == (x0 - 0xE0) * 0x1000 + lo;
      Split((x0 - 0xE0) * 0x40 + (x1 - 0x80), x2 - 0x80);
      Split(x0 - 0xE0, x1 - 0x80);
      Split12(x0 - 0xE0, lo);
    }
  }
}
