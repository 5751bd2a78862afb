/**
 * Decimal text of integers: `outUInt` (agent/Terminal.cc) and the `%d`
 * conversion that `sprintf` performs for the cursor sequences.
 */
module Digits {
  import opened Bytes

  const ZERO: Byte := 0x30
  const MINUS: Byte := 0x2D

  predicate IsDigit(b: Byte) { ZERO <= b <= ZERO + 9 }

  predicate AllDigits(s: seq<Byte>) { forall i | 0 <= i < |s| :: IsDigit(s[i]) }

  function Digit(d: nat): (b: Byte)
    requires d < 10
    ensures IsDigit(b)
  {
    ZERO + d
  }

  /**
   * The shortest decimal representation of `n`, most significant digit
   * first: never empty, only digits, and no leading zero except for "0".
   */
  function Decimal(n: nat): (r: seq<Byte>)
    ensures 1 <= |r|
  {
    if n < 10 then [Digit(n)] else Decimal(n / 10) + [Digit(n % 10)]
  }

  lemma {:induction false} DecimalDigits(n: nat)
    ensures AllDigits(Decimal(n))
  {
    if n >= 10 {
      DecimalDigits(n / 10);
    }
  }

  /** Only "0" starts with a zero; one digit exactly below ten; the last digit is `n % 10`. */
  lemma {:induction false} DecimalCanonical(n: nat)
    ensures var r := Decimal(n);
      && (r[0] == ZERO <==> n == 0)
      && (n < 10 <==> |r| == 1)
      && r[|r| - 1] == Digit(n % 10)
  {
    if n >= 10 {
      DecimalCanonical(n / 10);
    }
  }

  /** The value of a string of decimal digits, read most significant first. */
  function ParseDecimal(s: seq<Byte>): nat
    requires AllDigits(s)
  {
    if s == [] then 0 else ParseDecimal(s[..|s| - 1]) * 10 + (s[|s| - 1] - ZERO)
  }

  /** Reading back what `Decimal` wrote gives the number. */
  lemma {:induction false} ParseDecimalOfDecimal(n: nat)
    ensures AllDigits(Decimal(n)) && ParseDecimal(Decimal(n)) == n
  {
    var r := Decimal(n);
    DecimalDigits(n);
    if n >= 10 {
      ParseDecimalOfDecimal(n / 10);
      assert r[..|r| - 1] == Decimal(n / 10);
    } else {
      assert r[..|r| - 1] == [];
    }
  }

  lemma {:induction false} ParseDecimalPositive(s: seq<Byte>)
    requires AllDigits(s) && s != [] && s[0] != ZERO
    ensures ParseDecimal(s) >= 1
  {
    if |s| > 1 {
      ParseDecimalPositive(s[..|s| - 1]);
    } else {
      assert s[..|s| - 1] == [];
    }
  }

  /**
   * Every canonical digit string (non-empty, no leading zero unless it is
   * "0") is the output of `Decimal` for exactly its value: together with
   * ParseDecimalOfDecimal, `Decimal` is a bijection onto canonical strings.
   */
  lemma {:induction false} DecimalOfParseDecimal(s: seq<Byte>)
    requires AllDigits(s) && s != []
    requires |s| > 1 ==> s[0] != ZERO
    ensures Decimal(ParseDecimal(s)) == s
  {
    var t := s[..|s| - 1];
    if |s| == 1 {
      assert t == [];
    } else {
      DecimalOfParseDecimal(t);
      ParseDecimalPositive(t);
      assert s == t + [s[|s| - 1]];
    }
  }

  lemma DecimalInjective(m: nat, n: nat)
    requires Decimal(m) == Decimal(n)
    ensures m == n
  {
    ParseDecimalOfDecimal(m);
    ParseDecimalOfDecimal(n);
  }

  /**
   * What `printf`'s `%d` writes for `n`: a '-' exactly when `n` is
   * negative, then the canonical digits of its magnitude.
   */
  function FormatInt(n: int): (r: seq<Byte>)
    ensures |r| >= 1 && (r[0] == MINUS <==> n < 0)
    ensures var d := if n < 0 then r[1..] else r;
      AllDigits(d) && ParseDecimal(d) == (if n < 0 then -n else n) && Decimal(ParseDecimal(d)) == d
  {
    var m := if n < 0 then -n else n;
    ParseDecimalOfDecimal(m);
    if n < 0 then [MINUS] + Decimal(m) else Decimal(m)
  }

  /**
   * `outUInt`: append the decimal text of the unsigned int `n` to `out`.
   * The digits are produced least significant first into a buffer that is
   * filled from its end (a do-while loop, so 0 gives "0").
   */
  method OutUInt(out: seq<Byte>, n: nat) returns (r: seq<Byte>)
    requires n < 0x1_0000_0000
    ensures r == out + Decimal(n)
  {
    var buf: seq<Byte> := [];
    var m := n;
    while true
      invariant Decimal(n) == Decimal(m) + buf
      decreases m
    {
      buf := [Digit(m % 10)] + buf;
      m := m / 10;
      if m == 0 {
        break;
      }
    }
    r := out + buf;
  }
}
