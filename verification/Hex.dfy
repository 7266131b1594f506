/** Hexadecimal digits. */
module Hex {
  import opened Bytes

  /** isxdigit */
  predicate IsHex(c: byte) {
    48 <= c <= 57 || 65 <= c <= 70 || 97 <= c <= 102
  }

  function HexDigit(c: byte): (d: nat)
    requires IsHex(c)
    ensures d < 16
  {
    if c <= 57 then c - 48 else if c <= 70 then c - 65 + 10 else c - 97 + 10
  }

  /** The digits, as they are printed. */
  lemma HexChars(d: nat)
    requires d < 16
    ensures HexChar(d) == Lit("0123456789ABCDEF")[d]
  {
    assert "0123456789ABCDEF"[d] as int == if d < 10 then 48 + d else 55 + d;
  }

  /** A digit is read as its value in either case, and nothing else is. */
  lemma HexEitherCase(c: byte, d: nat)
    requires d < 16
    ensures IsHex(c) && HexDigit(c) == d <==> SameLetter(c, HexChar(d))
  {
  }

  lemma HexOnly(c: byte)
    ensures IsHex(c) <==> exists d :: 0 <= d < 16 && SameLetter(c, HexChar(d))
  {
    if IsHex(c) {
      HexEitherCase(c, HexDigit(c));
    }
    if exists d :: 0 <= d < 16 && SameLetter(c, HexChar(d)) {
      var d :| 0 <= d < 16 && SameLetter(c, HexChar(d));
      HexEitherCase(c, d);
    }
  }

  lemma SameHex(a: byte, b: byte)
    requires IsHex(b) && SameLetter(a, b)
    ensures IsHex(a) && HexDigit(a) == HexDigit(b)
  {
  }

  function HexChar(d: nat): (c: byte)
    requires d < 16
    ensures IsHex(c) && HexDigit(c) == d
  {
    if d < 10 then 48 + d else 55 + d
  }
}
