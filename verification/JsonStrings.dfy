/** jsoncpp's strings: quoting, the scan for the closing quote, and decoding with \u escapes to UTF-8. */
module JsonStrings {
  import opened Bytes
  import opened Hex
  import opened Wrappers

  const QUOTE: byte := 34
  const BACKSLASH: byte := 92
  const LETTER_U: byte := 117

  // ---------- Code points as UTF-8 ----------

  /** codePointToUTF8: the masks and shifts as quotients and remainders; nothing above 0x10FFFF. */
  function CodePointToUtf8(cp: nat): bytes {
    if cp <= 0x7F then
      var b0: byte := cp;
      [b0]
    else if cp <= 0x7FF then
      var b0: byte, b1: byte := 0xC0 + cp / 64 % 32, 0x80 + cp % 64;
      [b0, b1]
    else if cp <= 0xFFFF then
      var b0: byte, b1: byte, b2: byte := 0xE0 + cp / 4096 % 16, 0x80 + cp / 64 % 64, 0x80 + cp % 64;
      [b0, b1, b2]
    else if cp <= 0x10FFFF then
      var b0: byte, b1: byte := 0xF0 + cp / 262144 % 8, 0x80 + cp / 4096 % 64;
      var b2: byte, b3: byte := 0x80 + cp / 64 % 64, 0x80 + cp % 64;
      [b0, b1, b2, b3]
    else []
  }

  predicate IsScalar(cp: nat) { cp < 0xD800 || 0xDFFF < cp <= 0x10FFFF }

  predicate IsTail(b: byte) { 0x80 <= b <= 0xBF }

  /** One well-formed character, by the byte ranges of section 4 of RFC 3629. */
  predicate IsUtf8Char(s: bytes) {
    if |s| == 1 then s[0] <= 0x7F
    else if |s| == 2 then 0xC2 <= s[0] <= 0xDF && IsTail(s[1])
    else if |s| == 3 then
      && IsTail(s[1]) && IsTail(s[2])
      && (|| (s[0] == 0xE0 && 0xA0 <= s[1])
          || (0xE1 <= s[0] <= 0xEC)
          || (s[0] == 0xED && s[1] <= 0x9F)
          || (0xEE <= s[0] <= 0xEF))
    else
      && |s| == 4 && IsTail(s[1]) && IsTail(s[2]) && IsTail(s[3])
      && (|| (s[0] == 0xF0 && 0x90 <= s[1])
          || (0xF1 <= s[0] <= 0xF3)
          || (s[0] == 0xF4 && s[1] <= 0x8F))
  }

  /** The scalar value a character stands for (section 3 of RFC 3629). */
  function FromUtf8(s: bytes): int
    requires IsUtf8Char(s)
  {
    if |s| == 1 then s[0]
    else if |s| == 2 then (s[0] as int - 0xC0) * 64 + (s[1] as int - 0x80)
    else if |s| == 3 then (s[0] as int - 0xE0) * 4096 + (s[1] as int - 0x80) * 64 + (s[2] as int - 0x80)
    else (s[0] as int - 0xF0) * 262144 + (s[1] as int - 0x80) * 4096 + (s[2] as int - 0x80) * 64
         + (s[3] as int - 0x80)
  }

  /** A number by its digits to base 64. */
  function FromDigits(a: nat, b: nat, c: nat, d: nat): nat { a * 262144 + b * 4096 + c * 64 + d }

  /** The bytes of a code point given by its digits to base 64. */
  function Assembled(a: nat, b: nat, c: nat, d: nat): bytes
    requires b < 64 && c < 64 && d < 64 && FromDigits(a, b, c, d) <= 0x10FFFF
  {
    var cp := FromDigits(a, b, c, d);
    if cp <= 0x7F then
      var b0: byte := c * 64 + d;
      [b0]
    else if cp <= 0x7FF then
      var b0: byte, b1: byte := 0xC0 + c, 0x80 + d;
      [b0, b1]
    else if cp <= 0xFFFF then
      var b0: byte, b1: byte, b2: byte := 0xE0 + b, 0x80 + c, 0x80 + d;
      [b0, b1, b2]
    else
      var b0: byte, b1: byte, b2: byte, b3: byte := 0xF0 + a, 0x80 + b, 0x80 + c, 0x80 + d;
      [b0, b1, b2, b3]
  }

  lemma ShiftsAndMasks(a: nat, b: nat, c: nat, d: nat)
    requires b < 64 && c < 64 && d < 64
    ensures var n := FromDigits(a, b, c, d);
            && n % 64 == d && n / 64 == a * 4096 + b * 64 + c
            && n / 4096 == a * 64 + b && n / 262144 == a
  {
  }

  lemma EncodeDigits(a: nat, b: nat, c: nat, d: nat)
    requires b < 64 && c < 64 && d < 64 && FromDigits(a, b, c, d) <= 0x10FFFF
    ensures CodePointToUtf8(FromDigits(a, b, c, d)) == Assembled(a, b, c, d)
  {
    hide FromDigits;
    ShiftsAndMasks(a, b, c, d);
    EncodeParts(FromDigits(a, b, c, d), a, b, c, d);
    DigitSizes(a, b, c, d);
  }

  lemma DigitSizes(a: nat, b: nat, c: nat, d: nat)
    requires b < 64 && c < 64 && d < 64 && FromDigits(a, b, c, d) <= 0x10FFFF
    ensures var cp := FromDigits(a, b, c, d);
            && a <= 4 && (cp <= 0xFFFF ==> a == 0 && b < 16) && (cp <= 0x7FF ==> b == 0 && c < 32)
            && (cp <= 0x7F ==> cp == c * 64 + d)
  {
  }

  /** The masks of the encoder, taken apart. */
  lemma EncodeParts(n: nat, a: nat, b: nat, c: nat, d: nat)
    requires b < 64 && c < 64 && d < 64
    requires n % 64 == d && n / 64 == a * 4096 + b * 64 + c && n / 4096 == a * 64 + b && n / 262144 == a
    ensures n / 64 % 64 == c && n / 4096 % 64 == b
    ensures a == 0 && b == 0 && c < 32 ==> n / 64 % 32 == c
    ensures a == 0 && b < 16 ==> n / 4096 % 16 == b
    ensures a <= 4 ==> n / 262144 % 8 == a
  {
  }

  lemma AssembledDecodes(a: nat, b: nat, c: nat, d: nat)
    requires b < 64 && c < 64 && d < 64 && IsScalar(FromDigits(a, b, c, d))
    ensures var s := Assembled(a, b, c, d); IsUtf8Char(s) && FromUtf8(s) == FromDigits(a, b, c, d)
  {
  }

  lemma TakenApart(n: nat)
    ensures n == FromDigits(n / 262144, n / 4096 % 64, n / 64 % 64, n % 64)
  {
    assert n / 64 / 64 == n / 4096;
    assert n / 4096 / 64 == n / 262144;
  }

  /** The encoder yields the one well-formed UTF-8 character of every Unicode scalar value. */
  lemma Utf8OfScalar(cp: nat)
    requires IsScalar(cp)
    ensures IsUtf8Char(CodePointToUtf8(cp)) && FromUtf8(CodePointToUtf8(cp)) == cp
  {
    hide CodePointToUtf8, Assembled, IsUtf8Char, FromUtf8, FromDigits;
    TakenApart(cp);
    EncodeDigits(cp / 262144, cp / 4096 % 64, cp / 64 % 64, cp % 64);
    AssembledDecodes(cp / 262144, cp / 4096 % 64, cp / 64 % 64, cp % 64);
  }

  /** The digits to base 64 a character carries. */
  function DigitsOf(s: bytes): (r: (nat, nat, nat, nat))
    requires IsUtf8Char(s)
    ensures r.1 < 64 && r.2 < 64 && r.3 < 64
  {
    if |s| == 1 then (0, 0, s[0] / 64, s[0] % 64)
    else if |s| == 2 then (0, 0, s[0] as int - 0xC0, s[1] as int - 0x80)
    else if |s| == 3 then (0, s[0] as int - 0xE0, s[1] as int - 0x80, s[2] as int - 0x80)
    else (s[0] as int - 0xF0, s[1] as int - 0x80, s[2] as int - 0x80, s[3] as int - 0x80)
  }

  lemma DecodedDigits(s: bytes)
    requires IsUtf8Char(s)
    ensures var (a, b, c, d) := DigitsOf(s);
            && FromUtf8(s) == FromDigits(a, b, c, d) && IsScalar(FromDigits(a, b, c, d))
            && Assembled(a, b, c, d) == s
  {
    if |s| == 1 {
      assert s == [s[0]];
    } else if |s| == 2 {
      assert s == [s[0], s[1]];
    } else if |s| == 3 {
      assert s == [s[0], s[1], s[2]];
    } else {
      assert s == [s[0], s[1], s[2], s[3]];
    }
  }

  /** The other way round: UTF-8 read and written again. */
  lemma ScalarOfUtf8(s: bytes)
    requires IsUtf8Char(s)
    ensures FromUtf8(s) >= 0 && IsScalar(FromUtf8(s)) && CodePointToUtf8(FromUtf8(s)) == s
  {
    hide CodePointToUtf8, Assembled, IsUtf8Char, FromUtf8, FromDigits;
    DecodedDigits(s);
    var (a, b, c, d) := DigitsOf(s);
    EncodeDigits(a, b, c, d);
  }

  /** The characters of the examples in section 7 of RFC 3629. */
  lemma Utf8Examples()
    ensures CodePointToUtf8(0x41) == [0x41] && CodePointToUtf8(0x391) == [0xCE, 0x91]
    ensures CodePointToUtf8(0x2262) == [0xE2, 0x89, 0xA2] && CodePointToUtf8(0xD55C) == [0xED, 0x95, 0x9C]
    ensures CodePointToUtf8(0x233B4) == [0xF0, 0xA3, 0x8E, 0xB4]
  {
  }

  // ---------- Hexadecimal ----------

  function DigitValue(c: byte): (v: Option<nat>)
    ensures v.Some? ==> v.value < 16
  {
    if IsHex(c) then Some(HexDigit(c)) else None
  }

  /** Four upper-case hexadecimal digits (std::hex, std::uppercase, std::setw(4)). */
  function Hex4(n: nat): (s: bytes)
    requires n < 0x10000
    ensures |s| == 4
  {
    [HexChar(n / 4096), HexChar(n / 256 % 16), HexChar(n / 16 % 16), HexChar(n % 16)]
  }

  /** The number of four hexadecimal digits in either case. */
  function Hex4Value(s: bytes): (v: Option<nat>)
    requires |s| == 4
    ensures v.Some? ==> v.value < 0x10000
  {
    if DigitValue(s[0]).None? || DigitValue(s[1]).None? || DigitValue(s[2]).None? || DigitValue(s[3]).None? then None
    else Some(DigitValue(s[0]).value * 4096 + DigitValue(s[1]).value * 256 + DigitValue(s[2]).value * 16
              + DigitValue(s[3]).value)
  }

  /** Four digits have a value exactly when they are its digits, each in either case. */
  lemma Hex4EitherCase(s: bytes, n: nat)
    requires |s| == 4 && n < 0x10000
    ensures Hex4Value(s) == Some(n) <==> SameLetters(s, Hex4(n))
  {
    hide HexDigit, HexChar, IsHex, SameLetter;
    HexEitherCase(s[0], n / 4096);
    HexEitherCase(s[1], n / 256 % 16);
    HexEitherCase(s[2], n / 16 % 16);
    HexEitherCase(s[3], n % 16);
    if Hex4Value(s).Some? {
      FourDigits(DigitValue(s[0]).value, DigitValue(s[1]).value, DigitValue(s[2]).value, DigitValue(s[3]).value, n);
    }
    FourDigitsOf(n);
  }

  lemma FourDigits(a: nat, b: nat, c: nat, d: nat, n: nat)
    requires a < 16 && b < 16 && c < 16 && d < 16
    ensures a * 4096 + b * 256 + c * 16 + d == n <==>
            n / 4096 == a && n / 256 % 16 == b && n / 16 % 16 == c && n % 16 == d
  {
    FourDigitsOf(n);
    var x := a * 4096 + b * 256 + c * 16 + d;
    assert x / 4096 == a && x / 256 == a * 16 + b && x / 16 == a * 256 + b * 16 + c;
    if n / 4096 == a && n / 256 % 16 == b && n / 16 % 16 == c && n % 16 == d {
      assert n == x;
    }
  }

  lemma FourDigitsOf(n: nat)
    ensures n == n / 4096 * 4096 + n / 256 % 16 * 256 + n / 16 % 16 * 16 + n % 16
  {
    assert n / 16 / 16 == n / 256 && n / 256 / 16 == n / 4096;
  }

  lemma SameLength(s: bytes, t: bytes)
    requires SameLetters(s, t)
    ensures |s| == |t|
  {
  }

  lemma SameText(s: bytes)
    ensures SameLetters(s, s)
  {
  }

  // ---------- Quoting ----------

  /** The letter of a two-character escape, if the character has one. */
  function ShortEscape(c: byte): Option<byte> {
    if c == 34 || c == 92 then Some(c)
    else if c == 8 then Some(98)
    else if c == 12 then Some(102)
    else if c == 10 then Some(110)
    else if c == 13 then Some(114)
    else if c == 9 then Some(116)
    else None
  }

  function EscapedChar(c: byte): (r: bytes)
    ensures r != []
  {
    if ShortEscape(c).Some? then [BACKSLASH, ShortEscape(c).value]
    else if c <= 31 then [BACKSLASH, LETTER_U] + Hex4(c)
    else [c]
  }

  function Escaped(s: bytes): bytes {
    if s == [] then [] else EscapedChar(s[0]) + Escaped(s[1..])
  }

  function Quoted(s: bytes): bytes { [QUOTE] + Escaped(s) + [QUOTE] }

  lemma {:induction false} EscapedSnoc(s: bytes, c: byte)
    ensures Escaped(s + [c]) == Escaped(s) + EscapedChar(c)
  {
    if s == [] {
      assert ([] + [c])[1..] == [];
    } else {
      EscapedSnoc(s[1..], c);
      ConcatCut(s, [c], 1);
      ConcatAssoc(EscapedChar(s[0]), Escaped(s[1..]), EscapedChar(c));
    }
  }

  /** No control character is left in a quoted string. */
  lemma {:induction false} NoControls(s: bytes)
    ensures forall c <- Escaped(s) :: c >= 32
  {
    if s != [] {
      NoControls(s[1..]);
      assert forall c <- EscapedChar(s[0]) :: c >= 32;
    }
  }

  /** What the writers put for the characters that need an escape: \" \\ \b \f \n \r \t and four hexadecimal
      digits. */
  lemma WrittenEscapes()
    ensures Escaped([34]) == [92, 34] && Escaped([92]) == [92, 92] && Escaped([8]) == [92, 98]
    ensures Escaped([12]) == [92, 102] && Escaped([10]) == [92, 110] && Escaped([13]) == [92, 114]
    ensures Escaped([9]) == [92, 116] && Escaped([31]) == [92, 117, 48, 48, 49, 70] && Escaped([47]) == [47]
    ensures Quoted([97]) == [34, 97, 34]
  {
  }

  /** And the reader for an escape, the slash included. */
  lemma ReadEscapes()
    ensures Decode([92, 34]) == Some([34]) && Decode([92, 92]) == Some([92]) && Decode([92, 47]) == Some([47])
    ensures Decode([92, 98]) == Some([8]) && Decode([92, 102]) == Some([12]) && Decode([92, 110]) == Some([10])
    ensures Decode([92, 114]) == Some([13]) && Decode([92, 116]) == Some([9])
    ensures Decode([92, 117, 48, 48, 101, 57]) == Some([0xC3, 0xA9])
  {
    OneEscape(34);
    OneEscape(92);
    OneEscape(47);
    OneEscape(98);
    OneEscape(102);
    OneEscape(110);
    OneEscape(114);
    OneEscape(116);
    var digits: bytes := [48, 48, 101, 57];
    assert [92, 117, 48, 48, 101, 57] == [BACKSLASH, LETTER_U] + digits + [];
    DecodeEscape(digits, 0xE9, []);
    assert CodePointToUtf8(0xE9) + [] == [0xC3, 0xA9];
  }

  lemma OneEscape(c: byte)
    requires c != LETTER_U
    ensures Decode([BACKSLASH, c]) == if EscapeLetter(c).None? then None else Some([EscapeLetter(c).value])
  {
    assert [BACKSLASH, c][2..] == [];
    if EscapeLetter(c).Some? {
      assert [EscapeLetter(c).value] + [] == [EscapeLetter(c).value];
    }
  }

  /** Every other letter behind a backslash is refused. */
  lemma UnknownEscape(c: byte, tail: bytes)
    requires c !in {34, 47, 92, 98, 102, 110, 114, 116, 117}
    ensures Decode([92, c] + tail) == None
  {
  }

  lemma {:induction false} NothingEscaped(s: bytes)
    requires forall i :: 0 <= i < |s| ==> s[i] > 31 && s[i] != 34 && s[i] != 92
    ensures Escaped(s) == s
  {
    if s != [] {
      NothingEscaped(s[1..]);
    }
  }

  /** strnpbrk and containsControlCharacter0: whether any character has to be escaped. */
  method NeedsEscape(value: bytes) returns (found: bool)
    ensures found <==> exists i :: 0 <= i < |value| && (value[i] <= 31 || value[i] == 34 || value[i] == 92)
  {
    for i := 0 to |value|
      invariant forall j :: 0 <= j < i ==> value[j] > 31 && value[j] != 34 && value[j] != 92
    {
      if value[i] <= 31 || value[i] == 34 || value[i] == 92 {
        return true;
      }
    }
    found := false;
  }

  /** valueToQuotedStringN: the plain copy when nothing needs escaping, the loop otherwise. */
  method ValueToQuotedStringN(value: bytes) returns (result: bytes)
    ensures result == Quoted(value)
  {
    hide EscapedChar;
    var special := NeedsEscape(value);
    if !special {
      NothingEscaped(value);
      return [QUOTE] + value + [QUOTE];
    }
    result := [QUOTE];
    for i := 0 to |value|
      invariant result == [QUOTE] + Escaped(value[..i])
    {
      assert value[..i + 1] == value[..i] + [value[i]];
      EscapedSnoc(value[..i], value[i]);
      ConcatAssoc([QUOTE], Escaped(value[..i]), EscapedChar(value[i]));
      result := result + EscapedChar(value[i]);
    }
    assert value[..|value|] == value;
    result := result + [QUOTE];
  }

  /** A C string ends at its first NUL. */
  function UpToNul(s: bytes): (r: bytes)
    ensures |r| <= |s| && 0 !in r
  {
    if s == [] || s[0] == 0 then [] else [s[0]] + UpToNul(s[1..])
  }

  /** valueToQuotedString of a C string */
  method ValueToQuotedString(value: bytes) returns (result: bytes)
    ensures result == Quoted(UpToNul(value))
  {
    result := ValueToQuotedStringN(UpToNul(value));
  }

  // ---------- Reader::readString ----------

  datatype Scan = Scan(ok: bool, rest: bytes)

  /** From behind the opening quote to behind the closing one. */
  function ScanString(s: bytes): (r: Scan)
    ensures |r.rest| <= |s| && (r.ok ==> |r.rest| < |s|)
    ensures r.rest == s[|s| - |r.rest|..]
    decreases |s|
  {
    if s == [] then Scan(false, [])
    else if s[0] == BACKSLASH then (if |s| == 1 then Scan(false, []) else ScanString(s[2..]))
    else if s[0] == QUOTE then Scan(true, s[1..])
    else ScanString(s[1..])
  }

  lemma ScanEscapedChar(c: byte, tail: bytes)
    ensures ScanString(EscapedChar(c) + tail) == ScanString(tail)
  {
    hide ScanString;
    if ShortEscape(c).Some? {
      ScanBackslash(ShortEscape(c).value, tail);
    } else if c <= 31 {
      ControlForm(c);
      ScanPlain(Hex4(c), tail);
      ConcatAssoc([BACKSLASH, LETTER_U], Hex4(c), tail);
      ScanBackslash(LETTER_U, Hex4(c) + tail);
    } else {
      ScanPlain([c], tail);
    }
  }

  lemma ScanBackslash(c: byte, tail: bytes)
    ensures ScanString([BACKSLASH, c] + tail) == ScanString(tail)
  {
    assert ([BACKSLASH, c] + tail)[2..] == tail;
  }

  lemma ControlForm(c: byte)
    requires c <= 31 && ShortEscape(c).None?
    ensures EscapedChar(c) == [BACKSLASH, LETTER_U] + Hex4(c)
    ensures forall i :: 0 <= i < 4 ==> Hex4(c)[i] != BACKSLASH && Hex4(c)[i] != QUOTE
  {
  }

  lemma {:induction false} ScanPlain(plain: bytes, tail: bytes)
    requires forall i :: 0 <= i < |plain| ==> plain[i] != BACKSLASH && plain[i] != QUOTE
    ensures ScanString(plain + tail) == ScanString(tail)
  {
    if plain == [] {
      assert plain + tail == tail;
    } else {
      ScanPlain(plain[1..], tail);
      ConcatCut(plain, tail, 1);
    }
  }

  /** The scan of a quoted string stops exactly at its closing quote. */
  lemma {:induction false} ScanQuoted(s: bytes, tail: bytes)
    ensures ScanString(Escaped(s) + ([QUOTE] + tail)) == Scan(true, tail)
  {
    hide EscapedChar;
    if s == [] {
      assert [] + ([QUOTE] + tail) == [QUOTE] + tail && ([QUOTE] + tail)[1..] == tail;
    } else {
      ScanQuoted(s[1..], tail);
      ConcatAssoc(EscapedChar(s[0]), Escaped(s[1..]), [QUOTE] + tail);
      ScanEscapedChar(s[0], Escaped(s[1..]) + ([QUOTE] + tail));
    }
  }

  // ---------- Reader::decodeString ----------

  datatype Escape = BadEscape | Escape(codePoint: nat, rest: bytes)

  /** decodeUnicodeEscapeSequence: four hexadecimal digits. */
  function UnicodeEscape(s: bytes): (r: Escape)
    ensures r.Escape? ==> |s| >= 4 && r.rest == s[4..] && r.codePoint < 0x10000
  {
    if |s| < 4 || Hex4Value(s[..4]).None? then BadEscape else Escape(Hex4Value(s[..4]).value, s[4..])
  }

  /** decodeUnicodeCodePoint: behind a high surrogate a second escape is required. */
  function CodePoint(s: bytes): (r: Escape)
    ensures r.Escape? ==> |r.rest| < |s| && r.rest == s[|s| - |r.rest|..]
  {
    var first := UnicodeEscape(s);
    if first.BadEscape? || !(0xD800 <= first.codePoint <= 0xDBFF) then first
    else if |first.rest| < 6 || first.rest[0] != BACKSLASH || first.rest[1] != LETTER_U then BadEscape
    else
      var second := UnicodeEscape(first.rest[2..]);
      if second.BadEscape? then BadEscape
      else Escape(0x10000 + first.codePoint % 0x400 * 0x400 + second.codePoint % 0x400, second.rest)
  }

  /** The character an escape letter stands for. */
  function EscapeLetter(c: byte): Option<byte> {
    if c == 34 || c == 47 || c == 92 then Some(c)
    else if c == 98 then Some(8)
    else if c == 102 then Some(12)
    else if c == 110 then Some(10)
    else if c == 114 then Some(13)
    else if c == 116 then Some(9)
    else None
  }

  function Prefixed(front: bytes, r: Option<bytes>): Option<bytes> {
    if r.None? then None else Some(front + r.value)
  }

  /** What stands between the quotes, decoded. */
  function Decode(s: bytes): Option<bytes>
    decreases |s|
  {
    if s == [] || s[0] == QUOTE then Some([])
    else if s[0] != BACKSLASH then Prefixed([s[0]], Decode(s[1..]))
    else if |s| == 1 then None
    else if s[1] == LETTER_U then
      var e := CodePoint(s[2..]);
      if e.BadEscape? then None else Prefixed(CodePointToUtf8(e.codePoint), Decode(e.rest))
    else if EscapeLetter(s[1]).None? then None
    else Prefixed([EscapeLetter(s[1]).value], Decode(s[2..]))
  }

  lemma DecodeEscapedChar(c: byte, tail: bytes)
    ensures Decode(EscapedChar(c) + tail) == Prefixed([c], Decode(tail))
  {
    hide Decode, Hex4, Hex4Value;
    if ShortEscape(c).Some? {
      assert ([BACKSLASH, ShortEscape(c).value] + tail)[2..] == tail;
      DecodeStep([BACKSLASH, ShortEscape(c).value] + tail);
    } else if c <= 31 {
      ControlForm(c);
      SameText(Hex4(c));
      DecodeEscape(Hex4(c), c, tail);
    } else {
      assert ([c] + tail)[1..] == tail;
      DecodeStep([c] + tail);
    }
  }

  /** Every byte string survives quoting and decoding. */
  lemma {:induction false} DecodeEscaped(s: bytes)
    ensures Decode(Escaped(s)) == Some(s)
  {
    hide EscapedChar;
    if s != [] {
      DecodeEscaped(s[1..]);
      DecodeEscapedChar(s[0], Escaped(s[1..]));
      assert [s[0]] + s[1..] == s;
    }
  }

  /** One \u escape, in digits of either case, decodes to the UTF-8 of its code point. */
  lemma DecodeEscape(digits: bytes, cp: nat, tail: bytes)
    requires cp < 0x10000 && SameLetters(digits, Hex4(cp)) && !(0xD800 <= cp <= 0xDBFF)
    ensures Decode([BACKSLASH, LETTER_U] + digits + tail) == Prefixed(CodePointToUtf8(cp), Decode(tail))
  {
    Hex4EitherCase(digits, cp);
    hide Hex4Value, CodePointToUtf8, UnicodeEscape, SameLetters, Hex4;
    var s := [BACKSLASH, LETTER_U] + digits + tail;
    assert s[2..] == digits + tail;
    EscapeAt(digits, cp, tail);
  }

  /** Every supplementary scalar value, written as a surrogate pair in digits of either case. */
  lemma DecodePair(high: bytes, low: bytes, cp: nat, tail: bytes)
    requires 0x10000 <= cp <= 0x10FFFF
    requires SameLetters(high, Hex4(0xD800 + (cp - 0x10000) / 0x400))
    requires SameLetters(low, Hex4(0xDC00 + (cp - 0x10000) % 0x400))
    ensures Decode([BACKSLASH, LETTER_U] + high + [BACKSLASH, LETTER_U] + low + tail)
         == Prefixed(CodePointToUtf8(cp), Decode(tail))
  {
    hide Hex4Value, CodePointToUtf8, UnicodeEscape, CodePoint, SameLetters, Hex4;
    SameLength(high, Hex4(0xD800 + (cp - 0x10000) / 0x400));
    SameLength(low, Hex4(0xDC00 + (cp - 0x10000) % 0x400));
    Hex4EitherCase(high, 0xD800 + (cp - 0x10000) / 0x400);
    Hex4EitherCase(low, 0xDC00 + (cp - 0x10000) % 0x400);
    var s := [BACKSLASH, LETTER_U] + high + [BACKSLASH, LETTER_U] + low + tail;
    assert s[2..] == high + ([BACKSLASH, LETTER_U] + (low + tail));
    PairCodePoint(high, low, cp, tail);
  }

  lemma PairCodePoint(high: bytes, low: bytes, cp: nat, tail: bytes)
    requires 0x10000 <= cp <= 0x10FFFF && |high| == 4 && |low| == 4
    requires Hex4Value(high) == Some(0xD800 + (cp - 0x10000) / 0x400)
    requires Hex4Value(low) == Some(0xDC00 + (cp - 0x10000) % 0x400)
    ensures CodePoint(high + ([BACKSLASH, LETTER_U] + (low + tail))) == Escape(cp, tail)
  {
    hide Hex4Value, UnicodeEscape;
    var r := [BACKSLASH, LETTER_U] + (low + tail);
    assert r[2..] == low + tail;
    SurrogateSum(cp - 0x10000);
    EscapeAt(low, 0xDC00 + (cp - 0x10000) % 0x400, tail);
    EscapeAt(high, 0xD800 + (cp - 0x10000) / 0x400, r);
  }

  lemma EscapeAt(digits: bytes, n: nat, tail: bytes)
    requires |digits| == 4 && Hex4Value(digits) == Some(n)
    ensures UnicodeEscape(digits + tail) == Escape(n, tail)
  {
    hide Hex4Value;
    assert (digits + tail)[..4] == digits && (digits + tail)[4..] == tail;
  }

  lemma SurrogateSum(d: nat)
    requires d <= 0xFFFFF
    ensures d / 0x400 <= 0x3FF && (0xD800 + d / 0x400) % 0x400 == d / 0x400
    ensures (0xDC00 + d % 0x400) % 0x400 == d % 0x400 && d / 0x400 * 0x400 + d % 0x400 == d
  {
  }

  /** decodeUnicodeEscapeSequence: the cursor and the number, while the digits are good. */
  method DecodeUnicodeEscapeSequence(text: bytes, from: nat, end: nat)
    returns (ok: bool, current: nat, unicode: nat)
    requires from <= end <= |text|
    ensures from <= current <= end
    ensures match UnicodeEscape(text[from..end])
            case BadEscape => !ok
            case Escape(cp, rest) => ok && unicode == cp && rest == text[current..end]
  {
    current, unicode := from, 0;
    if end - current < 4 {
      return false, current, 0;
    }
    ghost var digits := text[from..end][..4];
    assert text[from..end][4..] == text[from + 4..end];
    var index := 0;
    while index < 4
      invariant 0 <= index <= 4 && current == from + index
      invariant forall j :: 0 <= j < index ==> DigitValue(digits[j]).Some?
      invariant unicode == (if index == 0 then 0
                            else if index == 1 then DigitValue(digits[0]).value
                            else if index == 2 then DigitValue(digits[0]).value * 16 + DigitValue(digits[1]).value
                            else if index == 3 then DigitValue(digits[0]).value * 256 + DigitValue(digits[1]).value * 16
                                                    + DigitValue(digits[2]).value
                            else DigitValue(digits[0]).value * 4096 + DigitValue(digits[1]).value * 256
                                 + DigitValue(digits[2]).value * 16 + DigitValue(digits[3]).value)
    {
      var c := text[current];
      assert c == digits[index];
      current := current + 1;
      unicode := unicode * 16;
      if 48 <= c <= 57 {
        unicode := unicode + (c as int - 48);
      } else if 97 <= c <= 102 {
        unicode := unicode + (c as int - 97 + 10);
      } else if 65 <= c <= 70 {
        unicode := unicode + (c as int - 65 + 10);
      } else {
        return false, current, 0;
      }
      index := index + 1;
    }
    ok := true;
  }

  /** decodeUnicodeCodePoint */
  method DecodeUnicodeCodePoint(text: bytes, from: nat, end: nat) returns (ok: bool, current: nat, unicode: nat)
    requires from <= end <= |text|
    ensures from <= current <= end
    ensures match CodePoint(text[from..end])
            case BadEscape => !ok
            case Escape(cp, rest) => ok && unicode == cp && rest == text[current..end]
  {
    hide UnicodeEscape;
    ok, current, unicode := DecodeUnicodeEscapeSequence(text, from, end);
    if !ok {
      return;
    }
    if 0xD800 <= unicode <= 0xDBFF {
      if end - current < 6 {
        return false, current, 0;
      }
      ghost var rest := text[current..end];
      DropOfSlice(text, current, end, 2);
      assert rest[0] == text[current] && rest[1] == text[current + 1];
      if text[current] == BACKSLASH && text[current + 1] == LETTER_U {
        var surrogatePair;
        ok, current, surrogatePair := DecodeUnicodeEscapeSequence(text, current + 2, end);
        unicode := 0x10000 + unicode % 0x400 * 0x400 + surrogatePair % 0x400;
      } else {
        return false, current, 0;
      }
    }
  }

  /** Reader::decodeString of a whole string token, quotes included. */
  method DecodeString(text: bytes) returns (ok: bool, decoded: bytes)
    requires |text| >= 2
    ensures match Decode(text[1..|text| - 1])
            case None => !ok
            case Some(s) => ok && decoded == s
  {
    hide CodePoint, CodePointToUtf8, EscapeLetter, Decode;
    var current, end := 1, |text| - 1;
    decoded := [];
    ghost var whole := Decode(text[1..end]);
    assert whole.Some? ==> [] + whole.value == whole.value;
    while current != end
      invariant 1 <= current <= end
      invariant whole == Prefixed(decoded, Decode(text[current..end]))
      decreases end - current
    {
      ghost var s, sofar := text[current..end], decoded;
      var c := text[current];
      DecodeStep(s);
      current := current + 1;
      assert s[0] == c && s[1..] == text[current..end];
      if c == QUOTE {
        break;
      } else if c == BACKSLASH {
        if current == end {
          return false, [];
        }
        var letter := text[current];
        current := current + 1;
        assert s[1] == letter && s[2..] == text[current..end];
        if letter == LETTER_U {
          var good, unicode;
          good, current, unicode := DecodeUnicodeCodePoint(text, current, end);
          if !good {
            return false, [];
          }
          decoded := decoded + CodePointToUtf8(unicode);
          PrefixedTwice(sofar, CodePointToUtf8(unicode), Decode(text[current..end]));
        } else if EscapeLetter(letter).None? {
          return false, [];
        } else {
          decoded := decoded + [EscapeLetter(letter).value];
          PrefixedTwice(sofar, [EscapeLetter(letter).value], Decode(text[current..end]));
        }
      } else {
        decoded := decoded + [c];
        PrefixedTwice(sofar, [c], Decode(text[current..end]));
      }
    }
    ok := true;
    DecodeEnd(text[end..end]);
    assert decoded + [] == decoded;
  }

  lemma DecodeEnd(s: bytes)
    requires s == [] || s[0] == QUOTE
    ensures Decode(s) == Some([])
  {
  }

  lemma PrefixedTwice(a: bytes, b: bytes, r: Option<bytes>)
    ensures Prefixed(a, Prefixed(b, r)) == Prefixed(a + b, r)
  {
    if r.Some? {
      ConcatAssoc(a, b, r.value);
    }
  }

  lemma DecodeStep(s: bytes)
    requires s != []
    ensures s[0] == QUOTE ==> Decode(s) == Some([])
    ensures s[0] != QUOTE && s[0] != BACKSLASH ==> Decode(s) == Prefixed([s[0]], Decode(s[1..]))
    ensures s[0] == BACKSLASH && |s| == 1 ==> Decode(s) == None
    ensures s[0] == BACKSLASH && |s| > 1 && s[1] == LETTER_U ==>
              var e := CodePoint(s[2..]);
              Decode(s) == if e.BadEscape? then None else Prefixed(CodePointToUtf8(e.codePoint), Decode(e.rest))
    ensures s[0] == BACKSLASH && |s| > 1 && s[1] != LETTER_U ==>
              Decode(s) == if EscapeLetter(s[1]).None? then None
                           else Prefixed([EscapeLetter(s[1]).value], Decode(s[2..]))
  {
    hide CodePoint, CodePointToUtf8, EscapeLetter;
  }
}
