/** jsoncpp's integers: valueToString with its fixed buffer, and Reader::decodeNumber in 64-bit arithmetic. */
module JsonNumbers {
  import opened Bytes
  import opened Decimals

  const TWO_31: int := 0x8000_0000
  const TWO_63: int := 0x8000_0000_0000_0000

  /** LargestUInt: every operation on it is proved not to leave 64 bits. */
  newtype uint64 = x: int | 0 <= x < 0x1_0000_0000_0000_0000
  newtype int64 = x: int | -0x8000_0000_0000_0000 <= x < 0x8000_0000_0000_0000

  const MAX_INT64: uint64 := 0x7FFF_FFFF_FFFF_FFFF
  const MAX_UINT64: uint64 := 0xFFFF_FFFF_FFFF_FFFF
  const MIN_INT64: int64 := -0x8000_0000_0000_0000

  /** uintToStringBufferSize */
  const BUFFER_SIZE: nat := 25

  // ---------- valueToString ----------

  /** uintToString: digits written backwards from `end`, behind them a NUL. */
  method UintToString(value: uint64, buffer: array<byte>, end: nat) returns (current: nat)
    requires 21 <= end <= buffer.Length
    modifies buffer
    ensures end - 21 <= current < end
    ensures buffer[current..end - 1] == Decimal(value as int) && buffer[end - 1] == 0
  {
    hide Decimal, Left;
    DecimalSplits(value as int);
    current := end - 1;
    buffer[current] := 0;
    current := current - 1;
    buffer[current] := Digit((value % 10) as int);
    var rest := value / 10;
    ghost var written := [buffer[current]];
    while rest != 0
      invariant 0 <= current < end && buffer[end - 1] == 0
      invariant buffer[current..end - 1] == written
      invariant Left(rest as int) + written == Decimal(value as int)
      invariant |Left(rest as int)| + |written| <= 20
    {
      LeftSplits(rest as int);
      ConcatAssoc(Left(rest as int / 10), [Digit(rest as int % 10)], written);
      current := current - 1;
      buffer[current] := Digit((rest % 10) as int);
      assert buffer[current + 1..end - 1] == written;
      assert buffer[current..end - 1] == [buffer[current]] + buffer[current + 1..end - 1];
      written := [buffer[current]] + written;
      rest := rest / 10;
    }
    assert [] + written == written;
  }

  /** The digits still to be written. */
  function Left(n: nat): bytes { if n == 0 then [] else Decimal(n) }

  lemma LeftSplits(n: nat)
    requires n > 0
    ensures Left(n) == Left(n / 10) + [Digit(n % 10)]
  {
  }

  lemma DecimalSplits(n: nat)
    requires n < TWO_64
    ensures Decimal(n) == Left(n / 10) + [Digit(n % 10)] && |Decimal(n)| <= 20
    ensures Left(0) == []
  {
    TwentyDigits();
    DecimalLength(n, 20);
  }

  /** valueToString(LargestInt): the whole text fits the 25-byte buffer. */
  method ValueToString(value: int64) returns (s: bytes)
    ensures s == IntText(value as int)
  {
    var buffer := new byte[BUFFER_SIZE];
    var current := BUFFER_SIZE;
    if value == MIN_INT64 {
      current := UintToString(MAX_INT64 + 1, buffer, current);
      current := current - 1;
      buffer[current] := MINUS;
    } else if value < 0 {
      current := UintToString((-value) as uint64, buffer, current);
      current := current - 1;
      buffer[current] := MINUS;
    } else {
      current := UintToString(value as uint64, buffer, current);
    }
    s := buffer[current..BUFFER_SIZE - 1];
  }

  /** valueToString(LargestUInt) */
  method UnsignedToString(value: uint64) returns (s: bytes)
    ensures s == IntText(value as int)
  {
    var buffer := new byte[BUFFER_SIZE];
    var current := UintToString(value, buffer, BUFFER_SIZE);
    s := buffer[current..BUFFER_SIZE - 1];
  }

  // ---------- decodeNumber ----------

  /** What a number token becomes: an int, an unsigned int, or text left to decodeDouble. */
  datatype DecodedNumber = SignedInt(n: int) | UnsignedInt(n: int) | Double(text: bytes)

  predicate IsNegative(text: bytes) { text != [] && text[0] == MINUS }

  function Magnitude(text: bytes): bytes {
    if IsNegative(text) then text[1..] else text
  }

  predicate IsInteger(text: bytes) { AllDigits(Magnitude(text)) }

  /** The integer a token of an optional minus and digits stands for. */
  function IntegerOf(text: bytes): int
    requires IsInteger(text)
  {
    (if IsNegative(text) then -1 else 1) * Number(Magnitude(text))
  }

  /** Above the largest int the reader uses the unsigned tag. */
  function Tagged(n: int): DecodedNumber {
    if n < TWO_31 then SignedInt(n) else UnsignedInt(n)
  }

  /** The exact integer precisely when it lies in [-2^63, 2^64 - 1]. */
  function Decoded(text: bytes): DecodedNumber {
    if IsInteger(text) && -TWO_63 <= IntegerOf(text) < TWO_64 then Tagged(IntegerOf(text)) else Double(text)
  }

  /** Reader::decodeNumber */
  method DecodeNumber(text: bytes) returns (decoded: DecodedNumber)
    ensures decoded == Decoded(text)
  {
    var current: nat := 0;
    var isNegative := 0 < |text| && text[0] == MINUS;
    if isNegative {
      current := 1;
    }
    hide Number;
    ghost var start, digits := current, Magnitude(text);
    var maxIntegerValue := if isNegative then MAX_INT64 + 1 else MAX_UINT64;
    var threshold := maxIntegerValue / 10;
    var value: uint64 := 0;
    while current < |text|
      invariant start <= current <= |text|
      invariant AllDigits(digits[..current - start]) && value as int == Number(digits[..current - start])
      invariant value <= maxIntegerValue
    {
      var c := text[current];
      ghost var k := current - start;
      assert c == digits[k];
      current := current + 1;
      if c < 48 || c > 57 {
        return Double(text);
      }
      DigitsSoFar(digits, k);
      NumberStep(digits, k);
      var digit: uint64 := (c as int - 48) as uint64;
      if value >= threshold {
        if value > threshold || current != |text| || digit > maxIntegerValue % 10 {
          TooLarge(digits, k, maxIntegerValue as int);
          return Double(text);
        }
      }
      value := value * 10 + digit;
    }
    assert digits[..current - start] == digits;
    if isNegative && value == maxIntegerValue {
      decoded := SignedInt(MIN_INT64 as int);
    } else if isNegative {
      decoded := SignedInt(-(value as int));
    } else if value <= 0x7FFF_FFFF {
      decoded := SignedInt(value as int);
    } else {
      decoded := UnsignedInt(value as int);
    }
  }

  lemma DigitsSoFar(s: bytes, k: nat)
    requires k < |s| && AllDigits(s[..k]) && IsDigit(s[k])
    ensures AllDigits(s[..k + 1])
  {
  }

  /** Where the loop gives up, the number is above the maximum, or a character is not a digit. */
  lemma TooLarge(digits: bytes, k: nat, max: nat)
    requires k < |digits| && AllDigits(digits[..k + 1]) && AllDigits(digits[..k]) && max >= 10
    requires var value := Number(digits[..k]);
             && value >= max / 10
             && (value > max / 10 || k + 1 != |digits| || digits[k] as int - 48 > max % 10)
    ensures AllDigits(digits) ==> Number(digits) > max
  {
    hide Number;
    if AllDigits(digits) {
      NumberStep(digits, k);
      NumberGrows(digits, k + 1);
      if k + 1 < |digits| {
        PrefixDigits(digits, k + 2);
        NumberStep(digits, k + 1);
        NumberGrows(digits, k + 2);
      }
      assert digits[..|digits|] == digits;
    }
  }

  lemma PrefixDigits(s: bytes, k: nat)
    requires AllDigits(s) && k <= |s|
    ensures AllDigits(s[..k])
  {
  }

  /** decodeNumber inverts valueToString on every 64-bit integer, signed or not. */
  lemma DecodeInvertsText(n: int)
    requires -TWO_63 <= n < TWO_64
    ensures Decoded(IntText(n)) == Tagged(n)
  {
    var m: nat := if n < 0 then -n else n;
    NumberOfDecimal(m);
    assert Magnitude(IntText(n)) == Decimal(m) && IsNegative(IntText(n)) == (n < 0);
  }
}
