/** Unsigned numbers as bytes, most or least significant byte first. */
module Endian {
  import opened Bytes

  function BigEndian(n: nat, width: nat): (r: bytes)
    ensures |r| == width
  {
    if width == 0 then []
    else
      var low: byte := n % 256;
      BigEndian(n / 256, width - 1) + [low]
  }

  function FromBigEndian(s: bytes): nat {
    if s == [] then 0 else FromBigEndian(s[..|s| - 1]) * 256 + s[|s| - 1]
  }

  function Power256(width: nat): (r: nat)
    ensures r > 0
  {
    if width == 0 then 1 else 256 * Power256(width - 1)
  }

  lemma {:induction false} BigEndianRoundTrip(n: nat, width: nat)
    requires n < Power256(width)
    ensures FromBigEndian(BigEndian(n, width)) == n
  {
    if width > 0 {
      BigEndianRoundTrip(n / 256, width - 1);
      var low: byte := n % 256;
      assert BigEndian(n, width)[..width - 1] == BigEndian(n / 256, width - 1);
    }
  }

  lemma PowersOf256()
    ensures Power256(0) == 1 && Power256(1) == 256 && Power256(2) == 0x1_0000 && Power256(4) == 0x1_0000_0000
    ensures Power256(8) == 0x1_0000_0000_0000_0000
  {
    assert Power256(3) == 0x100_0000;
    assert Power256(5) == 0x100_0000_0000 && Power256(6) == 0x1_0000_0000_0000;
  }

  /** The number is the first byte times the power of 256 that the others leave, plus what they stand for. */
  lemma {:induction false} FromBigEndianHead(s: bytes)
    requires s != []
    ensures FromBigEndian(s) == s[0] * Power256(|s| - 1) + FromBigEndian(s[1..])
    decreases |s|
  {
    if |s| > 1 {
      var front := s[..|s| - 1];
      FromBigEndianHead(front);
      assert front[1..] == s[1..][..|s| - 2] && s[1..][|s| - 2] == s[|s| - 1];
      MulAssoc(s[0], Power256(|s| - 2));
    }
  }

  lemma TwoBytes(n: nat)
    requires n < 0x1_0000
    ensures BigEndian(n, 2)[0] == n / 256 && BigEndian(n, 2)[1] == n % 256
  {
    assert BigEndian(n / 256, 1) == BigEndian(n / 256 / 256, 0) + [n / 256 % 256];
  }

  /** Every run of bytes is the number it stands for, written in as many bytes. */
  lemma {:induction false} BigEndianOfNumber(s: bytes)
    ensures BigEndian(FromBigEndian(s), |s|) == s
    decreases |s|
  {
    if s != [] {
      BigEndianOfNumber(s[..|s| - 1]);
      assert s[..|s| - 1] + [s[|s| - 1]] == s;
    }
  }

  lemma {:induction false} LittleEndianOfNumber(s: bytes)
    ensures LittleEndian(FromLittleEndian(s), |s|) == s
    decreases |s|
  {
    if s != [] {
      LittleEndianOfNumber(s[1..]);
      var n, high := FromLittleEndian(s), FromLittleEndian(s[1..]);
      assert n == s[0] + 256 * high && n % 256 == s[0] && n / 256 == high;
      LowestByte(n, |s|);
      hide LittleEndian, FromLittleEndian;
      var r := LittleEndian(n, |s|);
      assert r == [r[0]] + r[1..] == [s[0]] + s[1..] == s;
    }
  }

  /** The last byte of a number that is written big-endian is its lowest, and the first byte little-endian. */
  lemma LowestByte(n: nat, width: nat)
    requires width > 0
    ensures BigEndian(n, width)[width - 1] == n % 256 && LittleEndian(n, width)[0] == n % 256
    ensures BigEndian(n, width)[..width - 1] == BigEndian(n / 256, width - 1)
    ensures LittleEndian(n, width)[1..] == LittleEndian(n / 256, width - 1)
  {
  }

  function LittleEndian(n: nat, width: nat): (r: bytes)
    ensures |r| == width
  {
    if width == 0 then []
    else
      var low: byte := n % 256;
      [low] + LittleEndian(n / 256, width - 1)
  }

  function FromLittleEndian(s: bytes): (n: nat)
    ensures n < Power256(|s|)
  {
    if s == [] then 0 else s[0] + 256 * FromLittleEndian(s[1..])
  }

  lemma {:induction false} LittleEndianRoundTrip(n: nat, width: nat)
    requires n < Power256(width)
    ensures FromLittleEndian(LittleEndian(n, width)) == n
  {
    if width > 0 {
      LittleEndianRoundTrip(n / 256, width - 1);
      assert LittleEndian(n, width)[1..] == LittleEndian(n / 256, width - 1);
    }
  }

  /** The high and the low part of a number, written one after the other. */
  lemma {:induction false} BigEndianSplit(hi: nat, lo: nat, w1: nat, w2: nat)
    requires lo < Power256(w2)
    ensures BigEndian(hi * Power256(w2) + lo, w1 + w2) == BigEndian(hi, w1) + BigEndian(lo, w2)
  {
    if w2 == 0 {
      assert hi * Power256(w2) + lo == hi;
      assert BigEndian(hi, w1) + [] == BigEndian(hi, w1);
    } else {
      var x := hi * Power256(w2 - 1);
      var n := 256 * x + lo;
      assert hi * Power256(w2) + lo == n by { MulAssoc(hi, Power256(w2 - 1)); }
      assert n / 256 == x + lo / 256 && n % 256 == lo % 256;
      BigEndianSplit(hi, lo / 256, w1, w2 - 1);
      var low: byte := lo % 256;
      ConcatAssoc(BigEndian(hi, w1), BigEndian(lo / 256, w2 - 1), [low]);
    }
  }

  lemma MulAssoc(a: nat, b: nat)
    ensures a * (256 * b) == 256 * (a * b)
  {
  }

  lemma {:induction false} LittleEndianSplit(hi: nat, lo: nat, w1: nat, w2: nat)
    requires lo < Power256(w2)
    ensures LittleEndian(hi * Power256(w2) + lo, w1 + w2) == LittleEndian(lo, w2) + LittleEndian(hi, w1)
  {
    if w2 == 0 {
      assert hi * Power256(w2) + lo == hi;
    } else {
      var x := hi * Power256(w2 - 1);
      var n := 256 * x + lo;
      assert hi * Power256(w2) + lo == n by { MulAssoc(hi, Power256(w2 - 1)); }
      assert n / 256 == x + lo / 256 && n % 256 == lo % 256;
      LittleEndianSplit(hi, lo / 256, w1, w2 - 1);
      var low: byte := lo % 256;
      ConcatAssoc([low], LittleEndian(lo / 256, w2 - 1), LittleEndian(hi, w1));
    }
  }

  /** Only the lowest bytes are written. */
  lemma {:induction false} LittleEndianLow(hi: nat, lo: nat, width: nat)
    ensures LittleEndian(hi * Power256(width) + lo, width) == LittleEndian(lo, width)
  {
    if width > 0 {
      var x := hi * Power256(width - 1);
      var n := 256 * x + lo;
      assert hi * Power256(width) + lo == n by { MulAssoc(hi, Power256(width - 1)); }
      assert n / 256 == x + lo / 256 && n % 256 == lo % 256;
      LittleEndianLow(hi, lo / 256, width - 1);
    }
  }
}
