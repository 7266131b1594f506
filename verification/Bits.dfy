/** Exclusive or of bytes, bit by bit. */
module Bits {
  import opened Bytes

  function Power2(n: nat): (r: nat)
    ensures r > 0
  {
    if n == 0 then 1 else 2 * Power2(n - 1)
  }

  /** Exclusive or of the `n` lowest bits. */
  function XorBits(a: nat, b: nat, n: nat): (r: nat)
    ensures r < Power2(n)
  {
    if n == 0 then 0 else (if a % 2 == b % 2 then 0 else 1) + 2 * XorBits(a / 2, b / 2, n - 1)
  }

  function Xor(a: byte, b: byte): byte {
    assert Power2(8) == 256;
    XorBits(a, b, 8)
  }

  /** What is left of `x` above its `k` lowest bits. */
  function Above(x: nat, k: nat): int { x / Power2(k) }

  /** Each bit of the result is the sum of the two bits, without carry. */
  lemma {:induction false} XorBitsAt(a: nat, b: nat, n: nat, k: nat)
    requires k < n
    ensures Above(XorBits(a, b, n), k) % 2 == (Above(a, k) + Above(b, k)) % 2
    decreases n
  {
    hide XorBits, Above;
    if k == 0 {
      XorBitsSplit(a, b, n);
      AboveNone(XorBits(a, b, n));
      AboveNone(a);
      AboveNone(b);
    } else {
      XorBitsAt(a / 2, b / 2, n - 1, k - 1);
      XorBitsHalf(a, b, n, k);
      HalfThen(a, k);
      HalfThen(b, k);
    }
  }

  lemma XorBitsHalf(a: nat, b: nat, n: nat, k: nat)
    requires n > 0 && k > 0
    ensures Above(XorBits(a, b, n), k) == Above(XorBits(a / 2, b / 2, n - 1), k - 1)
  {
    hide XorBits, Above;
    XorBitsSplit(a, b, n);
    HalfThen(XorBits(a, b, n), k);
  }

  lemma XorBitsSplit(a: nat, b: nat, n: nat)
    requires n > 0
    ensures XorBits(a, b, n) % 2 == (a + b) % 2
    ensures XorBits(a, b, n) / 2 == XorBits(a / 2, b / 2, n - 1)
  {
    Parity(a, b);
    var high := XorBits(a / 2, b / 2, n - 1);
    assert XorBits(a, b, n) == (a + b) % 2 + 2 * high;
  }

  lemma Parity(a: nat, b: nat)
    ensures (a + b) % 2 == if a % 2 == b % 2 then 0 else 1
  {
  }

  lemma AboveNone(x: nat)
    ensures Above(x, 0) == x
  {
  }

  /** Dividing by a power of two is halving first. */
  lemma HalfThen(x: nat, k: nat)
    requires k > 0
    ensures Above(x, k) == Above(x / 2, k - 1)
  {
    DivideTwice(x, Power2(k - 1));
  }

  lemma DivideTwice(x: nat, p: nat)
    requires p > 0
    ensures x / (2 * p) == x / 2 / p
  {
    var q, r := x / 2 / p, x / 2 % p;
    assert x / 2 == p * q + r;
    assert x == (2 * p) * q + (2 * r + x % 2);
    QuotientIs(x, 2 * p, q, 2 * r + x % 2);
  }

  lemma QuotientIs(x: nat, d: nat, q: nat, r: nat)
    requires d > 0 && x == d * q + r && r < d
    ensures x / d == q
  {
    var q', r' := x / d, x % d;
    assert d * q' + r' == d * q + r;
    Multiples(d, q - q');
    Multiples(d, q' - q);
    assert d * (q - q') == r' - r && d * (q' - q) == r - r' by {
      Distributes(d, q, q');
      Distributes(d, q', q);
    }
  }

  lemma Distributes(d: int, a: int, b: int)
    ensures d * (a - b) == d * a - d * b
  {
  }

  lemma Multiples(d: nat, k: int)
    ensures k >= 1 ==> d * k >= d
  {
  }

  lemma PowersOfTwo()
    ensures Power2(0) == 1 && Power2(1) == 2 && Power2(2) == 4 && Power2(3) == 8
    ensures Power2(4) == 16 && Power2(5) == 32 && Power2(6) == 64 && Power2(7) == 128
  {
  }

  /** Exclusive or, bit by bit. */
  lemma XorAt(a: byte, b: byte)
    ensures forall k: nat :: k < 8 ==> Xor(a, b) / Power2(k) % 2 == (a / Power2(k) + b / Power2(k)) % 2
  {
    hide XorBits;
    forall k: nat | k < 8
      ensures Xor(a, b) / Power2(k) % 2 == (a / Power2(k) + b / Power2(k)) % 2
    {
      XorBitsAt(a, b, 8, k);
    }
  }

  lemma {:induction false} XorBitsZero(a: nat, n: nat)
    requires a < Power2(n)
    ensures XorBits(a, 0, n) == a && XorBits(0, a, n) == a && XorBits(a, a, n) == 0
  {
    if n > 0 {
      XorBitsZero(a / 2, n - 1);
    }
  }

  lemma XorZero(a: byte)
    ensures Xor(a, 0) == a && Xor(0, a) == a && Xor(a, a) == 0
  {
    assert Power2(8) == 256;
    XorBitsZero(a, 8);
  }

  lemma {:induction false} XorBitsTwice(a: nat, b: nat, n: nat)
    requires a < Power2(n)
    ensures XorBits(XorBits(a, b, n), b, n) == a
  {
    if n > 0 {
      XorBitsTwice(a / 2, b / 2, n - 1);
      var low := if a % 2 == b % 2 then 0 else 1;
      assert XorBits(a, b, n) == low + 2 * XorBits(a / 2, b / 2, n - 1);
    }
  }

  lemma XorTwice(a: byte, b: byte)
    ensures Xor(Xor(a, b), b) == a
  {
    assert Power2(8) == 256;
    XorBitsTwice(a, b, 8);
  }
}
