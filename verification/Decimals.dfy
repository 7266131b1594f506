/** Decimal numbers as text. */
module Decimals {
  import opened Bytes

  const MINUS: byte := 45

  predicate IsDigit(c: byte) { 48 <= c <= 57 }

  predicate AllDigits(s: bytes) { forall i :: 0 <= i < |s| ==> IsDigit(s[i]) }

  function Digit(d: nat): (c: byte)
    requires d < 10
    ensures IsDigit(c) && c as int - 48 == d
  {
    48 + d
  }

  /** The shortest decimal text of `n`. */
  function Decimal(n: nat): (s: bytes)
    ensures s != [] && AllDigits(s)
  {
    if n < 10 then [Digit(n)] else Decimal(n / 10) + [Digit(n % 10)]
  }

  /** The number a string of digits stands for; leading zeros and the empty string are allowed. */
  function Number(s: bytes): nat
    requires AllDigits(s)
  {
    if s == [] then 0 else Number(s[..|s| - 1]) * 10 + (s[|s| - 1] as int - 48)
  }

  lemma {:induction false} NumberOfDecimal(n: nat)
    ensures Number(Decimal(n)) == n
  {
    if n < 10 {
      assert Number([Digit(n)]) == Number([]) * 10 + n;
    } else {
      NumberOfDecimal(n / 10);
      assert Decimal(n)[..|Decimal(n)| - 1] == Decimal(n / 10);
    }
  }

  /** Decimal positions: the first digit counts as many powers of ten as there are digits behind it. */
  lemma {:induction false} NumberHead(s: bytes)
    requires s != [] && AllDigits(s)
    ensures Number(s) == (s[0] - 48) * Power10(|s| - 1) + Number(s[1..])
    decreases |s|
  {
    if |s| > 1 {
      var front := s[..|s| - 1];
      NumberHead(front);
      assert front[1..] == s[1..][..|s| - 2] && s[1..][|s| - 2] == s[|s| - 1];
      TimesTen(s[0] - 48, Power10(|s| - 2));
    }
  }

  lemma TimesTen(a: nat, b: nat)
    ensures a * (10 * b) == a * b * 10
  {
  }

  lemma PowersOfTen()
    ensures Power10(0) == 1 && Power10(1) == 10 && Power10(2) == 100 && Power10(3) == 1000
    ensures forall k: nat :: Power10(k + 1) == 10 * Power10(k)
  {
  }

  /** No digit too many: only the number 0 begins with a zero. */
  lemma {:induction false} DecimalShortest(n: nat)
    ensures Decimal(n)[0] == 48 ==> n == 0
    ensures n == 0 ==> Decimal(n) == [48]
  {
    if n >= 10 {
      DecimalShortest(n / 10);
    }
  }

  lemma NumberStep(s: bytes, k: nat)
    requires k < |s| && AllDigits(s[..k + 1])
    ensures AllDigits(s[..k]) && Number(s[..k + 1]) == Number(s[..k]) * 10 + (s[k] as int - 48)
  {
    assert s[..k + 1][..k] == s[..k];
    forall i | 0 <= i < k
      ensures IsDigit(s[..k][i])
    {
      assert s[..k + 1][i] == s[..k][i];
    }
  }

  lemma {:induction false} NumberGrows(s: bytes, k: nat)
    requires AllDigits(s) && k <= |s|
    ensures Number(s[..k]) <= Number(s)
  {
    if k < |s| {
      NumberGrows(s[..|s| - 1], k);
      assert s[..|s| - 1][..k] == s[..k];
    } else {
      assert s[..k] == s;
    }
  }

  /** Different numbers have different texts. */
  lemma DecimalInjective(m: nat, n: nat)
    requires Decimal(m) == Decimal(n)
    ensures m == n
  {
    NumberOfDecimal(m);
    NumberOfDecimal(n);
  }

  /** The decimal text of an integer. */
  function IntText(n: int): bytes {
    if n < 0 then [MINUS] + Decimal(-n) else Decimal(n)
  }

  lemma IntTextInjective(m: int, n: int)
    requires IntText(m) == IntText(n)
    ensures m == n
  {
    var a: nat, b: nat := if m < 0 then -m else m, if n < 0 then -n else n;
    assert IntText(m)[0] == MINUS <==> m < 0;
    assert IntText(n)[0] == MINUS <==> n < 0;
    assert Decimal(a) == Decimal(b) by {
      if m < 0 {
        assert IntText(m)[1..] == Decimal(a) && IntText(n)[1..] == Decimal(b);
      }
    }
    DecimalInjective(a, b);
  }

  function Power10(k: nat): (r: nat)
    ensures r >= 1
  {
    if k == 0 then 1 else 10 * Power10(k - 1)
  }

  lemma {:induction false} DecimalLength(n: nat, k: nat)
    requires k >= 1 && n < Power10(k)
    ensures |Decimal(n)| <= k
  {
    assert Power10(1) == 10 * Power10(0);
    if n >= 10 && k > 1 {
      DecimalLength(n / 10, k - 1);
    }
  }

  lemma TwentyDigits()
    ensures Power10(20) == 100_000_000_000_000_000_000
  {
    assert Power10(4) == 10_000;
    assert Power10(8) == 100_000_000;
    assert Power10(12) == 1_000_000_000_000;
    assert Power10(16) == 10_000_000_000_000_000;
  }
}
