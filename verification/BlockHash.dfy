/** Hashing by 64-byte blocks: what SHA-1 (section 4 of RFC 3174) and MD5 (sections 3.1 to 3.3 of
    RFC 1321) compute, with the block transform left open. */
module BlockHash {
  import opened Bytes
  import opened Endian

  const TWO_29: nat := 0x2000_0000

  type Word = w: int | 0 <= w < 0x1_0000_0000 witness 0

  type Block = b: bytes | |b| == 64 witness seq(64, _ => 0)

  /** The state after every whole block of `m`; bytes behind the last whole block do not matter. */
  function Fold<S>(f: (S, Block) -> S, s: S, m: bytes): S
    decreases |m|
  {
    if |m| < 64 then s else Fold(f, f(s, m[..64]), m[64..])
  }

  /** The bytes of `m` that do not fill a block. */
  function Partial(m: bytes): (r: bytes)
    ensures |r| == |m| % 64
  {
    m[|m| - |m| % 64..]
  }

  /** How many zero bytes follow the 0x80 so that eight more bytes end a block. */
  function PadZeros(n: nat): (k: nat)
    ensures k < 64 && (n + 1 + k) % 64 == 56
  {
    (119 - n % 64) % 64
  }

  /** The padded message, ending in the eight bytes that tell its length. */
  function Padded(m: bytes, lengthField: bytes): bytes {
    m + [0x80] + Zeros(PadZeros(|m|)) + lengthField
  }

  /** The padding of section 4 of RFC 3174 and sections 3.1 and 3.2 of RFC 1321: the message, one bit 1, the fewest
      zeros that let the eight bytes of the length end a block. */
  predicate IsPadded(m: bytes, lengthField: bytes, p: bytes) {
    && |p| % 64 == 0 && |m| + 9 <= |p| < |m| + 73
    && p[..|m|] == m && p[|m|] == 0x80 && p[|p| - 8..] == lengthField
    && forall i :: |m| < i < |p| - 8 ==> p[i] == 0
  }

  /** There is one such text. */
  lemma PaddedIs(m: bytes, lengthField: bytes, p: bytes)
    requires |lengthField| == 8
    ensures IsPadded(m, lengthField, p) <==> p == Padded(m, lengthField)
  {
    var n, k := |m|, PadZeros(|m|);
    var q := Padded(m, lengthField);
    assert q == m + ([0x80] + (Zeros(k) + lengthField));
    assert |q| == n + 9 + k && q[n + 1 + k..] == lengthField && q[n + 1..n + 1 + k] == Zeros(k);
    assert (n + 1 + k + 8) % 64 == 0;
    forall i | n < i < n + 1 + k
      ensures q[i] == 0
    {
      assert q[i] == q[n + 1..n + 1 + k][i - n - 1];
    }
    if IsPadded(m, lengthField, p) {
      SameLength(|p|, |q|, n + 9);
      assert p == p[..n] + [p[n]] + p[n + 1..n + 1 + k] + p[n + 1 + k..];
      assert p[n + 1..n + 1 + k] == Zeros(k);
    }
  }

  lemma SameLength(a: nat, b: nat, least: nat)
    requires a % 64 == 0 && b % 64 == 0 && least <= a < least + 64 && least <= b < least + 64
    ensures a == b
  {
  }

  // ---------- Folding ----------

  lemma {:induction false} FoldConcat<S>(f: (S, Block) -> S, s: S, a: bytes, b: bytes)
    requires |a| % 64 == 0
    ensures Fold(f, s, a + b) == Fold(f, Fold(f, s, a), b)
    decreases |a|
  {
    if a == [] {
      assert a + b == b;
    } else {
      assert |a| >= 64;
      ConcatCut(a, b, 64);
      FoldConcat(f, f(s, a[..64]), a[64..], b);
    }
  }

  lemma FoldOne<S>(f: (S, Block) -> S, s: S, b: Block)
    ensures Fold(f, s, b) == f(s, b)
  {
    assert b[..64] == b && b[64..] == [];
  }

  lemma FoldShort<S>(f: (S, Block) -> S, s: S, b: bytes)
    requires |b| < 64
    ensures Fold(f, s, b) == s
  {
  }

  lemma FoldWhole<S>(f: (S, Block) -> S, s: S, m: bytes)
    ensures Fold(f, s, m) == Fold(f, s, m[..|m| - |m| % 64])
    ensures m == m[..|m| - |m| % 64] + Partial(m)
  {
    hide Fold;
    var k := |m| - |m| % 64;
    WholeLength(|m|);
    Cut(m, k);
    FoldConcat(f, s, m[..k], Partial(m));
    FoldShort(f, Fold(f, s, m[..k]), Partial(m));
  }

  lemma WholeLength(n: nat)
    ensures 0 <= n - n % 64 && (n - n % 64) % 64 == 0
  {
  }

  /** A block completed by new data is one more application of the transform. */
  lemma FoldComplete<S>(f: (S, Block) -> S, s: S, m: bytes, d: bytes)
    requires |m| % 64 + |d| == 64
    ensures Fold(f, s, m + d) == f(Fold(f, s, m), Partial(m) + d)
    ensures (|m| + |d|) % 64 == 0
  {
    hide Fold;
    WholeLength(|m|);
    FoldWhole(f, s, m);
    var a := m[..|m| - |m| % 64];
    ConcatAssoc(a, Partial(m), d);
    FoldConcat(f, s, a, Partial(m) + d);
    FoldOne(f, Fold(f, s, a), Partial(m) + d);
  }

  lemma PartialExtended(m: bytes, d: bytes)
    requires |m| % 64 + |d| < 64
    ensures Partial(m + d) == Partial(m) + d
    ensures (|m| + |d|) % 64 == |m| % 64 + |d|
  {
    ConcatCut(m, d, |m| - |m| % 64);
  }

  lemma FoldExtended<S>(f: (S, Block) -> S, s: S, m: bytes, d: bytes)
    requires |m| % 64 + |d| < 64
    ensures Fold(f, s, m + d) == Fold(f, s, m)
  {
    hide Fold;
    PartialExtended(m, d);
    FoldWhole(f, s, m);
    FoldWhole(f, s, m + d);
    ConcatCut(m, d, |m| - |m| % 64);
  }

  lemma WholeBlock(m: bytes, d: bytes)
    requires |m| % 64 == 0
    ensures Partial(m) == [] && Partial(m) + d == d
  {
  }

  /** The memcpy of bytes that do not fill the block, behind the ones in it. */
  method KeepRest(block: array<byte>, j: nat, ghost m: bytes, rest: bytes)
    requires block.Length == 64 && j == |m| % 64 && j + |rest| < 64
    requires j > 0 ==> block[..j] == Partial(m)
    modifies block
    ensures block[..|m + rest| % 64] == Partial(m + rest)
  {
    PartialExtended(m, rest);
    CopyBytes(block, j, rest);
    CutTwice(block[..], j, j + |rest|);
  }

  // ---------- The bit count, kept in two 32-bit words ----------

  function LowBits(n: nat): Word { 8 * n % TWO_32 }

  function HighBits(n: nat): Word { n / TWO_29 % TWO_32 }

  lemma DivMod29(x: nat, q: nat, r: nat)
    requires x == TWO_29 * q + r && r < TWO_29
    ensures x / TWO_29 == q && x % TWO_29 == r
  {
  }

  lemma DivMod32(x: nat, q: nat, r: nat)
    requires x == TWO_32 * q + r && r < TWO_32
    ensures x / TWO_32 == q && x % TWO_32 == r
  {
  }

  lemma DivMod64(x: nat, q: nat, r: nat)
    requires x == TWO_64 * q + r && r < TWO_64
    ensures x / TWO_64 == q && x % TWO_64 == r
  {
  }

  lemma Parts29(n: nat) returns (q: nat, r: nat)
    ensures n == TWO_29 * q + r && r < TWO_29
    ensures LowBits(n) == 8 * r && HighBits(n) == q % TWO_32
  {
    q, r := n / TWO_29, n % TWO_29;
    DivMod32(8 * n, q, 8 * r);
  }

  /** The two words together count the bits modulo 2^64. */
  lemma BitsOfWords(n: nat)
    ensures LowBits(n) + TWO_32 * HighBits(n) == 8 * n % TWO_64
  {
    hide LowBits, HighBits;
    var q, r := Parts29(n);
    DivMod64(8 * n, q / TWO_32, 8 * r + TWO_32 * (q % TWO_32));
  }

  /** The update of the two words: low word first, carry found by comparing. */
  function AddLow(low: Word, len: Word): Word { (low + len * 8 % TWO_32) % TWO_32 }

  function AddHigh(low: Word, high: Word, len: Word): Word {
    (high + (if AddLow(low, len) < low then 1 else 0) + len / TWO_29) % TWO_32
  }

  lemma AddMod32(a: nat, b: nat)
    ensures (a % TWO_32 + b) % TWO_32 == (a + b) % TWO_32
  {
    var q, r := a / TWO_32, a % TWO_32;
    var q1, r1 := (r + b) / TWO_32, (r + b) % TWO_32;
    DivMod32(a + b, q + q1, r1);
  }

  lemma CountAdds(n: nat, len: Word)
    ensures AddLow(LowBits(n), len) == LowBits(n + len)
    ensures AddHigh(LowBits(n), HighBits(n), len) == HighBits(n + len)
  {
    hide LowBits, HighBits;
    var q, r := Parts29(n);
    var q1, r1 := len / TWO_29, len % TWO_29;
    DivMod32(len * 8, q1, 8 * r1);
    var q2, r2 := Parts29(n + len);
    var carry := if r + r1 < TWO_29 then 0 else 1;
    DivMod29(n + len, q + q1 + carry, r + r1 - TWO_29 * carry);
    DivMod29(n + len, q2, r2);
    DivMod32(8 * r + 8 * r1, carry, 8 * r2);
    AddMod32(q, carry + q1);
  }

  /** The fill of the buffer can be read off the low word. */
  lemma FillOfLow(n: nat)
    ensures LowBits(n) / 8 % 64 == n % 64
  {
    hide LowBits, HighBits;
    var q, r := Parts29(n);
    assert n == r + 64 * (0x80_0000 * q);
    AddMod64(r, 0x80_0000 * q);
  }

  lemma AddMod64(r: nat, k: nat)
    ensures (r + 64 * k) % 64 == r % 64
  {
  }
}
