/** mongoose's incremental MD5. The compression rounds are a parameter. */
module Md5 {
  import opened Bytes
  import opened Endian
  import opened BlockHash

  type State = s: seq<Word> | |s| == 4 witness [0, 0, 0, 0]

  /** MD5Transform, the sixteen input words given as their 64 bytes. */
  type Transform = (State, Block) -> State

  const TWO_61: nat := 0x2000_0000_0000_0000

  const INITIAL: State := [0x67452301, 0xefcdab89, 0x98badcfe, 0x10325476]

  /** The words of the state, least significant byte first. */
  function WordBytes(s: seq<Word>): (r: bytes)
    ensures |r| == 4 * |s|
  {
    if s == [] then [] else LittleEndian(s[0], 4) + WordBytes(s[1..])
  }

  /** The message padded, its length field counting `counted` bytes, folded and written out. */
  function DigestCounting(f: Transform, m: bytes, counted: nat): (r: bytes)
    ensures |r| == 16
  {
    WordBytes(Fold(f, INITIAL, Padded(m, LittleEndian(8 * counted % TWO_64, 8))))
  }

  /** MD5 as RFC 1321 defines it. */
  function Digest(f: Transform, m: bytes): bytes {
    DigestCounting(f, m, |m|)
  }

  /** The digest of section 3 of RFC 1321: its four words, low-order byte first, are the four initial ones, folded over
      the padded message. */
  lemma DigestWords(f: Transform, m: bytes, initial: State, lengthField: bytes, p: bytes, k: nat)
    requires initial == [0x67452301, 0xEFCDAB89, 0x98BADCFE, 0x10325476]
    requires |lengthField| == 8 && FromLittleEndian(lengthField) == 8 * |m| % 0x1_0000_0000_0000_0000
    requires IsPadded(m, lengthField, p) && k < 4
    ensures FromLittleEndian(Digest(f, m)[4 * k..4 * k + 4]) == Fold(f, initial, p)[k]
  {
    hide Fold, Padded, WordBytes, IsPadded, LittleEndian, FromLittleEndian;
    LittleEndianOfNumber(lengthField);
    PaddedIs(m, lengthField, p);
    WordOf(Fold(f, initial, p), k);
  }

  lemma {:induction false} WordOf(s: seq<Word>, k: nat)
    requires k < |s|
    ensures FromLittleEndian(WordBytes(s)[4 * k..4 * k + 4]) == s[k]
  {
    hide LittleEndian, FromLittleEndian;
    var first, rest := LittleEndian(s[0], 4), WordBytes(s[1..]);
    if k == 0 {
      assert (first + rest)[0..4] == first;
      PowersOf256();
      LittleEndianRoundTrip(s[0], 4);
    } else {
      WordOf(s[1..], k - 1);
      assert (first + rest)[4 * k..4 * k + 4] == rest[4 * (k - 1)..4 * (k - 1) + 4];
    }
  }

  lemma FinalCount(n: nat)
    ensures LittleEndian(LowBits(n), 4) + LittleEndian(HighBits(n), 4) == LittleEndian(8 * n % TWO_64, 8)
  {
    BitsOfWords(n);
    assert Power256(4) == TWO_32;
    LittleEndianSplit(HighBits(n), LowBits(n), 4, 4);
  }

  /** The 32-bit length the count sees. */
  function Counted(pieces: seq<bytes>): nat {
    if pieces == [] then 0 else |pieces[0]| % TWO_32 + Counted(pieces[1..])
  }

  /** The count of an update of `len` bytes is right modulo 2^64 bits exactly when the bits above 31 of
      the length are too high to show. */
  lemma CountedRight(n: nat, len: nat)
    ensures 8 * (n + len % TWO_32) % TWO_64 == 8 * (n + len) % TWO_64 <==> len / TWO_32 % TWO_29 == 0
  {
    var q, r := len / TWO_32, len % TWO_32;
    var a, b := q / TWO_29, q % TWO_29;
    assert 8 * (n + len) == 8 * (n + r) + 8 * TWO_32 * b + TWO_64 * a;
    var c, d := 8 * (n + r) / TWO_64, 8 * (n + r) % TWO_64;
    var x := d + 8 * TWO_32 * b;
    if x < TWO_64 {
      DivMod64(8 * (n + len), a + c, x);
    } else {
      DivMod64(8 * (n + len), a + c + 1, x - TWO_64);
    }
  }

  class Context {
    const transform: Transform
    var state: State
    var bits0: Word
    var bits1: Word
    const block: array<byte>
    /** Everything hashed so far, and how many bytes of it the bit count has seen. */
    ghost var message: bytes
    ghost var counted: nat

    ghost predicate Valid()
      reads this, block
    {
      && block.Length == 64
      && state == Fold(transform, INITIAL, message)
      && bits0 == LowBits(counted) && bits1 == HighBits(counted)
      && counted % 64 == |message| % 64
      && block[..|message| % 64] == Partial(message)
    }

    /** MD5_Init */
    constructor (transform: Transform)
      ensures Valid() && fresh(block) && this.transform == transform && message == [] && counted == 0
    {
      this.transform := transform;
      state, bits0, bits1, message, counted := INITIAL, 0, 0, [], 0;
      block := new byte[64];
    }

    /** MD5_Update: the count takes the length modulo 2^32, the data all of it. */
    method Update(data: bytes)
      requires Valid()
      modifies this, block
      ensures Valid() && message == old(message) + data
      ensures counted == old(counted) + |data| % TWO_32
    {
      hide Fold, LowBits, HighBits, AddLow, AddHigh, Partial;
      var len32 := |data| % TWO_32;
      var t := bits0;
      CountAdds(counted, len32);
      FillOfLow(counted);
      bits1 := AddHigh(bits0, bits1, len32);
      bits0 := AddLow(bits0, len32);
      FillStays(counted, |message|, |data|);
      counted := counted + len32;
      t := t / 8 % 64;
      AddData(t, data);
    }

    static lemma FillStays(counted: nat, n: nat, len: nat)
      requires counted % 64 == n % 64
      ensures (counted + len % TWO_32) % 64 == (n + len) % 64
    {
      var q, r := len / TWO_32, len % TWO_32;
      assert n + len == (n + r) + 64 * (0x400_0000 * q);
      AddMod64(n + r, 0x400_0000 * q);
    }

    /** The buffering: a begun block is completed first, whole blocks follow, the rest is kept. */
    method AddData(fill: nat, data: bytes)
      requires block.Length == 64 && fill == |message| % 64
      requires state == Fold(transform, INITIAL, message) && block[..fill] == Partial(message)
      modifies `state, `message, block
      ensures message == old(message) + data
      ensures state == Fold(transform, INITIAL, message)
      ensures block[..|message| % 64] == Partial(message)
    {
      hide Fold, Partial;
      var i := 0;
      if fill > 0 {
        var t := 64 - fill;
        if |data| < t {
          KeepRest(block, fill, message, data);
          FoldExtended(transform, INITIAL, message, data);
          message := message + data;
          return;
        }
        CopyBytes(block, fill, data[..t]);
        FoldComplete(transform, INITIAL, message, data[..t]);
        assert block[..] == Partial(message) + data[..t];
        state := transform(state, block[..]);
        message := message + data[..t];
        i := t;
      }
      while |data| - i >= 64
        invariant i <= |data| && |message| % 64 == 0
        invariant message == old(message) + data[..i]
        invariant state == Fold(transform, INITIAL, message)
      {
        CopyBytes(block, 0, data[i..i + 64]);
        WholeBlock(message, data[i..i + 64]);
        FoldComplete(transform, INITIAL, message, data[i..i + 64]);
        assert block[..] == data[i..i + 64];
        state := transform(state, block[..]);
        CutTwice(data, i, i + 64);
        ConcatAssoc(old(message), data[..i], data[i..i + 64]);
        message := message + data[i..i + 64];
        i := i + 64;
      }
      KeepRest(block, 0, message, data[i..]);
      FoldExtended(transform, INITIAL, message, data[i..]);
      message := message + data[i..];
      Cut(data, i);
      ConcatAssoc(old(message), data[..i], data[i..]);
    }

    /** MD5_Final: the padding is laid out in the block itself, in a second one if it does not fit. */
    method Final() returns (digest: bytes)
      requires Valid()
      modifies this, block
      ensures digest == DigestCounting(transform, old(message), old(counted))
    {
      hide Fold, Partial, LowBits, HighBits;
      ghost var m := message;
      FillOfLow(counted);
      FinalCount(counted);
      var lengthField := LittleEndian(bits0, 4) + LittleEndian(bits1, 4);
      var fill := bits0 / 8 % 64;
      var count := 64 - 1 - fill;
      if count < 8 {
        PadFrom(block, fill, count);
        SecondBlock(m, lengthField);
        FoldComplete(transform, INITIAL, m, [0x80] + Zeros(count));
        assert block[..64] == block[..];
        state := transform(state, block[..]);
        ClearBlock(block, lengthField);
        WholeBlock(m + ([0x80] + Zeros(count)), Zeros(56) + lengthField);
        FoldComplete(transform, INITIAL, m + ([0x80] + Zeros(count)), Zeros(56) + lengthField);
      } else {
        PadFrom(block, fill, count - 8);
        PutLength(block, lengthField);
        OneBlock(m, lengthField);
        ConcatAssoc(Partial(m), [0x80] + Zeros(count - 8), lengthField);
        FoldComplete(transform, INITIAL, m, [0x80] + Zeros(count - 8) + lengthField);
      }
      state := transform(state, block[..]);
      digest := WordBytes(state);
    }

    /** The byte 0x80 at `fill`, then `n` zeros. */
    static method PadFrom(block: array<byte>, fill: nat, n: nat)
      requires fill + 1 + n <= block.Length == 64
      modifies block
      ensures block[..fill + 1 + n] == old(block[..fill]) + ([0x80] + Zeros(n))
    {
      block[fill] := 0x80;
      FillBytes(block, fill + 1, n, 0);
      assert block[fill] == block[..fill + 1][fill];
      assert block[..fill] == block[..fill + 1][..fill];
      assert block[fill + 1..fill + 1 + n] == Zeros(n);
      assert block[fill..fill + 1 + n] == [0x80] + Zeros(n);
      CutTwice(block[..], fill, fill + 1 + n);
    }

    /** The two length words at the end of the block. */
    static method PutLength(block: array<byte>, lengthField: bytes)
      requires block.Length == 64 && |lengthField| == 8
      modifies block
      ensures block[..] == old(block[..56]) + lengthField
    {
      CopyBytes(block, 56, lengthField);
      CutTwice(block[..], 56, 64);
      assert block[..64] == block[..];
    }

    static method ClearBlock(block: array<byte>, lengthField: bytes)
      requires block.Length == 64 && |lengthField| == 8
      modifies block
      ensures block[..] == Zeros(56) + lengthField
    {
      FillBytes(block, 0, 56, 0);
      assert block[..56] == Zeros(56);
      PutLength(block, lengthField);
    }

    static lemma OneBlock(m: bytes, lengthField: bytes)
      requires |m| % 64 < 56 && |lengthField| == 8
      ensures Padded(m, lengthField) == m + ([0x80] + Zeros(55 - |m| % 64) + lengthField)
    {
      assert PadZeros(|m|) == 55 - |m| % 64;
    }

    static lemma SecondBlock(m: bytes, lengthField: bytes)
      requires |m| % 64 >= 56 && |lengthField| == 8
      ensures var count := 63 - |m| % 64;
              Padded(m, lengthField) == (m + ([0x80] + Zeros(count))) + (Zeros(56) + lengthField)
    {
      var count := 63 - |m| % 64;
      assert PadZeros(|m|) == count + 56;
      assert Zeros(count) + Zeros(56) == Zeros(count + 56);
    }
  }

  lemma {:induction false} CountedAll(pieces: seq<bytes>)
    requires forall x <- pieces :: |x| < TWO_32
    ensures Counted(pieces) == |Flatten(pieces)|
  {
    if pieces != [] {
      assert pieces[0] in pieces && forall x <- pieces[1..] :: x in pieces;
      CountedAll(pieces[1..]);
    }
  }

  lemma ShiftedModulo(n: nat)
    ensures 8 * n % TWO_64 == 8 * (n % TWO_61)
  {
    DivMod64(8 * n, n / TWO_61, 8 * (n % TWO_61));
  }

  /** The length field of the digest is right exactly when the lengths, each taken modulo 2^32, add up to the length
      of the message modulo 2^61. */
  lemma LengthFieldRight(pieces: seq<bytes>)
    ensures LittleEndian(8 * Counted(pieces) % TWO_64, 8) == LittleEndian(8 * |Flatten(pieces)| % TWO_64, 8)
            <==> Counted(pieces) % TWO_61 == |Flatten(pieces)| % TWO_61
  {
    hide LittleEndian;
    var a, b := Counted(pieces), |Flatten(pieces)|;
    ShiftedModulo(a);
    ShiftedModulo(b);
    assert Power256(8) == TWO_64;
    LittleEndianRoundTrip(8 * a % TWO_64, 8);
    LittleEndianRoundTrip(8 * b % TWO_64, 8);
  }

  /** One piece of 2^32 bytes is counted as none. */
  lemma LongPieceUncounted(x: bytes)
    requires |x| == TWO_32
    ensures Counted([x]) == 0 && Counted([x]) % TWO_61 != |Flatten([x])| % TWO_61
  {
    FlattenOne(x);
    assert [x][1..] == [];
  }

  lemma {:induction false} CountedSnoc(pieces: seq<bytes>, x: bytes)
    ensures Counted(pieces + [x]) == Counted(pieces) + |x| % TWO_32
  {
    if pieces == [] {
      assert [x][1..] == [] && pieces + [x] == [x];
    } else {
      ConcatCut(pieces, [x], 1);
      CountedSnoc(pieces[1..], x);
    }
  }

  /** Init, one update per piece, final: the split does not matter to the data, and to the length field
      only through pieces of 2^32 bytes or more. */
  method HashPieces(f: Transform, pieces: seq<bytes>) returns (digest: bytes)
    ensures digest == DigestCounting(f, Flatten(pieces), Counted(pieces))
    ensures Counted(pieces) % TWO_61 == |Flatten(pieces)| % TWO_61 ==> digest == Digest(f, Flatten(pieces))
    ensures (forall x <- pieces :: |x| < TWO_32) ==> digest == Digest(f, Flatten(pieces))
  {
    hide Fold, Partial, LowBits, HighBits;
    LengthFieldRight(pieces);
    var ctx := new Context(f);
    var i := 0;
    while i < |pieces|
      invariant i <= |pieces| && fresh(ctx) && fresh(ctx.block) && ctx.transform == f && ctx.Valid()
      invariant ctx.message == Flatten(pieces[..i]) && ctx.counted == Counted(pieces[..i])
    {
      ctx.Update(pieces[i]);
      FlattenSnoc(pieces[..i], pieces[i]);
      CountedSnoc(pieces[..i], pieces[i]);
      assert pieces[..i + 1] == pieces[..i] + [pieces[i]];
      i := i + 1;
    }
    assert pieces[..|pieces|] == pieces;
    digest := ctx.Final();
    if forall x <- pieces :: |x| < TWO_32 {
      CountedAll(pieces);
    }
  }
}
