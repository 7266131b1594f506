/** mongoose's incremental SHA-1 and HMAC-SHA1. The compression rounds are a parameter. */
module Sha1 {
  import opened Bits
  import opened Bytes
  import opened Endian
  import opened BlockHash

  type State = s: seq<Word> | |s| == 5 witness [0, 0, 0, 0, 0]

  /** cs_sha1_transform */
  type Transform = (State, Block) -> State

  const INITIAL: State := [0x67452301, 0xEFCDAB89, 0x98BADCFE, 0x10325476, 0xC3D2E1F0]

  /** The words of the state, most significant byte first. */
  function WordBytes(s: seq<Word>): (r: bytes)
    ensures |r| == 4 * |s|
  {
    if s == [] then [] else BigEndian(s[0], 4) + WordBytes(s[1..])
  }

  /** SHA-1 as RFC 3174 defines it: pad, fold the blocks, write the words out. The 64-bit length
      field holds the bit count modulo 2^64. */
  function Digest(f: Transform, m: bytes): (r: bytes)
    ensures |r| == 20
  {
    WordBytes(Fold(f, INITIAL, Padded(m, BigEndian(8 * |m| % TWO_64, 8))))
  }

  /** The digest of section 6.1 of RFC 3174: its five words are the five initial ones, folded over the padded
      message. */
  lemma DigestWords(f: Transform, m: bytes, initial: State, lengthField: bytes, p: bytes, k: nat)
    requires initial == [0x67452301, 0xEFCDAB89, 0x98BADCFE, 0x10325476, 0xC3D2E1F0]
    requires |lengthField| == 8 && FromBigEndian(lengthField) == 8 * |m| % 0x1_0000_0000_0000_0000
    requires IsPadded(m, lengthField, p) && k < 5
    ensures FromBigEndian(Digest(f, m)[4 * k..4 * k + 4]) == Fold(f, initial, p)[k]
  {
    hide Fold, Padded, WordBytes, IsPadded, BigEndian, FromBigEndian;
    BigEndianOfNumber(lengthField);
    PaddedIs(m, lengthField, p);
    WordOf(Fold(f, initial, p), k);
  }

  lemma {:induction false} WordOf(s: seq<Word>, k: nat)
    requires k < |s|
    ensures FromBigEndian(WordBytes(s)[4 * k..4 * k + 4]) == s[k]
  {
    hide BigEndian, FromBigEndian;
    var first, rest := BigEndian(s[0], 4), WordBytes(s[1..]);
    if k == 0 {
      assert (first + rest)[0..4] == first;
      PowersOf256();
      BigEndianRoundTrip(s[0], 4);
    } else {
      WordOf(s[1..], k - 1);
      assert (first + rest)[4 * k..4 * k + 4] == rest[4 * (k - 1)..4 * (k - 1) + 4];
    }
  }

  /** The eight bytes cs_sha1_final makes of the two words of the count. */
  lemma FinalCount(n: nat)
    ensures BigEndian(HighBits(n), 4) + BigEndian(LowBits(n), 4) == BigEndian(8 * n % TWO_64, 8)
  {
    BitsOfWords(n);
    assert Power256(4) == TWO_32;
    BigEndianSplit(HighBits(n), LowBits(n), 4, 4);
  }

  // ---------- Where the copies of cs_sha1_update end ----------

  /** The index behind the last whole block, in 32-bit arithmetic: `for (; i + 63 < len; i += 64)`. */
  function AfterBlocks(i: nat, j: nat, len: nat): (k: nat)
    requires j < 64 && j + len < TWO_32 && i <= len && (i + j) % 64 == 0
    ensures k <= len && len - k < 64
    decreases len - i
  {
    NoWrap(i, j, len);
    if (i + 63) % TWO_32 < len then AfterBlocks((i + 64) % TWO_32, j, len) else i
  }

  lemma NoWrap(i: nat, j: nat, len: nat)
    requires j < 64 && j + len < TWO_32 && i <= len && (i + j) % 64 == 0
    ensures (i + 63) % TWO_32 == i + 63
    ensures i + 63 < len ==> (i + 64) % TWO_32 == i + 64 && (i + 64 + j) % 64 == 0
  {
    assert i + j == 64 * ((i + j) / 64) && i + j <= 64 * 0x3FF_FFFF;
  }

  /** Where each memcpy into the 64-byte buffer ends, for a fill of `j` and a length of `len`. */
  function CopyEnds(j: nat, len: nat): seq<nat>
    requires j < 64 && len < TWO_32
  {
    if (j + len) % TWO_32 > 63 then [64, len - AfterBlocks(64 - j, j, len)] else [j + len]
  }

  predicate Inside(ends: seq<nat>) { forall k :: 0 <= k < |ends| ==> ends[k] <= 64 }

  /** No copy leaves the buffer exactly when fill and length add up without wrapping. */
  lemma CopiesInside(j: nat, len: nat)
    requires j < 64 && len < TWO_32
    ensures Inside(CopyEnds(j, len)) <==> j + len < TWO_32
  {
    if j + len >= TWO_32 {
      assert CopyEnds(j, len)[0] == j + len;
    }
  }

  /** A failing call: one byte in the buffer, and 2^32 - 1 more. */
  lemma CopyLeaves()
    ensures CopyEnds(1, TWO_32 - 1) == [TWO_32]
  {
  }

  class Context {
    const transform: Transform
    var state: State
    var count0: Word
    var count1: Word
    const buffer: array<byte>
    /** Everything hashed so far. */
    ghost var message: bytes

    ghost predicate Valid()
      reads this, buffer
    {
      && buffer.Length == 64
      && state == Fold(transform, INITIAL, message)
      && count0 == LowBits(|message|) && count1 == HighBits(|message|)
      && buffer[..|message| % 64] == Partial(message)
    }

    /** cs_sha1_init */
    constructor (transform: Transform)
      ensures Valid() && fresh(buffer) && this.transform == transform && message == []
    {
      this.transform := transform;
      state, count0, count1, message := INITIAL, 0, 0, [];
      buffer := new byte[64];
    }

    /** cs_sha1_update; its length is a 32-bit number. `ok` is false where a copy would leave the buffer. */
    method Update(data: bytes) returns (ok: bool)
      requires Valid() && |data| < TWO_32
      modifies this, buffer
      ensures ok <==> Inside(CopyEnds(|old(message)| % 64, |data|))
      ensures ok <==> |old(message)| % 64 + |data| < TWO_32
      ensures ok ==> Valid() && message == old(message) + data
    {
      hide Fold, LowBits, HighBits, AddLow, AddHigh, CopyEnds;
      var j := count0;
      CountAdds(|message|, |data|);
      FillOfLow(|message|);
      CopiesInside(|message| % 64, |data|);
      count1 := AddHigh(count0, count1, |data|);
      count0 := AddLow(count0, |data|);
      j := j / 8 % 64;
      ok := AddData(j, data);
    }

    /** The buffering: whole blocks are transformed, the rest is kept. Sums and indices are 32-bit. */
    method AddData(j0: nat, data: bytes) returns (ok: bool)
      requires buffer.Length == 64 && j0 == |message| % 64 && |data| < TWO_32
      requires state == Fold(transform, INITIAL, message) && buffer[..j0] == Partial(message)
      modifies `state, `message, buffer
      ensures ok <==> j0 + |data| < TWO_32
      ensures ok ==> message == old(message) + data
      ensures ok ==> state == Fold(transform, INITIAL, message)
      ensures ok ==> buffer[..|message| % 64] == Partial(message)
    {
      hide Fold, Partial;
      var i, j, len := 0, j0, |data|;
      if (j + len) % TWO_32 > 63 {
        i := AddWhole(j, data);
        j := 0;
      }
      if j + (len - i) > 64 {
        return false;
      }
      KeepRest(buffer, j, message, data[i..]);
      FoldExtended(transform, INITIAL, message, data[i..]);
      message := message + data[i..];
      Cut(data, i);
      ConcatAssoc(old(message), data[..i], data[i..]);
      if i == 0 {
        assert data[i..] == data;
      }
      return true;
    }

    /** The block in the buffer is completed, the whole blocks behind it follow. */
    method AddWhole(j: nat, data: bytes) returns (i: nat)
      requires buffer.Length == 64 && j == |message| % 64 && 64 <= j + |data| < TWO_32
      requires state == Fold(transform, INITIAL, message) && buffer[..j] == Partial(message)
      modifies `state, `message, buffer
      ensures 64 - j <= i <= |data| && |data| - i < 64 && |message| % 64 == 0
      ensures message == old(message) + data[..i]
      ensures state == Fold(transform, INITIAL, message)
    {
      hide Fold, Partial;
      i := 64 - j;
      CopyBytes(buffer, j, data[..i]);
      FoldComplete(transform, INITIAL, message, data[..i]);
      assert buffer[..] == Partial(message) + data[..i];
      state := transform(state, buffer[..]);
      message := message + data[..i];
      i := AddBlocks(i, j, data);
      CutTwice(data, 64 - j, i);
      ConcatAssoc(old(message), data[..64 - j], data[64 - j..i]);
    }

    /** `for (; i + 63 < len; i += 64)` in 32-bit arithmetic. */
    method AddBlocks(i0: nat, ghost j: nat, data: bytes) returns (i: nat)
      requires j < 64 && j + |data| < TWO_32 && i0 <= |data| && (i0 + j) % 64 == 0 && |message| % 64 == 0
      requires state == Fold(transform, INITIAL, message)
      modifies `state, `message
      ensures i0 <= i <= |data| && |data| - i < 64 && |message| % 64 == 0
      ensures message == old(message) + data[i0..i]
      ensures state == Fold(transform, INITIAL, message)
    {
      hide Fold, Partial;
      i := i0;
      NoWrap(i, j, |data|);
      while (i + 63) % TWO_32 < |data|
        invariant i0 <= i <= |data| && (i + j) % 64 == 0 && |message| % 64 == 0
        invariant message == old(message) + data[i0..i]
        invariant state == Fold(transform, INITIAL, message)
        invariant (i + 63) % TWO_32 == i + 63
        decreases |data| - i
      {
        NoWrap(i, j, |data|);
        WholeBlock(message, data[i..i + 64]);
        FoldComplete(transform, INITIAL, message, data[i..i + 64]);
        state := transform(state, data[i..i + 64]);
        CutMiddle(data, i0, i, i + 64);
        ConcatAssoc(old(message), data[i0..i], data[i..i + 64]);
        message := message + data[i..i + 64];
        i := (i + 64) % TWO_32;
        NoWrap(i, j, |data|);
      }
    }

    static lemma CutMiddle<T>(s: seq<T>, a: nat, b: nat, c: nat)
      requires a <= b <= c <= |s|
      ensures s[a..c] == s[a..b] + s[b..c]
    {
    }

    /** cs_sha1_final: pads byte by byte through Update, then writes the state out. */
    method Final() returns (digest: bytes)
      requires Valid()
      modifies this, buffer
      ensures digest == Digest(transform, old(message))
    {
      hide Fold, Partial, LowBits, HighBits, CopyEnds, Inside;
      ghost var m := message;
      var finalCount := BigEndian(count1, 4) + BigEndian(count0, 4);
      FinalCount(|m|);
      AppendPadding();
      var ok := Update(finalCount);
      digest := WordBytes(state);
    }

    /** The byte 0x80 and zeros until eight bytes are missing to a block. */
    method AppendPadding()
      requires Valid()
      modifies this, buffer
      ensures Valid() && |message| % 64 == 56
      ensures message == old(message) + [0x80] + Zeros(PadZeros(|old(message)|))
    {
      hide Fold, Partial, LowBits, HighBits, CopyEnds, Inside;
      ghost var m, z := message, 0;
      var ok := Update([0x80]);
      assert Zeros(0) == [] && m + [0x80] + [] == m + [0x80];
      FillOfLow(|message|);
      while count0 / 8 % 64 != 56
        invariant Valid() && z <= PadZeros(|m|)
        invariant message == m + [0x80] + Zeros(z)
        invariant count0 / 8 % 64 == |message| % 64
        decreases PadZeros(|m|) - z
      {
        ok := Update([0]);
        ConcatAssoc(m + [0x80], Zeros(z), [0]);
        assert Zeros(z) + [0] == Zeros(z + 1);
        z := z + 1;
        FillOfLow(|message|);
        PadReached(|m|, z);
      }
      PadReached(|m|, z);
    }

    static lemma PadReached(n: nat, z: nat)
      requires z <= PadZeros(n) + 1 && (z == 0 || (n + z) % 64 != 56)
      ensures z <= PadZeros(n)
      ensures (n + 1 + z) % 64 == 56 ==> z == PadZeros(n)
    {
    }
  }

  /** What cs_sha1_update sees of its data: the length is passed as a 32-bit number. */
  function Low32(x: bytes): (r: bytes)
    ensures |r| == |x| % TWO_32
    ensures |x| < TWO_32 ==> r == x
  {
    x[..|x| % TWO_32]
  }

  function Taken(pieces: seq<bytes>): seq<bytes> {
    seq(|pieces|, i requires 0 <= i < |pieces| => Low32(pieces[i]))
  }

  /** The piece's length and the fill the pieces before it leave add up without wrapping. */
  predicate Fits(pieces: seq<bytes>, i: nat)
    requires i < |pieces|
  {
    |Flatten(Taken(pieces)[..i])| % 64 + |pieces[i]| % TWO_32 < TWO_32
  }

  /** mg_hash_sha1_v: the messages one after the other through one context. */
  method HashPieces(f: Transform, pieces: seq<bytes>) returns (ok: bool, digest: bytes)
    ensures ok <==> forall i :: 0 <= i < |pieces| ==> Fits(pieces, i)
    ensures ok ==> digest == Digest(f, Flatten(Taken(pieces)))
    ensures (forall x <- pieces :: |x| + 63 < TWO_32) ==> ok
    ensures ok && (forall x <- pieces :: |x| < TWO_32) ==> digest == Digest(f, Flatten(pieces))
  {
    hide Fold, Digest, CopyEnds, Low32, Inside, Flatten;
    var ctx := new Context(f);
    ghost var taken := Taken(pieces);
    ShortPieces(pieces);
    assert taken[..0] == [];
    FlattenNone();
    ok, digest := true, [];
    var i := 0;
    while i < |pieces|
      invariant i <= |pieces| && fresh(ctx) && fresh(ctx.buffer) && ctx.transform == f
      invariant ctx.Valid() && ctx.message == Flatten(taken[..i])
      invariant ok && forall k :: 0 <= k < i ==> Fits(pieces, k)
    {
      var x := pieces[i];
      ok := ctx.Update(Low32(x));
      assert ok <==> Fits(pieces, i);
      if !ok {
        return;
      }
      TakenStep(taken, i);
      i := i + 1;
    }
    digest := ctx.Final();
    assert taken[..|pieces|] == taken;
  }

  lemma FlattenNone()
    ensures Flatten([]) == []
  {
  }

  lemma TakenStep(taken: seq<bytes>, i: nat)
    requires i < |taken|
    ensures Flatten(taken[..i + 1]) == Flatten(taken[..i]) + taken[i]
  {
    FlattenSnoc(taken[..i], taken[i]);
    assert taken[..i + 1] == taken[..i] + [taken[i]];
  }

  lemma ShortPieces(pieces: seq<bytes>)
    ensures (forall x <- pieces :: |x| < TWO_32) ==> Taken(pieces) == pieces
    ensures (forall x <- pieces :: |x| + 63 < TWO_32) ==> forall i :: 0 <= i < |pieces| ==> Fits(pieces, i)
  {
    hide Low32, Flatten;
    forall i | 0 <= i < |pieces|
      ensures |pieces[i]| < TWO_32 ==> Taken(pieces)[i] == pieces[i]
      ensures |pieces[i]| + 63 < TWO_32 ==> Fits(pieces, i)
    {
      assert pieces[i] in pieces;
    }
  }

  // ---------- HMAC ----------

  /** The key filled with zeros to a block, every byte combined with `v`. */
  function KeyBlock(key: bytes, v: byte): (r: Block)
    requires |key| <= 64
  {
    var k := key + Zeros(64 - |key|);
    seq(64, i requires 0 <= i < 64 => Xor(k[i], v))
  }

  /** The two nested hashes of section 2 of RFC 2104, for a key of at most a block. */
  function HmacShort(f: Transform, key: bytes, text: bytes): bytes
    requires |key| <= 64
  {
    Digest(f, KeyBlock(key, 0x5c) + Digest(f, KeyBlock(key, 0x36) + text))
  }

  /** HMAC-SHA1; a key longer than a block is hashed first. */
  function Hmac(f: Transform, key: bytes, text: bytes): bytes {
    HmacShort(f, if |key| > 64 then Digest(f, key) else key, text)
  }

  /** A key filled up with zeros to 64 bytes, each byte combined with `v`. */
  predicate IsKeyBlock(block: bytes, key: bytes, v: byte) {
    |block| == 64 && forall i :: 0 <= i < 64 ==> block[i] == Xor(if i < |key| then key[i] else 0, v)
  }

  /** HMAC as section 2 of RFC 2104 has it, with 36 and 5C in the inner and the outer block; a key of more than 64
      bytes stands for its digest. */
  lemma HmacNested(f: Transform, key: bytes, text: bytes, inner: bytes, outer: bytes)
    requires var k := if |key| <= 64 then key else Digest(f, key);
             IsKeyBlock(inner, k, 0x36) && IsKeyBlock(outer, k, 0x5C)
    ensures Hmac(f, key, text) == Digest(f, outer + Digest(f, inner + text))
  {
    hide Digest, Xor;
    var k := if |key| <= 64 then key else Digest(f, key);
    KeyBlockIs(inner, k, 0x36);
    KeyBlockIs(outer, k, 0x5C);
  }

  lemma KeyBlockIs(block: bytes, key: bytes, v: byte)
    requires |key| <= 64 && IsKeyBlock(block, key, v)
    ensures block == KeyBlock(key, v)
  {
    hide Xor;
    var k := key + Zeros(64 - |key|);
    forall i | 0 <= i < 64
      ensures block[i] == KeyBlock(key, v)[i]
    {
      assert k[i] == if i < |key| then key[i] else 0;
    }
  }

  method HashTwo(f: Transform, a: bytes, b: bytes) returns (digest: bytes)
    requires |a| == 64 && |b| < TWO_32
    ensures digest == Digest(f, a + b)
  {
    hide Fold, Digest, LowBits, HighBits, Partial, CopyEnds, Inside;
    var ctx := new Context(f);
    var ok := ctx.Update(a);
    assert [] + a == a;
    ok := ctx.Update(b);
    digest := ctx.Final();
  }

  /** cs_hmac_sha1. The lengths pass through the 32-bit parameter of cs_sha1_update: a key longer than
      a block, and the text, are cut to their length modulo 2^32. */
  method HmacSha1(f: Transform, key: bytes, data: bytes) returns (out: bytes)
    ensures out == HmacShort(f, if |key| > 64 then Digest(f, Low32(key)) else key,
                             Low32(data))
    ensures |key| < TWO_32 && |data| < TWO_32 ==> out == Hmac(f, key, data)
  {
    hide Digest, Xor, KeyBlock, Fold, LowBits, HighBits, Partial, Low32, CopyEnds, Inside;
    var k := key;
    if |key| > 64 {
      var ctx := new Context(f);
      var ok := ctx.Update(Low32(key));
      assert [] + Low32(key) == Low32(key);
      k := ctx.Final();
    }
    var buf1 := XoredKey(k, 0x36);
    var buf2 := XoredKey(k, 0x5c);
    out := HashTwo(f, buf1, Low32(data));
    out := HashTwo(f, buf2, out);
  }

  /** One of the two 64-byte key buffers of cs_hmac_sha1, xored in place. */
  method XoredKey(k: bytes, v: byte) returns (r: Block)
    requires |k| <= 64
    ensures r == KeyBlock(k, v)
  {
    hide Xor;
    var buf := new byte[64](_ => 0);
    CopyBytes(buf, 0, k);
    ghost var k0 := k + Zeros(64 - |k|);
    assert buf[..] == k0 by {
      assert forall i :: |k| <= i < 64 ==> buf[i] == buf[|k|..][i - |k|];
      Cut(buf[..], |k|);
    }
    var i := 0;
    while i < 64
      invariant i <= 64
      invariant forall j :: 0 <= j < i ==> buf[j] == Xor(k0[j], v)
      invariant forall j :: i <= j < 64 ==> buf[j] == k0[j]
    {
      buf[i] := Xor(buf[i], v);
      i := i + 1;
    }
    r := buf[..];
  }
}
