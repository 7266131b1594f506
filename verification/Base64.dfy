/** Base64 (section 4 of RFC 4648) as mongoose encodes it, in one shot or piece by piece, and decodes it. */
module Base64 {
  import opened Bytes

  const PAD: byte := 61 // '='

  type Sextet = v: int | 0 <= v < 64

  /** cs_base64_emit_code: the character of a six-bit value, by arithmetic. */
  function CodeChar(v: Sextet): byte {
    if v < 26 then v + 65
    else if v < 52 then v - 26 + 97
    else if v < 62 then v - 52 + 48
    else if v == 62 then 43 else 47
  }

  /** `n` consecutive characters. */
  function Run(first: byte, n: nat): (r: bytes)
    requires first + n <= 256
    ensures |r| == n && forall i :: 0 <= i < n ==> r[i] == first + i
  {
    seq(n, i requires 0 <= i < n => first + i)
  }

  /** The 64 characters of the one-shot encoder's string: A-Z, a-z, 0-9, '+' and '/'. */
  const TABLE: bytes := Run(65, 26) + Run(97, 26) + Run(48, 10) + [43, 47]

  lemma TableChar(v: Sextet)
    ensures |TABLE| == 64 && TABLE[v] == CodeChar(v)
  {
  }

  /** from_b64: the value of a character; 200 for '=', 255 for what is no base64 character. The table
      is looked up with the low seven bits. */
  function FromB64(ch: byte): byte {
    var c := ch % 128;
    if c == 43 then 62
    else if c == 47 then 63
    else if 48 <= c <= 57 then c - 48 + 52
    else if c == 61 then 200
    else if 65 <= c <= 90 then c - 65
    else if 97 <= c <= 122 then c - 97 + 26
    else 255
  }

  lemma FromCodeChar(v: Sextet)
    ensures FromB64(CodeChar(v)) == v
  {
  }

  // ---------- Encoding ----------

  /** The characters of one chunk of up to three bytes, without padding. */
  function Chars(c: bytes): (r: bytes)
    requires 1 <= |c| <= 3
    ensures |r| == |c| + 1
  {
    var a, b, d := c[0], if |c| > 1 then c[1] else 0, if |c| > 2 then c[2] else 0;
    [CodeChar(a / 4), CodeChar(a % 4 * 16 + b / 16)]
    + (if |c| > 1 then [CodeChar(b % 16 * 4 + d / 64)] else [])
    + (if |c| > 2 then [CodeChar(d % 64)] else [])
  }

  function Padding(n: nat): (r: bytes)
    ensures |r| == n
  {
    seq(n, _ => PAD)
  }

  /** Four characters for every three bytes, the last group padded with '='. */
  function Encode(s: bytes): (r: bytes)
    decreases |s|
  {
    if s == [] then []
    else if |s| <= 3 then Chars(s) + Padding(3 - |s|)
    else Chars(s[..3]) + Encode(s[3..])
  }

  lemma {:induction false} EncodeConcat(a: bytes, b: bytes)
    requires |a| % 3 == 0
    ensures Encode(a + b) == Encode(a) + Encode(b)
    decreases |a|
  {
    if a == [] {
      assert a + b == b;
    } else {
      assert |a| >= 3;
      ConcatCut(a, b, 3);
      EncodeGroup(a);
      EncodeGroup(a + b);
      EncodeConcat(a[3..], b);
      ConcatAssoc(Chars(a[..3]), Encode(a[3..]), Encode(b));
    }
  }

  /** A first whole group is encoded by itself. */
  lemma EncodeGroup(s: bytes)
    requires |s| >= 3
    ensures Encode(s) == Chars(s[..3]) + Encode(s[3..])
  {
    if |s| == 3 {
      assert s[..3] == s && s[3..] == [];
      assert Chars(s) + Padding(0) == Chars(s) == Chars(s) + [];
    }
  }

  lemma {:induction false} EncodeLength(s: bytes)
    ensures |Encode(s)| == (|s| + 2) / 3 * 4
    decreases |s|
  {
    if |s| > 3 {
      EncodeLength(s[3..]);
    }
  }

  // ---------- Decoding ----------

  /** What cs_base64_decode writes, and how many characters it consumes. */
  datatype Decoded = Decoded(out: bytes, used: nat)

  function Join1(a: byte, b: byte): byte { (a * 4 + b / 16) % 256 }
  function Join2(b: byte, c: byte): byte { (b * 16 % 256 + c / 4) % 256 }
  function Join3(c: byte, d: byte): byte { (c * 64 % 256 + d) % 256 }

  predicate IsGroup(s: bytes) {
    |s| >= 4 && FromB64(s[0]) != 255 && FromB64(s[1]) != 255 && FromB64(s[2]) != 255 && FromB64(s[3]) != 255
  }

  /** The bytes of one group; fewer than three when there is a '=' in it, which ends the decoding. */
  function GroupOut(a: byte, b: byte, c: byte, d: byte): bytes {
    if a == 200 || b == 200 then []
    else if c == 200 then [Join1(a, b)]
    else if d == 200 then [Join1(a, b), Join2(b, c)]
    else [Join1(a, b), Join2(b, c), Join3(c, d)]
  }

  function Decode(s: bytes): Decoded
    decreases |s|
  {
    if !IsGroup(s) then Decoded([], 0)
    else
      var out := GroupOut(FromB64(s[0]), FromB64(s[1]), FromB64(s[2]), FromB64(s[3]));
      if |out| < 3 then Decoded(out, 4)
      else
        var r := Decode(s[4..]);
        Decoded(out + r.out, 4 + r.used)
  }

  lemma JoinSplit(a: byte, b: byte, c: byte)
    ensures Join1(a / 4, a % 4 * 16 + b / 16) == a
    ensures Join2(a % 4 * 16 + b / 16, b % 16 * 4 + c / 64) == b
    ensures Join3(b % 16 * 4 + c / 64, c % 64) == c
  {
    assert (a % 4 * 16 + b / 16) / 16 == a % 4;
    assert (a % 4 * 16 + b / 16) * 16 == 256 * (a % 4) + b / 16 * 16;
    assert (a % 4 * 16 + b / 16) * 16 % 256 == b / 16 * 16;
    assert (b % 16 * 4 + c / 64) / 4 == b % 16;
    assert (b % 16 * 4 + c / 64) * 64 == 256 * (b % 16) + c / 64 * 64;
    assert (b % 16 * 4 + c / 64) * 64 % 256 == c / 64 * 64;
  }

  /** The first four characters of an encoding, and the values read back from them. */
  lemma EncodeFront(s: bytes)
    requires s != []
    ensures var a, b, c := s[0], if |s| > 1 then s[1] else 0, if |s| > 2 then s[2] else 0;
            var e := Encode(s);
            && |e| >= 4
            && FromB64(e[0]) == a / 4
            && FromB64(e[1]) == a % 4 * 16 + b / 16
            && FromB64(e[2]) == (if |s| > 1 then b % 16 * 4 + c / 64 else 200)
            && FromB64(e[3]) == (if |s| > 2 then c % 64 else 200)
            && (if |s| >= 3 then e[4..] == Encode(s[3..]) else |e| == 4)
  {
    hide FromB64, CodeChar;
    var a, b, c := s[0], if |s| > 1 then s[1] else 0, if |s| > 2 then s[2] else 0;
    FromCodeChar(a / 4);
    FromCodeChar(a % 4 * 16 + b / 16);
    FromCodeChar(b % 16 * 4 + c / 64);
    FromCodeChar(c % 64);
    PadValue();
    if |s| >= 3 {
      EncodeGroup(s);
      ConcatCut(Chars(s[..3]), Encode(s[3..]), 4);
    }
  }

  lemma PadValue()
    ensures FromB64(PAD) == 200
  {
  }

  /** Decoding an encoding gives the bytes back and consumes every character. */
  lemma {:induction false} DecodeEncode(s: bytes)
    ensures Decode(Encode(s)) == Decoded(s, |Encode(s)|)
    decreases |s|
  {
    hide FromB64, Join1, Join2, Join3, Encode;
    if s == [] {
      EncodeNone(s);
    } else {
      var a, b, c := s[0], if |s| > 1 then s[1] else 0, if |s| > 2 then s[2] else 0;
      JoinSplit(a, b, c);
      EncodeFront(s);
      if |s| >= 3 {
        DecodeEncode(s[3..]);
        assert s == [a, b, c] + s[3..];
      }
    }
  }

  lemma EncodeNone(s: bytes)
    requires s == []
    ensures Encode(s) == []
  {
  }

  // ---------- The format, by its characters and numbers ----------

  /** Table 1 of RFC 4648: from A to Z, from a to z, from 0 to 9, plus and slash. */
  lemma Alphabet()
    ensures |TABLE| == 64
    ensures TABLE[0] == 'A' as int && TABLE[25] == 'Z' as int && TABLE[26] == 'a' as int && TABLE[51] == 'z' as int
    ensures TABLE[52] == '0' as int && TABLE[61] == '9' as int && TABLE[62] == '+' as int && TABLE[63] == '/' as int
    ensures forall v :: 0 <= v < 61 && v != 25 && v != 51 ==> TABLE[v + 1] == TABLE[v] + 1
  {
  }

  /** A byte of a group, or 0 for one that is missing. */
  function OrZero(s: bytes, i: nat): nat { if i < |s| then s[i] else 0 }

  /** Three bytes are one number of 24 bits, written as four digits of base 64; for a byte that is missing there is an
      equals sign. */
  lemma GroupWritten(s: bytes, n: nat)
    requires 1 <= |s| <= 3 && n == (OrZero(s, 0) * 256 + OrZero(s, 1)) * 256 + OrZero(s, 2)
    ensures var e := Encode(s);
            && |e| == 4 && |TABLE| == 64 && n / 64 / 64 / 64 < 64
            && e[0] == TABLE[n / 64 / 64 / 64] && e[1] == TABLE[n / 64 / 64 % 64]
            && e[2] == (if |s| > 1 then TABLE[n / 64 % 64] else '=' as int)
            && e[3] == (if |s| > 2 then TABLE[n % 64] else '=' as int)
  {
    hide CodeChar, Encode;
    var a, b, c := OrZero(s, 0), OrZero(s, 1), OrZero(s, 2);
    OneGroup(s);
    SplitInFour(a, b, c, n);
    TableChar(a / 4);
    TableChar(a % 4 * 16 + b / 16);
    TableChar(b % 16 * 4 + c / 64);
    TableChar(c % 64);
  }

  lemma OneGroup(s: bytes)
    requires 1 <= |s| <= 3
    ensures Encode(s) == Chars(s) + Padding(3 - |s|)
  {
    hide Chars;
  }

  lemma SplitInFour(a: nat, b: nat, c: nat, n: nat)
    requires a < 256 && b < 256 && c < 256 && n == (a * 256 + b) * 256 + c
    ensures n / 64 / 64 / 64 == a / 4 && n / 64 / 64 % 64 == a % 4 * 16 + b / 16
    ensures n / 64 % 64 == b % 16 * 4 + c / 64 && n % 64 == c % 64
  {
    var high := (a * 256 + b) * 4 + c / 64;
    Digit64(n, high, c % 64);
    Digit64(high, a * 16 + b / 16, b % 16 * 4 + c / 64);
    Digit64(a * 16 + b / 16, a / 4, a % 4 * 16 + b / 16);
  }

  lemma Digit64(n: nat, high: nat, low: nat)
    requires n == 64 * high + low && low < 64
    ensures n / 64 == high && n % 64 == low
  {
  }

  /** A character of the alphabet or an equals sign. */
  predicate IsCharacter(c: byte) { c in TABLE || c == '=' as int }

  lemma FromB64Of(c: byte)
    requires c < 128
    ensures FromB64(c) != 255 <==> IsCharacter(c)
  {
    Alphabet();
    if FromB64(c) < 64 {
      assert TABLE[FromB64(c)] == c;
    }
  }

  /** Fewer than four characters, or one among the first four that is none of the format. */
  predicate NoGroup(t: bytes) { |t| < 4 || exists i :: 0 <= i < 4 && t[i] < 128 && !IsCharacter(t[i]) }

  lemma NothingDecoded(t: bytes)
    requires NoGroup(t)
    ensures Decode(t) == Decoded([], 0)
  {
    hide FromB64, IsCharacter, GroupOut;
    if |t| >= 4 {
      var i :| 0 <= i < 4 && t[i] < 128 && !IsCharacter(t[i]);
      FromB64Of(t[i]);
    }
  }

  /** Behind whole groups decoding stops there, and what was read so far is kept. */
  lemma {:induction false} DecodeStops(s: bytes, t: bytes)
    requires |s| % 3 == 0 && NoGroup(t)
    ensures Decode(Encode(s) + t) == Decoded(s, |Encode(s)|)
    decreases |s|
  {
    hide FromB64, Join1, Join2, Join3, Encode, NoGroup, Decode;
    if s == [] {
      EncodeNone(s);
      assert [] + t == t;
      NothingDecoded(t);
    } else {
      DecodeStops(s[3..], t);
      EncodeFront(s);
      FirstGroup(s, t);
      assert s == s[..3] + s[3..];
    }
  }

  lemma FirstGroup(s: bytes, t: bytes)
    requires |s| >= 3
    ensures var r := Decode(Encode(s[3..]) + t); Decode(Encode(s) + t) == Decoded(s[..3] + r.out, 4 + r.used)
  {
    hide FromB64, Join1, Join2, Join3, Encode;
    JoinSplit(s[0], s[1], s[2]);
    EncodeFront(s);
    ConcatCut(Encode(s), t, 4);
    assert s[..3] == [s[0], s[1], s[2]];
  }

  /** The high bit of a character is not looked at. */
  lemma {:induction false} HighBit(s: bytes, t: bytes)
    requires |s| == |t| && forall i :: 0 <= i < |s| ==> s[i] % 128 == t[i] % 128
    ensures Decode(s) == Decode(t)
    decreases |s|
  {
    hide GroupOut;
    if |s| >= 4 {
      forall i | 0 <= i < |s[4..]|
        ensures s[4..][i] % 128 == t[4..][i] % 128
      {
        assert s[4..][i] == s[i + 4] && t[4..][i] == t[i + 4];
      }
      HighBit(s[4..], t[4..]);
      assert FromB64(s[0]) == FromB64(t[0]) && FromB64(s[1]) == FromB64(t[1])
          && FromB64(s[2]) == FromB64(t[2]) && FromB64(s[3]) == FromB64(t[3]);
    }
  }

  // ---------- The one-shot encoder ----------

  /** Characters without padding: what the loop of the one-shot encoder has written. */
  function Unpadded(s: bytes): (r: bytes)
    decreases |s|
  {
    if s == [] then [] else if |s| <= 3 then Chars(s) else Chars(s[..3]) + Unpadded(s[3..])
  }

  lemma {:induction false} EncodeIsPadded(s: bytes)
    ensures Encode(s) == Unpadded(s) + Padding((3 - |s| % 3) % 3)
    ensures |Unpadded(s)| == |s| / 3 * 4 + (if |s| % 3 == 0 then 0 else |s| % 3 + 1)
    decreases |s|
  {
    hide Chars;
    if |s| > 3 {
      EncodeIsPadded(s[3..]);
      assert |s[3..]| / 3 == |s| / 3 - 1 && |s[3..]| % 3 == |s| % 3;
      ConcatAssoc(Chars(s[..3]), Unpadded(s[3..]), Padding((3 - |s| % 3) % 3));
    } else {
      assert Unpadded(s) + [] == Unpadded(s);
    }
  }

  lemma UnpaddedStep(s: bytes, i: nat)
    requires i < |s| && i % 3 == 0
    ensures var c := s[i..if i + 3 <= |s| then i + 3 else |s|];
            Unpadded(s[..i]) + Chars(c) == Unpadded(s[..i + |c|])
  {
    var n := if i + 3 <= |s| then 3 else |s| - i;
    var c := s[i..i + n];
    CutTwice(s, i, i + n);
    UnpaddedConcat(s[..i], c);
  }

  lemma {:induction false} UnpaddedConcat(a: bytes, c: bytes)
    requires |a| % 3 == 0 && 1 <= |c| <= 3
    ensures Unpadded(a + c) == Unpadded(a) + Chars(c)
    decreases |a|
  {
    if a == [] {
      assert a + c == c;
    } else {
      assert |a| >= 3;
      ConcatCut(a, c, 3);
      UnpaddedConcat(a[3..], c);
      ConcatAssoc(Chars(a[..3]), Unpadded(a[3..]), Chars(c));
      if |a| == 3 {
        assert a[..3] == a && a[3..] == [];
      }
    }
  }

  /** cs_base64_encode into a buffer the caller made large enough for text and NUL. */
  method EncodeInto(src: bytes, dst: array<byte>) returns (j: nat)
    requires dst.Length > (|src| + 2) / 3 * 4
    modifies dst
    ensures j == |Encode(src)| + 1 <= dst.Length && dst[..j] == Encode(src) + [0]
  {
    hide Encode, Chars, Unpadded, CodeChar;
    EncodeLength(src);
    EncodeIsPadded(src);
    j := WriteChunks(src, dst);
    j := WritePadding(dst, j, src);
    dst[j] := 0;
    assert dst[..j + 1] == dst[..j] + [0];
    j := j + 1;
  }

  /** The loop of the one-shot encoder. */
  method WriteChunks(src: bytes, dst: array<byte>) returns (j: nat)
    requires dst.Length > (|src| + 2) / 3 * 4
    modifies dst
    ensures j == |Unpadded(src)| <= dst.Length && dst[..j] == Unpadded(src)
  {
    hide Encode, Chars, Unpadded, CodeChar;
    var i := 0;
    j := 0;
    UnpaddedNone(src[..0]);
    while i < |src|
      invariant i % 3 == 0 || i >= |src|
      invariant j <= dst.Length
      invariant dst[..j] == Unpadded(src[..if i <= |src| then i else |src|])
    {
      UnpaddedLength(src, i);
      UnpaddedStep(src, i);
      j := WriteChunk(src, i, dst, j);
      i := i + 3;
    }
    assert src[..|src|] == src;
  }

  lemma UnpaddedLength(src: bytes, i: nat)
    requires i < |src| && i % 3 == 0
    ensures |Unpadded(src[..i])| + 4 <= (|src| + 2) / 3 * 4
  {
    hide Unpadded, Encode;
    EncodeIsPadded(src[..i]);
  }

  lemma UnpaddedNone(s: bytes)
    requires s == []
    ensures Unpadded(s) == []
  {
  }

  /** The body of the loop: two to four characters looked up in the table. */
  method WriteChunk(src: bytes, i: nat, dst: array<byte>, j0: nat) returns (j: nat)
    requires i < |src| && j0 + 4 < dst.Length
    modifies dst
    ensures var c := src[i..if i + 3 <= |src| then i + 3 else |src|];
            j == j0 + |c| + 1 && dst[..j] == old(dst[..j0]) + Chars(c)
  {
    hide CodeChar;
    var a: byte := src[i];
    var b: byte := if i + 1 >= |src| then 0 else src[i + 1];
    var c: byte := if i + 2 >= |src| then 0 else src[i + 2];
    TableChar(a / 4);
    TableChar(a % 4 * 16 + b / 16);
    TableChar(b % 16 * 4 + c / 64);
    TableChar(c % 64);
    dst[j0] := TABLE[a / 4];
    dst[j0 + 1] := TABLE[a % 4 * 16 + b / 16];
    j := j0 + 2;
    if i + 1 < |src| {
      dst[j] := TABLE[b % 16 * 4 + c / 64];
      j := j + 1;
    }
    if i + 2 < |src| {
      dst[j] := TABLE[c % 64];
      j := j + 1;
    }
    assert dst[..j0] == old(dst[..j0]);
  }

  /** `while (j % 4 != 0)` */
  method WritePadding(dst: array<byte>, j0: nat, ghost src: bytes) returns (j: nat)
    requires dst.Length > (|src| + 2) / 3 * 4
    requires j0 == |Unpadded(src)| <= dst.Length && dst[..j0] == Unpadded(src)
    modifies dst
    ensures j == |Encode(src)| < dst.Length && dst[..j] == Encode(src)
  {
    hide Encode, Unpadded;
    EncodeIsPadded(src);
    ghost var n := (3 - |src| % 3) % 3;
    j := j0;
    assert Unpadded(src) + Padding(0) == Unpadded(src);
    ghost var u := Unpadded(src);
    assert (j0 + n) % 4 == 0 && j0 + n < dst.Length by { EncodeLength(src); }
    while j % 4 != 0
      invariant j0 <= j <= j0 + n
      invariant dst[..j] == u + Padding(j - j0)
      decreases j0 + n - j
    {
      dst[j] := PAD;
      assert dst[..j + 1] == dst[..j] + [PAD];
      ConcatAssoc(u, Padding(j - j0), [PAD]);
      assert Padding(j - j0) + [PAD] == Padding(j - j0 + 1);
      j := j + 1;
    }
  }

  // ---------- The streaming encoder ----------

  /** struct cs_base64_ctx, its `b64_putc` appending to `text`. */
  class Stream {
    const chunk: array<byte>
    var chunkSize: nat
    var text: bytes
    /** Everything encoded so far. */
    ghost var message: bytes

    ghost predicate Valid()
      reads this, chunk
    {
      && chunk.Length == 3 && chunkSize == |message| % 3
      && chunk[..chunkSize] == message[|message| - chunkSize..]
      && text == Encode(message[..|message| - chunkSize])
    }

    /** cs_base64_init */
    constructor ()
      ensures Valid() && fresh(chunk) && message == []
    {
      chunk := new byte[3];
      chunkSize, text, message := 0, [], [];
    }

    /** cs_base64_emit_chunk: the characters of the chunk's first `chunkSize` bytes, the rest being zero. */
    method EmitChunk()
      requires chunk.Length == 3 && 1 <= chunkSize <= 3
      requires forall i :: chunkSize <= i < 3 ==> chunk[i] == 0
      modifies `text
      ensures text == old(text) + Chars(chunk[..chunkSize])
    {
      hide CodeChar;
      var a, b, c := chunk[0], chunk[1], chunk[2];
      ghost var was := text;
      text := text + [CodeChar(a / 4)];
      text := text + [CodeChar(a % 4 * 16 + b / 16)];
      if chunkSize > 1 {
        text := text + [CodeChar(b % 16 * 4 + c / 64)];
      }
      if chunkSize > 2 {
        text := text + [CodeChar(c % 64)];
      }
      assert text[..|was|] == was;
      assert text[|was|..] == Chars(chunk[..chunkSize]);
    }

    /** One byte of cs_base64_update. */
    method PutByte(x: byte)
      requires Valid()
      modifies this, chunk
      ensures Valid() && message == old(message) + [x]
    {
      hide Encode;
      ghost var m := message;
      ghost var whole := m[..|m| - chunkSize];
      Cut(m, |whole|);
      chunk[chunkSize] := x;
      chunkSize := chunkSize + 1;
      message := message + [x];
      assert chunk[..chunkSize] == chunk[..chunkSize - 1] + [x];
      ConcatAssoc(whole, m[|whole|..], [x]);
      assert message == whole + chunk[..chunkSize];
      if chunkSize == 3 {
        Flush(whole);
      }
    }

    /** A full chunk is written and the chunk emptied. */
    method Flush(ghost whole: bytes)
      requires chunk.Length == 3 && chunkSize == 3 && |whole| % 3 == 0
      requires message == whole + chunk[..3] && text == Encode(whole)
      modifies `text, `chunkSize
      ensures Valid()
    {
      hide Encode, Chars;
      EmitChunk();
      EncodeConcat(whole, chunk[..3]);
      EncodeChunk(chunk[..3]);
      assert Chars(chunk[..3]) + Padding(0) == Chars(chunk[..3]);
      chunkSize := 0;
      assert message[..|message|] == message;
    }

    static lemma EncodeChunk(c: bytes)
      requires 1 <= |c| <= 3
      ensures Encode(c) == Chars(c) + Padding(3 - |c|)
    {
    }

    /** cs_base64_update */
    method Update(data: bytes)
      requires Valid()
      modifies this, chunk
      ensures Valid() && message == old(message) + data
    {
      hide Encode;
      var i := 0;
      assert data[..0] == [] && message + [] == message;
      while i < |data|
        invariant i <= |data| && Valid() && message == old(message) + data[..i]
      {
        PutByte(data[i]);
        assert data[..i + 1] == data[..i] + [data[i]];
        ConcatAssoc(old(message), data[..i], [data[i]]);
        i := i + 1;
      }
      assert data[..|data|] == data;
    }

    /** cs_base64_finish */
    method Finish()
      requires Valid()
      modifies this, chunk
      ensures text == Encode(old(message))
    {
      hide Encode, Chars;
      ghost var whole := message[..|message| - chunkSize];
      Cut(message, |whole|);
      if chunkSize > 0 {
        ghost var c := chunk[..chunkSize];
        FillBytes(chunk, chunkSize, 3 - chunkSize, 0);
        EmitChunk();
        EncodeConcat(whole, c);
        EncodeChunk(c);
        ghost var t := text;
        ConcatAssoc(Encode(whole), Chars(c), Padding(3 - chunkSize));
        var i := 0;
        assert t + Padding(0) == t;
        while i < 3 - chunkSize
          modifies `text
          invariant i <= 3 - chunkSize
          invariant text == t + Padding(i)
        {
          ConcatAssoc(t, Padding(i), [PAD]);
          assert Padding(i) + [PAD] == Padding(i + 1);
          text := text + [PAD];
          i := i + 1;
        }
      } else {
        assert whole == message;
      }
    }
  }

  /** Init, one update per piece, finish: the text is the one-shot encoding of the pieces joined. */
  method EncodePieces(pieces: seq<bytes>) returns (text: bytes)
    ensures text == Encode(Flatten(pieces))
  {
    hide Encode;
    var ctx := new Stream();
    var i := 0;
    while i < |pieces|
      invariant i <= |pieces| && fresh(ctx) && fresh(ctx.chunk) && ctx.Valid()
      invariant ctx.message == Flatten(pieces[..i])
    {
      ctx.Update(pieces[i]);
      FlattenSnoc(pieces[..i], pieces[i]);
      assert pieces[..i + 1] == pieces[..i] + [pieces[i]];
      i := i + 1;
    }
    assert pieces[..|pieces|] == pieces;
    ctx.Finish();
    text := ctx.text;
  }

  // ---------- The decoder ----------

  lemma DecodeFirst(s: bytes)
    ensures !IsGroup(s) ==> Decode(s) == Decoded([], 0)
    ensures IsGroup(s) ==>
            var out := GroupOut(FromB64(s[0]), FromB64(s[1]), FromB64(s[2]), FromB64(s[3]));
            Decode(s) == if |out| < 3 then Decoded(out, 4)
                         else var r := Decode(s[4..]); Decoded(out + r.out, 4 + r.used)
  {
    hide FromB64, GroupOut;
  }

  /** One group written: `stop` when a '=' was met. */
  method WriteGroup(a: byte, b: byte, c: byte, d: byte, dst: array<byte>, j0: nat) returns (j: nat, stop: bool)
    requires j0 + 3 < dst.Length
    modifies dst
    ensures j == j0 + |GroupOut(a, b, c, d)| && stop == (|GroupOut(a, b, c, d)| < 3)
    ensures dst[..j] == old(dst[..j0]) + GroupOut(a, b, c, d)
  {
    hide Join1, Join2, Join3;
    if a == 200 || b == 200 {
      return j0, true;
    }
    dst[j0] := Join1(a, b);
    if c == 200 {
      return j0 + 1, true;
    }
    dst[j0 + 1] := Join2(b, c);
    if d == 200 {
      return j0 + 2, true;
    }
    dst[j0 + 2] := Join3(c, d);
    return j0 + 3, false;
  }

  /** cs_base64_decode: bytes and a final NUL go to `dst`; the result is the number of characters used. */
  method DecodeInto(s: bytes, dst: array<byte>) returns (used: nat, ghost n: nat)
    requires dst.Length > |s| / 4 * 3
    modifies dst
    ensures used == Decode(s).used
    ensures n == |Decode(s).out| < dst.Length && dst[..n] == Decode(s).out && dst[n] == 0
  {
    hide FromB64, GroupOut, Decode;
    var i, j, stop := 0, 0, false;
    ghost var g, groups := 0, |s| / 4;
    assert s[0..] == s;
    while !stop && IsGroup(s[i..])
      invariant 0 <= i == 4 * g <= |s| && 0 <= j <= 3 * g < dst.Length
      invariant !stop ==> var r := Decode(s[i..]); Decode(s) == Decoded(dst[..j] + r.out, i + r.used)
      invariant stop ==> Decode(s) == Decoded(dst[..j], i)
      decreases !stop, |s| - i
    {
      ghost var rest, was := s[i..], dst[..j];
      assert g + 1 <= groups;
      DecodeFirst(rest);
      var a, b, c, d := FromB64(s[i]), FromB64(s[i + 1]), FromB64(s[i + 2]), FromB64(s[i + 3]);
      GroupAtMost3(a, b, c, d);
      j, stop := WriteGroup(a, b, c, d, dst, j);
      assert s[i + 4..] == rest[4..];
      ConcatAssoc(was, GroupOut(a, b, c, d), Decode(rest[4..]).out);
      i := i + 4;
      g := g + 1;
      assert g <= groups;
    }
    if !stop {
      DecodeFirst(s[i..]);
      assert dst[..j] + [] == dst[..j];
    }
    ghost var out := dst[..j];
    dst[j] := 0;
    assert dst[..j] == out;
    return i, j;
  }

  lemma GroupAtMost3(a: byte, b: byte, c: byte, d: byte)
    ensures |GroupOut(a, b, c, d)| <= 3
  {
  }
}
