/** Chunked transfer coding (section 4.1 of RFC 7230): what mg_http_parse_chunk and the walk of
    mg_handle_chunked find in a run of bytes, and why it does not matter how the bytes arrive. */
module ChunkedBody {
  import opened Bytes
  import opened Hex

  const CR: byte := 13
  const LF: byte := 10

  // ---------- Hexadecimal lengths ----------

  /** How many hexadecimal digits `b` begins with. */
  function HexCount(b: bytes): (k: nat)
    ensures k <= |b|
    ensures forall i :: 0 <= i < k ==> IsHex(b[i])
    ensures k < |b| ==> !IsHex(b[k])
  {
    if b == [] || !IsHex(b[0]) then 0 else 1 + HexCount(b[1..])
  }

  lemma {:induction false} HexCountUnique(b: bytes, k: nat)
    requires k <= |b|
    requires forall i :: 0 <= i < k ==> IsHex(b[i])
    requires k < |b| ==> !IsHex(b[k])
    ensures HexCount(b) == k
  {
    if k > 0 {
      HexCountUnique(b[1..], k - 1);
    }
  }

  /** The value of the digits in 64-bit unsigned arithmetic. */
  function HexValue(s: bytes): (n: nat)
    requires forall i :: 0 <= i < |s| ==> IsHex(s[i])
    ensures n < TWO_64
  {
    if s == [] then 0 else (HexValue(s[..|s| - 1]) * 16 + HexDigit(s[|s| - 1])) % TWO_64
  }

  /** `%lX` */
  function HexText(n: nat): (s: bytes)
    ensures |s| > 0
    ensures forall i :: 0 <= i < |s| ==> IsHex(s[i])
  {
    if n < 16 then [HexChar(n)] else HexText(n / 16) + [HexChar(n % 16)]
  }

  /** A size printed in digits of either case. */
  predicate IsSizeLine(line: bytes, n: nat) { SameLetters(line, HexText(n)) }

  /** It is read back, in 64-bit arithmetic. */
  lemma HexRoundTrip(line: bytes, n: nat)
    requires n < TWO_64 && IsSizeLine(line, n)
    ensures (forall i :: 0 <= i < |line| ==> IsHex(line[i])) && HexValue(line) == n && line != []
  {
    hide HexText, HexValue;
    PrintedValue(n);
    SameValue(line, HexText(n));
  }

  lemma {:induction false} SameValue(s: bytes, t: bytes)
    requires SameLetters(s, t) && forall i :: 0 <= i < |t| ==> IsHex(t[i])
    ensures forall i :: 0 <= i < |s| ==> IsHex(s[i])
    ensures HexValue(s) == HexValue(t)
    decreases |s|
  {
    hide IsHex, SameLetter, HexDigit;
    forall i | 0 <= i < |s|
      ensures IsHex(s[i]) && HexDigit(s[i]) == HexDigit(t[i])
    {
      SameHex(s[i], t[i]);
    }
    if s != [] {
      SameValue(s[..|s| - 1], t[..|t| - 1]);
    }
  }

  lemma {:induction false} PrintedValue(n: nat)
    requires n < TWO_64
    ensures HexValue(HexText(n)) == n
  {
    var s := HexText(n);
    if n < 16 {
      assert s[..|s| - 1] == [];
    } else {
      PrintedValue(n / 16);
      assert s[..|s| - 1] == HexText(n / 16);
    }
  }

  // ---------- One chunk ----------

  /** What mg_http_parse_chunk finds: no complete chunk in front; a chunk of `total` bytes whose data is where
      `dataPos` and `dataLen` say; or it looks for the chunk's line end just before the bytes it is given. */
  datatype Parsed = NoChunk | Chunk(total: nat, dataPos: nat, dataLen: nat) | Outside

  predicate CrLfAt(b: bytes, i: nat) {
    i + 2 <= |b| && b[i] == CR && b[i + 1] == LF
  }

  /** mg_http_parse_chunk */
  function ParseChunk(b: bytes): Parsed {
    var k := HexCount(b);
    if k == 0 || !CrLfAt(b, k) then NoChunk else ChunkBehind(b, k + 2, HexValue(b[..k]))
  }

  /** The line end behind `n` bytes of data at `pos`, looked for in 64-bit unsigned arithmetic. */
  function ChunkBehind(b: bytes, pos: nat, n: nat): Parsed {
    var i := (pos + n) % TWO_64;
    if i == 0 || (i + 2) % TWO_64 > |b| then NoChunk
    else if i + 2 >= TWO_64 then Outside
    else if CrLfAt(b, i) then Chunk(i + 2, pos, n)
    else NoChunk
  }

  lemma ChunkBehindBounds(b: bytes, pos: nat, n: nat)
    requires 0 < pos <= |b| < TWO_64 && n < TWO_64 && ChunkBehind(b, pos, n).Chunk?
    ensures var p := ChunkBehind(b, pos, n);
            && p.total <= |b| && p.dataPos == pos && p.dataLen == n
            && (Inside(p) <==> pos + n + 2 < TWO_64)
            && (pos + n <= |b| <==> pos + n + 2 < TWO_64)
  {
    if pos + n < TWO_64 {
      assert (pos + n) % TWO_64 == pos + n;
    } else {
      assert (pos + n) % TWO_64 == pos + n - TWO_64;
    }
  }

  lemma ChunkBehindFound(b: bytes, pos: nat, n: nat)
    requires 0 < pos && pos + n + 2 < TWO_64 && CrLfAt(b, pos + n)
    ensures ChunkBehind(b, pos, n) == Chunk(pos + n + 2, pos, n)
  {
    assert (pos + n) % TWO_64 == pos + n;
  }

  /** The data and the line end behind it are what the total says. */
  predicate Inside(p: Parsed) {
    p.Chunk? && p.dataPos + p.dataLen + 2 == p.total
  }

  /** The bounds returned lie inside the bytes exactly when the position behind the chunk fits in 64 bits; otherwise
      the data is said to reach beyond them. */
  lemma BoundsInside(b: bytes)
    requires |b| < TWO_64 && ParseChunk(b).Chunk?
    ensures var p := ParseChunk(b); var k := HexCount(b);
            && 0 < p.dataPos && p.total <= |b|
            && (Inside(p) <==> k + HexValue(b[..k]) + 4 < TWO_64)
            && (p.dataPos + p.dataLen <= |b| <==> k + HexValue(b[..k]) + 4 < TWO_64)
  {
    hide HexCount, HexValue, ChunkBehind;
    ChunkBehindBounds(b, HexCount(b) + 2, HexValue(b[..HexCount(b)]));
  }

  /** A position that wraps to the size line's own end: the line is taken for a chunk of 2^64 - 2 bytes. */
  lemma WrappedChunk()
    ensures var b := HexText(TWO_64 - 2) + [CR, LF];
            ParseChunk(b) == Chunk(|b|, |b|, TWO_64 - 2)
  {
    hide HexText, HexValue;
    var n: nat := TWO_64 - 2;
    var h := HexText(n);
    var b := h + [CR, LF];
    HexTextShort(n);
    assert b[..|h|] == h;
    HexCountUnique(b, |h|);
    PrintedValue(n);
  }

  lemma {:induction false} HexTextShort(n: nat)
    ensures |HexText(n)| <= n / 16 + 1
  {
    if n >= 16 {
      HexTextShort(n / 16);
    }
  }

  /** More bytes behind it do not change what was found in front. */
  lemma ParseChunkStable(a: bytes, b: bytes)
    requires ParseChunk(a) != NoChunk
    ensures ParseChunk(a + b) == ParseChunk(a)
  {
    hide HexValue;
    var k := HexCount(a);
    HexCountUnique(a + b, k);
    ConcatCut(a, b, k);
  }

  // ---------- All complete chunks ----------

  /** The data of the chunks walked over, what is left behind them, whether the last of them was the empty one,
      and whether the walk met a size that makes the code read or move memory outside the bytes. */
  datatype Walked = Walked(data: bytes, rest: bytes, zero: bool, stuck: bool)

  function WalkChunks(b: bytes): Walked {
    var p := ParseChunk(b);
    if !Inside(p) then Walked([], b, false, p != NoChunk)
    else if p.dataLen == 0 then Walked([], b[p.total..], true, false)
    else
      var w := WalkChunks(b[p.total..]);
      w.(data := b[p.dataPos..p.dataPos + p.dataLen] + w.data)
  }

  lemma ParsedBounds(b: bytes)
    ensures var p := ParseChunk(b);
            Inside(p) ==> 0 < p.dataPos && p.dataPos + p.dataLen + 2 == p.total <= |b|
  {
  }

  lemma WalkUnfold(b: bytes, total: nat, pos: nat, n: nat)
    requires ParseChunk(b) == Chunk(total, pos, n) && pos + n + 2 == total
    ensures (ParsedBounds(b);
             WalkChunks(b) == if n == 0 then Walked([], b[total..], true, false)
                              else var w := WalkChunks(b[total..]); w.(data := b[pos..pos + n] + w.data))
  {
    hide ParseChunk;
  }

  lemma WalkNothing(b: bytes)
    requires !Inside(ParseChunk(b))
    ensures WalkChunks(b) == Walked([], b, false, ParseChunk(b) != NoChunk)
  {
    hide ParseChunk;
  }

  lemma {:induction false} WalkSuffix(b: bytes)
    ensures var w := WalkChunks(b);
            |w.rest| + |w.data| <= |b| && w.rest == b[|b| - |w.rest|..]
    decreases |b|
  {
    hide ParseChunk;
    ParsedBounds(b);
    var p := ParseChunk(b);
    if Inside(p) && p.dataLen > 0 {
      WalkSuffix(b[p.total..]);
    }
  }

  /** Bytes that come later are walked as if they had been there all along. */
  lemma {:induction false} WalkContinues(a: bytes, b: bytes)
    ensures var w := WalkChunks(a);
            if w.zero || w.stuck then WalkChunks(a + b) == w.(rest := w.rest + b)
            else var v := WalkChunks(w.rest + b); WalkChunks(a + b) == v.(data := w.data + v.data)
    decreases |a|
  {
    hide ParseChunk, WalkChunks;
    var p := ParseChunk(a);
    if p == NoChunk {
      WalkNothing(a);
      assert [] + WalkChunks(a + b).data == WalkChunks(a + b).data;
    } else if !Inside(p) {
      ParseChunkStable(a, b);
      WalkNothing(a);
      WalkNothing(a + b);
    } else {
      var Chunk(total, pos, n) := p;
      ParseChunkStable(a, b);
      ParsedBounds(a);
      WalkUnfold(a, total, pos, n);
      WalkUnfold(a + b, total, pos, n);
      ConcatCut(a, b, total);
      if n > 0 {
        WalkContinues(a[total..], b);
        ConcatSlice(a, b, pos, pos + n);
        var w1 := WalkChunks(a[total..]);
        ConcatAssoc(a[pos..pos + n], w1.data, WalkChunks(w1.rest + b).data);
      }
    }
  }

  // ---------- Blocks as mg_send_http_chunk prints them ----------

  function ChunkAs(line: bytes, block: bytes): bytes { line + [CR, LF] + block + [CR, LF] }

  function ChunkWire(block: bytes): bytes { ChunkAs(HexText(|block|), block) }

  /** A non-empty block under its size in digits of either case. The positions in it fit in 64 bits, as they do in
      memory. */
  predicate IsSent(line: bytes, block: bytes) {
    block != [] && IsSizeLine(line, |block|) && |line| + 4 + |block| < TWO_64
  }

  /** Blocks under their size lines, and the empty chunk. */
  function BlocksWire(lines: seq<bytes>, blocks: seq<bytes>): bytes
    requires |lines| == |blocks|
  {
    if blocks == [] then ChunkWire([]) else ChunkAs(lines[0], blocks[0]) + BlocksWire(lines[1..], blocks[1..])
  }

  /** The first chunk of an example: "4", a line end, "Wiki", a line end; and the last chunk of any body. */
  lemma PrintedChunks()
    ensures ChunkWire([87, 105, 107, 105]) == [52, 13, 10, 87, 105, 107, 105, 13, 10]
    ensures ChunkWire([]) == [48, 13, 10, 13, 10]
  {
  }

  lemma ChunkParts(line: bytes, block: bytes, tail: bytes)
    requires IsSizeLine(line, |block|) && |block| < TWO_64
    ensures var b := ChunkAs(line, block) + tail; var k := |line|;
            && |b| == k + 4 + |block| + |tail|
            && HexCount(b) == k
            && b[..k] == line
            && b[k..k + 2] == [CR, LF]
            && b[k + 2..k + 2 + |block|] == block
            && b[k + 2 + |block|..k + 4 + |block|] == [CR, LF]
            && b[k + 4 + |block|..] == tail
  {
    hide IsSizeLine, HexValue;
    HexRoundTrip(line, |block|);
    WireSlices(ChunkAs(line, block) + tail, line, block, tail);
    HexCountOf(ChunkAs(line, block) + tail, line);
  }

  lemma HexCountOf(b: bytes, h: bytes)
    requires |h| < |b| && b[..|h|] == h && b[|h|] == CR
    requires forall i :: 0 <= i < |h| ==> IsHex(h[i])
    ensures HexCount(b) == |h|
  {
    assert forall i :: 0 <= i < |h| ==> b[i] == b[..|h|][i];
    HexCountUnique(b, |h|);
  }

  lemma WireSlices(b: bytes, h: bytes, block: bytes, tail: bytes)
    requires b == (h + [CR, LF] + block + [CR, LF]) + tail
    ensures var k, n := |h|, |block|;
            && |b| == k + 4 + n + |tail|
            && b[..k] == h && b[k] == CR
            && b[k..k + 2] == [CR, LF]
            && b[k + 2..k + 2 + n] == block
            && b[k + 2 + n..k + 4 + n] == [CR, LF]
            && b[k + 4 + n..] == tail
  {
    var k, n := |h|, |block|;
    var behind := block + ([CR, LF] + tail);
    assert b == h + ([CR, LF] + behind);
    ConcatParts(b, h, [CR, LF], behind);
    ConcatParts(behind, block, [CR, LF], tail);
    SliceOfDrop(b, k + 2, 0, n);
    SliceOfDrop(b, k + 2, n, n + 2);
    SliceOfDrop(b, k + 2, n + 2, |behind|);
    assert b[k..k + 2][0] == CR;
  }

  lemma ParsePrinted(line: bytes, block: bytes, tail: bytes)
    requires IsSizeLine(line, |block|) && |line| + 4 + |block| < TWO_64
    ensures ParseChunk(ChunkAs(line, block) + tail) == Chunk(|line| + 4 + |block|, |line| + 2, |block|)
  {
    hide IsSizeLine, HexValue, HexCount, ChunkAs, CrLfAt, ChunkBehind;
    var b := ChunkAs(line, block) + tail;
    ChunkParts(line, block, tail);
    HexRoundTrip(line, |block|);
    CrLfHere(b, |line|);
    CrLfHere(b, |line| + 2 + |block|);
    ChunkBehindFound(b, |line| + 2, |block|);
  }

  lemma CrLfHere(b: bytes, i: nat)
    requires i + 2 <= |b| && b[i..i + 2] == [CR, LF]
    ensures CrLfAt(b, i)
  {
    assert b[i] == b[i..i + 2][0] && b[i + 1] == b[i..i + 2][1];
  }

  lemma PrintedLine(n: nat)
    ensures IsSizeLine(HexText(n), n)
  {
  }

  /** Non-empty blocks, their sizes in digits of either case, and the final empty one are walked back to their
      contents; bytes behind the last chunk stay. */
  lemma {:induction false} WalkPrinted(lines: seq<bytes>, blocks: seq<bytes>, extra: bytes)
    requires |lines| == |blocks| && forall i :: 0 <= i < |blocks| ==> IsSent(lines[i], blocks[i])
    ensures WalkChunks(BlocksWire(lines, blocks) + extra) == Walked(Flatten(blocks), extra, true, false)
    decreases |blocks|
  {
    hide ParseChunk, ChunkAs, IsSizeLine, HexText, HexCount, WalkChunks;
    if blocks == [] {
      EmptyLine();
      PrintedLine(0);
      ParsePrinted(HexText(0), [], extra);
      WalkUnfold(ChunkWire([]) + extra, 5, 3, 0);
      ChunkParts(HexText(0), [], extra);
    } else {
      var line, block := lines[0], blocks[0];
      var later := BlocksWire(lines[1..], blocks[1..]) + extra;
      assert IsSent(line, block);
      ConcatAssoc(ChunkAs(line, block), BlocksWire(lines[1..], blocks[1..]), extra);
      ParsePrinted(line, block, later);
      ChunkParts(line, block, later);
      WalkUnfold(ChunkAs(line, block) + later, |line| + 4 + |block|, |line| + 2, |block|);
      WalkPrinted(lines[1..], blocks[1..], extra);
    }
  }

  lemma EmptyLine()
    ensures |HexText(0)| == 1
  {
  }

  // ---------- A run of arrivals ----------

  /** The body reassembled so far, the bytes not yet understood behind it, and the body data the
      handler has taken out of the buffer with MG_F_DELETE_CHUNK. */
  datatype BodyState = BodyState(body: bytes, pending: bytes, gone: bytes, finished: bool, stuck: bool)

  /** One call of mg_handle_chunked; `delete` is what the handler, when it is called, asks for. */
  function HandleStep(s: BodyState, delete: bool): BodyState {
    var w := WalkChunks(s.pending);
    if w.stuck then s.(stuck := true)
    else if w.rest == s.pending then s
    else if delete then BodyState([], w.rest, s.gone + (s.body + w.data), w.zero, false)
    else BodyState(s.body + w.data, w.rest, s.gone, w.zero, false)
  }

  /** The handler's answers, one per arrival. */
  function Arrive(s: BodyState, pieces: seq<bytes>, deletes: seq<bool>): BodyState
    requires |pieces| == |deletes|
    decreases |pieces|
  {
    if pieces == [] then s
    else
      var s1 := s.(pending := s.pending + pieces[0]);
      Arrive(if s.finished || s.stuck then s1 else HandleStep(s1, deletes[0]), pieces[1..], deletes[1..])
  }

  const Start := BodyState([], [], [], false, false)

  /** `s` is what a single walk over all the bytes so far would have left, whatever was deleted. */
  ghost predicate Agrees(s: BodyState, all: bytes) {
    var w := WalkChunks(all);
    && s.stuck == w.stuck
    && (!s.stuck ==> s.gone + s.body == w.data && s.pending == w.rest && s.finished == w.zero)
  }

  lemma HandleAgrees(s: BodyState, all: bytes, piece: bytes, delete: bool)
    requires Agrees(s, all) && !s.stuck
    ensures var s1 := s.(pending := s.pending + piece);
            Agrees(if s.finished || s.stuck then s1 else HandleStep(s1, delete), all + piece)
  {
    hide WalkChunks;
    WalkContinues(all, piece);
    if !s.finished {
      var w := WalkChunks(s.pending + piece);
      WalkSuffix(s.pending + piece);
      WalkNoProgress(s.pending + piece);
      ConcatAssoc(s.gone, s.body, w.data);
      assert s.gone + (s.body + w.data) + [] == s.gone + (s.body + w.data);
      assert (s.gone + s.body) + [] == s.gone + s.body;
    }
  }

  lemma WalkNoProgress(b: bytes)
    ensures var w := WalkChunks(b); w.rest == b ==> w.data == [] && !w.zero
  {
    hide ParseChunk;
    ParsedBounds(b);
    if Inside(ParseChunk(b)) {
      WalkSuffix(b[ParseChunk(b).total..]);
    }
  }

  lemma StuckStays(s: BodyState, pieces: seq<bytes>, deletes: seq<bool>)
    requires s.stuck && |pieces| == |deletes|
    ensures Arrive(s, pieces, deletes).stuck
    decreases |pieces|
  {
    if pieces != [] {
      StuckStays(s.(pending := s.pending + pieces[0]), pieces[1..], deletes[1..]);
    }
  }

  /** For every byte stream, every way it is cut into arrivals and every answer of the handler, the calls find what
      one walk over all the bytes finds, up to a size that leads out of the bytes, if there is one. */
  lemma {:induction false} ArrivalsAgree(s: BodyState, all: bytes, pieces: seq<bytes>, deletes: seq<bool>)
    requires Agrees(s, all) && |pieces| == |deletes|
    ensures Agrees(Arrive(s, pieces, deletes), all + Flatten(pieces))
    decreases |pieces|
  {
    hide WalkChunks, HandleStep;
    if pieces == [] {
      assert all + [] == all;
    } else {
      var s1 := s.(pending := s.pending + pieces[0]);
      ConcatAssoc(all, pieces[0], Flatten(pieces[1..]));
      if s.stuck {
        StuckStays(s, pieces, deletes);
        WalkContinues(all, Flatten(pieces));
      } else {
        HandleAgrees(s, all, pieces[0], deletes[0]);
        var s2 := if s.finished then s1 else HandleStep(s1, deletes[0]);
        ArrivalsAgree(s2, all + pieces[0], pieces[1..], deletes[1..]);
      }
    }
  }

  lemma WalkEmpty()
    ensures WalkChunks([]) == Walked([], [], false, false)
  {
    assert ParseChunk([]) == NoChunk;
  }

  /** Blocks printed by mg_send_http_chunk, or by another sender with their sizes in digits of either case, then the
      empty chunk, then anything: however the bytes arrive and whatever the handler deletes on the way, the blocks'
      contents are received once, in order, and the bytes behind the last chunk are left alone. */
  lemma BlocksArrive(lines: seq<bytes>, blocks: seq<bytes>, extra: bytes, pieces: seq<bytes>, deletes: seq<bool>)
    requires |lines| == |blocks| && forall i :: 0 <= i < |blocks| ==> IsSent(lines[i], blocks[i])
    requires |pieces| == |deletes| && Flatten(pieces) == BlocksWire(lines, blocks) + extra
    ensures var s := Arrive(Start, pieces, deletes);
            && s.gone + s.body == Flatten(blocks) && s.pending == extra
            && s.finished && !s.stuck
  {
    hide WalkChunks, Arrive, BlocksWire, IsSent;
    WalkEmpty();
    assert [] + Flatten(pieces) == Flatten(pieces);
    ArrivalsAgree(Start, [], pieces, deletes);
    WalkPrinted(lines, blocks, extra);
  }

  /** While the handler never asks for deletion, nothing leaves the buffer: the body is the whole data. */
  lemma {:induction false} KeptWhole(s: BodyState, pieces: seq<bytes>, deletes: seq<bool>)
    requires |pieces| == |deletes| && forall d <- deletes :: !d
    ensures Arrive(s, pieces, deletes).gone == s.gone
    decreases |pieces|
  {
    if pieces != [] {
      var s1 := s.(pending := s.pending + pieces[0]);
      assert deletes[0] in deletes && forall d <- deletes[1..] :: d in deletes;
      KeptWhole(if s.finished || s.stuck then s1 else HandleStep(s1, deletes[0]), pieces[1..], deletes[1..]);
    }
  }
}
