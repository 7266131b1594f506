/** mg_handle_chunked and mg_send_http_chunk on the connection's buffers. */
module ChunkedConnection {
  import opened Bytes
  import opened MemoryBuffer
  import opened ChunkedBody
  import opened Hex

  /** mg_http_parse_chunk on a[at..at + n] */
  method ParseChunkAt(a: array<byte>, at: nat, n: nat) returns (p: Parsed)
    requires at + n <= a.Length
    ensures p == ParseChunk(a[at..at + n])
  {
    hide HexValue, ChunkBehind;
    ghost var b := a[at..at + n];
    var i, value := 0, 0;
    HexValueNone(b[..0]);
    while i < n && IsHex(a[at + i])
      invariant i <= n
      invariant forall k :: 0 <= k < i ==> IsHex(b[k])
      invariant value == HexValue(b[..i])
    {
      HexValueStep(b, i);
      value := value * 16 % TWO_64;
      value := (value + HexDigit(a[at + i])) % TWO_64;
      i := i + 1;
    }
    HexCountUnique(b, i);
    if i == 0 || i + 2 > n || a[at + i] != CR || a[at + i + 1] != LF {
      return NoChunk;
    }
    p := ChunkBehindAt(a, at, n, i + 2, value);
  }

  /** "Skip data" and "Skip new line" */
  method ChunkBehindAt(a: array<byte>, at: nat, n: nat, pos: nat, value: nat) returns (p: Parsed)
    requires at + n <= a.Length
    ensures p == ChunkBehind(a[at..at + n], pos, value)
  {
    var i := (pos + value) % TWO_64;
    if i == 0 || (i + 2) % TWO_64 > n {
      return NoChunk;
    }
    if i + 2 >= TWO_64 {
      return Outside;
    }
    if a[at + i] != CR || a[at + i + 1] != LF {
      return NoChunk;
    }
    return Chunk(i + 2, pos, value);
  }

  lemma HexValueNone(s: bytes)
    requires s == []
    ensures HexValue(s) == 0
  {
  }

  lemma HexValueStep(b: bytes, i: nat)
    requires i < |b| && forall k :: 0 <= k <= i ==> IsHex(b[k])
    ensures HexValue(b[..i + 1]) == (HexValue(b[..i]) * 16 % TWO_64 + HexDigit(b[i])) % TWO_64
  {
    hide HexDigit, IsHex;
    var s := b[..i + 1];
    assert s[..i] == b[..i] && s[i] == b[i];
    AddModulo(HexValue(b[..i]) * 16, HexDigit(b[i]));
  }

  lemma AddModulo(a: nat, d: nat)
    ensures (a % TWO_64 + d) % TWO_64 == (a + d) % TWO_64
  {
  }

  /** Arrays that agree behind `k` agree on every slice there. */
  lemma TailSlice(s: bytes, t: bytes, k: nat, i: nat, j: nat)
    requires |s| == |t| && k <= i <= j <= |s| && s[k..] == t[k..]
    ensures s[i..j] == t[i..j]
  {
    SliceOfDrop(s, k, i - k, j - k);
    SliceOfDrop(t, k, i - k, j - k);
  }

  /** The chunk loop over a[at..len], the body ending at `at`: the data of each chunk is moved to the
      end of the body, which grows to `end`; what is left begins at `next`. */
  method WalkInPlace(a: array<byte>, len: nat, at: nat) returns (end: nat, next: nat, zero: bool, stuck: bool)
    requires at <= len <= a.Length
    modifies a
    ensures at <= end <= next <= len
    ensures var w := WalkChunks(old(a[at..len]));
            && stuck == w.stuck && zero == w.zero
            && a[..end] == old(a[..at]) + w.data
            && a[next..len] == w.rest
            && (next == at ==> w.rest == old(a[at..len]))
            && (next > at ==> end < next)
  {
    hide WalkChunks, ParseChunk;
    ghost var front, all := a[..at], a[at..len];
    ghost var data, rest: bytes := [], all;
    end, next, zero, stuck := at, at, false, false;
    var p := ParseChunkAt(a, at, len - at);
    assert a[at..at + (len - at)] == all;
    while Inside(p) && !zero
      invariant at <= end <= next <= len && (next > at ==> end < next)
      invariant a[..end] == front + data && a[next..len] == rest
      invariant p == ParseChunk(rest) || zero
      invariant zero ==> WalkChunks(all) == Walked(data, rest, true, false)
      invariant !zero ==> var v := WalkChunks(rest); WalkChunks(all) == v.(data := data + v.data)
      invariant next == at ==> rest == all
      decreases len - next
    {
      ParsedBounds(rest);
      var Chunk(total, pos, n) := p;
      WalkGoesOn(all, data, rest, total, pos, n);
      ghost var block := rest[pos..pos + n];
      MoveChunk(a, len, end, next, pos, n, total);
      ConcatAssoc(front, data, block);
      data, rest := data + block, rest[total..];
      end, next := end + n, next + total;
      if n == 0 {
        zero := true;
      } else {
        p := ParseChunkAt(a, next, len - next);
        assert a[next..next + (len - next)] == rest;
      }
    }
    if !zero {
      WalkNothing(rest);
      assert data + [] == data;
      stuck := p != NoChunk;
    }
  }

  lemma WalkGoesOn(all: bytes, data: bytes, rest: bytes, total: nat, pos: nat, n: nat)
    requires ParseChunk(rest) == Chunk(total, pos, n) && pos + n + 2 == total <= |rest|
    requires var v := WalkChunks(rest); WalkChunks(all) == v.(data := data + v.data)
    ensures n == 0 ==> WalkChunks(all) == Walked(data + rest[pos..pos + n], rest[total..], true, false)
    ensures n > 0 ==> var v := WalkChunks(rest[total..]);
                      WalkChunks(all) == v.(data := (data + rest[pos..pos + n]) + v.data)
  {
    hide WalkChunks, ParseChunk;
    WalkUnfold(rest, total, pos, n);
    ConcatAssoc(data, rest[pos..pos + n], WalkChunks(rest[total..]).data);
    assert rest[pos..pos] == [];
  }

  /** The memmove of one chunk's data, which only ever goes towards the front. */
  method MoveChunk(a: array<byte>, len: nat, end: nat, next: nat, pos: nat, n: nat, total: nat)
    requires end <= next && pos + n <= total && next + total <= len <= a.Length
    modifies a
    ensures a[..end + n] == old(a[..end]) + old(a[next..len])[pos..pos + n]
    ensures a[next + total..len] == old(a[next..len])[total..]
  {
    ghost var was := a[..];
    SliceOfSlice(was, next, len - next, pos, pos + n);
    SliceOfSlice(was, next, len - next, total, len - next);
    MoveDown(a, end, next + pos, n);
    TailSlice(a[..], was, next + pos + n, next + total, len);
  }

  /** "Shift unparsed content to the parsed body" and clear what it leaves behind. */
  method CloseGap(a: array<byte>, len: nat, end: nat, next: nat) returns (newLen: nat)
    requires end <= next <= len <= a.Length
    modifies a
    ensures newLen == len - (next - end)
    ensures a[..newLen] == old(a[..end]) + old(a[next..len])
  {
    newLen := len - (next - end);
    MoveDown(a, end, next, len - next);
    FillBytes(a, newLen, next - end, 0);
  }

  /** "Delete processed data": the body is cleared and the unparsed bytes take its place. */
  method DropBody(a: array<byte>, len: nat, base: nat, end: nat) returns (newLen: nat)
    requires base <= end <= len <= a.Length
    modifies a
    ensures newLen == len - (end - base)
    ensures a[..newLen] == old(a[..base]) + old(a[end..len])
  {
    ghost var was := a[..];
    FillBytes(a, base, end - base, 0);
    TailSlice(a[..], was, end, end, len);
    newLen := len - (end - base);
    MoveDown(a, base, end, len - end);
  }

  lemma BodyParts(c: bytes, head: bytes, body: bytes, pending: bytes)
    requires c == head + (body + pending)
    ensures c[..|head| + |body|] == head + body
    ensures c[|head| + |body|..] == pending
  {
    ConcatAssoc(head, body, pending);
  }

  /** mg_handle_chunked before the handler is called: complete chunks join the body, the rest closes up. */
  method CollapseChunks(a: array<byte>, len: nat, ghost head: bytes, ghost body: bytes, ghost pending: bytes,
                        at: nat)
    returns (end: nat, newLen: nat, progress: bool, zero: bool, stuck: bool)
    requires at == |head| + |body| && len <= a.Length && a[..len] == head + (body + pending)
    modifies a
    ensures var w := WalkChunks(pending);
            && stuck == w.stuck && zero == w.zero
            && newLen <= len && end == at + |w.data|
            && (!stuck ==> a[..newLen] == head + ((body + w.data) + w.rest) && progress == (w.rest != pending))
            && (!stuck && !progress ==> w.data == [])
  {
    hide WalkChunks;
    ghost var w := WalkChunks(pending);
    BodyParts(a[..len], head, body, pending);
    PrefixSlices(a[..], len, at, at);
    WalkSuffix(pending);
    WalkNoProgress(pending);
    var next;
    end, next, zero, stuck := WalkInPlace(a, len, at);
    progress := next > at;
    newLen := len;
    if !stuck {
      newLen := Settle(a, len, end, next, progress, head, body, w.data, w.rest);
    }
  }

  method Settle(a: array<byte>, len: nat, end: nat, next: nat, progress: bool, ghost head: bytes, ghost body: bytes,
                ghost data: bytes, ghost rest: bytes)
    returns (newLen: nat)
    requires end <= next <= len <= a.Length && (progress || end == next)
    requires a[..end] == (head + body) + data && a[next..len] == rest
    modifies a
    ensures newLen <= len && a[..newLen] == head + ((body + data) + rest)
  {
    newLen := len;
    FourParts(head, body, data, rest);
    if progress {
      newLen := CloseGap(a, len, end, next);
    } else {
      CutPrefix(a[..], end, len);
    }
  }

  lemma FourParts(head: bytes, body: bytes, data: bytes, rest: bytes)
    ensures ((head + body) + data) + rest == head + ((body + data) + rest)
  {
    ConcatAssoc(head + body, data, rest);
    ConcatAssoc(head, body, data + rest);
    ConcatAssoc(body, data, rest);
  }

  lemma CutPrefix(s: bytes, k: nat, len: nat)
    requires k <= len <= |s|
    ensures s[..len] == s[..k] + s[k..len]
  {
  }

  class Connection {
    const recv: Mbuf
    /** Where the body begins in the receive buffer: behind the request head. */
    const reqLen: nat
    /** pd->chunk.body_len */
    var bodyLen: nat
    /** The bodies MG_EV_HTTP_CHUNK was raised with. */
    var events: seq<bytes>
    /** The empty chunk has been seen: hm->message.len is set and the request is passed on. */
    var finished: bool
    /** The parts of the buffer: the request head, the reassembled body, the bytes not yet understood. */
    ghost var head: bytes
    ghost var body: bytes
    ghost var pending: bytes
    /** The body data the handler has had deleted. */
    ghost var gone: bytes

    ghost predicate Valid()
      reads this, recv, recv.buf
    {
      && recv.Valid()
      && recv.Contents() == head + (body + pending)
      && |head| == reqLen && |body| == bodyLen
    }

    constructor (recv: Mbuf, reqLen: nat)
      requires recv.Valid() && reqLen <= recv.len
      ensures Valid() && this.recv == recv && this.reqLen == reqLen
      ensures head == recv.Contents()[..reqLen] && body == [] && pending == recv.Contents()[reqLen..]
      ensures events == [] && !finished && gone == []
    {
      this.recv, this.reqLen, bodyLen, events, finished := recv, reqLen, 0, [], false;
      head, body, pending, gone := recv.Contents()[..reqLen], [], recv.Contents()[reqLen..], [];
      new;
      assert [] + pending == pending;
    }

    /** The connection as a state of the run. */
    ghost function View(): BodyState
      reads this
    {
      BodyState(body, pending, gone, finished, false)
    }

    /** MG_EV_HTTP_CHUNK: the handler is shown the body as it lies in the buffer. */
    method RaiseChunkEvent()
      requires Valid()
      modifies `events
      ensures events == old(events) + [body]
    {
      ConcatParts(recv.Contents(), head, body, pending);
      PrefixSlices(recv.buf[..], recv.len, reqLen, reqLen + bodyLen);
      events := events + [recv.buf[reqLen..reqLen + bodyLen]];
    }

    /** The handler has set MG_F_DELETE_CHUNK: the body leaves the buffer. */
    method DeleteBody()
      requires Valid()
      modifies `bodyLen, `body, `gone, recv, recv.buf
      ensures Valid() && recv.buf == old(recv.buf)
      ensures body == [] && bodyLen == 0 && gone == old(gone) + old(body)
    {
      ConcatParts(recv.Contents(), head, body, pending);
      PrefixSlices(recv.buf[..], recv.len, reqLen, reqLen + bodyLen);
      assert recv.buf[..reqLen] == head && recv.buf[reqLen + bodyLen..recv.len] == pending;
      var newLen := DropBody(recv.buf, recv.len, reqLen, reqLen + bodyLen);
      recv.len := newLen;
      gone, body, bodyLen := gone + body, [], 0;
      assert [] + pending == pending;
    }

    /** mg_handle_chunked: `delete` is whether the handler sets MG_F_DELETE_CHUNK when it is called.
        `bodyLenNow` is the C result, `messageLen` what hm->message.len is set to after the empty chunk.
        `stuck` is a call that reads or moves memory outside the bytes received. */
    method HandleChunked(delete: bool) returns (bodyLenNow: nat, messageLen: nat, stuck: bool)
      requires Valid() && !finished
      modifies this, recv, recv.buf
      ensures recv.buf == old(recv.buf)
      ensures stuck == HandleStep(old(View()), delete).stuck
      ensures !stuck ==> Valid() && View() == HandleStep(old(View()), delete) && head == old(head)
      ensures !stuck ==> bodyLenNow == old(bodyLen) + |WalkChunks(old(pending)).data|
      ensures !stuck ==> events == old(events) +
                         if pending == old(pending) then [] else [old(body) + WalkChunks(old(pending)).data]
      ensures !stuck && finished ==> messageLen == |body| + |pending|
    {
      hide WalkChunks;
      ghost var w := WalkChunks(pending);
      var base := reqLen;
      WalkNoProgress(pending);
      var end, newLen, progress, zero, failed :=
        CollapseChunks(recv.buf, recv.len, head, body, pending, base + bodyLen);
      stuck, bodyLenNow, messageLen := failed, end - base, 0;
      if stuck {
        return;
      }
      recv.len := newLen;
      bodyLen := end - base;
      body, pending := body + w.data, w.rest;
      if progress {
        RaiseChunkEvent();
        finished := zero;
        if delete {
          DeleteBody();
        }
        if zero {
          assert recv.len == |recv.Contents()|;
          messageLen := bodyLen + (recv.len - base - bodyLen);
        }
      } else {
        assert body + [] == body;
        assert events + [] == events;
      }
    }

    /** Bytes arrive and, until the message is complete, mg_handle_chunked is called. */
    method OnReceive(piece: bytes, delete: bool) returns (stuck: bool)
      requires Valid()
      modifies this, recv, recv.buf
      ensures recv.buf == old(recv.buf) || fresh(recv.buf)
      ensures var s := old(View()).(pending := old(pending) + piece);
              var s1 := if s.finished then s else HandleStep(s, delete);
              stuck == s1.stuck && (!stuck ==> Valid() && View() == s1 && head == old(head))
    {
      hide WalkChunks;
      stuck := false;
      ConcatAssoc(head, body + pending, piece);
      ConcatAssoc(body, pending, piece);
      var stored := recv.Append(piece, true);
      pending := pending + piece;
      if !finished {
        var n, m;
        n, m, stuck := HandleChunked(delete);
      }
    }
  }

  /** A whole run: one arrival after the other, with the handler's answers. */
  method ReceiveAll(nc: Connection, pieces: seq<bytes>, deletes: seq<bool>) returns (stuck: bool)
    requires nc.Valid() && |pieces| == |deletes|
    modifies nc, nc.recv, nc.recv.buf
    ensures stuck == Arrive(old(nc.View()), pieces, deletes).stuck
    ensures !stuck ==> nc.Valid() && nc.View() == Arrive(old(nc.View()), pieces, deletes) && nc.head == old(nc.head)
    decreases |pieces|
  {
    hide HandleStep;
    if pieces == [] {
      return false;
    }
    ghost var s := nc.View().(pending := nc.pending + pieces[0]);
    stuck := nc.OnReceive(pieces[0], deletes[0]);
    if stuck {
      StuckStays(HandleStep(s, deletes[0]), pieces[1..], deletes[1..]);
    } else {
      stuck := ReceiveAll(nc, pieces[1..], deletes[1..]);
    }
  }

  /** mg_send_http_chunk */
  method SendChunk(out: Mbuf, block: bytes)
    requires out.Valid()
    modifies out, out.buf
    ensures out.Valid() && (out.buf == old(out.buf) || fresh(out.buf))
    ensures out.Contents() == old(out.Contents()) + ChunkWire(block)
  {
    hide HexText;
    ghost var was := out.Contents();
    var text := HexText(|block|) + [CR, LF];
    var n := out.Append(text, true);
    n := out.Append(block, true);
    n := out.Append([CR, LF], true);
    ConcatAssoc(was, text, block);
    ConcatAssoc(was, text + block, [CR, LF]);
  }
}
