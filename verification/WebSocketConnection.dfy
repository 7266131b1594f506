/** The WebSocket side of a mongoose connection: frames delivered from the receive buffer in place,
    frames built and masked in the send buffer. */
module WebSocketConnection {
  import opened Bits
  import opened Bytes
  import opened Endian
  import opened MemoryBuffer
  import opened WebSocketFrames
  import opened WebSocketReassembly

  datatype Delivery = NothingYet | Halted | FrameTaken

  /** The header fields of the frame at a[at..at + n]. */
  method ReadHeadAt(a: array<byte>, at: nat, n: nat) returns (h: FrameHead)
    requires at + n <= a.Length
    ensures h == ReadHead(a[at..at + n])
  {
    h := FrameHead(0, 0, 0);
    if n >= 2 {
      ghost var f := a[at..at + n];
      var len := a[at + 1] % 128;
      var maskLen := if a[at + 1] >= 128 then 4 else 0;
      h := FrameHead(0, maskLen, 0);
      if len < 126 && n >= maskLen {
        h := FrameHead(2 + maskLen, maskLen, len);
      } else if len == 126 && n >= 4 + maskLen {
        SliceOfSlice(a[..], at, n, 2, 4);
        h := FrameHead(4 + maskLen, maskLen, FromBigEndian(a[at + 2..at + 4]));
      } else if n >= 10 + maskLen {
        SliceOfSlice(a[..], at, n, 2, 10);
        h := FrameHead(10 + maskLen, maskLen, FromBigEndian(a[at + 2..at + 10]));
      }
    }
  }

  /** `b` with the bytes from `pos` to `pos + n` masked by the four bytes before them. */
  ghost predicate IsMasked(r: bytes, b: bytes, pos: nat, n: nat)
    requires 4 <= pos && pos + n <= |b|
  {
    && |r| == |b|
    && (forall k :: 0 <= k < n ==> r[pos + k] == Xor(b[pos + k], b[pos - 4 + k % 4]))
    && (forall k :: 0 <= k < |b| && !(pos <= k < pos + n) ==> r[k] == b[k])
  }

  lemma MaskedParts(r: bytes, b: bytes, pos: nat, n: nat)
    requires 4 <= pos && pos + n <= |b| && IsMasked(r, b, pos, n)
    ensures r == b[..pos] + (Mask(b[pos..pos + n], b[pos - 4..pos]) + b[pos + n..])
  {
    hide Xor;
    assert r[..pos] == b[..pos];
    assert r[pos..pos + n] == Mask(b[pos..pos + n], b[pos - 4..pos]);
    assert r[pos + n..] == b[pos + n..];
    CutInThree(r, pos, pos + n);
  }

  /** The masking loop: the `n` bytes at `pos` are combined with the four bytes before them. */
  method MaskInPlace(a: array<byte>, len: nat, pos: nat, n: nat)
    requires 4 <= pos && pos + n <= len <= a.Length
    modifies a
    ensures var b := old(a[..len]);
            a[..len] == b[..pos] + (Mask(b[pos..pos + n], b[pos - 4..pos]) + b[pos + n..])
  {
    hide Xor;
    ghost var b := a[..len];
    var i := 0;
    while i < n
      invariant i <= n
      invariant forall k :: 0 <= k < i ==> a[pos + k] == Xor(b[pos + k], b[pos - 4 + k % 4])
      invariant forall k :: 0 <= k < len && !(pos <= k < pos + i) ==> a[k] == b[k]
    {
      a[pos + i] := Xor(a[pos + i], a[pos - 4 + i % 4]);
      i := i + 1;
    }
    MaskedParts(a[..len], b, pos, n);
  }

  class Connection {
    const recv: Mbuf
    const noDefrag: bool // MG_F_WEBSOCKET_NO_DEFRAG
    var messages: seq<Message>

    ghost predicate Valid()
      reads this, recv
    {
      recv.Valid()
    }

    constructor (noDefrag: bool)
      ensures Valid() && fresh(recv) && fresh(recv.buf)
      ensures recv.Contents() == [] && messages == [] && this.noDefrag == noDefrag
    {
      recv := new Mbuf(0);
      this.noDefrag := noDefrag;
      messages := [];
    }

    /** mg_handle_incoming_websocket_frame: the handler is called with the message. */
    method HandleFrame(flags: byte, data: bytes)
      modifies this`messages
      ensures messages == old(messages) + [MessageOf(flags, data)]
    {
      messages := messages + [MessageOf(flags, data)];
    }

    /** A first fragment becomes a record; the buffer is given the four bytes its size needs. */
    method BeginRecord(dataPos: nat, size: nat)
      requires Valid() && 2 <= dataPos && dataPos + size <= recv.len
      modifies recv, recv.buf
      ensures Valid() && (recv.buf == old(recv.buf) || fresh(recv.buf))
      ensures var b := old(recv.Contents());
              recv.Contents() == [b[0] - b[0] % 16] + LittleEndian(size, 4) + Stomped(b[dataPos..], dataPos)
    {
      ghost var b := recv.Contents();
      var e := recv.len;
      recv.Resize(recv.buf.Length + 4, true);
      var p := recv.buf;
      assert p[..e] == b;
      p[0] := p[0] - p[0] % 16;
      assert p[dataPos..e] == b[dataPos..];
      StompSize(p, dataPos, e);
      recv.len := e - dataPos + 5;
      WriteSize(p, size, recv.len);
    }

    /** The low 32 bits of `size` stored in `*sizep`, in a buffer of which `len` bytes are in use. */
    static method WriteSize(p: array<byte>, size: nat, len: nat)
      requires 5 <= len <= p.Length
      modifies p
      ensures p[..len] == [old(p[0])] + LittleEndian(size, 4) + old(p[5..len])
    {
      ghost var size4 := LittleEndian(size, 4);
      forall i | 1 <= i < 5 {
        p[i] := LittleEndian(size, 4)[i - 1];
      }
      assert forall i :: 1 <= i < 5 ==> p[i] == size4[i - 1];
      assert p[5..len] == old(p[5..len]);
    }

    /** `*sizep = 0` and the move of the data to just behind the record. */
    static method StompSize(p: array<byte>, dataPos: nat, e: nat)
      requires 2 <= dataPos <= e && e + 4 <= p.Length
      modifies p
      ensures p[0] == old(p[0])
      ensures p[5..5 + e - dataPos] == Stomped(old(p[dataPos..e]), dataPos)
    {
      FillBytes(p, 1, 4, 0);
      forall i | dataPos <= i < e
        ensures p[i] == Stomped(old(p[dataPos..e]), dataPos)[i - dataPos]
      {
        assert i >= 5 ==> p[i] == p[5..][i - 5] == old(p[5..])[i - 5];
      }
      assert p[0] == p[..1][0];
      assert p[dataPos..e] == Stomped(old(p[dataPos..e]), dataPos);
      MoveBytes(p, 5, dataPos, e - dataPos);
      assert p[0] == p[..5][0];
    }

    /** The data of a continuation is moved behind the record and counted in it. */
    method ExtendRecord(at: nat, dataPos: nat, size: nat)
      requires Valid() && 5 <= at <= dataPos && dataPos + size <= recv.len
      modifies recv, recv.buf
      ensures Valid() && recv.buf == old(recv.buf)
      ensures var b := old(recv.Contents());
              recv.Contents() == [b[0]] + LittleEndian(at - 5 + size, 4) + (b[5..at] + b[dataPos..])
    {
      hide LittleEndian;
      var p, e := recv.buf, recv.len;
      PrefixSlices(p[..], e, 5, at);
      PrefixSlices(p[..], e, dataPos, dataPos);
      CloseUp(p, at, dataPos, e, at - 5 + size);
      recv.len := e - (dataPos - at);
    }

    /** The bytes from `dataPos` on move down to `at`, and `*sizep` becomes `size`. */
    static method CloseUp(p: array<byte>, at: nat, dataPos: nat, e: nat, size: nat)
      requires 5 <= at <= dataPos <= e <= p.Length
      modifies p
      ensures p[..e - (dataPos - at)]
           == [old(p[0])] + LittleEndian(size, 4) + (old(p[5..at]) + old(p[dataPos..e]))
    {
      hide LittleEndian;
      var len := e - (dataPos - at);
      ghost var kept, moved := p[..at], p[dataPos..e];
      MoveDown(p, at, dataPos, e - dataPos);
      ConcatCut(kept, moved, 5);
      PrefixSlices(p[..], len, 5, 5);
      assert p[..len] == kept + moved;
      assert p[0] == p[..len][0] == kept[0];
      WriteSize(p, size, len);
    }

    /** "Apply mask if necessary": only the frame's data changes. */
    method UnmaskFrame(at: nat, h: FrameHead)
      requires Valid() && at <= recv.len && h == ReadHead(recv.Contents()[at..])
      requires 0 < h.headerLen && at + h.headerLen + h.dataLen <= recv.len
      modifies recv.buf
      ensures Valid()
      ensures var b := old(recv.Contents()); var pos := at + h.headerLen;
              recv.Contents() == b[..pos] + (FrameData(b[at..], h) + b[pos + h.dataLen..])
    {
      hide ReadHead, Mask, FrameData;
      var pos, n := at + h.headerLen, h.dataLen;
      ghost var b := recv.Contents();
      FrameDataIn(b, at, h);
      if h.maskLen > 0 {
        MaskInPlace(recv.buf, recv.len, pos, n);
      } else {
        CutInThree(b, pos, pos + n);
      }
    }

    static lemma FrameDataIn(b: bytes, at: nat, h: FrameHead)
      requires at <= |b| && h == ReadHead(b[at..])
      requires 0 < h.headerLen && at + h.headerLen + h.dataLen <= |b|
      ensures var pos := at + h.headerLen;
              FrameData(b[at..], h) == if h.maskLen == 0 then b[pos..pos + h.dataLen]
                                       else Mask(b[pos..pos + h.dataLen], b[pos - 4..pos])
      ensures h.maskLen in {0, 4} && 2 + h.maskLen <= h.headerLen
    {
      SliceOfDrop(b, at, h.headerLen, h.headerLen + h.dataLen);
      if h.maskLen > 0 {
        SliceOfDrop(b, at, h.headerLen - 4, h.headerLen);
      }
    }

    /** The frame has been unmasked: it is handed over, or joins the record in front. */
    method TakeFrame(at: nat, h: FrameHead, flags: byte, reass: bool, ghost b: bytes)
      requires Valid() && recv.len == |b| && Ready(b, !noDefrag) && !Leaves(b, !noDefrag)
      requires at == Skip(b, !noDefrag) && h == ReadHead(b[at..]) && reass == Reassembling(b, !noDefrag)
      requires at < |b| && flags == b[at] && !(reass && !IsFirstFragment(flags) && at == 0)
      requires (ReadyBounds(b, !noDefrag); var pos := at + h.headerLen;
                recv.Contents() == b[..pos] + (FrameData(b[at..], h) + b[pos + h.dataLen..]))
      modifies this`messages, recv, recv.buf
      ensures Valid() && (recv.buf == old(recv.buf) || fresh(recv.buf))
      ensures DeliverStep(b, !noDefrag).Took?
      ensures recv.Contents() == DeliverStep(b, !noDefrag).rest
      ensures messages == old(messages) + DeliverStep(b, !noDefrag).out
    {
      hide ReadHead, FrameData, LittleEndian, Skip, Ready, Leaves, Stomped, DeliverStep, Reassembling, Record,
           StrayStep, StraySize, StrayMoved, MessageOf;
      ghost var was := recv.Contents();
      ReadyBounds(b, !noDefrag);
      var pos := at + h.headerLen;
      ghost var data, rest := FrameData(b[at..], h), b[pos + h.dataLen..];
      StepByPosition(b, !noDefrag, at, h, data, rest);
      ConcatParts(was, b[..pos], data, rest);
      assert was[0] == was[..pos][0] == b[..pos][0];
      if !reass {
        HandOver(pos, h.dataLen, flags, b[..pos], data, rest);
      } else if IsFirstFragment(flags) {
        BeginRecord(pos, h.dataLen);
      } else {
        PrefixSlices(was, pos, 5, at);
        PrefixSlices(b, pos, 5, at);
        JoinRecord(at, h, flags, data, rest);
      }
    }

    /** A frame that continues a message never begun. */
    method TakeStrayFrame(h: FrameHead, flags: byte, ghost b: bytes) returns (ok: bool)
      requires Valid() && recv.len == |b| && Ready(b, !noDefrag) && h == ReadHead(b)
      requires Reassembling(b, !noDefrag) && Skip(b, !noDefrag) == 0 && h.headerLen + h.dataLen < TWO_64
      requires flags == b[0] && !IsFirstFragment(flags)
      requires (assert b[0..] == b; FrameBounds(b, !noDefrag);
                recv.Contents() == b[..h.headerLen] + (FrameData(b, h) + b[h.headerLen + h.dataLen..]))
      modifies this`messages, recv, recv.buf
      ensures Valid() && recv.buf == old(recv.buf)
      ensures ok == DeliverStep(b, !noDefrag).Took?
      ensures !ok ==> DeliverStep(b, !noDefrag).Stopped? && messages == old(messages)
      ensures ok ==> recv.Contents() == DeliverStep(b, !noDefrag).rest
      ensures ok ==> messages == old(messages) + DeliverStep(b, !noDefrag).out
    {
      hide ReadHead, FrameData, LittleEndian, Skip, Ready, Leaves, Stomped, DeliverStep, Reassembling, Record,
           StrayStep, StraySize, StrayMoved, MessageOf;
      assert b[0..] == b;
      FrameBounds(b, !noDefrag);
      StepKind(b, !noDefrag);
      LeavesWhen(b, !noDefrag, 0, h);
      ghost var data, rest := FrameData(b, h), b[h.headerLen + h.dataLen..];
      ConcatAssoc(b[..h.headerLen], data, rest);
      ok := TakeStray(h, flags, b);
      if ok {
        StepByPosition(b, !noDefrag, 0, h, data, rest);
      }
    }

    /** A continuation of a message that was never begun: its bytes are moved to the front and four of them taken
        for the size. `ok` is false where the size or the message would lie behind the bytes in use. */
    method TakeStray(h: FrameHead, flags: byte, ghost b: bytes) returns (ok: bool)
      requires Valid() && recv.len == |b| > 0 && flags == b[0]
      requires 2 + h.maskLen <= h.headerLen && h.headerLen + h.dataLen <= |b| && (h.maskLen == 0 || h.maskLen == 4)
      requires recv.Contents() == b[..h.headerLen] + FrameData(b, h) + b[h.headerLen + h.dataLen..]
      modifies this`messages, recv, recv.buf
      ensures Valid() && recv.buf == old(recv.buf)
      ensures ok <==> |b| >= 5 && (b[0] >= 128 ==> 5 + StraySize(b, h) <= |b| - h.headerLen)
      ensures !ok ==> messages == old(messages)
      ensures ok ==> recv.Contents() == StrayStep(b, h).rest && messages == old(messages) + StrayStep(b, h).out
    {
      hide FrameData, LittleEndian, FromLittleEndian, StrayMoved, StraySize;
      var left := recv.len - h.headerLen;
      if recv.len < 5 {
        return false;
      }
      var size := CountStray(h, b);
      if flags >= 128 {
        if 5 + size > left {
          return false;
        }
        HandOverRecord(flags, size);
      }
      return true;
    }

    method CountStray(h: FrameHead, ghost b: bytes) returns (size: nat)
      requires Valid() && recv.len == |b| >= 5
      requires 2 + h.maskLen <= h.headerLen && h.headerLen + h.dataLen <= |b| && (h.maskLen == 0 || h.maskLen == 4)
      requires recv.Contents() == b[..h.headerLen] + FrameData(b, h) + b[h.headerLen + h.dataLen..]
      modifies recv, recv.buf
      ensures Valid() && recv.buf == old(recv.buf) && size == StraySize(b, h)
      ensures recv.len == |b| - h.headerLen
      ensures var moved := StrayMoved(b, h);
              recv.Contents() == ([moved[0]] + LittleEndian(size, 4) + moved[5..])[..recv.len]
    {
      hide FrameData, LittleEndian, FromLittleEndian;
      var p, e := recv.buf, recv.len;
      PrefixSlices(p[..], e, h.headerLen, h.headerLen);
      PrefixSlices(p[..], e, e - h.headerLen, e - h.headerLen);
      size := MoveAndCount(p, h.headerLen, e, h.dataLen);
      PrefixSlices(p[..], e, e - h.headerLen, e - h.headerLen);
      recv.len := e - h.headerLen;
    }

    /** The move to the front, then `*sizep += add` on what has come to lie there. */
    static method MoveAndCount(p: array<byte>, n: nat, e: nat, add: nat) returns (size: nat)
      requires n <= e && 5 <= e <= p.Length
      modifies p
      ensures var moved := old(p[n..e]) + old(p[e - n..e]);
              && size == (FromLittleEndian(moved[1..5]) + add) % TWO_32
              && p[..e] == [moved[0]] + LittleEndian(size, 4) + moved[5..]
    {
      hide LittleEndian, FromLittleEndian;
      MoveToFront(p, n, e);
      PrefixSlices(p[..], e, 1, 5);
      PrefixSlices(p[..], e, 5, 5);
      assert p[0] == p[..e][0];
      size := (FromLittleEndian(p[1..5]) + add) % TWO_32;
      WriteSize(p, size, e);
    }

    /** The moved bytes of a continuation that was never begun: those at the end are there a second time. */
    static method MoveToFront(p: array<byte>, n: nat, e: nat)
      requires n <= e <= p.Length
      modifies p
      ensures p[..e] == old(p[n..e]) + old(p[e - n..e])
    {
      MoveBytes(p, 0, n, e - n);
      assert p[e - n..e] == old(p[e - n..e]) by {
        CutTwice(old(p[..]), e - n, e);
        CutTwice(p[..], e - n, e);
        assert p[e - n..] == p[..][e - n..];
        assert old(p[e - n..]) == old(p[..])[e - n..];
      }
      CutTwice(p[..], e - n, e);
    }

    /** The message in front, as long as its record says, is handed over and removed. */
    method HandOverRecord(flags: byte, size: nat)
      requires Valid() && 5 + size <= recv.len
      modifies this`messages, recv, recv.buf
      ensures Valid() && recv.buf == old(recv.buf)
      ensures recv.Contents() == old(recv.Contents())[5 + size..]
      ensures messages == old(messages) + [MessageOf(flags, old(recv.Contents())[5..5 + size])]
    {
      hide MessageOf;
      PrefixSlices(recv.buf[..], recv.len, 5, 5 + size);
      HandleFrame(flags, recv.buf[5..5 + size]);
      recv.Remove(5 + size);
    }

    static lemma WrapLeaves(b: bytes, defrag: bool)
      requires Ready(b, defrag) && NextHead(b, defrag).headerLen + NextHead(b, defrag).dataLen >= TWO_64
      ensures Leaves(b, defrag)
    {
    }

    static lemma LeavesWhen(b: bytes, defrag: bool, at: nat, h: FrameHead)
      requires Ready(b, defrag) && at == Skip(b, defrag) && h == ReadHead(b[at..])
      requires h.headerLen + h.dataLen < TWO_64
      ensures at + 2 <= |b| && at + h.headerLen + h.dataLen <= |b|
      ensures 2 + h.maskLen <= h.headerLen && (h.maskLen == 0 || h.maskLen == 4)
      ensures Leaves(b, defrag) <==>
              Reassembling(b, defrag) && !IsFirstFragment(b[at]) && at == 0 &&
              (|b| < 5 || (b[0] >= 128 && 5 + StraySize(b, h) > |b| - h.headerLen))
    {
      hide Skip, ReadHead, StraySize, Reassembling;
      FrameBounds(b, defrag);
    }

    /** A frame that needs no reassembly: handed over and removed. */
    method HandOver(pos: nat, n: nat, flags: byte, ghost front: bytes, ghost data: bytes, ghost rest: bytes)
      requires Valid() && |front| == pos && |data| == n
      requires recv.Contents() == front + (data + rest)
      modifies this`messages, recv, recv.buf
      ensures Valid() && recv.buf == old(recv.buf)
      ensures recv.Contents() == rest && messages == old(messages) + [MessageOf(flags, data)]
    {
      hide MessageOf;
      ghost var was := recv.Contents();
      ConcatParts(was, front, data, rest);
      PrefixSlices(recv.buf[..], recv.len, pos, pos + n);
      assert recv.buf[pos..pos + n] == data;
      HandleFrame(flags, recv.buf[pos..pos + n]);
      assert recv.Contents() == was && was[pos + n..] == rest;
      recv.Remove(pos + n);
    }

    /** A continuation: its data joins the record, which is handed over if the frame is the last. */
    method JoinRecord(at: nat, h: FrameHead, flags: byte, ghost data: bytes, ghost rest: bytes)
      requires Valid() && 5 <= at && at + h.headerLen + h.dataLen <= recv.len
      requires recv.Contents()[at + h.headerLen..] == data + rest && |data| == h.dataLen
      modifies this`messages, recv, recv.buf
      ensures Valid() && recv.buf == old(recv.buf)
      ensures var whole := old(recv.Contents())[5..at] + data; var n := |whole| % TWO_32;
              if flags >= 128
              then recv.Contents() == whole[n..] + rest && messages == old(messages) + [MessageOf(flags, whole[..n])]
              else recv.Contents() == Record(old(recv.Contents())[0], whole) + rest && messages == old(messages)
    {
      hide LittleEndian;
      ghost var was := recv.Contents();
      ExtendRecord(at, at + h.headerLen, h.dataLen);
      ghost var whole := was[5..at] + data;
      ghost var front := [was[0]] + LittleEndian(|whole|, 4);
      ConcatAssoc(was[5..at], data, rest);
      ConcatAssoc(front, whole, rest);
      if flags >= 128 {
        var size := (at - 5 + h.dataLen) % TWO_32;
        RecordParts(recv.Contents(), front, whole, rest, size);
        HandOverRecord(flags, size);
      }
    }

    static lemma RecordParts(b: bytes, front: bytes, whole: bytes, rest: bytes, n: nat)
      requires |front| == 5 && n <= |whole| && b == front + (whole + rest)
      ensures b[5..5 + n] == whole[..n] && b[5 + n..] == whole[n..] + rest && 5 + n <= |b|
    {
      ConcatParts(b, front, whole, rest);
      ConcatCut(whole, rest, n);
      CutTwice(b, 5, 5 + n);
    }

    /** Where the frame to look at begins, and its header. */
    method FindFrame() returns (at: nat, h: FrameHead, reass: bool)
      requires Valid()
      ensures at == Skip(recv.Contents(), !noDefrag) && h == NextHead(recv.Contents(), !noDefrag)
      ensures reass == Reassembling(recv.Contents(), !noDefrag)
    {
      hide ReadHead, FromLittleEndian;
      ghost var b := recv.Contents();
      var p, bufLen := recv.buf, recv.len;
      reass := bufLen > 0 && IsFragment(p[0]) && !noDefrag;
      at := 0;
      if reass && !IsFirstFragment(p[0]) && bufLen >= 5 {
        PrefixSlices(p[..], bufLen, 1, 5);
        var size := FromLittleEndian(p[1..5]);
        if bufLen >= 5 + size {
          at := 5 + size;
        }
      }
      h := ReadHeadAt(p, at, bufLen - at);
      PrefixSlices(p[..], bufLen, at, at);
      assert b[at..] == p[at..at + (bufLen - at)];
    }

    /** mg_deliver_websocket_data */
    method Deliver() returns (r: Delivery)
      requires Valid()
      modifies this`messages, recv, recv.buf
      ensures Valid() && (recv.buf == old(recv.buf) || fresh(recv.buf))
      ensures r == match DeliverStep(old(recv.Contents()), !noDefrag)
                   case Waiting => NothingYet
                   case Stopped => Halted
                   case Took(_, _) => FrameTaken
      ensures r != FrameTaken ==> messages == old(messages)
      ensures r == NothingYet ==> recv.Contents() == old(recv.Contents())
      ensures r == FrameTaken ==> recv.Contents() == DeliverStep(old(recv.Contents()), !noDefrag).rest
      ensures r == FrameTaken ==> messages == old(messages) + DeliverStep(old(recv.Contents()), !noDefrag).out
    {
      hide ReadHead, FrameData, Skip, DeliverStep, Reassembling, Leaves;
      ghost var b := recv.Contents();
      StepKind(b, !noDefrag);
      var at, h, reass := FindFrame();
      var frameLen := (h.headerLen + h.dataLen) % TWO_64;
      if frameLen == 0 || frameLen > recv.len - at {
        return NothingYet;
      }
      if h.headerLen + h.dataLen >= TWO_64 {
        WrapLeaves(b, !noDefrag);
        return Halted;
      }
      LeavesWhen(b, !noDefrag, at, h);
      var flags := recv.buf[at];
      assert flags == b[at] && b[0..] == b;
      UnmaskFrame(at, h);
      if reass && !IsFirstFragment(flags) && at == 0 {
        var ok := TakeStrayFrame(h, flags, b);
        return if ok then FrameTaken else Halted;
      }
      TakeFrame(at, h, flags, reass, b);
      return FrameTaken;
    }

    /** What is still to come after `done`. */
    static ghost predicate Continues(all: Outcome, done: seq<Message>, later: Outcome) {
      all == later.(messages := done + later.messages)
    }

    /** The bytes that arrived are appended, then `do {} while (mg_deliver_websocket_data(nc))`.
        `ok` is false when a call would leave the bytes in use. */
    method OnReceive(piece: bytes) returns (ok: bool)
      requires Valid()
      modifies this`messages, recv, recv.buf
      ensures Valid() && (recv.buf == old(recv.buf) || fresh(recv.buf))
      ensures var o := Drain(old(recv.Contents()) + piece, !noDefrag);
              && ok == !o.stopped && messages == old(messages) + o.messages
              && (ok ==> recv.Contents() == o.buffer)
    {
      hide DeliverStep, Unparsed, Drain;
      var stored := recv.Append(piece, true);
      ghost var all := recv.Contents();
      ghost var done: seq<Message> := [];
      ghost var o := Drain(all, !noDefrag);
      assert [] + o.messages == o.messages;
      var r := FrameTaken;
      while r == FrameTaken
        invariant Valid() && (recv.buf == old(recv.buf) || fresh(recv.buf))
        invariant messages == old(messages) + done
        invariant r == NothingYet ==> o == Outcome(recv.Contents(), done, false)
        invariant r == Halted ==> o.stopped && o.messages == done
        invariant r == FrameTaken ==> Continues(o, done, Drain(recv.Contents(), !noDefrag))
        decreases r == FrameTaken, Unparsed(recv.Contents(), !noDefrag)
      {
        ghost var b := recv.Contents();
        r := Deliver();
        if r == FrameTaken {
          ghost var out := DeliverStep(b, !noDefrag).out;
          StepShrinks(b, !noDefrag);
          DrainUnfold(b, recv.Contents(), out, !noDefrag);
          ConcatAssoc(done, out, Drain(recv.Contents(), !noDefrag).messages);
          ConcatAssoc(old(messages), done, out);
          done := done + out;
        } else {
          DrainEnds(b, !noDefrag);
          assert done + [] == done;
        }
      }
      return r == NothingYet;
    }
  }

  /** A whole run of a connection: the pieces arrive one after the other. */
  method ReceiveAll(nc: Connection, pieces: seq<bytes>) returns (ok: bool)
    requires nc.Valid()
    modifies nc`messages, nc.recv, nc.recv.buf
    ensures nc.Valid()
    ensures var o := Arrivals(pieces, old(nc.recv.Contents()), !nc.noDefrag);
            && ok == !o.stopped && nc.messages == old(nc.messages) + o.messages
            && (ok ==> nc.recv.Contents() == o.buffer)
    decreases |pieces|
  {
    hide Drain;
    if pieces == [] {
      return true;
    }
    ghost var o := Drain(nc.recv.Contents() + pieces[0], !nc.noDefrag);
    ghost var was := nc.messages;
    ok := nc.OnReceive(pieces[0]);
    if ok {
      ConcatAssoc(was, o.messages, Arrivals(pieces[1..], o.buffer, !nc.noDefrag).messages);
      ok := ReceiveAll(nc, pieces[1..]);
    }
  }

  /** mg_send_websocket_frame on a client connection: header, key and data are appended to the send
      buffer and the data is then masked where it lies. */
  method SendClientFrame(out: Mbuf, f: ClientFrame)
    requires out.Valid() && f.Valid()
    modifies out, out.buf
    ensures out.Valid() && out.Contents() == old(out.Contents()) + Wire(f)
    ensures out.buf == old(out.buf) || fresh(out.buf)
  {
    hide SendHead, Mask, Wire, Xor;
    ghost var was := out.Contents();
    var head := SendHead(f.fin, f.opcode, |f.payload|, true);
    var n := out.Append(head, true);
    n := out.Append(f.key, true);
    var pos := out.len;
    n := out.Append(f.payload, true);
    MaskedWire(out.Contents(), was, f);
    MaskInPlace(out.buf, out.len, pos, |f.payload|);
  }

  /** Masking the payload where it lies leaves the frame's wire form behind what was there. */
  lemma MaskedWire(b: bytes, was: bytes, f: ClientFrame)
    requires f.Valid()
    requires b == was + SendHead(f.fin, f.opcode, |f.payload|, true) + f.key + f.payload
    ensures var pos := |b| - |f.payload|;
            && pos >= 4
            && b[..pos] + (Mask(b[pos..pos + |f.payload|], b[pos - 4..pos]) + b[pos + |f.payload|..]) == was + Wire(f)
  {
    hide SendHead, Mask;
    var head := SendHead(f.fin, f.opcode, |f.payload|, true);
    var pos := |b| - |f.payload|;
    SentParts(was, head, f.key, f.payload);
    var masked := Mask(f.payload, f.key);
    assert masked + [] == masked;
    ConcatAssoc(was, head, f.key);
    ConcatAssoc(was, head + f.key, masked);
  }

  lemma SentParts(was: bytes, head: bytes, key: Key, payload: bytes)
    ensures var all := was + head + key + payload; var pos := |was| + |head| + 4;
            && all[..pos] == was + head + key
            && all[pos - 4..pos] == key
            && all[pos..pos + |payload|] == payload
            && all[pos + |payload|..] == []
  {
    ConcatCut(was + head + key, payload, |was| + |head| + 4);
  }
}
