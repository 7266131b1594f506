/** What mg_deliver_websocket_data does to the receive buffer, as a function of its bytes,
    and what that means for a stream of masked, possibly fragmented client messages. */
module WebSocketReassembly {
  import opened Bytes
  import opened Endian
  import opened WebSocketFrames

  /** What the handler is given: MG_EV_WEBSOCKET_CONTROL_FRAME when `control`, else MG_EV_WEBSOCKET_FRAME. */
  datatype Message = Message(control: bool, flags: byte, data: bytes)

  function MessageOf(flags: byte, data: bytes): Message {
    Message(flags / 8 % 2 == 1, flags, data)
  }

  /** One call: no whole frame yet; a call that would read or write memory outside the bytes in use (see
      Leaves); or a frame consumed, leaving `rest` in the buffer and passing `out` to the handler. */
  datatype Step = Waiting | Stopped | Took(rest: bytes, out: seq<Message>)

  /** mg_is_ws_fragment */
  predicate IsFragment(flags: byte) { flags < 128 || flags % 16 == 0 }

  /** mg_is_ws_first_fragment */
  predicate IsFirstFragment(flags: byte) { flags < 128 && flags % 16 != 0 }

  predicate Reassembling(b: bytes, defrag: bool) {
    b != [] && IsFragment(b[0]) && defrag
  }

  /** The length of the partly reassembled message in front: flags, size record and data. */
  function Skip(b: bytes, defrag: bool): (n: nat)
    ensures n <= |b| && (n == 0 || n >= 5)
  {
    if Reassembling(b, defrag) && !IsFirstFragment(b[0]) && |b| >= 5 &&
       |b| >= 5 + FromLittleEndian(b[1..5])
    then 5 + FromLittleEndian(b[1..5]) else 0
  }

  /** A reassembly record: the flags kept, the size of the data so far in 32 bits, the data. */
  function Record(flags: byte, data: bytes): bytes {
    [flags] + LittleEndian(|data|, 4) + data
  }

  /** The header of the frame behind the record; `ready` when its last byte has arrived. */
  function NextHead(b: bytes, defrag: bool): FrameHead {
    ReadHead(b[Skip(b, defrag)..])
  }

  predicate Ready(b: bytes, defrag: bool) {
    var h := NextHead(b, defrag);
    var frameLen := (h.headerLen + h.dataLen) % TWO_64;
    0 < frameLen <= |b| - Skip(b, defrag)
  }

  /** A frame is there, but the code would leave the bytes in use: the frame's 64-bit length wrapped, so that its
      data is not in the buffer; or it continues a message that was never begun, and the size it is counted in,
      or the message handed over, lies behind them. */
  predicate Leaves(b: bytes, defrag: bool)
    requires Ready(b, defrag)
  {
    var skip := Skip(b, defrag);
    var h := NextHead(b, defrag);
    || h.headerLen + h.dataLen >= TWO_64
    || (Reassembling(b, defrag) && !IsFirstFragment(b[skip]) && skip == 0 &&
        (|b| < 5 || (b[0] >= 128 && 5 + StraySize(b, h) > |b| - h.headerLen)))
  }

  /** The frame's data, unmasked when the frame is masked. */
  function FrameData(f: bytes, h: FrameHead): bytes
    requires 2 + h.maskLen <= h.headerLen && h.headerLen + h.dataLen <= |f|
    requires h.maskLen == 0 || h.maskLen == 4
    ensures |FrameData(f, h)| == h.dataLen
  {
    var raw := f[h.headerLen..h.headerLen + h.dataLen];
    if h.maskLen == 0 then raw else Mask(raw, f[h.headerLen - 4..h.headerLen])
  }

  /** The size record of a first fragment is written over bytes 1 to 4 of the buffer before the data
      is moved: data that began before byte 5 loses what lay there. */
  function Stomped(data: bytes, at: nat): (r: bytes)
    ensures |r| == |data|
    ensures at >= 5 ==> r == data
  {
    seq(|data|, i requires 0 <= i < |data| => if at + i < 5 then 0 else data[i])
  }

  /** The buffer's bytes after a continuation that was never begun has been moved to the front: the header is
      gone, and the bytes at the end are there a second time. */
  function StrayMoved(b: bytes, h: FrameHead): (r: bytes)
    requires 2 + h.maskLen <= h.headerLen && h.headerLen + h.dataLen <= |b| && (h.maskLen == 0 || h.maskLen == 4)
    ensures |r| == |b|
  {
    var now := b[..h.headerLen] + FrameData(b, h) + b[h.headerLen + h.dataLen..];
    now[h.headerLen..] + now[|b| - h.headerLen..]
  }

  /** What is then read and written as the size of the message: bytes 1 to 4 of whatever is there. */
  function StraySize(b: bytes, h: FrameHead): (n: nat)
    requires 2 + h.maskLen <= h.headerLen && h.headerLen + h.dataLen <= |b| && (h.maskLen == 0 || h.maskLen == 4)
    requires |b| >= 5
    ensures n < TWO_32
  {
    (FromLittleEndian(StrayMoved(b, h)[1..5]) + h.dataLen) % TWO_32
  }

  /** A continuation that was never begun. */
  function StrayStep(b: bytes, h: FrameHead): Step
    requires 2 + h.maskLen <= h.headerLen && h.headerLen + h.dataLen <= |b| && (h.maskLen == 0 || h.maskLen == 4)
    requires |b| >= 5 && (b[0] >= 128 ==> 5 + StraySize(b, h) <= |b| - h.headerLen)
  {
    var moved, n := StrayMoved(b, h), StraySize(b, h);
    var now := ([moved[0]] + LittleEndian(n, 4) + moved[5..])[..|b| - h.headerLen];
    if b[0] >= 128 then Took(now[5 + n..], [MessageOf(b[0], now[5..5 + n])]) else Took(now, [])
  }

  /** mg_deliver_websocket_data. The size record counts modulo 2^32: where it has wrapped, only so many bytes are
      handed over and removed, and the others are left in the buffer. */
  function DeliverStep(b: bytes, defrag: bool): Step {
    var skip := Skip(b, defrag);
    if !Ready(b, defrag) then Waiting
    else if Leaves(b, defrag) then Stopped
    else
      var f := b[skip..];
      var h := ReadHead(f);
      var data := FrameData(f, h);
      var rest := f[h.headerLen + h.dataLen..];
      if !Reassembling(b, defrag) then
        Took(rest, [MessageOf(f[0], data)])
      else if IsFirstFragment(f[0]) then
        Took([b[0] - b[0] % 16] + LittleEndian(h.dataLen, 4) + Stomped(data + rest, skip + h.headerLen), [])
      else if skip == 0 then
        StrayStep(b, h)
      else
        var whole := b[5..skip] + data;
        if f[0] >= 128 then
          var n := |whole| % TWO_32;
          Took(whole[n..] + rest, [MessageOf(f[0], whole[..n])])
        else Took(Record(b[0], whole) + rest, [])
  }

  /** What a frame that is there implies about the bytes. */
  lemma FrameBounds(b: bytes, defrag: bool)
    requires Ready(b, defrag) && NextHead(b, defrag).headerLen + NextHead(b, defrag).dataLen < TWO_64
    ensures var skip := Skip(b, defrag); var h := ReadHead(b[skip..]);
            && h.maskLen in {0, 4} && 2 + h.maskLen <= h.headerLen
            && skip + h.headerLen + h.dataLen <= |b|
            && (!Reassembling(b, defrag) ==> skip == 0)
            && (skip == 0 ==> b[skip..] == b)
  {
  }

  lemma ReadyBounds(b: bytes, defrag: bool)
    requires Ready(b, defrag) && !Leaves(b, defrag)
    ensures var skip := Skip(b, defrag); var h := ReadHead(b[skip..]);
            && h.maskLen in {0, 4} && 2 + h.maskLen <= h.headerLen
            && skip + h.headerLen + h.dataLen <= |b|
            && (!Reassembling(b, defrag) ==> skip == 0)
            && (skip == 0 ==> b[skip..] == b)
  {
    hide StraySize, Skip, ReadHead;
    FrameBounds(b, defrag);
  }

  lemma StepKind(b: bytes, defrag: bool)
    ensures DeliverStep(b, defrag) == Waiting <==> !Ready(b, defrag)
    ensures DeliverStep(b, defrag) == Stopped <==> Ready(b, defrag) && Leaves(b, defrag)
  {
    hide ReadHead, FrameData, LittleEndian, Skip, Stomped, Record, Ready, Leaves, StraySize, StrayMoved;
    if Ready(b, defrag) && !Leaves(b, defrag) {
      ReadyBounds(b, defrag);
    }
  }

  /** The ways a frame is taken, in terms of positions in the buffer. */
  lemma StepByPosition(b: bytes, defrag: bool, at: nat, h: FrameHead, data: bytes, rest: bytes)
    requires Ready(b, defrag) && !Leaves(b, defrag)
    requires at == Skip(b, defrag) && h == ReadHead(b[at..])
    requires (ReadyBounds(b, defrag); data == FrameData(b[at..], h) && rest == b[at + h.headerLen + h.dataLen..])
    ensures !Reassembling(b, defrag) ==> DeliverStep(b, defrag) == Took(rest, [MessageOf(b[0], data)])
    ensures Reassembling(b, defrag) && IsFirstFragment(b[at]) ==>
              DeliverStep(b, defrag) ==
              Took([b[0] - b[0] % 16] + LittleEndian(h.dataLen, 4) + Stomped(data + rest, at + h.headerLen), [])
    ensures Reassembling(b, defrag) && !IsFirstFragment(b[at]) && at > 0 ==>
              var whole := b[5..at] + data; var n := |whole| % TWO_32;
              DeliverStep(b, defrag) ==
              if b[at] >= 128 then Took(whole[n..] + rest, [MessageOf(b[at], whole[..n])])
              else Took(Record(b[0], whole) + rest, [])
    ensures Reassembling(b, defrag) && !IsFirstFragment(b[at]) && at == 0 ==>
              && |b| >= 5 && (b[0] >= 128 ==> 5 + StraySize(b, h) <= |b| - h.headerLen)
              && DeliverStep(b, defrag) == StrayStep(b, h)
  {
    hide ReadHead, FrameData, LittleEndian, Skip, Stomped, Record, StrayStep, StraySize, StrayMoved;
    ReadyBounds(b, defrag);
    assert b[at..][h.headerLen + h.dataLen..] == rest;
    assert b[at..][0] == b[at];
  }

  // ---------- The loop ends ----------

  /** Every call that takes a frame leaves less: bytes, or bytes that are not behind a record. */
  function Unparsed(b: bytes, defrag: bool): nat {
    |b| + (if Skip(b, defrag) == 0 then 5 else 0)
  }

  lemma SkipOfRecord(flags: byte, len: nat, tail: bytes)
    requires flags % 16 == 0 && len % TWO_32 <= |tail|
    ensures Skip([flags] + LittleEndian(len, 4) + tail, true) == 5 + len % TWO_32
  {
    var b := [flags] + LittleEndian(len, 4) + tail;
    assert b[1..5] == LittleEndian(len, 4);
    assert Power256(4) == TWO_32;
    LittleEndianLow(len / TWO_32, len % TWO_32, 4);
    LittleEndianRoundTrip(len % TWO_32, 4);
  }

  /** After a first fragment the buffer is a record of its data, then the bytes behind the frame. */
  lemma FirstFragmentShrinks(b: bytes, defrag: bool, f: bytes, h: FrameHead, moved: bytes)
    requires DeliverStep(b, defrag).Took? && Reassembling(b, defrag)
    requires f == b[Skip(b, defrag)..] && h == ReadHead(f) && IsFirstFragment(f[0])
    requires |moved| == |f| - h.headerLen
    requires DeliverStep(b, defrag).rest == [b[0] - b[0] % 16] + LittleEndian(h.dataLen, 4) + moved
    ensures Unparsed(DeliverStep(b, defrag).rest, defrag) < Unparsed(b, defrag)
  {
    hide ReadHead, LittleEndian, DeliverStep, Leaves, Ready;
    StepKind(b, defrag);
    ReadyBounds(b, defrag);
    var flags: byte := b[0] - b[0] % 16;
    SkipOfRecord(flags, h.dataLen, moved);
  }

  lemma ContinuationShrinks(b: bytes, defrag: bool, f: bytes, h: FrameHead, whole: bytes, rest: bytes)
    requires DeliverStep(b, defrag).Took? && Reassembling(b, defrag) && Skip(b, defrag) > 0
    requires f == b[Skip(b, defrag)..] && h == ReadHead(f) && !IsFirstFragment(f[0])
    requires |whole| == Skip(b, defrag) - 5 + h.dataLen && |rest| == |f| - h.headerLen - h.dataLen
    requires DeliverStep(b, defrag).rest == Record(b[0], whole) + rest
    ensures Unparsed(DeliverStep(b, defrag).rest, defrag) < Unparsed(b, defrag)
  {
    hide ReadHead, LittleEndian, DeliverStep, Leaves, Ready;
    StepKind(b, defrag);
    ReadyBounds(b, defrag);
    SkipOfRecord(b[0], |whole|, whole + rest);
    ConcatAssoc([b[0]] + LittleEndian(|whole|, 4), whole, rest);
  }

  lemma StepShrinks(b: bytes, defrag: bool)
    requires DeliverStep(b, defrag).Took?
    ensures Unparsed(DeliverStep(b, defrag).rest, defrag) < Unparsed(b, defrag)
  {
    hide ReadHead, LittleEndian, FrameData, Record, Leaves, Ready, DeliverStep, Reassembling, Skip, StrayMoved,
         StraySize, Stomped;
    StepKind(b, defrag);
    ReadyBounds(b, defrag);
    var skip := Skip(b, defrag);
    var f := b[skip..];
    var h := ReadHead(f);
    var data := FrameData(f, h);
    var rest := b[skip + h.headerLen + h.dataLen..];
    StepByPosition(b, defrag, skip, h, data, rest);
    if Reassembling(b, defrag) {
      if IsFirstFragment(f[0]) {
        FirstFragmentShrinks(b, defrag, f, h, Stomped(data + rest, skip + h.headerLen));
      } else if skip > 0 && f[0] < 128 {
        ContinuationShrinks(b, defrag, f, h, b[5..skip] + data, rest);
      }
    }
  }

  // ---------- A run: bytes arrive, the handler loop drains what it can ----------

  datatype Outcome = Outcome(buffer: bytes, messages: seq<Message>, stopped: bool)

  /** `do {} while (mg_deliver_websocket_data(nc))` */
  function Drain(b: bytes, defrag: bool): Outcome
    decreases Unparsed(b, defrag)
  {
    match DeliverStep(b, defrag)
    case Waiting => Outcome(b, [], false)
    case Stopped => Outcome(b, [], true)
    case Took(rest, out) =>
      StepShrinks(b, defrag);
      var o := Drain(rest, defrag);
      o.(messages := out + o.messages)
  }

  /** Every piece is appended to the buffer and the buffer drained; a stopped run stays stopped. */
  function Arrivals(pieces: seq<bytes>, b: bytes, defrag: bool): Outcome {
    if pieces == [] then Outcome(b, [], false)
    else
      var o := Drain(b + pieces[0], defrag);
      if o.stopped then o
      else
        var later := Arrivals(pieces[1..], o.buffer, defrag);
        later.(messages := o.messages + later.messages)
  }

  // ---------- Frames of messages ----------

  datatype Part = Part(key: Key, payload: bytes)

  /** The lower half of a frame's first byte. */
  type Opcode = b: int | 0 <= b < 16 witness 0

  /** A message as a client sends it: one frame, or a first fragment and continuations. */
  datatype ClientMessage = ClientMessage(opcode: Opcode, first: Part, more: seq<Part>)

  function Joined(parts: seq<Part>): bytes {
    if parts == [] then [] else parts[0].payload + Joined(parts[1..])
  }

  predicate ValidMessage(m: ClientMessage) {
    && 0 < m.opcode
    && if m.more == [] then |m.first.payload| + 14 < TWO_64
       else |m.first.payload| + |Joined(m.more)| < TWO_32
  }

  function Continuations(parts: seq<Part>): seq<ClientFrame> {
    if parts == [] then []
    else [ClientFrame(|parts| == 1, 0, parts[0].key, parts[0].payload)] + Continuations(parts[1..])
  }

  function Frames(m: ClientMessage): seq<ClientFrame> {
    [ClientFrame(m.more == [], m.opcode, m.first.key, m.first.payload)] + Continuations(m.more)
  }

  /** The one call of the handler the message must cause: a fragmented message is given with the
      flags of its last frame. */
  function Expected(m: ClientMessage): Message {
    if m.more == [] then MessageOf(128 + m.opcode, m.first.payload)
    else MessageOf(128, m.first.payload + Joined(m.more))
  }

  // ---------- The receiver frame by frame ----------

  /** What has been reassembled of the current message, if anything. */
  datatype Partial = Idle | Gathered(data: bytes)

  function Front(p: Partial): bytes {
    match p
    case Idle => []
    case Gathered(data) => Record(0, data)
  }

  /** A frame the protocol allows here. */
  predicate Shaped(p: Partial, f: ClientFrame) {
    f.Valid() && (f.opcode == 0 <==> p.Gathered?)
  }

  /** With it the data gathered is more than the 32-bit size record can count. */
  predicate TooLong(p: Partial, f: ClientFrame) {
    match p
    case Idle => !f.fin && |f.payload| >= TWO_32
    case Gathered(data) => |data| + |f.payload| >= TWO_32
  }

  predicate Allowed(p: Partial, f: ClientFrame) { Shaped(p, f) && !TooLong(p, f) }

  predicate Counted(p: Partial) { p.Gathered? ==> |p.data| < TWO_32 }

  function After(p: Partial, f: ClientFrame): Partial {
    if f.fin then Idle
    else match p
         case Idle => Gathered(f.payload)
         case Gathered(data) => Gathered(data + f.payload)
  }

  function Output(p: Partial, f: ClientFrame): seq<Message>
    requires f.opcode < 16
  {
    if !f.fin then []
    else match p
         case Idle => [MessageOf(128 + f.opcode, f.payload)]
         case Gathered(data) => [MessageOf(128, data + f.payload)]
  }

  /** The buffer shows `p` and then bytes that agree with the frame `f` as far as they go. */
  predicate Shows(b: bytes, p: Partial, f: ClientFrame)
    requires f.Valid()
  {
    && Front(p) <= b
    && forall i :: 0 <= i < |b| - |Front(p)| && i < |Wire(f)| ==> b[|Front(p)| + i] == Wire(f)[i]
  }

  lemma SkipIsFront(b: bytes, p: Partial, f: ClientFrame)
    requires Shaped(p, f) && Shows(b, p, f) && Counted(p)
    ensures Skip(b, true) == |Front(p)|
    ensures |b| > |Front(p)| ==> b[|Front(p)|] == Flags(f.fin, f.opcode)
    ensures |b| > 0 ==> (Reassembling(b, true) <==> p.Gathered? || !f.fin)
  {
    hide LittleEndian, FromLittleEndian, Mask, ReadHead;
    var head := SendHead(f.fin, f.opcode, |f.payload|, true);
    assert Wire(f)[0] == head[0];
    if p.Gathered? {
      RecordSkipped(b, p.data);
    }
  }

  lemma RecordSkipped(b: bytes, data: bytes)
    requires Record(0, data) <= b && |data| < TWO_32
    ensures Skip(b, true) == |Record(0, data)| && b[0] == 0
  {
    hide LittleEndian, FromLittleEndian, Skip;
    var tail := b[5 + |data|..];
    assert b == Record(0, data) + tail;
    ConcatAssoc([0] + LittleEndian(|data|, 4), data, tail);
    SkipOfRecord(0, |data|, data + tail);
  }

  /** Until the frame's last byte is there, a call changes nothing. */
  lemma PartialFrameWaits(b: bytes, p: Partial, f: ClientFrame)
    requires Shaped(p, f) && Shows(b, p, f) && Counted(p)
    requires |b| < |Front(p)| + |Wire(f)|
    ensures DeliverStep(b, true) == Waiting
  {
    hide ReadHead, Skip, Wire, Front, Mask;
    SkipIsFront(b, p, f);
    var tail := b[|Front(p)|..];
    assert forall i :: 0 <= i < |tail| ==> tail[i] == b[|Front(p)| + i];
    HeadOfWire(f, tail);
    WireLength(f);
  }

  lemma WireLength(f: ClientFrame)
    requires f.Valid()
    ensures |Wire(f)| == |SendHead(f.fin, f.opcode, |f.payload|, true)| + 4 + |f.payload| < TWO_64
  {
  }

  lemma WireSlices(f: ClientFrame, rest: bytes)
    requires f.Valid()
    ensures var n := |SendHead(f.fin, f.opcode, |f.payload|, true)| + 4;
            var w := Wire(f) + rest;
            && w[n - 4..n] == f.key
            && w[n..n + |f.payload|] == Mask(f.payload, f.key)
            && w[n + |f.payload|..] == rest
            && w[0] == Flags(f.fin, f.opcode)
  {
    hide Mask;
    var head := SendHead(f.fin, f.opcode, |f.payload|, true);
    var w := Wire(f) + rest;
    assert w[..|head|] == head;
    assert w[0] == head[0];
  }

  lemma FrameDataOfWire(f: ClientFrame, rest: bytes)
    requires f.Valid()
    ensures var n := |SendHead(f.fin, f.opcode, |f.payload|, true)| + 4;
            var w := Wire(f) + rest;
            && ReadHead(w) == FrameHead(n, 4, |f.payload|)
            && FrameData(w, ReadHead(w)) == f.payload
            && w[n + |f.payload|..] == rest
            && w[0] == Flags(f.fin, f.opcode)
  {
    hide Wire, SendHead, Mask, ReadHead;
    HeadOfWire(f, Wire(f) + rest);
    WireSlices(f, rest);
    WireLength(f);
    MaskTwice(f.payload, f.key);
  }

  lemma ConcatShows<T>(b: seq<T>, front: seq<T>, w: seq<T>, rest: seq<T>)
    requires b == front + (w + rest)
    ensures front <= b && b[|front|..] == w + rest && |b| == |front| + |w| + |rest|
    ensures forall i :: 0 <= i < |w| ==> b[|front| + i] == w[i]
  {
  }

  lemma WholeFrameReady(b: bytes, p: Partial, f: ClientFrame, rest: bytes)
    requires Shaped(p, f) && Counted(p) && b == Front(p) + (Wire(f) + rest)
    ensures Skip(b, true) == |Front(p)| && b[|Front(p)|..] == Wire(f) + rest
    ensures Ready(b, true) && !Leaves(b, true)
    ensures Reassembling(b, true) <==> p.Gathered? || !f.fin
    ensures IsFirstFragment((Wire(f) + rest)[0]) <==> p.Idle? && !f.fin
  {
    hide ReadHead, Skip, Wire, Front, Mask, FrameData, Record, Reassembling, SendHead, StraySize;
    ConcatShows(b, Front(p), Wire(f), rest);
    WireLength(f);
    SkipIsFront(b, p, f);
    FrameDataOfWire(f, rest);
    SkipForm(p);
  }

  lemma SkipForm(p: Partial)
    ensures |Front(p)| == if p.Idle? then 0 else 5 + |p.data|
    ensures p.Gathered? ==> Front(p)[0] == 0 && Front(p)[5..] == p.data
  {
  }

  /** A whole frame in front is taken off the buffer and does to the record what `After` says, as long as the
      size record can count the message. */
  lemma WholeFrameTaken(b: bytes, p: Partial, f: ClientFrame, rest: bytes)
    requires Allowed(p, f) && b == Front(p) + (Wire(f) + rest)
    ensures DeliverStep(b, true) == Took(Front(After(p, f)) + rest, Output(p, f))
  {
    hide ReadHead, Skip, Wire, Front, Mask, FrameData, Ready, Leaves, Reassembling, Record, DeliverStep;
    SkipForm(p);
    assert [] + rest == rest;
    match p
    case Idle =>
      FrontOfIdle();
      if f.fin {
        TakenWhole(b, f, rest);
      } else {
        TakenFirst(b, f, rest);
        RecordIsFront(f.payload);
      }
    case Gathered(data) =>
      TakenLater(b, data, f, rest);
      WholeFits(data + f.payload);
      FrontOfIdle();
      RecordIsFront(data + f.payload);
  }

  lemma FrontOfIdle()
    ensures Front(Idle) == []
  {
  }

  lemma RecordIsFront(data: bytes)
    ensures Front(Gathered(data)) == Record(0, data)
  {
  }

  lemma WholeFits(whole: bytes)
    ensures |whole| < TWO_32 ==> whole[..|whole| % TWO_32] == whole && whole[|whole| % TWO_32..] == []
  {
  }

  lemma TakenWhole(b: bytes, f: ClientFrame, rest: bytes)
    requires Shaped(Idle, f) && b == Front(Idle) + (Wire(f) + rest) && f.fin
    ensures DeliverStep(b, true) == Took(rest, [MessageOf(128 + f.opcode, f.payload)])
  {
    hide ReadHead, Skip, Wire, Mask, FrameData, Ready, Leaves, Reassembling;
    WholeFrameReady(b, Idle, f, rest);
    FrameDataOfWire(f, rest);
    assert b == Wire(f) + rest;
  }

  /** A first fragment of any length: its size record counts modulo 2^32. */
  lemma TakenFirst(b: bytes, f: ClientFrame, rest: bytes)
    requires Shaped(Idle, f) && b == Front(Idle) + (Wire(f) + rest) && !f.fin
    ensures DeliverStep(b, true) == Took(Record(0, f.payload) + rest, [])
  {
    hide ReadHead, Skip, Wire, Mask, FrameData, Ready, Leaves, LittleEndian, SendHead, Reassembling;
    WholeFrameReady(b, Idle, f, rest);
    FrameDataOfWire(f, rest);
    assert b == Wire(f) + rest;
    assert Stomped(f.payload + rest, |SendHead(f.fin, f.opcode, |f.payload|, true)| + 4) == f.payload + rest;
    ConcatAssoc([0] + LittleEndian(|f.payload|, 4), f.payload, rest);
  }

  /** A continuation, whatever the length of the message: on the last one as many bytes are handed over as the
      32-bit record says, and the others stay in front of what follows. */
  lemma TakenLater(b: bytes, data: bytes, f: ClientFrame, rest: bytes)
    requires Shaped(Gathered(data), f) && |data| < TWO_32 && b == Front(Gathered(data)) + (Wire(f) + rest)
    ensures var whole := data + f.payload; var n := |whole| % TWO_32;
            DeliverStep(b, true) == if f.fin then Took(whole[n..] + rest, [MessageOf(128, whole[..n])])
                                    else Took(Record(0, whole) + rest, [])
  {
    hide ReadHead, Skip, Wire, Mask, FrameData, Ready, Leaves, Reassembling, Record, Front;
    var p := Gathered(data);
    WholeFrameReady(b, p, f, rest);
    FrameDataOfWire(f, rest);
    SkipForm(p);
    ConcatCut(Front(p), Wire(f) + rest, 5);
    assert b[5..5 + |data|] == data;
    assert b[0] == Front(p)[0] == 0;
  }

  // ---------- Whole streams ----------

  function WireAll(fs: seq<ClientFrame>): bytes
    requires forall f <- fs :: f.Valid()
  {
    if fs == [] then [] else Wire(fs[0]) + WireAll(fs[1..])
  }

  /** The frames may follow one another from `p` on, and the last one ends a message. */
  predicate Follows(p: Partial, fs: seq<ClientFrame>)
    ensures Follows(p, fs) ==> forall f <- fs :: f.Valid()
    decreases |fs|
  {
    if fs == [] then p == Idle else Allowed(p, fs[0]) && Follows(After(p, fs[0]), fs[1..])
  }

  function Outputs(p: Partial, fs: seq<ClientFrame>): seq<Message>
    requires Follows(p, fs)
    decreases |fs|
  {
    if fs == [] then [] else Output(p, fs[0]) + Outputs(After(p, fs[0]), fs[1..])
  }

  /** `q` holds no whole frame: nothing but the beginning of the next one. */
  predicate Short(q: bytes, fs: seq<ClientFrame>)
    requires forall f <- fs :: f.Valid()
  {
    if fs == [] then q == [] else |q| < |Wire(fs[0])|
  }

  lemma ShortWaits(p: Partial, fs: seq<ClientFrame>, q: bytes, future: bytes)
    requires Follows(p, fs) && q + future == WireAll(fs) && Short(q, fs)
    ensures Drain(Front(p) + q, true) == Outcome(Front(p) + q, [], false)
  {
    hide Wire, Record;
    if fs == [] {
      assert Front(p) + q == [];
    } else {
      var b := Front(p) + q;
      forall i | 0 <= i < |q|
        ensures b[|Front(p)| + i] == Wire(fs[0])[i]
      {
        assert q[i] == (q + future)[i];
      }
      PartialFrameWaits(b, p, fs[0]);
    }
  }

  /** Draining takes every whole frame that has arrived, in order, and keeps the rest. */
  lemma {:induction false} DrainTakesWholeFrames(p: Partial, fs: seq<ClientFrame>, q: bytes, future: bytes)
    returns (p': Partial, fs': seq<ClientFrame>, q': bytes)
    requires Follows(p, fs) && q + future == WireAll(fs)
    ensures Follows(p', fs') && q' + future == WireAll(fs') && Short(q', fs')
    ensures |fs'| <= |fs|
    ensures var o := Drain(Front(p) + q, true);
            && o.buffer == Front(p') + q' && !o.stopped
            && Outputs(p, fs) == o.messages + Outputs(p', fs')
    decreases |fs|
  {
    if Short(q, fs) {
      ShortWaits(p, fs, q, future);
      p', fs', q' := p, fs, q;
      assert Outputs(p, fs) == [] + Outputs(p, fs);
    } else if fs == [] {
      assert false;
    } else {
      var f := fs[0];
      var w := Wire(f);
      var rest := q[|w|..];
      WholeFirst(q, future, w, WireAll(fs[1..]));
      var p1 := After(p, f);
      var b := Front(p) + q;
      WholeFrameTaken(b, p, f, rest);
      p', fs', q' := DrainTakesWholeFrames(p1, fs[1..], rest, future);
      DrainUnfold(b, Front(p1) + rest, Output(p, f), true);
      ConcatAssoc(Output(p, f), Drain(Front(p1) + rest, true).messages, Outputs(p', fs'));
    }
  }

  lemma WholeFirst<T>(q: seq<T>, future: seq<T>, w: seq<T>, tail: seq<T>)
    requires q + future == w + tail && |q| >= |w|
    ensures q == w + q[|w|..] && q[|w|..] + future == tail
  {
    assert (q + future)[..|w|] == w;
    assert (q + future)[|w|..] == tail;
  }

  lemma DrainUnfold(b: bytes, rest: bytes, out: seq<Message>, defrag: bool)
    requires DeliverStep(b, defrag) == Took(rest, out)
    ensures var o := Drain(rest, defrag);
            Drain(b, defrag) == o.(messages := out + o.messages)
  {
  }

  lemma DrainEnds(b: bytes, defrag: bool)
    requires !DeliverStep(b, defrag).Took?
    ensures Drain(b, defrag) == Outcome(b, [], DeliverStep(b, defrag).Stopped?)
  {
  }

  lemma ShortAndWhole(q: bytes, fs: seq<ClientFrame>)
    requires forall f <- fs :: f.Valid()
    requires q == WireAll(fs) && Short(q, fs)
    ensures fs == []
  {
  }

  lemma {:induction false} ArrivalsDeliver(p: Partial, fs: seq<ClientFrame>, q: bytes, pieces: seq<bytes>)
    requires Follows(p, fs) && q + Flatten(pieces) == WireAll(fs) && Short(q, fs)
    ensures Arrivals(pieces, Front(p) + q, true) == Outcome([], Outputs(p, fs), false)
    decreases |pieces|
  {
    if pieces == [] {
      assert q == WireAll(fs);
      ShortAndWhole(q, fs);
      assert Front(p) + q == [];
    } else {
      var piece, later := pieces[0], pieces[1..];
      ConcatAssoc(q, piece, Flatten(later));
      var p', fs', q' := DrainTakesWholeFrames(p, fs, q + piece, Flatten(later));
      ConcatAssoc(Front(p), q, piece);
      ArrivalsDeliver(p', fs', q', later);
    }
  }

  // ---------- Messages ----------

  function AllFrames(ms: seq<ClientMessage>): seq<ClientFrame> {
    if ms == [] then [] else Frames(ms[0]) + AllFrames(ms[1..])
  }

  function AllExpected(ms: seq<ClientMessage>): seq<Message> {
    if ms == [] then [] else [Expected(ms[0])] + AllExpected(ms[1..])
  }

  lemma FollowsCons(p: Partial, f: ClientFrame, fs: seq<ClientFrame>)
    requires Allowed(p, f) && Follows(After(p, f), fs)
    ensures Follows(p, [f] + fs)
    ensures Outputs(p, [f] + fs) == Output(p, f) + Outputs(After(p, f), fs)
  {
    assert ([f] + fs)[0] == f && ([f] + fs)[1..] == fs;
  }

  lemma {:induction false} ContinuationsFollow(data: bytes, parts: seq<Part>, fs: seq<ClientFrame>)
    requires parts != [] && |data| + |Joined(parts)| < TWO_32
    requires Follows(Idle, fs)
    ensures Follows(Gathered(data), Continuations(parts) + fs)
    ensures Outputs(Gathered(data), Continuations(parts) + fs)
         == [MessageOf(128, data + Joined(parts))] + Outputs(Idle, fs)
    decreases |parts|
  {
    hide Follows, Outputs;
    var part := parts[0];
    var f := ClientFrame(|parts| == 1, 0, part.key, part.payload);
    var more := Continuations(parts[1..]) + fs;
    ConcatAssoc([f], Continuations(parts[1..]), fs);
    ConcatAssoc(data, part.payload, Joined(parts[1..]));
    if |parts| == 1 {
      assert more == fs;
      assert part.payload + [] == part.payload;
      FollowsCons(Gathered(data), f, fs);
    } else {
      ContinuationsFollow(data + part.payload, parts[1..], fs);
      FollowsCons(Gathered(data), f, more);
      var later := Outputs(Gathered(data + part.payload), more);
      assert [] + later == later;
    }
  }

  lemma MessageFollows(m: ClientMessage, fs: seq<ClientFrame>)
    requires ValidMessage(m) && Follows(Idle, fs)
    ensures Follows(Idle, Frames(m) + fs)
    ensures Outputs(Idle, Frames(m) + fs) == [Expected(m)] + Outputs(Idle, fs)
  {
    hide Follows, Outputs;
    var f := ClientFrame(m.more == [], m.opcode, m.first.key, m.first.payload);
    var more := Continuations(m.more) + fs;
    ConcatAssoc([f], Continuations(m.more), fs);
    if m.more == [] {
      assert more == fs;
      FollowsCons(Idle, f, fs);
    } else {
      ContinuationsFollow(m.first.payload, m.more, fs);
      FollowsCons(Idle, f, more);
      var later := Outputs(Gathered(m.first.payload), more);
      assert [] + later == later;
    }
  }

  lemma {:induction false} MessagesFollow(ms: seq<ClientMessage>)
    requires forall m <- ms :: ValidMessage(m)
    ensures Follows(Idle, AllFrames(ms))
    ensures Outputs(Idle, AllFrames(ms)) == AllExpected(ms)
  {
    if ms != [] {
      MessagesFollow(ms[1..]);
      MessageFollows(ms[0], AllFrames(ms[1..]));
    }
  }

  /** Every stream of client messages, each sent whole or in any masked fragments, and cut into
      arrivals in any way, reaches the handler message by message, each once and complete, in
      order, and leaves the buffer empty. */
  lemma EveryMessageOnce(ms: seq<ClientMessage>, pieces: seq<bytes>)
    requires forall m <- ms :: ValidMessage(m)
    requires (MessagesFollow(ms); Flatten(pieces) == WireAll(AllFrames(ms)))
    ensures Arrivals(pieces, [], true) == Outcome([], AllExpected(ms), false)
  {
    MessagesFollow(ms);
    var fs := AllFrames(ms);
    assert Front(Idle) + [] == [];
    assert [] + Flatten(pieces) == WireAll(fs);
    ArrivalsDeliver(Idle, fs, [], pieces);
  }

  // ---------- Examples ----------

  /** A whole message is given with its own flags, and as a control frame exactly for opcodes 8 to 15. */
  lemma ExpectedForm(m: ClientMessage)
    ensures m.more == [] ==> Expected(m) == Message(m.opcode >= 8, 128 + m.opcode, m.first.payload)
    ensures m.more != [] ==> Expected(m) == Message(false, 128, m.first.payload + Joined(m.more))
  {
  }

  /** The masked "Hello" of section 5.7 of RFC 6455 is unmasked and handed over, and the buffer is empty. */
  lemma HelloDelivered()
    ensures DeliverStep([0x81, 0x85, 0x37, 0xfa, 0x21, 0x3d, 0x7f, 0x9f, 0x4d, 0x51, 0x58], true)
         == Took([], [Message(false, 0x81, HELLO)])
  {
    hide Wire, DeliverStep;
    HelloFrame();
    var f := ClientFrame(true, 1, [0x37, 0xfa, 0x21, 0x3d], HELLO);
    var b := Wire(f);
    FrontOfIdle();
    assert [] + (b + []) == b;
    WholeFrameTaken(b, Idle, f, []);
  }

  lemma FourBytes(s: bytes)
    requires |s| == 4
    ensures FromLittleEndian(s) == s[0] + 256 * (s[1] + 256 * (s[2] + 256 * (s[3] as int)))
  {
    assert s[1..][1..] == s[2..] && s[2..][1..] == s[3..] && s[3..][1..] == [];
    assert FromLittleEndian(s[3..]) == s[3] as int + 256 * FromLittleEndian([]);
  }

  lemma SmallSize(n: byte)
    ensures FromLittleEndian([n, 0, 0, 0]) == n as int && LittleEndian(n as int, 4) == [n, 0, 0, 0]
  {
    hide LittleEndian, FromLittleEndian;
    FourBytes([n, 0, 0, 0]);
    LittleEndianOfNumber([n, 0, 0, 0]);
  }

  /** The unmasked fragment "Hel" of section 5.7 of RFC 6455. */
  const HEL_FRAGMENT: bytes := [0x01, 0x03, 0x48, 0x65, 0x6c]

  lemma HelHead()
    ensures var b, h := HEL_FRAGMENT, FrameHead(2, 0, 3);
            && Skip(b, true) == 0 && b[0..] == b && ReadHead(b) == h && Reassembling(b, true) && Ready(b, true)
            && !Leaves(b, true) && IsFirstFragment(b[0]) && FrameData(b, h) == [0x48, 0x65, 0x6c] && b[5..] == []
  {
    hide FromLittleEndian, StraySize;
    var b := HEL_FRAGMENT;
    assert b[0..] == b && b[2..5] == [0x48, 0x65, 0x6c];
    assert Skip(b, true) == 0;
    assert ReadHead(b) == FrameHead(2, 0, 3);
  }

  /** Its data lies where the size record is written, and zeros are kept of it. */
  lemma HelFragment()
    ensures DeliverStep(HEL_FRAGMENT, true) == Took([0, 3, 0, 0, 0, 0, 0, 0], [])
  {
    hide LittleEndian, FromLittleEndian, Skip, ReadHead, Ready, Leaves, FrameData, Stomped, Reassembling;
    HelHead();
    SmallSize(3);
    HelKept();
    assert [0] + [3, 0, 0, 0] + [0, 0, 0] == [0, 3, 0, 0, 0, 0, 0, 0];
  }

  lemma HelKept()
    ensures Stomped([0x48, 0x65, 0x6c] + [], 2) == [0, 0, 0]
  {
  }

  /** A last fragment of a message that was never begun, of the one byte 9. */
  const STRAY_FRAGMENT: bytes := [0x80, 1, 9, 0, 0, 0, 0, 5, 6, 7, 8]

  lemma StrayHead()
    ensures var b, h := STRAY_FRAGMENT, FrameHead(2, 0, 1);
            && Skip(b, true) == 0 && b[0..] == b && ReadHead(b) == h && Reassembling(b, true) && Ready(b, true)
            && !IsFirstFragment(b[0]) && FrameData(b, h) == [9]
            && StrayMoved(b, h) == [9, 0, 0, 0, 0, 5, 6, 7, 8, 7, 8] && StraySize(b, h) == 1
  {
    hide FromLittleEndian;
    var b, h := STRAY_FRAGMENT, FrameHead(2, 0, 1);
    assert b[0..] == b && b[1..5] == [1, 9, 0, 0];
    FourBytes(b[1..5]);
    assert Skip(b, true) == 0;
    assert ReadHead(b) == h;
    assert FrameData(b, h) == [9];
    var moved := StrayMoved(b, h);
    assert moved == [9, 0, 0, 0, 0, 5, 6, 7, 8, 7, 8];
    assert moved[1..5] == [0, 0, 0, 0];
    SmallSize(0);
  }

  /** Of the bytes behind it one is handed over in its place. */
  lemma StrayFragment()
    ensures DeliverStep(STRAY_FRAGMENT, true) == Took([6, 7, 8], [Message(false, 0x80, [5])])
  {
    hide LittleEndian, FromLittleEndian, Skip, ReadHead, Ready, FrameData, StrayMoved, StraySize, Reassembling;
    StrayHead();
    SmallSize(1);
    var b := STRAY_FRAGMENT;
    var now := ([9] + [1, 0, 0, 0] + [5, 6, 7, 8, 7, 8])[..9];
    assert now == [9, 1, 0, 0, 0, 5, 6, 7, 8];
    assert now[5..6] == [5] && now[6..] == [6, 7, 8];
    assert [9, 0, 0, 0, 0, 5, 6, 7, 8, 7, 8][5..] == [5, 6, 7, 8, 7, 8];
    assert StrayStep(b, FrameHead(2, 0, 1)) == Took([6, 7, 8], [Message(false, 0x80, [5])]);
  }
}
