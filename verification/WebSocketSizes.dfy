/** Messages of any length, against the 32-bit size record of a fragmented message. */
module WebSocketSizes {
  import opened Bytes
  import opened Endian
  import opened WebSocketFrames
  import opened WebSocketReassembly

  /** A message any client may send: every frame of it fits in memory. */
  predicate WellSent(m: ClientMessage) {
    && 0 < m.opcode
    && |m.first.payload| + 14 < TWO_64
    && forall part <- m.more :: |part.payload| + 14 < TWO_64
  }

  /** Sent whole, or short enough for the size record. */
  predicate FitsRecord(m: ClientMessage) {
    m.more == [] || |m.first.payload| + |Joined(m.more)| < TWO_32
  }

  predicate AllValid(fs: seq<ClientFrame>) { forall f <- fs :: f.Valid() }

  lemma {:induction false} ContinuationsValid(parts: seq<Part>)
    requires forall part <- parts :: |part.payload| + 14 < TWO_64
    ensures AllValid(Continuations(parts))
  {
    if parts != [] {
      assert parts[0] in parts && forall part <- parts[1..] :: part in parts;
      ContinuationsValid(parts[1..]);
    }
  }

  lemma {:induction false} AllFramesValid(ms: seq<ClientMessage>)
    requires forall m <- ms :: WellSent(m)
    ensures AllValid(AllFrames(ms))
  {
    if ms != [] {
      assert ms[0] in ms && forall m <- ms[1..] :: m in ms;
      ContinuationsValid(ms[0].more);
      AllFramesValid(ms[1..]);
    }
  }

  /** What is handed over as a reassembled message is as long as the 32-bit size record says. */
  predicate RecordSized(m: Message) { m.flags == 128 ==> |m.data| < TWO_32 }

  lemma StepRecordSized(b: bytes)
    requires DeliverStep(b, true).Took?
    ensures forall m <- DeliverStep(b, true).out :: RecordSized(m)
  {
    hide ReadHead, FrameData, LittleEndian, Skip, Stomped, Record, Ready, Leaves, StrayMoved, StraySize, StrayStep,
         DeliverStep;
    StepKind(b, true);
    ReadyBounds(b, true);
    var at := Skip(b, true);
    var h := ReadHead(b[at..]);
    var data := FrameData(b[at..], h);
    StepByPosition(b, true, at, h, data, b[at + h.headerLen + h.dataLen..]);
    if Reassembling(b, true) && !IsFirstFragment(b[at]) && at == 0 {
      StrayRecordSized(b, h);
    }
  }

  lemma StrayRecordSized(b: bytes, h: FrameHead)
    requires 2 + h.maskLen <= h.headerLen && h.headerLen + h.dataLen <= |b| && (h.maskLen == 0 || h.maskLen == 4)
    requires |b| >= 5 && (b[0] >= 128 ==> 5 + StraySize(b, h) <= |b| - h.headerLen)
    ensures StrayStep(b, h).Took? && forall m <- StrayStep(b, h).out :: RecordSized(m)
  {
    hide LittleEndian, StrayMoved, FrameData;
  }

  lemma {:induction false} DrainRecordSized(b: bytes)
    ensures forall m <- Drain(b, true).messages :: RecordSized(m)
    decreases Unparsed(b, true)
  {
    hide RecordSized, DeliverStep, Unparsed;
    if DeliverStep(b, true).Took? {
      StepRecordSized(b);
      StepShrinks(b, true);
      DrainRecordSized(DeliverStep(b, true).rest);
    }
  }

  lemma {:induction false} ArrivalsRecordSized(pieces: seq<bytes>, b: bytes)
    ensures forall m <- Arrivals(pieces, b, true).messages :: RecordSized(m)
    decreases |pieces|
  {
    hide RecordSized, Drain;
    if pieces != [] {
      DrainRecordSized(b + pieces[0]);
      ArrivalsRecordSized(pieces[1..], Drain(b + pieces[0], true).buffer);
    }
  }

  lemma {:induction false} ExpectedAmong(ms: seq<ClientMessage>, m: ClientMessage)
    requires m in ms
    ensures Expected(m) in AllExpected(ms)
  {
    hide Expected;
    if m != ms[0] {
      ExpectedAmong(ms[1..], m);
    }
  }

  /** The exact condition, for all streams and all ways they arrive: the handler is given every message once,
      complete and in order, exactly when no fragmented message holds 2^32 bytes or more. Then nothing is left in
      the buffer. */
  lemma DeliveredExactly(ms: seq<ClientMessage>, pieces: seq<bytes>)
    requires forall m <- ms :: WellSent(m)
    requires (AllFramesValid(ms);
              var fs := AllFrames(ms); AllValid(fs) && Flatten(pieces) == WireAll(fs))
    ensures Arrivals(pieces, [], true).messages == AllExpected(ms) <==> forall m <- ms :: FitsRecord(m)
    ensures (forall m <- ms :: FitsRecord(m)) ==> Arrivals(pieces, [], true) == Outcome([], AllExpected(ms), false)
  {
    hide Arrivals, AllExpected;
    if forall m <- ms :: FitsRecord(m) {
      EveryMessageOnce(ms, pieces);
    } else {
      var m :| m in ms && !FitsRecord(m);
      ExpectedAmong(ms, m);
      ArrivalsRecordSized(pieces, []);
      assert !RecordSized(Expected(m));
    }
  }

  // ---------- What the handler receives instead ----------

  /** How much of a message its size record speaks of. */
  function Size32(whole: bytes): (n: nat)
    ensures n <= |whole| && n < TWO_32
  {
    |whole| % TWO_32
  }

  /** A message of two fragments that is too long: the handler is given the first bytes of it, as many as its
      length modulo 2^32 says, and the others are read as what follows. */
  lemma TooLongMessage(first: ClientFrame, last: ClientFrame)
    requires Shaped(Idle, first) && !first.fin && last.Valid() && last.opcode == 0 && last.fin
    requires |first.payload| < TWO_32
    ensures Drain(Wire(first), true) == Outcome(Record(0, first.payload), [], false)
    ensures var whole := first.payload + last.payload; var n := Size32(whole);
            var o := Drain(whole[n..], true);
            Drain(Record(0, first.payload) + Wire(last), true)
            == o.(messages := [MessageOf(128, whole[..n])] + o.messages)
  {
    hide Wire, Record, DeliverStep;
    var data := first.payload;
    var whole := data + last.payload;
    var n := Size32(whole);
    FrontOfIdle();
    assert [] + (Wire(first) + []) == Wire(first);
    TakenFirst(Wire(first), first, []);
    assert Record(0, data) + [] == Record(0, data);
    DrainUnfold(Wire(first), Record(0, data), [], true);
    RecordAlone(data);
    RecordIsFront(data);
    assert Wire(last) + [] == Wire(last);
    TakenLater(Record(0, data) + Wire(last), data, last, []);
    assert whole[n..] + [] == whole[n..];
    DrainUnfold(Record(0, data) + Wire(last), whole[n..], [MessageOf(128, whole[..n])], true);
  }

  lemma NothingBehind(b: bytes)
    requires |b| - Skip(b, true) < 2
    ensures DeliverStep(b, true) == Waiting
  {
    hide Skip;
  }

  lemma RecordAlone(data: bytes)
    requires |data| < TWO_32
    ensures Drain(Record(0, data), true) == Outcome(Record(0, data), [], false)
  {
    hide LittleEndian, Drain, Skip;
    var b := Record(0, data);
    SkipOfRecord(0, |data|, data);
    assert b[5 + |data|..] == [];
    NothingBehind(b);
    DrainEnds(b, true);
  }

  /** Zero bytes are an empty record with empty continuations behind it. */
  lemma {:induction false} ZerosDrain(n: nat)
    requires n >= 5
    ensures Drain(Zeros(n), true) == Outcome(Zeros(5 + (n - 5) % 2), [], false)
    decreases n
  {
    hide DeliverStep, Skip, Drain, Zeros;
    var b := Zeros(n);
    if n < 7 {
      ZerosSkip(n);
      NothingBehind(b);
      DrainEnds(b, true);
    } else {
      ZerosStep(n);
      DrainUnfold(b, Zeros(n - 2), [], true);
      ZerosDrain(n - 2);
    }
  }

  lemma ZeroSize()
    ensures FromLittleEndian(Zeros(4)) == 0 && LittleEndian(0, 4) == Zeros(4)
  {
    assert Zeros(4)[1..] == Zeros(3) && Zeros(3)[1..] == Zeros(2) && Zeros(2)[1..] == Zeros(1);
    assert Zeros(1)[1..] == [];
    assert LittleEndian(0, 0) == [] && LittleEndian(0, 1) == [0] && LittleEndian(0, 2) == [0, 0];
    assert LittleEndian(0, 3) == [0, 0, 0] && LittleEndian(0, 4) == [0, 0, 0, 0];
  }

  lemma ZerosSkip(n: nat)
    requires n >= 5
    ensures Skip(Zeros(n), true) == 5
  {
    hide FromLittleEndian, LittleEndian;
    ZeroSize();
    assert Zeros(n)[1..5] == Zeros(4);
  }

  lemma ZerosStep(n: nat)
    requires n >= 7
    ensures DeliverStep(Zeros(n), true) == Took(Zeros(n - 2), [])
  {
    hide LittleEndian, FromLittleEndian, Skip;
    var b := Zeros(n);
    ZerosSkip(n);
    ZeroSize();
    var f := b[5..];
    assert f == Zeros(n - 5);
    assert ReadHead(f) == FrameHead(2, 0, 0);
    assert FrameData(f, FrameHead(2, 0, 0)) == [];
    assert b[5..5] + [] == [];
    assert Record(0, []) + f[2..] == Zeros(n - 2);
  }

  /** One failing stream: 2^32 - 1 zero bytes in a first fragment and one more in a continuation. The handler is
      given one empty message. */
  lemma EmptyMessageForFourGigabytes(m: ClientMessage)
    requires 0 < m.opcode && |m.more| == 1
    requires m.first.payload == Zeros(TWO_32 - 1) && m.more[0].payload == Zeros(1)
    ensures WellSent(m) && !FitsRecord(m)
    ensures var pieces := [Wire(Frames(m)[0]), Wire(Frames(m)[1])];
            Arrivals(pieces, [], true) == Outcome(Zeros(6), [MessageOf(128, [])], false)
  {
    hide Drain, Wire;
    var part := m.more[0];
    assert m.more == [part] && m.more[1..] == [];
    assert Joined(m.more) == part.payload + [];
    var whole := m.first.payload + part.payload;
    assert whole == Zeros(TWO_32) && |whole| % TWO_32 == 0 && whole[0..] == whole && whole[..0] == [];
    TooLongMessage(Frames(m)[0], Frames(m)[1]);
    ZerosDrain(TWO_32);
    var w0, w1 := Wire(Frames(m)[0]), Wire(Frames(m)[1]);
    assert [] + w0 == w0;
    var both, last := [w0, w1], [w1];
    assert both[1..] == last && last[1..] == [];
    assert Arrivals([w1], Record(0, m.first.payload), true)
        == Outcome(Zeros(6), [MessageOf(128, [])], false) by {
      assert [MessageOf(128, [])] + [] == [MessageOf(128, [])];
    }
  }
}
