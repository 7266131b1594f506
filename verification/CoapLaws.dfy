/** What composed CoAP messages look like, said by the bits and bytes of section 3 of RFC 7252. */
module CoapLaws {
  import opened Bytes
  import opened Endian
  import opened CoapFormat
  import opened CoapCodec

  // ---------- Options ----------

  /** Section 3.1 of RFC 7252: a nibble up to 12 is the number itself, 13 announces one byte that holds the number less
      13, 14 two bytes that hold it less 269. */
  predicate Announces(nibble: nat, extension: bytes, v: nat) {
    || (nibble <= 12 && extension == [] && v == nibble)
    || (nibble == 13 && |extension| == 1 && v == FromBigEndian(extension) + 13)
    || (nibble == 14 && |extension| == 2 && v == FromBigEndian(extension) + 269)
  }

  lemma OneByte(b: byte)
    ensures FromBigEndian([b]) == b as int
  {
    assert [b][..0] == [] && FromBigEndian([]) == 0;
  }

  lemma Announced(v: nat)
    requires v <= 65804
    ensures Announces(Nibble(v), Extension(v), v)
  {
    if 13 <= v <= 268 {
      var b: byte := v - 13;
      OneByte(b);
    } else if 268 < v {
      hide BigEndian, FromBigEndian;
      PowersOf256();
      BigEndianRoundTrip(v - 269, 2);
    }
  }

  /** An option begins with a byte of two nibbles, the delta's first; behind it stand the two extensions in the same
      order, and the value. */
  ghost predicate IsOption(w: bytes, delta: nat, value: bytes) {
    exists first: byte, d, l ::
      w == [first] + d + l + value && Announces(first as int / 16, d, delta)
      && Announces(first as int % 16, l, |value|)
  }

  lemma OptionWritten(delta: nat, value: bytes)
    requires delta <= 65804 && |value| <= 65804
    ensures IsOption(OptionWire(delta, value), delta, value)
  {
    hide Nibble, Extension, Announces;
    Announced(delta);
    Announced(|value|);
    NibbleBound(delta);
    NibbleBound(|value|);
    var first: byte := Nibble(delta) * 16 + Nibble(|value|);
    assert OptionWire(delta, value) == [first] + Extension(delta) + Extension(|value|) + value;
    assert first as int / 16 == Nibble(delta) as int && first as int % 16 == Nibble(|value|) as int;
  }

  /** What a cut leaves of the two extensions. */
  lemma CutParts(w: bytes, d: bytes, l: bytes, k: nat)
    requires 0 < k <= |w| && 1 + |d| + |l| <= |w|
    requires w[1..1 + |d|] == d && w[1 + |d|..1 + |d| + |l|] == l
    ensures var b := w[..k];
            && (k < 1 + |d| ==> b[1..] == d[..k - 1])
            && (1 + |d| <= k ==> b[1..] == d + b[1 + |d|..])
            && (1 + |d| <= k < 1 + |d| + |l| ==> b[1 + |d|..] == l[..k - 1 - |d|])
            && (1 + |d| + |l| <= k ==> b[1 + |d|..] == l + b[1 + |d| + |l|..])
  {
    var b := w[..k];
    if k < 1 + |d| {
      PrefixSlices(w, k, 1, k);
      SliceOfSlice(w, 1, |d|, 0, k - 1);
    } else {
      CutTwice(b, 1, 1 + |d|);
      PrefixSlices(w, k, 1, 1 + |d|);
      if k < 1 + |d| + |l| {
        PrefixSlices(w, k, 1 + |d|, k);
        SliceOfSlice(w, 1 + |d|, |l|, 0, k - 1 - |d|);
      } else {
        CutTwice(b, 1 + |d|, 1 + |d| + |l|);
        PrefixSlices(w, k, 1 + |d|, 1 + |d| + |l|);
      }
    }
  }

  /** An option cut anywhere is waited for, not refused and not taken. */
  lemma OptionCut(delta: nat, prev: nat, value: bytes, k: nat)
    requires delta <= 65804 && |value| < 65536 && 0 < k < |OptionWire(delta, value)|
    ensures ReadOption(OptionWire(delta, value)[..k], prev) == Bad(NotEnoughData)
  {
    hide ReadOption, OptionWire, ReadExtension, Nibble, Extension;
    var w := OptionWire(delta, value);
    var b := w[..k];
    var d, l := Extension(delta), Extension(|value|);
    WireForm(delta, value);
    ReadOptionSteps(b, prev);
    CutParts(w, d, l, k);
    assert b[0] == w[0];
    if k < 1 + |d| {
      ExtensionCut(delta, k - 1);
    } else {
      ReadExtensionOf(delta, b[1 + |d|..]);
      if k < 1 + |d| + |l| {
        ExtensionCut(|value|, k - 1 - |d|);
      } else {
        ReadExtensionOf(|value|, b[1 + |d| + |l|..]);
      }
    }
  }

  lemma WireForm(delta: nat, value: bytes)
    requires delta <= 65804 && |value| < 65536
    ensures var w, d, l := OptionWire(delta, value), Extension(delta), Extension(|value|);
            && |d| == ExtSize(delta) && |l| == ExtSize(|value|) && |w| == 1 + |d| + |l| + |value|
            && w[0] / 16 == Nibble(delta) && w[0] % 16 == Nibble(|value|)
            && Nibble(delta) <= 14 && Nibble(|value|) <= 14
            && w[1..1 + |d|] == d && w[1 + |d|..1 + |d| + |l|] == l
  {
    hide Nibble, Extension;
    NibbleBound(delta);
    NibbleBound(|value|);
    var w, d, l := OptionWire(delta, value), Extension(delta), Extension(|value|);
    WireSuffixes(w, [w[0]], d, l, value, []);
    assert [w[0]] + d + l + value + [] == w;
  }

  lemma ExtensionCut(v: nat, k: nat)
    requires v <= 65804 && k < |Extension(v)|
    ensures ReadExtension(Nibble(v), Extension(v)[..k]) == TooShort
  {
    hide BigEndian;
  }

  // ---------- Messages ----------

  /** A composed message, bit by bit: version 1, type and token length in the first byte, class and detail of the code
      in the second, the id high byte first, the token, and, if there is a payload, a byte of all ones before it. */
  lemma MessageWritten(m: Message)
    requires Accepted(m)
    ensures var b, n := Wire(m), |m.token|;
            && |b| >= 4 + n && b[0] / 64 == 1 && b[0] / 16 % 4 == m.msgType && b[0] % 16 == n
            && b[1] / 32 == m.codeClass && b[1] % 32 == m.codeDetail && FromBigEndian(b[2..4]) == m.msgId
            && b[4..4 + n] == m.token
            && (m.payload != [] ==>
                  var at := |b| - |m.payload|;
                  at > 4 + n && b[at..] == m.payload && b[at - 1] == 0xFF)
  {
    hide OptionsWire, Accepted, FromBigEndian;
    AcceptedSorted(m);
    var options, payload := OptionsWire(m.options, 0), PayloadWire(m.payload);
    ParseHead(m, options + payload);
    IdWritten(m);
    var b := Wire(m);
    assert b[2..4] == HeadWire(m)[2..4];
    if m.payload != [] {
      assert b == (HeadWire(m) + (m.token + options)) + payload;
    }
  }

  lemma IdWritten(m: Message)
    requires Accepted(m)
    ensures FromBigEndian(HeadWire(m)[2..4]) == m.msgId
  {
    hide BigEndian, FromBigEndian;
    assert HeadWire(m)[2..4] == BigEndian(m.msgId, 2);
    PowersOf256();
    BigEndianRoundTrip(m.msgId, 2);
  }

  /** What compose refuses: any other message is printed. */
  lemma RefusedExactly(m: Message)
    ensures Refusal(m) == [] <==>
            && m.msgType <= 3 && |m.token| <= 8 && m.codeClass <= 7 && m.codeDetail <= 31
            && (forall i, j :: 0 <= i < j < |m.options| ==> m.options[i].number <= m.options[j].number)
            && (forall o <- m.options :: |o.value| <= 0xFFFF + 269 && o.number <= 0xFFFF + 269)
  {
    if Sorted(m.options) {
      forall i, j | 0 <= i < j < |m.options|
        ensures m.options[i].number <= m.options[j].number
      {
        SortedOrder(m.options, i, j);
      }
    }
    if forall o <- m.options :: |o.value| <= 0xFFFF + 269 && o.number <= 0xFFFF + 269 {
      forall i | 0 <= i < |m.options|
        ensures |m.options[i].value| <= MAX_EXT && m.options[i].number <= MAX_EXT
      {
        assert m.options[i] in m.options;
      }
    }
  }

  /** A message cut inside its header or its token is waited for. */
  lemma HeadCut(m: Message, k: nat)
    requires Accepted(m) && k < 4 + |m.token|
    ensures |Wire(m)| >= k && Parse(Wire(m)[..k]) == Err(NotEnoughData)
  {
    hide OptionsWire, Accepted, ReadOptions;
    AcceptedSorted(m);
    ParseHead(m, OptionsWire(m.options, 0) + PayloadWire(m.payload));
    var b := Wire(m)[..k];
    if k >= 4 {
      assert b[0] == Wire(m)[0];
    }
  }

  /** What is refused of any bytes: another version is ignored, a token length of 9 to 15 and a nibble of 15 in an
      option, unless it begins a payload, are format errors. */
  lemma Refusals(b: bytes)
    requires |b| >= 4
    ensures b[0] / 64 != 1 ==> Parse(b) == Err(Ignore)
    ensures b[0] / 64 == 1 && b[0] % 16 >= 9 ==> Parse(b) == Err(FormatError)
    ensures b[0] / 64 == 1 && b[0] % 16 <= 8 && |b| > 4 + b[0] as int % 16 ==>
              var o := b[4 + b[0] as int % 16];
              o != 0xFF && (o / 16 == 15 || o % 16 == 15) ==> Parse(b) == Err(FormatError)
  {
    hide ReadOption, AddOption;
    if b[0] / 64 == 1 && b[0] % 16 <= 8 && |b| > 4 + b[0] as int % 16 {
      var rest := b[4 + b[0] as int % 16..];
      assert rest[0] == b[4 + b[0] as int % 16];
      ReadOptionSteps(rest, 0);
    }
  }

  // ---------- The exchange of appendix A of RFC 7252 ----------

  /** temperature */
  const TEMPERATURE: bytes := [0x74, 0x65, 0x6D, 0x70, 0x65, 0x72, 0x61, 0x74, 0x75, 0x72, 0x65]

  /** 22.3 C */
  const READING: bytes := [0x32, 0x32, 0x2E, 0x33, 0x20, 0x43]

  /** Figure 16: a confirmable GET for coap://server/temperature and the piggybacked answer. */
  lemma Figure16()
    ensures var get := Message(0, 0, 1, 0x7D34, [], [Opt(11, TEMPERATURE)], []);
            Accepted(get) && Wire(get) == [0x40, 0x01, 0x7D, 0x34, 0xBB] + TEMPERATURE
    ensures var content := Message(2, 2, 5, 0x7D34, [], [], READING);
            Accepted(content) && Wire(content) == [0x60, 0x45, 0x7D, 0x34, 0xFF] + READING
  {
    hide BigEndian, OptionsWire, OptionWire;
    var get := Message(0, 0, 1, 0x7D34, [], [Opt(11, TEMPERATURE)], []);
    var content := Message(2, 2, 5, 0x7D34, [], [], READING);
    TwoBytes(0x7D34);
    assert BigEndian(0x7D34, 2) == [0x7D, 0x34];
    assert HeadWire(get) == [0x40, 0x01, 0x7D, 0x34] && HeadWire(content) == [0x60, 0x45, 0x7D, 0x34];
    OptionsWireOne(11, TEMPERATURE);
    PathOption();
    OptionsWireStep([], 0);
  }

  lemma PathOption()
    ensures OptionWire(11, TEMPERATURE) == [0xBB] + TEMPERATURE
  {
    assert [0xBB] + [] + [] + TEMPERATURE == [0xBB] + TEMPERATURE;
  }
}
