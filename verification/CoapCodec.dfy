/** What mg_coap_compose writes and what mg_coap_parse reads, as functions, and how they fit together. */
module CoapCodec {
  import opened Bytes
  import opened Endian
  import opened CoapFormat

  // ---------- Sizes ----------

  /** coap_get_ext_opt_size */
  function ExtSize(v: nat): nat {
    if 13 <= v <= 0xFF + 13 then 1 else if 0xFF + 13 < v <= MAX_EXT then 2 else 0
  }

  /** What coap_calculate_packet_size reserves for the options: by their absolute numbers. */
  function ReservedOptions(opts: seq<Opt>): nat {
    if opts == [] then 0
    else 1 + ExtSize(opts[0].number) + ExtSize(|opts[0].value|) + |opts[0].value| + ReservedOptions(opts[1..])
  }

  function ReservedSize(m: Message): nat {
    4 + |m.token| + (if m.payload == [] then 0 else |m.payload| + 1) + ReservedOptions(m.options)
  }

  /** The options coap_calculate_packet_size lets pass. */
  predicate OptionsAccepted(opts: seq<Opt>) {
    Sorted(opts) && forall i :: 0 <= i < |opts| ==> |opts[i].value| <= MAX_EXT && opts[i].number <= MAX_EXT
  }

  /** Why compose refuses a message, if it does. */
  function Refusal(m: Message): (e: seq<Error>)
    ensures |e| <= 1
  {
    if m.msgType > 3 then [MsgTypeField]
    else if |m.token| > 8 then [TokenField]
    else if m.codeClass > 7 then [CodeClassField]
    else if m.codeDetail > 31 then [CodeDetailField]
    else if !OptionsAccepted(m.options) then [OptionField]
    else []
  }

  predicate Accepted(m: Message) { Refusal(m) == [] && m.msgId < TWO_16 }

  // ---------- Printing ----------

  /** coap_split_opt: the nibble, and the one or two bytes that extend it. */
  function Nibble(v: nat): (b: byte)
    ensures b <= 14
  {
    if v < 13 then v else if v <= 0xFF + 13 then 13 else if v <= MAX_EXT then 14 else 0
  }

  function Extension(v: nat): (r: bytes)
    ensures |r| == ExtSize(v)
  {
    if v < 13 || v > MAX_EXT then []
    else if v <= 0xFF + 13 then
      var b: byte := v - 13;
      [b]
    else BigEndian(v - 269, 2)
  }

  function OptionWire(delta: nat, value: bytes): bytes {
    var first: byte := Nibble(delta) * 16 + Nibble(|value|);
    [first] + Extension(delta) + Extension(|value|) + value
  }

  function OptionsWire(opts: seq<Opt>, prev: nat): bytes
    requires Sorted(opts) && (opts != [] ==> prev <= opts[0].number)
  {
    if opts == [] then []
    else OptionWire(opts[0].number - prev, opts[0].value) + OptionsWire(opts[1..], opts[0].number)
  }

  function HeadWire(m: Message): (r: bytes)
    requires Accepted(m)
    ensures |r| == 4
  {
    var b0: byte := 64 + m.msgType as int * 16 + |m.token|;
    var b1: byte := m.codeClass as int * 32 + m.codeDetail as int;
    [b0, b1] + BigEndian(m.msgId, 2)
  }

  function PayloadWire(payload: bytes): bytes {
    if payload == [] then [] else [MARKER] + payload
  }

  /** The bytes mg_coap_compose writes. */
  function Wire(m: Message): bytes
    requires Accepted(m)
  {
    HeadWire(m) + (m.token + (OptionsWire(m.options, 0) + PayloadWire(m.payload)))
  }

  // ---------- Parsing ----------

  /** A nibble extended (coap_get_ext_opt): the 16-bit value and how many bytes it took. */
  datatype Extended = TooShort | Value(v: nat, used: nat)

  function ReadExtension(nibble: nat, b: bytes): (r: Extended)
    requires nibble < 15
    ensures r.Value? ==> r.v < TWO_16 && r.used <= |b|
  {
    if nibble == 13 then (if |b| < 1 then TooShort else Value(b[0] as int + 13, 1))
    else if nibble == 14 then
      if |b| < 2 then TooShort else Value((b[0] as int * 256 + b[1] as int + 269) % TWO_16, 2)
    else Value(nibble, 0)
  }

  /** uint16_t addition */
  function Sum16(a: nat, b: nat): (r: nat)
    ensures r < TWO_16
  {
    (a + b) % TWO_16
  }

  /** One option off the front. */
  datatype OneOption = Bad(error: Error) | One(number: nat, value: bytes, rest: bytes)

  function ReadOption(b: bytes, prev: nat): (r: OneOption)
    requires b != []
    ensures r.One? ==> r.number < TWO_16 && |r.value| < TWO_16 && |r.rest| < |b|
  {
    var delta, len := b[0] / 16, b[0] % 16;
    if delta == 15 || len == 15 then Bad(FormatError)
    else
      var d := ReadExtension(delta, b[1..]);
      if d.TooShort? then Bad(NotEnoughData)
      else
        var l := ReadExtension(len, b[1 + d.used..]);
        if l.TooShort? then Bad(NotEnoughData)
        else
          var at := 1 + d.used + l.used;
          if at + l.v > |b| then Bad(NotEnoughData)
          else One(Sum16(d.v, prev), b[at..at + l.v], b[at + l.v..])
  }

  datatype OptionsRead = OptionsBad(error: Error) | OptionsDone(options: seq<Opt>, rest: bytes)

  /** coap_get_options: until the payload marker or the end. */
  function ReadOptions(b: bytes, prev: nat, opts: seq<Opt>): OptionsRead
    decreases |b|
  {
    if b == [] || b[0] == MARKER then OptionsDone(opts, b)
    else
      match ReadOption(b, prev)
      case Bad(e) => OptionsBad(e)
      case One(number, value, rest) => ReadOptions(rest, number, AddOption(opts, Opt(number, value)))
  }

  /** mg_coap_parse */
  function Parse(b: bytes): Result {
    if |b| < 4 then Err(NotEnoughData)
    else if b[0] / 64 != 1 then Err(Ignore)
    else if b[0] % 16 > 8 then Err(FormatError)
    else
      var tkl := b[0] % 16;
      if 4 + tkl > |b| then Err(NotEnoughData)
      else
        match ReadOptions(b[4 + tkl..], 0, [])
        case OptionsBad(e) => Err(e)
        case OptionsDone(opts, rest) =>
          Ok(Message(b[0] / 16 % 4, b[1] / 32, b[1] % 32, b[2] as int * 256 + b[3] as int,
                     b[4..4 + tkl], opts, if rest == [] then [] else rest[1..]))
  }

  /** ReadOption by cases, on a non-empty buffer. */
  lemma ReadOptionSteps(b: bytes, prev: nat)
    requires b != []
    ensures b[0] / 16 == 15 || b[0] % 16 == 15 ==> ReadOption(b, prev) == Bad(FormatError)
    ensures b[0] / 16 != 15 && b[0] % 16 != 15 ==>
              var d := ReadExtension(b[0] / 16, b[1..]);
              if d.TooShort? then ReadOption(b, prev) == Bad(NotEnoughData)
              else
                var l := ReadExtension(b[0] % 16, b[1 + d.used..]);
                if l.TooShort? || 1 + d.used + l.used + l.v > |b| then ReadOption(b, prev) == Bad(NotEnoughData)
                else ReadOption(b, prev) == One(Sum16(d.v, prev), b[1 + d.used + l.used..1 + d.used + l.used + l.v],
                                                b[1 + d.used + l.used + l.v..])
  {
  }

  lemma ReadOptionsRound(b: bytes, prev: nat, opts: seq<Opt>)
    requires b != [] && b[0] != MARKER
    ensures var r := ReadOption(b, prev);
            ReadOptions(b, prev, opts) ==
            if r.Bad? then OptionsBad(r.error)
            else ReadOptions(r.rest, r.number, AddOption(opts, Opt(r.number, r.value)))
  {
  }

  // ---------- The size reserved against the bytes written ----------

  lemma ExtSizeMonotone(a: nat, b: nat)
    requires a <= b <= MAX_EXT
    ensures ExtSize(a) <= ExtSize(b)
  {
  }

  /** Every delta takes as many extension bytes as the option's number does. */
  predicate SameClasses(opts: seq<Opt>, prev: nat) {
    opts == [] ||
    (prev <= opts[0].number && ExtSize(opts[0].number - prev) == ExtSize(opts[0].number) &&
     SameClasses(opts[1..], opts[0].number))
  }

  lemma {:induction false} OptionsFit(opts: seq<Opt>, prev: nat)
    requires OptionsAccepted(opts) && (opts != [] ==> prev <= opts[0].number)
    ensures |OptionsWire(opts, prev)| <= ReservedOptions(opts)
    ensures |OptionsWire(opts, prev)| == ReservedOptions(opts) <==> SameClasses(opts, prev)
  {
    if opts != [] {
      ExtSizeMonotone(opts[0].number - prev, opts[0].number);
      OptionsFit(opts[1..], opts[0].number);
    }
  }

  /** compose never writes more than it reserved, and as much exactly when every option number and its
      delta fall in the same size class. */
  lemma ReservedCoversWritten(m: Message)
    requires Accepted(m)
    ensures |Wire(m)| <= ReservedSize(m)
    ensures |Wire(m)| == ReservedSize(m) <==> SameClasses(m.options, 0)
  {
    OptionsFit(m.options, 0);
  }

  // ---------- Round trip ----------

  /** The option numbers and value lengths the 16-bit variables of the parser can hold. */
  predicate Fits16(opts: seq<Opt>) {
    forall i :: 0 <= i < |opts| ==> opts[i].number < TWO_16 && |opts[i].value| < TWO_16
  }

  lemma ReadExtensionOf(v: nat, tail: bytes)
    requires v <= MAX_EXT
    ensures ReadExtension(Nibble(v), Extension(v) + tail) == Value(v % TWO_16, ExtSize(v))
  {
    if 0xFF + 13 < v {
      var e := BigEndian(v - 269, 2);
      TwoBytes(v - 269);
      assert (e + tail)[0] == e[0] && (e + tail)[1] == e[1];
    }
  }

  lemma ReadOptionOf(delta: nat, prev: nat, value: bytes, tail: bytes)
    requires delta + prev < TWO_16 && |value| < TWO_16
    ensures ReadOption(OptionWire(delta, value) + tail, prev) == One(delta + prev, value, tail)
    ensures OptionWire(delta, value)[0] != MARKER
  {
    hide ReadOption, OptionWire;
    ReadOptionModulo(delta, prev, value, tail);
  }

  /** Any option compose accepts, with a value the parser can hold: its number is read modulo 2^16. */
  lemma ReadOptionModulo(delta: nat, prev: nat, value: bytes, tail: bytes)
    requires delta <= MAX_EXT && |value| < TWO_16
    ensures ReadOption(OptionWire(delta, value) + tail, prev) == One(Sum16(delta % TWO_16, prev), value, tail)
    ensures OptionWire(delta, value)[0] != MARKER
  {
    hide ReadExtension, Nibble, Extension;
    var b := OptionWire(delta, value) + tail;
    var d, l := Extension(delta), Extension(|value|);
    ReadExtensionOf(delta, l + value + tail);
    ReadExtensionOf(|value|, value + tail);
    NibbleBound(delta);
    NibbleBound(|value|);
    assert b[0] == OptionWire(delta, value)[0];
    WireSuffixes(b, [b[0]], d, l, value, tail);
  }

  lemma NibbleBound(v: nat)
    ensures Nibble(v) <= 14 && |Extension(v)| == ExtSize(v)
  {
  }

  lemma WireSuffixes(b: bytes, first: bytes, d: bytes, l: bytes, value: bytes, tail: bytes)
    requires |first| == 1 && b == first + d + l + value + tail
    ensures b[1..] == d + (l + value + tail)
    ensures b[1 + |d|..] == l + (value + tail)
    ensures b[1 + |d| + |l|..1 + |d| + |l| + |value|] == value
    ensures b[1 + |d| + |l| + |value|..] == tail
    ensures |b| == 1 + |d| + |l| + |value| + |tail|
  {
  }

  lemma OptionsWireStep(opts: seq<Opt>, prev: nat)
    requires Sorted(opts) && Fits16(opts) && (opts != [] ==> prev <= opts[0].number)
    ensures opts == [] ==> OptionsWire(opts, prev) == []
    ensures opts != [] ==>
              var o := opts[0];
              && o.number < TWO_16 && |o.value| < TWO_16
              && Sorted(opts[1..]) && Fits16(opts[1..]) && (opts[1..] != [] ==> o.number <= opts[1..][0].number)
              && OptionsWire(opts, prev) == OptionWire(o.number - prev, o.value) + OptionsWire(opts[1..], o.number)
  {
  }

  /** In ascending order every option is simply appended. */
  lemma {:induction false} ReadOptionsOf(opts: seq<Opt>, prev: nat, before: seq<Opt>, tail: bytes)
    requires Sorted(opts) && Fits16(opts) && (opts != [] ==> prev <= opts[0].number)
    requires before == [] || before[|before| - 1].number == prev
    requires tail == [] || tail[0] == MARKER
    ensures ReadOptions(OptionsWire(opts, prev) + tail, prev, before) == OptionsDone(before + opts, tail)
  {
    hide ReadOption, OptionWire, ReadOptions, OptionsWire, AddOption, Sorted, Fits16;
    OptionsWireStep(opts, prev);
    if opts == [] {
      assert [] + tail == tail && before + [] == before;
      ReadOptionsEnd(tail, prev, before);
    } else {
      var o := opts[0];
      var w, later := OptionWire(o.number - prev, o.value), OptionsWire(opts[1..], o.number) + tail;
      ReadOptionOf(o.number - prev, prev, o.value, later);
      OptionWireFirst(o.number - prev, o.value);
      ConcatAssoc(w, OptionsWire(opts[1..], o.number), tail);
      ReadOptionsStep(w + later, prev, before, o, later);
      ReadOptionsOf(opts[1..], o.number, before + [o], tail);
      ConcatAssoc(before, [o], opts[1..]);
      assert opts == [o] + opts[1..];
    }
  }

  lemma ReadOptionsEnd(b: bytes, prev: nat, opts: seq<Opt>)
    requires b == [] || b[0] == MARKER
    ensures ReadOptions(b, prev, opts) == OptionsDone(opts, b)
  {
    hide ReadOption;
  }

  lemma ReadOptionsStep(b: bytes, prev: nat, opts: seq<Opt>, o: Opt, rest: bytes)
    requires b != [] && b[0] != MARKER && ReadOption(b, prev) == One(o.number, o.value, rest) && |rest| < |b|
    requires opts == [] || opts[|opts| - 1].number <= o.number
    ensures ReadOptions(b, prev, opts) == ReadOptions(rest, o.number, opts + [o])
  {
    hide ReadOption;
    assert AddOption(opts, o) == opts + [o];
  }

  lemma OptionWireFirst(delta: nat, value: bytes)
    ensures OptionWire(delta, value) != []
  {
  }

  lemma {:induction false} ReadOptionsFit(b: bytes, prev: nat, opts: seq<Opt>)
    requires Fits16(opts)
    ensures var r := ReadOptions(b, prev, opts); r.OptionsDone? ==> Fits16(r.options)
    decreases |b|
  {
    if b != [] && b[0] != MARKER && ReadOption(b, prev).One? {
      var One(number, value, rest) := ReadOption(b, prev);
      ReadOptionsFit(rest, number, AddOption(opts, Opt(number, value)));
    }
  }

  lemma ParseHead(m: Message, tail: bytes)
    requires Accepted(m)
    ensures var b := HeadWire(m) + (m.token + tail); var tkl := |m.token|;
            && tkl <= 8 && |b| >= 4 + tkl && b[0] / 64 == 1 && b[0] % 16 == tkl
            && b[0] / 16 % 4 == m.msgType && b[1] / 32 == m.codeClass && b[1] % 32 == m.codeDetail
            && b[2] as int * 256 + b[3] as int == m.msgId && b[4..4 + tkl] == m.token && b[4 + tkl..] == tail
  {
    var h := HeadWire(m);
    var b := h + (m.token + tail);
    TwoBytes(m.msgId);
    assert b[0] == h[0] && b[1] == h[1] && b[2] == h[2] && b[3] == h[3];
    ConcatParts(b, h, m.token, tail);
  }

  lemma PayloadWireForm(payload: bytes)
    ensures var w := PayloadWire(payload);
            && (w == [] || w[0] == MARKER)
            && payload == if w == [] then [] else w[1..]
  {
  }

  lemma AcceptedSorted(m: Message)
    requires Accepted(m)
    ensures Sorted(m.options)
  {
  }

  /** A composed message is parsed back exactly when its option numbers and value lengths fit in 16 bits. */
  lemma ParseComposed(m: Message)
    requires Accepted(m)
    ensures Parse(Wire(m)) == Ok(m) <==> Fits16(m.options)
  {
    hide ReadOptions, OptionsWire, HeadWire, PayloadWire, Accepted;
    AcceptedSorted(m);
    var tail := OptionsWire(m.options, 0) + PayloadWire(m.payload);
    ParseHead(m, tail);
    ReadOptionsFit(tail, 0, []);
    PayloadWireForm(m.payload);
    if Fits16(m.options) {
      ReadOptionsOf(m.options, 0, [], PayloadWire(m.payload));
      assert [] + m.options == m.options;
    }
  }

  /** A failing message: a number of 2^16 or more comes back as what is left of it in 16 bits. */
  lemma LongNumberLost(m: Message, n: nat, value: bytes)
    requires Accepted(m) && m.options == [Opt(n, value)] && n >= TWO_16 && |value| < TWO_16
    ensures Parse(Wire(m)) == Ok(m.(options := [Opt(n - TWO_16, value)]))
  {
    hide ReadOptions, ReadOption, OptionWire, HeadWire, PayloadWire;
    var w := OptionWire(n, value);
    var tail := PayloadWire(m.payload);
    PayloadWireForm(m.payload);
    OptionsWireOne(n, value);
    ParseHead(m, w + tail);
    ReadOptionModulo(n, 0, value, tail);
    OptionWireFirst(n, value);
    ReadOptionsStep(w + tail, 0, [], Opt(n - TWO_16, value), tail);
    ReadOptionsEnd(tail, n - TWO_16, [] + [Opt(n - TWO_16, value)]);
  }

  lemma OptionsWireOne(n: nat, value: bytes)
    ensures OptionsWire([Opt(n, value)], 0) == OptionWire(n, value)
  {
    hide OptionWire;
    assert [Opt(n, value)][1..] == [];
    assert OptionWire(n, value) + [] == OptionWire(n, value);
  }
}
