/** mg_coap_compose and mg_coap_parse on their own structures: the message with its option list, an mbuf,
    and a cursor into it. */
module CoapMessage {
  import opened Bytes
  import opened Endian
  import opened MemoryBuffer
  import opened CoapFormat
  import opened CoapCodec
  import opened CoapOptions

  // ---------- Writing at a cursor ----------

  method Put(a: array<byte>, at: nat, data: bytes) returns (next: nat)
    requires at + |data| <= a.Length
    modifies a
    ensures next == at + |data| && a[..next] == old(a[..at]) + data
  {
    next := at + |data|;
    CopyBytes(a, at, data);
    CutTwice(a[..next], at, next);
    PrefixSlices(a[..], next, at, next);
    PrefixSlices(a[..], next, 0, at);
  }

  /** coap_add_uint16 */
  method PutUint16(a: array<byte>, at: nat, v: nat) returns (next: nat)
    requires v < TWO_16 && at + 2 <= a.Length
    modifies a
    ensures next == at + 2 && a[..next] == old(a[..at]) + BigEndian(v, 2)
  {
    a[at] := v / 256;
    a[at + 1] := v % 256;
    next := at + 2;
    TwoBytes(v);
  }

  /** coap_split_opt */
  method SplitOpt(v: nat) returns (base: byte, ext: nat, len: nat)
    ensures base == Nibble(v) && ext < TWO_16 && len == ExtSize(v) <= 2
    ensures len == 1 ==> ext < 256 && Extension(v) == [ext as byte]
    ensures len == 2 ==> Extension(v) == BigEndian(ext, 2)
  {
    base, ext, len := 0, 0, 0;
    if v < 13 {
      base := v;
    } else if v <= 0xFF + 13 {
      base, ext, len := 13, v - 13, 1;
    } else if v <= MAX_EXT {
      base, ext, len := 14, v - 269, 2;
    }
  }

  /** coap_split_opt, then coap_add_opt_info */
  method PutOptInfo(a: array<byte>, at: nat, v: nat, ext: nat, len: nat) returns (next: nat)
    requires ext < TWO_16 && len == ExtSize(v) <= 2 && at + len <= a.Length
    requires len == 1 ==> ext < 256 && Extension(v) == [ext as byte]
    requires len == 2 ==> Extension(v) == BigEndian(ext, 2)
    modifies a
    ensures next == at + len && a[..next] == old(a[..at]) + Extension(v)
  {
    next := at;
    if len == 1 {
      next := Put(a, at, [ext]);
    } else if len == 2 {
      next := PutUint16(a, at, ext);
    }
  }

  /** One round of the option loop of mg_coap_compose. */
  method PutOption(a: array<byte>, at: nat, delta: nat, value: bytes) returns (next: nat)
    requires at + |OptionWire(delta, value)| <= a.Length
    modifies a
    ensures next == at + |OptionWire(delta, value)| && a[..next] == old(a[..at]) + OptionWire(delta, value)
  {
    hide Nibble, Extension, ExtSize;
    ghost var was := a[..at];
    var deltaBase, deltaExt, deltaLen := SplitOpt(delta);
    var lengthBase, lengthExt, lengthLen := SplitOpt(|value|);
    NibbleBound(delta);
    NibbleBound(|value|);
    var first: byte := deltaBase * 16 + lengthBase;
    next := Put(a, at, [first]);
    next := PutOptInfo(a, next, delta, deltaExt, deltaLen);
    next := PutOptInfo(a, next, |value|, lengthExt, lengthLen);
    if |value| != 0 {
      next := Put(a, next, value);
    }
    OptionWireParts(was, a[..next], first, delta, value);
  }

  lemma OptionWireParts(was: bytes, now: bytes, first: byte, delta: nat, value: bytes)
    requires first == Nibble(delta) * 16 + Nibble(|value|)
    requires now == if |value| != 0 then was + [first] + Extension(delta) + Extension(|value|) + value
                    else was + [first] + Extension(delta) + Extension(|value|)
    ensures now == was + OptionWire(delta, value)
  {
    var d, l := Extension(delta), Extension(|value|);
    assert now == was + [first] + d + l + value;
    assert was + [first] + d + l + value == was + ([first] + d + l + value);
  }

  // ---------- The message ----------

  /** struct mg_coap_message: byte-wide fields, a 16-bit id, and strings that point elsewhere. */
  class CoapMessage {
    var msgType: byte
    var codeClass: byte
    var codeDetail: byte
    var msgId: nat
    var token: bytes
    var payload: bytes
    const options: OptionList

    ghost predicate Valid()
      reads this, options, options.nodes
    {
      msgId < TWO_16 && options.Valid()
    }

    ghost function Value(): Message
      reads this, options
    {
      Message(msgType, codeClass, codeDetail, msgId, token, options.Options(), payload)
    }

    constructor ()
      ensures Valid() && Value() == Message(0, 0, 0, 0, [], [], []) && fresh(options)
    {
      options := new OptionList();
      msgType, codeClass, codeDetail, msgId, token, payload := 0, 0, 0, 0, [], [];
    }

    /** coap_calculate_packet_size: the field refused, or the size to reserve. */
    method CalculatePacketSize() returns (refused: seq<Error>, size: nat)
      requires Valid()
      ensures refused == Refusal(Value())
      ensures refused == [] ==> size == ReservedSize(Value())
    {
      refused, size := [], 4;
      if msgType > 3 {
        refused := [MsgTypeField];
      } else if |token| > 8 {
        refused := [TokenField];
      } else if codeClass > 7 {
        refused := [CodeClassField];
      } else if codeDetail > 31 {
        refused := [CodeDetailField];
      } else {
        size := size + |token|;
        if |payload| != 0 {
          size := size + |payload| + 1;
        }
        var ok, optionsSize := OptionsSize();
        size := size + optionsSize;
        if !ok {
          refused := [OptionField];
        }
      }
    }

    /** The option loop of coap_calculate_packet_size. */
    method OptionsSize() returns (ok: bool, size: nat)
      requires Valid()
      ensures ok <==> OptionsAccepted(options.Options())
      ensures ok ==> size == ReservedOptions(options.Options())
    {
      hide ExtSize;
      ghost var all := options.Options();
      size := 0;
      var opt := options.head;
      ghost var k := 0;
      while opt != null
        invariant 0 <= k <= |all| && all == OptsOf(options.nodes)
        invariant opt == if k < |all| then options.nodes[k] else null
        invariant forall i :: 0 <= i < k ==> |all[i].value| <= MAX_EXT && all[i].number <= MAX_EXT
        invariant forall i :: 0 <= i < k && i < |all| - 1 ==> all[i].number <= all[i + 1].number
        invariant size + ReservedOptions(all[k..]) == ReservedOptions(all)
        decreases |all| - k
      {
        size := size + 1 + ExtSize(opt.number) + ExtSize(|opt.value|);
        if (opt.next != null && opt.number > opt.next.number) || |opt.value| > MAX_EXT || opt.number > MAX_EXT {
          assert all[k].number == opt.number && all[k].value == opt.value;
          ok := false;
          return;
        }
        size := size + |opt.value|;
        opt := opt.next;
        assert all[k..][1..] == all[k + 1..];
        k := k + 1;
      }
      ok := true;
    }

    /** mg_coap_compose, the buffer growing as it needs: the message is refused and nothing is written, or its
        bytes follow what the buffer held, up to a slack that may be left behind them. */
    method Compose(io: Mbuf) returns (refused: seq<Error>)
      requires Valid() && io.Valid()
      modifies io, io.buf
      ensures io.Valid() && refused == Refusal(Value())
      ensures refused != [] ==> io.Contents() == old(io.Contents())
      ensures refused == [] ==>
                && io.len == old(io.len) + ReservedSize(Value())
                && old(io.len) + |Wire(Value())| <= io.len
                && io.Contents()[..old(io.len) + |Wire(Value())|] == old(io.Contents()) + Wire(Value())
    {
      hide Refusal, ReservedSize, Wire, Accepted;
      var size;
      refused, size := CalculatePacketSize();
      if refused == [] {
        ghost var m := Value();
        assert Accepted(m) by { AcceptedWhen(m); }
        ReservedCoversWritten(m);
        ghost var was := io.Contents();
        var at := io.len;
        var stored := io.Reserve(size, true);
        assert io.buf[..at] == was by { PrefixSlices(io.buf[..], io.len, 0, at); }
        var next := Write(io.buf, at);
        PrefixSlices(io.buf[..], io.len, 0, next);
      }
    }

    lemma AcceptedWhen(m: Message)
      requires Refusal(m) == [] && m.msgId < TWO_16
      ensures Accepted(m)
    {
    }

    /** What mg_coap_compose stores from `at` on. */
    method Write(a: array<byte>, at: nat) returns (next: nat)
      requires Valid() && Accepted(Value())
      requires at + |Wire(Value())| <= a.Length
      modifies a
      ensures next == at + |Wire(Value())| && a[..next] == old(a[..at]) + Wire(Value())
    {
      hide Accepted, OptionsWire, HeadWire, BigEndian;
      ghost var m, was := Value(), a[..at];
      AcceptedSorted(m);
      WireLength(m);
      next := WriteHead(a, at);
      if |token| != 0 {
        next := Put(a, next, token);
      } else {
        assert a[..next] + token == a[..next];
      }
      ConcatAssoc(was, HeadWire(m), m.token);
      next := WriteOptions(a, next);
      if |payload| != 0 {
        next := Put(a, next, [MARKER]);
        next := Put(a, next, payload);
      }
      WireParts(was, HeadWire(m) + m.token, m, a[..next]);
    }

    method WriteHead(a: array<byte>, at: nat) returns (next: nat)
      requires Valid() && Accepted(Value()) && at + 4 <= a.Length
      modifies a
      ensures next == at + 4 && a[..next] == old(a[..at]) + HeadWire(Value())
    {
      ghost var was := a[..at];
      var b0: byte := 64 + msgType as int * 16 + |token|;
      var b1: byte := codeClass as int * 32 + codeDetail as int;
      next := Put(a, at, [b0]);
      next := Put(a, next, [b1]);
      next := PutUint16(a, next, msgId);
      assert was + [b0] + [b1] + BigEndian(msgId, 2) == was + ([b0, b1] + BigEndian(msgId, 2));
    }

    /** The option loop of mg_coap_compose. */
    method WriteOptions(a: array<byte>, at: nat) returns (next: nat)
      requires Valid() && Sorted(options.Options())
      requires at + |OptionsWire(options.Options(), 0)| <= a.Length
      modifies a
      ensures next == at + |OptionsWire(options.Options(), 0)|
      ensures a[..next] == old(a[..at]) + OptionsWire(options.Options(), 0)
    {
      hide OptionWire;
      ghost var all, was := options.Options(), a[..at];
      var opt, prev := options.head, 0;
      ghost var k := 0;
      next := at;
      while opt != null
        invariant 0 <= k <= |all| && all == OptsOf(options.nodes)
        invariant opt == if k < |all| then options.nodes[k] else null
        invariant Sorted(all[k..]) && prev >= 0 && (k < |all| ==> prev <= all[k].number)
        invariant next <= a.Length
        invariant a[..next] + OptionsWire(all[k..], prev) == was + OptionsWire(all, 0)
        decreases |all| - k
      {
        ghost var w, later := OptionWire(opt.number - prev, opt.value), OptionsWire(all[k..][1..], opt.number);
        assert all[k..][0] == all[k] && all[k..][1..] == all[k + 1..];
        ConcatAssoc(a[..next], w, later);
        LengthsAgree(a[..next], w + later, was, OptionsWire(all, 0));
        next := PutOption(a, next, opt.number - prev, opt.value);
        prev := opt.number;
        opt := opt.next;
        k := k + 1;
      }
      assert all[k..] == [];
      assert a[..next] + [] == a[..next];
    }

    // ---------- Parsing ----------

    /** coap_get_ext_opt: -1 when the bytes end too early. */
    static method GetExtOpt(io: Mbuf, ptr: nat, info: nat) returns (ret: int, v: nat)
      requires io.Valid() && ptr <= io.len && info < 15
      ensures match ReadExtension(info, io.Contents()[ptr..])
              case TooShort => ret == -1
              case Value(value, used) => ret == used && v == value
    {
      ret, v := 0, info;
      if info == 13 {
        if ptr < io.len {
          v := io.buf[ptr] as int + 13;
          ret := 1;
        } else {
          ret := -1;
        }
      } else if info == 14 {
        if ptr + 1 < io.len {
          v := (io.buf[ptr] as int * 256 + io.buf[ptr + 1] as int + 269) % TWO_16;
          ret := 2;
        } else {
          ret := -1;
        }
      }
    }

    /** One round of the loop of coap_get_options. */
    static method GetOption(io: Mbuf, ptr: nat, prev: nat)
      returns (error: seq<Error>, number: nat, value: bytes, next: nat)
      requires io.Valid() && ptr < io.len
      ensures match ReadOption(io.Contents()[ptr..], prev)
              case Bad(e) => error == [e]
              case One(n, v, rest) =>
                error == [] && number == n && value == v && ptr < next <= io.len && io.Contents()[next..] == rest
    {
      hide ReadExtension, ReadOption;
      ghost var b := io.Contents();
      ghost var s := b[ptr..];
      error, number, value, next := [], 0, [], ptr;
      var delta, length := io.buf[ptr] / 16, io.buf[ptr] % 16;
      assert s[0] == io.buf[ptr];
      ReadOptionSteps(s, prev);
      if delta == 15 || length == 15 {
        error := [FormatError];
        return;
      }
      next := next + 1;
      SliceOfDrop(b, ptr, 1, |b| - ptr);
      var used, d := GetExtOpt(io, next, delta);
      if used == -1 {
        error := [NotEnoughData];
        return;
      }
      next := next + used;
      SliceOfDrop(b, ptr, next - ptr, |b| - ptr);
      var used', l := GetExtOpt(io, next, length);
      if used' == -1 {
        error := [NotEnoughData];
        return;
      }
      next := next + used';
      number := Sum16(d, prev);
      if next + l > io.len {
        error := [NotEnoughData];
        return;
      }
      value := io.buf[next..next + l];
      SliceOfDrop(b, ptr, next - ptr, next - ptr + l);
      PrefixSlices(io.buf[..], io.len, next, next + l);
      next := next + l;
      SliceOfDrop(b, ptr, next - ptr, |b| - ptr);
    }

    /** coap_get_options: where it stopped, at the payload marker or at the end. */
    method GetOptions(io: Mbuf, ptr: nat) returns (error: seq<Error>, next: nat)
      requires options.Valid() && options.nodes == [] && io.Valid() && ptr <= io.len
      modifies options
      ensures options.Valid() && fresh(options.nodes)
      ensures match ReadOptions(io.Contents()[ptr..], 0, [])
              case OptionsBad(e) => error == [e] && options.nodes == []
              case OptionsDone(opts, rest) =>
                error == [] && options.Options() == opts && next <= io.len && io.Contents()[next..] == rest
    {
      hide ReadOption, AddOption, ReadOptions;
      ghost var b := io.Contents();
      var prev := 0;
      next, error := ptr, [];
      while next < io.len && io.buf[next] != MARKER
        invariant options.Valid() && fresh(options.nodes)
        invariant next <= io.len && prev >= 0 && error == []
        invariant b == io.Contents()
        invariant ReadOptions(b[next..], prev, options.Options()) == ReadOptions(b[ptr..], 0, [])
        decreases io.len - next
      {
        assert b[next..][0] == io.buf[next];
        ReadOptionsRound(b[next..], prev, options.Options());
        var number, value, later;
        error, number, value, later := GetOption(io, next, prev);
        if error != [] {
          options.Free();
          return;
        }
        options.Add(number, value);
        prev, next := number, later;
      }
      ReadOptionsEnd(b[next..], prev, options.Options());
    }

    /** coap_parse_header */
    method ParseHeader(io: Mbuf) returns (error: seq<Error>, tokenLen: nat)
      requires io.Valid()
      modifies `msgType, `codeClass, `codeDetail, `msgId
      ensures var b := io.Contents();
              if |b| < 4 then error == [NotEnoughData]
              else if b[0] / 64 != 1 then error == [Ignore]
              else if b[0] % 16 > 8 then error == [FormatError]
              else error == [] && tokenLen == b[0] % 16 && msgType == b[0] / 16 % 4 && codeClass == b[1] / 32
                   && codeDetail == b[1] % 32 && msgId == b[2] as int * 256 + b[3] as int
      ensures msgId == old(msgId) || msgId < TWO_16
    {
      error, tokenLen := [], 0;
      if io.len < 4 {
        error := [NotEnoughData];
      } else if io.buf[0] / 64 != 1 {
        error := [Ignore];
      } else {
        msgType := io.buf[0] / 16 % 4;
        tokenLen := io.buf[0] % 16;
        if tokenLen > 8 {
          error := [FormatError];
        } else {
          codeClass := io.buf[1] / 32;
          codeDetail := io.buf[1] % 32;
          msgId := io.buf[2] as int * 256 + io.buf[3] as int;
        }
      }
    }

    /** coap_get_token */
    method GetToken(io: Mbuf, ptr: nat, tokenLen: nat) returns (error: seq<Error>, next: nat)
      requires io.Valid() && ptr <= io.len && token == []
      modifies `token
      ensures if ptr + tokenLen > io.len then error == [NotEnoughData]
              else error == [] && next == ptr + tokenLen && token == io.Contents()[ptr..next]
    {
      error, next := [], ptr;
      if tokenLen != 0 {
        if ptr + tokenLen > io.len {
          error := [NotEnoughData];
        } else {
          next := ptr + tokenLen;
          token := io.buf[ptr..next];
          PrefixSlices(io.buf[..], io.len, ptr, next);
        }
      }
    }

    /** mg_coap_parse */
    method Parse(io: Mbuf) returns (error: seq<Error>)
      requires io.Valid() && Valid()
      modifies this, options
      ensures Valid()
      ensures match CoapCodec.Parse(io.Contents())
              case Ok(m) => error == [] && Value() == m
              case Err(e) => error == [e] && options.nodes == []
    {
      hide ReadOptions, CoapCodec.Parse, OptionList.Valid, OptsOf;
      ghost var b := io.Contents();
      Reset();
      var tokenLen, ptr;
      error, tokenLen := ParseHeader(io);
      if error != [] {
        HeaderFails(b);
        return;
      }
      error, ptr := GetToken(io, 4, tokenLen);
      if error != [] {
        HeaderFails(b);
        return;
      }
      error, ptr := GetOptions(io, ptr);
      if error != [] {
        OptionsFail(b);
        return;
      }
      payload := GetPayload(io, ptr);
      ParseSucceeds(b, Value(), b[ptr..]);
    }

    method GetPayload(io: Mbuf, ptr: nat) returns (rest: bytes)
      requires io.Valid() && ptr <= io.len
      ensures rest == if io.Contents()[ptr..] == [] then [] else io.Contents()[ptr..][1..]
    {
      rest := [];
      if ptr < io.len {
        SliceOfDrop(io.Contents(), ptr, 1, io.len - ptr);
        PrefixSlices(io.buf[..], io.len, ptr + 1, io.len);
        rest := io.buf[ptr + 1..io.len];
      }
    }

    static lemma HeaderFails(b: bytes)
      ensures |b| < 4 ==> CoapCodec.Parse(b) == Err(NotEnoughData)
      ensures |b| >= 4 && b[0] / 64 != 1 ==> CoapCodec.Parse(b) == Err(Ignore)
      ensures |b| >= 4 && b[0] / 64 == 1 && b[0] % 16 > 8 ==> CoapCodec.Parse(b) == Err(FormatError)
      ensures |b| >= 4 && b[0] / 64 == 1 && b[0] % 16 <= 8 && 4 + b[0] % 16 > |b| ==>
                CoapCodec.Parse(b) == Err(NotEnoughData)
    {
      hide ReadOptions;
    }

    static lemma OptionsFail(b: bytes)
      requires |b| >= 4 && b[0] / 64 == 1 && b[0] % 16 <= 8 && 4 + b[0] % 16 <= |b|
      ensures var r := ReadOptions(b[4 + b[0] % 16..], 0, []);
              r.OptionsBad? ==> CoapCodec.Parse(b) == Err(r.error)
    {
      hide ReadOptions;
    }

    static lemma ParseSucceeds(b: bytes, m: Message, rest: bytes)
      requires |b| >= 4 && b[0] / 64 == 1 && b[0] % 16 <= 8 && 4 + b[0] % 16 <= |b|
      requires ReadOptions(b[4 + b[0] % 16..], 0, []) == OptionsDone(m.options, rest)
      requires m.msgType == b[0] / 16 % 4 && m.codeClass == b[1] / 32 && m.codeDetail == b[1] % 32
      requires m.msgId == b[2] as int * 256 + b[3] as int && m.token == b[4..4 + b[0] % 16]
      requires m.payload == if rest == [] then [] else rest[1..]
      ensures CoapCodec.Parse(b) == Ok(m)
    {
      hide ReadOptions;
    }

    /** The memset at the beginning of mg_coap_parse. */
    method Reset()
      modifies this, options
      ensures Valid() && Value() == Message(0, 0, 0, 0, [], [], []) && options.nodes == []
    {
      msgType, codeClass, codeDetail, msgId, token, payload := 0, 0, 0, 0, [], [];
      options.head, options.tail, options.nodes := null, null, [];
    }
  }

  lemma LengthsAgree(a: bytes, b: bytes, c: bytes, d: bytes)
    requires a + b == c + d
    ensures |a| + |b| == |c| + |d|
  {
  }

  lemma WireLength(m: Message)
    requires Accepted(m)
    ensures Sorted(m.options)
    ensures |Wire(m)| == 4 + |m.token| + |OptionsWire(m.options, 0)| + |PayloadWire(m.payload)|
  {
  }

  lemma WireParts(was: bytes, front: bytes, m: Message, now: bytes)
    requires Accepted(m) && front == HeadWire(m) + m.token && Sorted(m.options)
    requires now == if m.payload == [] then (was + front) + OptionsWire(m.options, 0)
                    else (was + front) + OptionsWire(m.options, 0) + [MARKER] + m.payload
    ensures now == was + Wire(m)
  {
    hide OptionsWire, HeadWire;
    var o, p := OptionsWire(m.options, 0), PayloadWire(m.payload);
    if m.payload == [] {
      assert o + [] == o;
    } else {
      ConcatAssoc((was + front) + o, [MARKER], m.payload);
    }
    assert now == ((was + front) + o) + p;
    ConcatAssoc(was + front, o, p);
    ConcatAssoc(was, front, o + p);
    ConcatAssoc(HeadWire(m), m.token, o + p);
  }
}
