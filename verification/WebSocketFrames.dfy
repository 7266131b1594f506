/** The WebSocket wire format (section 5.2 of RFC 6455) as mongoose reads and writes it. */
module WebSocketFrames {
  import opened Bytes
  import opened Bits
  import opened Endian

  // ---------- Masking ----------

  type Key = k: bytes | |k| == 4 witness [0, 0, 0, 0]

  /** Every byte combined with the key byte at its index modulo 4. */
  function Mask(data: bytes, key: Key): (r: bytes)
    ensures |r| == |data|
    ensures forall i :: 0 <= i < |data| ==> r[i] == Xor(data[i], key[i % 4])
  {
    seq(|data|, i requires 0 <= i < |data| => Xor(data[i], key[i % 4]))
  }

  lemma MaskTwice(data: bytes, key: Key)
    ensures Mask(Mask(data, key), key) == data
  {
    forall i | 0 <= i < |data|
      ensures Mask(Mask(data, key), key)[i] == data[i]
    {
      XorTwice(data[i], key[i % 4]);
    }
  }

  /** Bit by bit, byte `i` of the data and byte `i` modulo 4 of the key are added without carry. */
  lemma MaskAt(data: bytes, key: Key, i: nat, k: nat)
    requires i < |data| && k < 8
    ensures Mask(data, key)[i] / Power2(k) % 2 == (data[i] / Power2(k) + key[i % 4] / Power2(k)) % 2
  {
    hide Xor;
    XorAt(data[i], key[i % 4]);
  }

  /** A key of zeros leaves the data as they are. */
  lemma MaskZero(data: bytes)
    ensures Mask(data, [0, 0, 0, 0]) == data
  {
    forall i | 0 <= i < |data|
      ensures Mask(data, [0, 0, 0, 0])[i] == data[i]
    {
      XorZero(data[i]);
    }
  }

  // ---------- Frames as a client sends them ----------

  /** A masked frame: what mg_send_websocket_frame writes on a client connection. */
  datatype ClientFrame = ClientFrame(fin: bool, opcode: byte, key: Key, payload: bytes)
  {
    predicate Valid() {
      opcode < 16 && |payload| + 14 < TWO_64
    }
  }

  function Flags(fin: bool, opcode: byte): byte
    requires opcode < 16
  {
    if fin then 128 + opcode else opcode
  }

  /** The header mg_send_ws_header builds; 65535 bytes already take the 64-bit form. */
  function SendHead(fin: bool, opcode: byte, len: nat, masked: bool): (r: bytes)
    requires opcode < 16 && len < TWO_64
    ensures |r| == if len < 126 then 2 else if len < 65535 then 4 else 10
  {
    var m: byte := if masked then 128 else 0;
    if len < 126 then [Flags(fin, opcode), m + len]
    else if len < 65535 then [Flags(fin, opcode), m + 126] + BigEndian(len, 2)
    else [Flags(fin, opcode), m + 127] + BigEndian(len, 8)
  }

  /** The fields of a header as the standard lays them out. */
  lemma HeadFields(fin: bool, opcode: byte, len: nat, masked: bool)
    requires opcode < 16 && len < TWO_64
    ensures var h := SendHead(fin, opcode, len, masked);
            && (h[0] >= 128 <==> fin) && h[0] / 16 % 8 == 0 && h[0] % 16 == opcode
            && (h[1] >= 128 <==> masked)
            && (h[1] % 128 < 126 ==> |h| == 2 && len == h[1] % 128)
            && (h[1] % 128 == 126 ==> |h| == 4 && len == h[2] as int * 256 + h[3] as int)
            && (h[1] % 128 == 127 ==> |h| == 10 && len == FromBigEndian(h[2..]))
  {
    if 126 <= len < 65535 {
      TwoBytes(len);
    } else if len >= 65535 {
      PowersOf256();
      BigEndianRoundTrip(len, 8);
      assert SendHead(fin, opcode, len, masked)[2..] == BigEndian(len, 8);
    }
  }

  function Wire(f: ClientFrame): (r: bytes)
    requires f.Valid()
    ensures |r| == |SendHead(f.fin, f.opcode, |f.payload|, true)| + 4 + |f.payload|
  {
    SendHead(f.fin, f.opcode, |f.payload|, true) + f.key + Mask(f.payload, f.key)
  }

  const HELLO: bytes := [0x48, 0x65, 0x6c, 0x6c, 0x6f]

  /** "Hello" in a masked text frame, the example of section 5.7. */
  lemma HelloFrame()
    ensures HELLO == Lit("Hello")
    ensures Wire(ClientFrame(true, 1, [0x37, 0xfa, 0x21, 0x3d], HELLO))
         == [0x81, 0x85, 0x37, 0xfa, 0x21, 0x3d, 0x7f, 0x9f, 0x4d, 0x51, 0x58]
  {
    HelloMasked();
    hide Mask, Xor, Lit;
    assert SendHead(true, 1, 5, true) == [0x81, 0x85];
  }

  lemma HelloMasked()
    ensures HELLO == Lit("Hello")
    ensures Mask(HELLO, [0x37, 0xfa, 0x21, 0x3d]) == [0x7f, 0x9f, 0x4d, 0x51, 0x58]
  {
    HelloBytes();
    hide Xor;
    var m := Mask(HELLO, [0x37, 0xfa, 0x21, 0x3d]);
    assert m[0] == 0x7f && m[1] == 0x9f && m[2] == 0x4d && m[3] == 0x51 && m[4] == 0x58;
    assert m == [0x7f, 0x9f, 0x4d, 0x51, 0x58];
  }

  lemma HelloBytes()
    ensures Xor(0x48, 0x37) == 0x7f && Xor(0x65, 0xfa) == 0x9f && Xor(0x6c, 0x21) == 0x4d
    ensures Xor(0x6c, 0x3d) == 0x51 && Xor(0x6f, 0x37) == 0x58
  {
  }

  // ---------- What the receiver makes of the bytes in front ----------

  /** The lengths read from a header; all zero while too little has arrived. */
  datatype FrameHead = FrameHead(headerLen: nat, maskLen: nat, dataLen: nat)

  function ReadHead(f: bytes): (h: FrameHead)
    ensures h.maskLen == 0 || h.maskLen == 4
    ensures h.headerLen == 0 ==> h.dataLen == 0
    ensures h.headerLen > 0 ==> 2 + h.maskLen <= h.headerLen <= 10 + h.maskLen
    ensures |f| >= 2 && h.headerLen > 0 && |f| >= h.headerLen ==> h.headerLen >= 2
  {
    if |f| < 2 then FrameHead(0, 0, 0)
    else
      var len := f[1] % 128;
      var maskLen := if f[1] >= 128 then 4 else 0;
      if len < 126 && |f| >= maskLen then FrameHead(2 + maskLen, maskLen, len)
      else if len == 126 && |f| >= 4 + maskLen then FrameHead(4 + maskLen, maskLen, FromBigEndian(f[2..4]))
      else if |f| >= 10 + maskLen then FrameHead(10 + maskLen, maskLen, FromBigEndian(f[2..10]))
      else FrameHead(0, maskLen, 0)
  }

  /** What arrived of a client frame announces either nothing yet or the frame's own lengths. */
  lemma HeadOfWire(f: ClientFrame, b: bytes)
    requires f.Valid()
    requires forall i :: 0 <= i < |b| && i < |Wire(f)| ==> b[i] == Wire(f)[i]
    ensures var h, n := ReadHead(b), |SendHead(f.fin, f.opcode, |f.payload|, true)| + 4;
            && (|b| >= n ==> h == FrameHead(n, 4, |f.payload|))
            && (h.headerLen == 0 || h == FrameHead(n, 4, |f.payload|))
  {
    var head := SendHead(f.fin, f.opcode, |f.payload|, true);
    var w := Wire(f);
    assert w[..|head|] == head;
    if |b| >= 2 {
      assert b[1] == w[1] == head[1];
      assert b[1] >= 128;
      if |f.payload| < 126 {
      } else if |f.payload| < 65535 {
        if |b| >= 8 {
          assert b[2..4] == head[2..4] == BigEndian(|f.payload|, 2);
          assert Power256(2) == 65536;
          BigEndianRoundTrip(|f.payload|, 2);
        }
      } else {
        if |b| >= 14 {
          assert b[2..10] == head[2..10] == BigEndian(|f.payload|, 8);
          assert Power256(8) == TWO_64 by { Power256Of8(); }
          BigEndianRoundTrip(|f.payload|, 8);
        }
      }
    }
  }

  lemma Power256Of8()
    ensures Power256(8) == TWO_64
  {
    assert Power256(4) == 0x1_0000_0000;
    assert Power256(6) == 0x1_0000_0000_0000;
  }
}
