/**
 Frames byte by byte: what the parser makes of any buffer and what the sender puts on the wire, in
 terms of the bytes alone, and the example frames of section 5.7 of RFC 6455.
 */
module WsLayout {
  import opened Bytes
  import opened WsFrame
  import opened WsSend

  // ---------------------------------------------------------------- parsing

  /** A frame is refused exactly when its second byte asks for an eight-byte length. */
  lemma RefusedExactly(b: Bytes)
    ensures Parse(b).Invalid? <==> |b| >= 2 && b[1] % 128 == 127
  {
  }

  /** When a short frame is complete, and its size. */
  lemma ShortFrame(b: Bytes)
    requires |b| >= 2 && b[1] % 128 <= 125
    ensures var size := 2 + (if b[1] >= 128 then 4 else 0) + b[1] % 128;
            && (Parse(b).Complete? <==> |b| >= size)
            && (Parse(b).Complete? ==>
                  Parse(b).total == size && Parse(b).frame.opcode == b[0] % 16
                  && |Parse(b).frame.payload| == b[1] % 128)
  {
  }

  /** When a frame with a two-byte length is complete, and its size. */
  lemma LongFrame(b: Bytes)
    requires |b| >= 2 && b[1] % 128 == 126
    ensures |b| < 4 ==> Parse(b) == Incomplete
    ensures |b| >= 4 ==>
              var high: nat := b[2];
              var length := high * 256 + b[3];
              var size := 4 + (if b[1] >= 128 then 4 else 0) + length;
              && (Parse(b).Complete? <==> |b| >= size)
              && (Parse(b).Complete? ==>
                    Parse(b).total == size && Parse(b).frame.opcode == b[0] % 16 && |Parse(b).frame.payload| == length)
  {
  }

  /**
   Payload byte `i` of a masked frame is the byte sent under byte `i % 4` of the mask; without a mask
   it is the byte sent.
   */
  lemma PayloadBytes(b: Bytes, i: nat)
    requires Parse(b).Complete? && i < |Parse(b).frame.payload|
    ensures var h := if b[1] % 128 == 126 then 4 else 2;
            && (b[1] >= 128 ==> h + 4 + i < |b| && Parse(b).frame.payload[i] == Xor(b[h + 4 + i], b[h + i % 4]))
            && (b[1] < 128 ==> h + i < |b| && Parse(b).frame.payload[i] == b[h + i])
  {
    var h := HeaderSize(b);
    if IsMasked(b) {
      assert b[h + 4..TotalSize(b)][i] == b[h + 4 + i] && b[h..h + 4][i % 4] == b[h + i % 4];
    }
    hide Xor;
  }

  // ---------------------------------------------------------------- sending

  /** The first byte: the FIN bit, three reserved bits of 0, and the opcode. */
  predicate FirstByteOf(b: byte, opcode: nat, fin: bool) {
    b / 128 == (if fin then 1 else 0) && b / 16 % 8 == 0 && b % 16 == opcode % 16
  }

  /** The bytes before a payload of `length`: no mask bit, and the length in one byte or after 126 in two. */
  lemma HeaderBytes(opcode: nat, length: nat, fin: bool)
    requires length <= 65535
    ensures var h := Header(opcode, length, fin);
            && |h| == (if length <= 125 then 2 else 4) && FirstByteOf(h[0], opcode, fin)
            && h[1] == (if length <= 125 then length else 126)
            && (length > 125 ==> h[2] as nat * 256 + h[3] == length)
  {
  }

  /** What `ws_send_frame` puts on the wire when all of it goes out. */
  lemma WireBytes(opcode: nat, data: Option<Bytes>, length: nat, fin: bool)
    requires length <= 65535 && (data.Some? ==> |data.value| == length)
    ensures var w := WireOf(opcode, data, length, fin);
            var n := if length <= 125 then 2 else 4;
            && |w| == n + (if data.Some? then length else 0) && FirstByteOf(w[0], opcode, fin)
            && w[1] == (if length <= 125 then length else 126)
            && (length > 125 ==> w[2] as nat * 256 + w[3] == length)
            && (data.Some? ==> w[n..] == data.value && Encode(opcode, data.value, fin) == Some(w))
  {
    HeaderBytes(opcode, length, fin);
    var h := Header(opcode, length, fin);
    hide Header;
    assert forall i :: 0 <= i < |h| ==> (h + Body(data))[i] == h[i];
  }

  // ----------------------------------------------------------------- effects

  lemma DrainedAlone(b: Bytes, f: Frame, hasCallback: bool)
    requires Parse(b) == Complete(f, |b|)
    ensures f.opcode == CLOSE ==> Drain(b, hasCallback) == Session([], [], false)
    ensures f.opcode != CLOSE ==> Drain(b, hasCallback) == Session(Effects(f, hasCallback), [], true)
  {
    assert b[|b|..] == [];
    assert Drain([], hasCallback) == Session([], [], true);
    hide Parse, Effects;
    assert Effects(f, hasCallback) + [] == Effects(f, hasCallback);
  }

  /** A PING is answered by one frame with opcode 10 and the same payload, whether or not there is a callback. */
  lemma PingAnswered(b: Bytes, payload: Bytes, hasCallback: bool)
    requires Parse(b) == Complete(Frame(9, payload), |b|) && |payload| <= 65535
    ensures var d := Drain(b, hasCallback);
            && d.connected && d.rest == [] && |d.events| == 1 && d.events[0].Reply?
            && Parse(d.events[0].wire) == Complete(Frame(10, payload), |d.events[0].wire|)
            && d.events[0].wire[0] == 0x8A && d.events[0].wire[1] < 128
  {
    DrainedAlone(b, Frame(9, payload), hasCallback);
    EncodeParse(10, payload, true, []);
    HeaderBytes(10, |payload|, true);
    var w := Encode(10, payload, true).value;
    assert w + [] == w;
    hide Parse, Drain, Header;
    assert w[0] == Header(10, |payload|, true)[0] && w[1] == Header(10, |payload|, true)[1];
  }

  /** Every payload that arrives is short enough to be sent back. */
  lemma PayloadReturnable(b: Bytes)
    requires Parse(b).Complete?
    ensures |Parse(b).frame.payload| <= 65535
  {
  }

  /** A text or binary frame reaches the callback once, as it is; without one nothing happens. */
  lemma MessageDelivered(b: Bytes, opcode: nat, payload: Bytes)
    requires Parse(b) == Complete(Frame(opcode, payload), |b|) && (opcode == 1 || opcode == 2)
    ensures Drain(b, true) == Session([Deliver(opcode, payload)], [], true)
    ensures Drain(b, false) == Session([], [], true)
  {
    DrainedAlone(b, Frame(opcode, payload), true);
    DrainedAlone(b, Frame(opcode, payload), false);
    hide Parse, Drain;
  }

  /** A CLOSE ends the connection without an answer; any other frame, continuations and PONGs among them, is dropped. */
  lemma OthersDropped(b: Bytes, opcode: nat, payload: Bytes, hasCallback: bool)
    requires Parse(b) == Complete(Frame(opcode, payload), |b|) && opcode != 1 && opcode != 2 && opcode != 9
    ensures Drain(b, hasCallback) == Session([], [], opcode != 8)
  {
    DrainedAlone(b, Frame(opcode, payload), hasCallback);
    hide Parse, Drain;
  }

  // ------------------------------------------ the examples of section 5.7

  lemma UnmaskedText()
    ensures Parse([0x81, 0x05, 0x48, 0x65, 0x6C, 0x6C, 0x6F]) == Complete(Frame(TEXT, Ascii("Hello")), 7)
    ensures Encode(TEXT, Ascii("Hello"), true) == Some([0x81, 0x05, 0x48, 0x65, 0x6C, 0x6C, 0x6F])
  {
    var b: Bytes := [0x81, 0x05, 0x48, 0x65, 0x6C, 0x6C, 0x6F];
    assert b[2..7] == Ascii("Hello");
    assert [0x81, 0x05] + Ascii("Hello") == b;
  }

  lemma MaskedText()
    ensures Parse([0x81, 0x85, 0x37, 0xFA, 0x21, 0x3D, 0x7F, 0x9F, 0x4D, 0x51, 0x58])
              == Complete(Frame(TEXT, Ascii("Hello")), 11)
  {
    hide Parse, Xor;
    var b: Bytes := [0x81, 0x85, 0x37, 0xFA, 0x21, 0x3D, 0x7F, 0x9F, 0x4D, 0x51, 0x58];
    ShortFrame(b);
    var p := Parse(b).frame.payload;
    HelloUnmasked();
    PayloadBytes(b, 0);
    PayloadBytes(b, 1);
    PayloadBytes(b, 2);
    PayloadBytes(b, 3);
    PayloadBytes(b, 4);
    assert p == [0x48, 0x65, 0x6C, 0x6C, 0x6F];
    assert Ascii("Hello") == [0x48, 0x65, 0x6C, 0x6C, 0x6F];
  }

  lemma HelloUnmasked()
    ensures Xor(0x7F, 0x37) == 0x48 && Xor(0x9F, 0xFA) == 0x65 && Xor(0x4D, 0x21) == 0x6C
    ensures Xor(0x51, 0x3D) == 0x6C && Xor(0x58, 0x37) == 0x6F
  {
    hide Xor;
    XorIsMachine(0x7F, 0x37);
    XorIsMachine(0x9F, 0xFA);
    XorIsMachine(0x4D, 0x21);
    XorIsMachine(0x51, 0x3D);
    XorIsMachine(0x58, 0x37);
  }

  /** A message in two fragments: the first is delivered as it stands and the continuation is dropped. */
  lemma FragmentedText()
    ensures Parse([0x01, 0x03, 0x48, 0x65, 0x6C]) == Complete(Frame(TEXT, Ascii("Hel")), 5)
    ensures Encode(TEXT, Ascii("Hel"), false) == Some([0x01, 0x03, 0x48, 0x65, 0x6C])
    ensures Parse([0x80, 0x02, 0x6C, 0x6F]) == Complete(Frame(0, Ascii("lo")), 4)
  {
    var b: Bytes := [0x01, 0x03, 0x48, 0x65, 0x6C];
    assert b[2..5] == Ascii("Hel");
    assert [0x01, 0x03] + Ascii("Hel") == b;
    var c: Bytes := [0x80, 0x02, 0x6C, 0x6F];
    assert c[2..4] == Ascii("lo");
  }

  lemma PingAndPong()
    ensures Parse([0x89, 0x05, 0x48, 0x65, 0x6C, 0x6C, 0x6F]) == Complete(Frame(PING, Ascii("Hello")), 7)
    ensures Encode(PONG, Ascii("Hello"), true) == Some([0x8A, 0x05, 0x48, 0x65, 0x6C, 0x6C, 0x6F])
  {
    var b: Bytes := [0x89, 0x05, 0x48, 0x65, 0x6C, 0x6C, 0x6F];
    assert b[2..7] == Ascii("Hello");
    assert [0x8A, 0x05] + Ascii("Hello") == [0x8A, 0x05, 0x48, 0x65, 0x6C, 0x6C, 0x6F];
  }

  /** 256 bytes of binary data in one unmasked frame. */
  lemma BinaryOf256(data: Bytes)
    requires |data| == 256
    ensures Encode(BINARY, data, true) == Some([0x82, 0x7E, 0x01, 0x00] + data)
    ensures Parse([0x82, 0x7E, 0x01, 0x00] + data) == Complete(Frame(BINARY, data), 260)
  {
    EncodeParse(BINARY, data, true, []);
    assert Encode(BINARY, data, true) == Some([0x82, 0x7E, 0x01, 0x00] + data);
    assert [0x82, 0x7E, 0x01, 0x00] + data + [] == [0x82, 0x7E, 0x01, 0x00] + data;
  }

  /** 64 kilobytes need an eight-byte length, which is refused, and are not sent. */
  lemma BinaryOf65536(data: Bytes)
    requires |data| == 65536
    ensures Encode(BINARY, data, true) == None
    ensures Parse([0x82, 0x7F, 0, 0, 0, 0, 0, 1, 0, 0] + data) == Invalid
  {
  }
}
