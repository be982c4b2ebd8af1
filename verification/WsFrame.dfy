/**
 WebSocket frames (sections 5.2 and 5.3 of RFC 6455): the one-frame parser's
 verdict, draining a byte stream, and the frame encoder.
 */
module WsFrame {
  import opened Bytes
  import Bits

  const MAX_PAYLOAD: nat := 65536
  const READ_BUF: nat := MAX_PAYLOAD + 16

  const TEXT: nat := 0x1
  const BINARY: nat := 0x2
  const CLOSE: nat := 0x8
  const PING: nat := 0x9
  const PONG: nat := 0xA

  /** Exclusive or of two bytes. */
  function Xor(a: byte, b: byte): byte {
    WithinByte(a, b);
    Bits.Xor(a, b)
  }

  lemma WithinByte(a: byte, b: byte)
    ensures Bits.Xor(a, b) < 0x100
  {
    Bits.Powers();
    hide Bits.Xor, Bits.Pow2;
    Bits.Within(a, b, 8);
  }

  lemma XorTwice(a: byte, m: byte)
    ensures Xor(Xor(a, m), m) == a
  {
    Bits.XorTwice(a, m);
  }

  /** On machine bytes this is the machine's exclusive or. */
  lemma XorIsMachine(a: bv8, b: bv8)
    ensures Xor(a as byte, b as byte) == (a ^ b) as byte
  {
    hide Bits.Xor;
    Bits.Machine(a, b);
  }

  /** The payload under its four-byte mask; masking and unmasking are the same operation. */
  function Masked(p: Bytes, mask: Bytes): (r: Bytes)
    requires |mask| == 4
    ensures |r| == |p|
  {
    seq(|p|, i requires 0 <= i < |p| => Xor(p[i], mask[i % 4]))
  }

  lemma MaskTwice(p: Bytes, mask: Bytes)
    requires |mask| == 4
    ensures Masked(Masked(p, mask), mask) == p
  {
    forall i | 0 <= i < |p| ensures Masked(Masked(p, mask), mask)[i] == p[i] {
      XorTwice(p[i], mask[i % 4]);
    }
  }

  // ---------------------------------------------------------------- parsing

  datatype Frame = Frame(opcode: nat, payload: Bytes)

  /** What `ws_try_process_one_frame` makes of the buffered bytes. */
  datatype Verdict = Incomplete | Invalid | Complete(frame: Frame, total: nat)

  predicate IsMasked(b: Bytes) requires |b| >= 2 { b[1] >= 0x80 }

  /** Size of the header before any mask, once it is known. */
  function HeaderSize(b: Bytes): nat
    requires |b| >= 2
  {
    if b[1] % 0x80 == 126 then 4 else 2
  }

  function PayloadLength(b: Bytes): nat
    requires |b| >= 2 && |b| >= HeaderSize(b)
  {
    if b[1] % 0x80 == 126 then
      var high: nat := b[2];
      0x100 * high + b[3]
    else b[1] % 0x80
  }

  function TotalSize(b: Bytes): (n: nat)
    requires |b| >= 2 && |b| >= HeaderSize(b)
    ensures 2 <= n <= 65543
  {
    HeaderSize(b) + (if IsMasked(b) then 4 else 0) + PayloadLength(b)
  }

  function Parse(b: Bytes): (v: Verdict)
    ensures v.Complete? ==> 2 <= v.total <= |b|
  {
    if |b| < 2 then Incomplete
    else if b[1] % 0x80 == 127 then Invalid
    else if |b| < HeaderSize(b) then Incomplete
    else if PayloadLength(b) > MAX_PAYLOAD then Invalid
    else if |b| < TotalSize(b) then Incomplete
    else Complete(Frame(b[0] % 16, PayloadOf(b)), TotalSize(b))
  }

  /** The payload of a buffered frame, unmasked. */
  function PayloadOf(b: Bytes): Bytes
    requires |b| >= 2 && |b| >= HeaderSize(b) && |b| >= TotalSize(b)
  {
    var h := HeaderSize(b);
    if IsMasked(b) then Masked(b[h + 4..TotalSize(b)], b[h..h + 4]) else b[h..TotalSize(b)]
  }

  /** More bytes never change a verdict once there is one. */
  lemma VerdictStable(b: Bytes, more: Bytes)
    requires Parse(b) != Incomplete
    ensures Parse(b + more) == Parse(b)
  {
    var c := b + more;
    assert forall i :: 0 <= i < |b| ==> c[i] == b[i];
    if b[1] % 0x80 != 127 {
      var h, n := HeaderSize(b), TotalSize(b);
      SliceOfAppend(b, more, h, n);
      if IsMasked(b) {
        SliceOfAppend(b, more, h, h + 4);
        SliceOfAppend(b, more, h + 4, n);
      }
    }
  }

  lemma SliceOfAppend(b: Bytes, more: Bytes, i: nat, j: nat)
    requires i <= j <= |b|
    ensures (b + more)[i..j] == b[i..j]
  {
  }

  /** An incomplete frame always leaves ten bytes of the read buffer free. */
  lemma IncompleteFits(b: Bytes)
    requires Parse(b) == Incomplete
    ensures |b| <= 65542 && |b| + 10 <= READ_BUF
  {
  }

  // --------------------------------------------------------------- draining

  datatype Event = Deliver(opcode: nat, payload: Bytes) | Reply(wire: Bytes)

  /** What one frame makes happen; a CLOSE or an unknown opcode has no visible effect of its own. */
  function Effects(f: Frame, hasCallback: bool): seq<Event> {
    if f.opcode == PING then
      match Encode(PONG, f.payload, true) case None => [] case Some(w) => [Reply(w)]
    else if (f.opcode == TEXT || f.opcode == BINARY) && hasCallback then [Deliver(f.opcode, f.payload)]
    else []
  }

  /** A connection seen from outside: what it did, the bytes it still holds, and whether it is up. */
  datatype Session = Session(events: seq<Event>, rest: Bytes, connected: bool)

  /** Process every complete frame of `b` in one go. */
  function Drain(b: Bytes, hasCallback: bool): Session {
    match Parse(b)
    case Incomplete => Session([], b, true)
    case Invalid => Session([], b, false)
    case Complete(f, n) =>
      if f.opcode == CLOSE then Session([], b[n..], false)
      else
        var d := Drain(b[n..], hasCallback);
        Session(Effects(f, hasCallback) + d.events, d.rest, d.connected)
  }

  /** One `recv` of `chunk` and the processing that follows it. */
  function Feed(st: Session, chunk: Bytes, hasCallback: bool): Session {
    if !st.connected then st
    else
      var d := Drain(st.rest + chunk, hasCallback);
      Session(st.events + d.events, d.rest, d.connected)
  }

  function Start(): Session { Session([], [], true) }

  function Run(chunks: seq<Bytes>, hasCallback: bool): Session {
    if chunks == [] then Start()
    else Feed(Run(chunks[..|chunks| - 1], hasCallback), chunks[|chunks| - 1], hasCallback)
  }

  /** The same events and connection state, and the same leftover while the connection is up. */
  predicate SameOutcome(a: Session, b: Session) {
    a.events == b.events && a.connected == b.connected && (a.connected ==> a.rest == b.rest)
  }

  /** What is left after a drain is an incomplete frame. */
  lemma {:induction false} DrainLeavesIncomplete(b: Bytes, hasCallback: bool)
    requires Drain(b, hasCallback).connected
    ensures Parse(Drain(b, hasCallback).rest) == Incomplete
    decreases |b|
  {
    match Parse(b)
    case Complete(f, n) => DrainLeavesIncomplete(b[n..], hasCallback);
    case _ =>
  }

  /** Draining past a complete first frame. */
  lemma DrainFrame(b: Bytes, f: Frame, n: nat, hasCallback: bool)
    requires Parse(b) == Complete(f, n) && f.opcode != CLOSE
    ensures var d := Drain(b[n..], hasCallback);
            Drain(b, hasCallback) == Session(Effects(f, hasCallback) + d.events, d.rest, d.connected)
  {
    hide Parse, Effects;
  }

  lemma JoinEffects(e: seq<Event>, st: Session, more: Bytes, hasCallback: bool, whole: Session)
    requires SameOutcome(Feed(st, more, hasCallback), whole)
    ensures SameOutcome(Feed(Session(e + st.events, st.rest, st.connected), more, hasCallback),
                        Session(e + whole.events, whole.rest, whole.connected))
  {
    hide Drain;
    var d := Drain(st.rest + more, hasCallback);
    assert e + st.events + d.events == e + (st.events + d.events);
  }

  /** Draining in two goes is draining in one. */
  lemma {:induction false} DrainAppend(b: Bytes, more: Bytes, hasCallback: bool)
    ensures SameOutcome(Feed(Drain(b, hasCallback), more, hasCallback), Drain(b + more, hasCallback))
    decreases |b|
  {
    hide Parse, Effects;
    match Parse(b)
    case Incomplete =>
      var d := Drain(b + more, hasCallback);
      assert [] + d.events == d.events;
    case Invalid =>
      VerdictStable(b, more);
    case Complete(f, n) =>
      VerdictStable(b, more);
      assert (b + more)[n..] == b[n..] + more;
      if f.opcode != CLOSE {
        hide Drain, Feed, SameOutcome;
        DrainAppend(b[n..], more, hasCallback);
        DrainFrame(b, f, n, hasCallback);
        DrainFrame(b + more, f, n, hasCallback);
        JoinEffects(Effects(f, hasCallback), Drain(b[n..], hasCallback), more, hasCallback,
          Drain(b[n..] + more, hasCallback));
      }
  }

  /** However a byte stream is cut into reads, the run is that of one read of the whole stream. */
  lemma {:induction false} ChunkingIrrelevant(chunks: seq<Bytes>, hasCallback: bool)
    ensures SameOutcome(Run(chunks, hasCallback), Drain(Concat(chunks), hasCallback))
    decreases |chunks|
  {
    if chunks != [] {
      var init, last := chunks[..|chunks| - 1], chunks[|chunks| - 1];
      ChunkingIrrelevant(init, hasCallback);
      DrainAppend(Concat(init), last, hasCallback);
      var a, b := Run(init, hasCallback), Drain(Concat(init), hasCallback);
      assert SameOutcome(Feed(a, last, hasCallback), Feed(b, last, hasCallback));
    }
  }

  lemma ChunkingsAgree(a: seq<Bytes>, b: seq<Bytes>, hasCallback: bool)
    requires Concat(a) == Concat(b)
    ensures SameOutcome(Run(a, hasCallback), Run(b, hasCallback))
  {
    ChunkingIrrelevant(a, hasCallback);
    ChunkingIrrelevant(b, hasCallback);
  }

  // --------------------------------------------------------------- encoding

  /** The header `ws_send_frame` writes. */
  function Header(opcode: nat, length: nat, fin: bool): Bytes
    requires length <= 65535
  {
    var first: byte := (if fin then 0x80 else 0) + opcode % 16;
    if length <= 125 then [first, length] else [first, 126, length / 0x100, length % 0x100]
  }

  /** The frame `ws_send_frame` puts on the wire. */
  function Encode(opcode: nat, payload: Bytes, fin: bool): Option<Bytes> {
    if |payload| > 65535 then None else Some(Header(opcode, |payload|, fin) + payload)
  }

  /** The masked frame a client sends (section 5.3): mask bit set, mask, masked payload. */
  function EncodeMasked(opcode: nat, payload: Bytes, fin: bool, mask: Bytes): Option<Bytes>
    requires |mask| == 4
  {
    if |payload| > 65535 then None
    else
      var h := Header(opcode, |payload|, fin);
      Some([h[0], h[1] + 0x80] + h[2..] + mask + Masked(payload, mask))
  }

  /** A frame parses back to its opcode and payload and nothing that follows it is touched. */
  lemma EncodeParse(opcode: nat, payload: Bytes, fin: bool, following: Bytes)
    requires |payload| <= 65535
    ensures var w := Encode(opcode, payload, fin).value;
            Parse(w + following) == Complete(Frame(opcode % 16, payload), |w|)
  {
    var w := Encode(opcode, payload, fin).value;
    var h := Header(opcode, |payload|, fin);
    assert w[..|h|] == h && w[|h|..] == payload;
    HeaderReads(w, opcode, |payload|, fin);
    assert w[HeaderSize(w)..TotalSize(w)] == payload;
    VerdictStable(w, following);
  }

  lemma HeaderReads(w: Bytes, opcode: nat, length: nat, fin: bool)
    requires length <= 65535 && |w| >= |Header(opcode, length, fin)|
    requires w[..|Header(opcode, length, fin)|] == Header(opcode, length, fin)
    ensures |w| >= 2 && w[0] % 16 == opcode % 16 && !IsMasked(w) && w[1] != 127
    ensures HeaderSize(w) == |Header(opcode, length, fin)| && PayloadLength(w) == length
  {
    var h := Header(opcode, length, fin);
    assert forall i :: 0 <= i < |h| ==> w[i] == h[i];
  }

  lemma EncodeMaskedParse(opcode: nat, payload: Bytes, fin: bool, mask: Bytes, following: Bytes)
    requires |payload| <= 65535 && |mask| == 4
    ensures var w := EncodeMasked(opcode, payload, fin, mask).value;
            Parse(w + following) == Complete(Frame(opcode % 16, payload), |w|)
  {
    var w := EncodeMasked(opcode, payload, fin, mask).value;
    var n := |Header(opcode, |payload|, fin)|;
    MaskedLayout(w, opcode, payload, fin, mask);
    MaskedReads(w, opcode, |payload|, fin);
    assert w[n + 4..TotalSize(w)] == w[n + 4..];
    MaskTwice(payload, mask);
    VerdictStable(w, following);
  }

  lemma MaskedLayout(w: Bytes, opcode: nat, payload: Bytes, fin: bool, mask: Bytes)
    requires |payload| <= 65535 && |mask| == 4 && EncodeMasked(opcode, payload, fin, mask) == Some(w)
    ensures var h := Header(opcode, |payload|, fin);
            var n := |h|;
            && |w| == n + 4 + |payload|
            && w[0] == h[0] && w[1] == h[1] + 0x80 && (forall i :: 2 <= i < n ==> w[i] == h[i])
            && w[n..n + 4] == mask && w[n + 4..] == Masked(payload, mask)
  {
    var h := Header(opcode, |payload|, fin);
    var top := [h[0], h[1] + 0x80] + h[2..];
    assert w == top + mask + Masked(payload, mask);
    assert |top| == |h| && forall i :: 2 <= i < |h| ==> top[i] == h[i];
  }

  lemma MaskedReads(w: Bytes, opcode: nat, length: nat, fin: bool)
    requires length <= 65535
    requires var h := Header(opcode, length, fin);
             |w| >= |h| && w[0] == h[0] && w[1] == h[1] + 0x80 && forall i :: 2 <= i < |h| ==> w[i] == h[i]
    ensures w[0] % 16 == opcode % 16 && IsMasked(w) && w[1] != 0xFF
    ensures HeaderSize(w) == |Header(opcode, length, fin)| && PayloadLength(w) == length
  {
  }

  /** Two-byte headers up to 125 bytes, four-byte headers from 126: the shortest form of section 5.2. */
  lemma ShortestForm(opcode: nat, payload: Bytes, fin: bool)
    requires |payload| <= 65535
    ensures |Encode(opcode, payload, fin).value| == |payload| + if |payload| <= 125 then 2 else 4
    ensures forall w: Bytes :: Parse(w) == Complete(Frame(opcode % 16, payload), |w|) ==>
            |Encode(opcode, payload, fin).value| <= |w|
  {
  }
}
