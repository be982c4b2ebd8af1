/**
 One WebSocket connection: its read buffer, the in-place frame parser and the
 reads of the poll thread.
 */
module WsConnection {
  import opened Bytes
  import opened WsFrame
  import Bits

  /** What `recv` may return. */
  datatype Recv = Data(chunk: Bytes) | WouldBlock | Failed | Eof

  lemma SubSlice(a: array<byte>, i: nat, j: nat, k: nat, l: nat)
    requires i <= j <= a.Length && k <= l <= j - i
    ensures a[i..j][k..l] == a[i + k..i + l]
  {
    var x, y := a[i..j][k..l], a[i + k..i + l];
    assert |x| == |y|;
    forall m | 0 <= m < |x| ensures x[m] == y[m] {
      assert x[m] == a[i..j][k + m] == a[i + (k + m)];
    }
  }

  /** Where header, mask and payload of a complete frame lie. */
  lemma FrameParts(b: Bytes)
    requires Parse(b).Complete?
    ensures 2 <= HeaderSize(b) && HeaderSize(b) + (if IsMasked(b) then 4 else 0) <= TotalSize(b) <= |b|
    ensures IsMasked(b) ==>
      var h := HeaderSize(b); Parse(b).frame.payload == Masked(b[h + 4..TotalSize(b)], b[h..h + 4])
    ensures !IsMasked(b) ==> Parse(b).frame.payload == b[HeaderSize(b)..TotalSize(b)]
  {
    hide Masked;
  }

  function Prefixed(done: seq<Event>, d: Session): Session { Session(done + d.events, d.rest, d.connected) }

  /** One unfolding of `Drain`. */
  lemma DrainStep(b: Bytes, hasCallback: bool)
    ensures var d, v := Drain(b, hasCallback), Parse(b);
            && (v.Incomplete? ==> d == Session([], b, true))
            && (v.Invalid? ==> d == Session([], b, false))
            && (v.Complete? && v.frame.opcode == CLOSE ==>
                  Effects(v.frame, hasCallback) == [] && d == Session([], b[v.total..], false))
            && (v.Complete? && v.frame.opcode != CLOSE ==>
                  var d' := Drain(b[v.total..], hasCallback);
                  d == Session(Effects(v.frame, hasCallback) + d'.events, d'.rest, d'.connected))
  {
  }

  /** What processing the first frame of `b` leaves to be done. */
  lemma DrainTurn(done: seq<Event>, b: Bytes, hasCallback: bool)
    ensures var v := Parse(b);
            v.Complete? ==>
              var e := Effects(v.frame, hasCallback);
              if v.frame.opcode == CLOSE then Prefixed(done, Drain(b, hasCallback))
                == Session(done + e, b[v.total..], false)
              else Prefixed(done, Drain(b, hasCallback)) == Prefixed(done + e, Drain(b[v.total..], hasCallback))
  {
    hide Parse, Drain, Effects;
    DrainStep(b, hasCallback);
    var v := Parse(b);
    if v.Complete? {
      var e, d' := Effects(v.frame, hasCallback), Drain(b[v.total..], hasCallback);
      assert done + (e + d'.events) == done + e + d'.events;
    }
  }

  /** The first two bytes as the masks of the source read them. */
  lemma HeaderMasks(b0: byte, b1: byte)
    ensures Bits.And(b0, 0x0F) == b0 % 16 && Bits.And(b1, 0x7F) == b1 % 0x80
    ensures Bits.And(b1, 0x80) != 0 <==> b1 >= 0x80
  {
    Bits.ByteMasks(b0);
    Bits.ByteMasks(b1);
  }

  /** `(b[2] << 8) | b[3]`. */
  lemma TwoBytes(high: nat, low: byte)
    ensures Bits.Or(high * 0x100, low) == 0x100 * high + low
  {
    Bits.Powers();
    hide Bits.Or, Bits.Pow2;
    Bits.Join(high, low, 8);
  }

  /** The same, in the buffer the frame lies in. */
  lemma FrameBytes(buffer: array<byte>, off: nat, end: nat)
    requires off <= end <= buffer.Length && Parse(buffer[off..end]).Complete?
    ensures var b := buffer[off..end];
            var p, h, t := Parse(b).frame.payload, HeaderSize(b), TotalSize(b);
            && h + (if IsMasked(b) then 4 else 0) <= t <= end - off
            && buffer[off + t..end] == b[t..]
            && (IsMasked(b) ==> p == Masked(buffer[off + h + 4..off + t], buffer[off + h..off + h + 4]))
            && (!IsMasked(b) ==> p == buffer[off + h..off + t])
  {
    hide Parse, HeaderSize, TotalSize, IsMasked, Masked, PayloadLength;
    var b := buffer[off..end];
    FrameParts(b);
    var h, t := HeaderSize(b), TotalSize(b);
    SubSlice(buffer, off, end, t, end - off);
    if IsMasked(b) {
      SubSlice(buffer, off, end, h, h + 4);
      SubSlice(buffer, off, end, h + 4, t);
    } else {
      SubSlice(buffer, off, end, h, t);
    }
  }

  class Connection {
    const readBuf: array<byte>
    var readLen: nat
    var frameOffset: nat
    var connected: bool
    const hasCallback: bool
    /** Callbacks run and PONGs sent, oldest first. */
    var log: seq<Event>

    ghost predicate Valid()
      reads this
    {
      readBuf.Length == READ_BUF && frameOffset <= readLen <= READ_BUF
    }

    /** The bytes not yet processed. */
    ghost function Pending(): Bytes
      reads this, readBuf
      requires Valid()
    {
      readBuf[frameOffset..readLen]
    }

    ghost function View(): Session
      reads this, readBuf
      requires Valid()
    {
      Session(log, Pending(), connected)
    }

    /** Between reads: nothing skipped, and only an incomplete frame is held. */
    ghost predicate Settled()
      reads this, readBuf
    {
      Valid() && (connected ==> frameOffset == 0 && Parse(Pending()) == Incomplete)
    }

    constructor (hasCallback: bool)
      ensures Settled() && View() == Start() && this.hasCallback == hasCallback && fresh(readBuf)
    {
      readBuf := new byte[READ_BUF];
      readLen, frameOffset, connected, log := 0, 0, true, [];
      this.hasCallback := hasCallback;
    }

    /** `payload[i] ^= mask[i % 4]` over the payload bytes of the buffer. */
    method Unmask(start: nat, length: nat, mask: Bytes, ghost end: nat)
      requires start + length <= end <= readBuf.Length && |mask| == 4
      modifies readBuf
      ensures readBuf[start..start + length] == Masked(old(readBuf[start..start + length]), mask)
      ensures readBuf[..start] == old(readBuf[..start])
      ensures readBuf[start + length..end] == old(readBuf[start + length..end])
    {
      var i := 0;
      while i < length
        invariant i <= length
        invariant forall j :: start <= j < start + i ==> readBuf[j] == Xor(old(readBuf[j]), mask[(j - start) % 4])
        invariant forall j :: 0 <= j < readBuf.Length && !(start <= j < start + i) ==> readBuf[j] == old(readBuf[j])
      {
        readBuf[start + i] := Xor(readBuf[start + i], mask[i % 4]);
        i := i + 1;
      }
    }

    /** Drop the frame just processed: empty the buffer or move what follows to its front. */
    method Consume(total: nat)
      requires Valid() && total <= readLen - frameOffset && total > 0
      modifies this`readLen, this`frameOffset, readBuf
      ensures Valid() && frameOffset == 0 && Pending() == old(Pending()[total..])
    {
      frameOffset := frameOffset + total;
      if frameOffset >= readLen {
        readLen := 0;
        frameOffset := 0;
      } else if frameOffset > 0 {
        var n := readLen - frameOffset;
        forall i | 0 <= i < n {
          readBuf[i] := readBuf[frameOffset + i];
        }
        readLen := n;
        frameOffset := 0;
      }
    }

    /** Undo the mask of the complete frame at the front of the pending bytes. */
    method UnmaskFrame(hsize: nat, total: nat, masked: bool)
      requires Valid() && var b := Pending();
               Parse(b).Complete? && total == TotalSize(b) && hsize == HeaderSize(b) && masked == IsMasked(b)
      modifies readBuf
      ensures var body := frameOffset + hsize + if masked then 4 else 0;
              && readBuf[body..frameOffset + total] == old(Parse(Pending()).frame.payload)
              && readBuf[frameOffset + total..readLen] == old(Pending())[total..]
    {
      hide Parse, HeaderSize, TotalSize, IsMasked, Masked, PayloadLength;
      FrameBytes(readBuf, frameOffset, readLen);
      var off, body := frameOffset, hsize + if masked then 4 else 0;
      if masked {
        Unmask(off + body, total - body, readBuf[off + hsize..off + body], readLen);
      }
    }

    /** What the opcode asks for, with the payload in `readBuf[start..end]`. */
    method Act(opcode: nat, start: nat, end: nat)
      requires start <= end <= readBuf.Length
      modifies this`connected, this`log
      ensures log == old(log) + Effects(Frame(opcode, readBuf[start..end]), hasCallback)
      ensures connected == (old(connected) && opcode != CLOSE)
    {
      if opcode == CLOSE {
        connected := false;
      } else if opcode == PING {
        var wire := Encode(PONG, readBuf[start..end], true);
        if wire.Some? {
          log := log + [Reply(wire.value)];
        }
      } else if opcode == TEXT || opcode == BINARY {
        if hasCallback {
          log := log + [Deliver(opcode, readBuf[start..end])];
        }
      }
    }

    /** The header checks of `ws_try_process_one_frame`. */
    method ReadHeader() returns (r: int, total: nat, hsize: nat, opcode: nat, masked: bool)
      requires Valid()
      ensures var b, v := Pending(), Parse(Pending());
              && (v.Incomplete? ==> r == 0) && (v.Invalid? ==> r == -1)
              && (v.Complete? ==> r == 1 && total == v.total == TotalSize(b) && hsize == HeaderSize(b)
                                  && masked == IsMasked(b) && opcode == v.frame.opcode)
    {
      hide PayloadOf, Bits.And, Bits.Or;
      total, hsize, opcode, masked := 0, 2, 0, false;
      var off, avail := frameOffset, readLen - frameOffset;
      if avail < 2 { return 0, total, hsize, opcode, masked; }
      HeaderMasks(readBuf[off], readBuf[off + 1]);
      opcode, masked := Bits.And(readBuf[off], 0x0F), Bits.And(readBuf[off + 1], 0x80) != 0;
      var plen := Bits.And(readBuf[off + 1], 0x7F);
      if plen == 126 {
        if avail < 4 { return 0, total, hsize, opcode, masked; }
        var high: nat := readBuf[off + 2];
        TwoBytes(high, readBuf[off + 3]);
        plen := Bits.Or(high * 0x100, readBuf[off + 3]);
        hsize := 4;
      } else if plen == 127 {
        return -1, total, hsize, opcode, masked;
      }
      if plen > MAX_PAYLOAD { return -1, total, hsize, opcode, masked; }
      total := hsize + (if masked then 4 else 0) + plen;
      r := if avail < total then 0 else 1;
    }

    /** `ws_try_process_one_frame`. */
    method TryProcessOneFrame() returns (r: int)
      requires Valid()
      modifies this`readLen, this`frameOffset, this`connected, this`log, readBuf
      ensures Valid()
      ensures var v := old(Parse(Pending()));
              && (v.Incomplete? ==> r == 0 && View() == old(View()) && frameOffset == old(frameOffset))
              && (v.Invalid? ==> r == -1 && View() == old(View()) && frameOffset == old(frameOffset))
              && (v.Complete? ==>
                    && r == 1 && frameOffset == 0 && Pending() == old(Pending())[v.total..]
                    && log == old(log) + Effects(v.frame, hasCallback)
                    && connected == (old(connected) && v.frame.opcode != CLOSE))
    {
      hide Effects, PayloadOf, Parse;
      var total, hsize, opcode, masked;
      r, total, hsize, opcode, masked := ReadHeader();
      if r != 1 { return; }
      var off, body := frameOffset, hsize + if masked then 4 else 0;
      UnmaskFrame(hsize, total, masked);
      Act(opcode, off + body, off + total);
      Consume(total);
    }

    // ------------------------------------------------------------- reading

    /** Process every complete frame held; the inner loop of `ws_read_and_parse`. */
    method DrainBuffer()
      requires Valid() && connected && frameOffset == 0
      modifies this`readLen, this`frameOffset, this`connected, this`log, readBuf
      ensures Valid() && frameOffset == 0
      ensures var d := old(Drain(Pending(), hasCallback));
              log == old(log) + d.events && connected == d.connected && (connected ==> Pending() == d.rest)
    {
      hide Drain, Effects, Parse;
      ghost var d, done: seq<Event> := Drain(Pending(), hasCallback), [];
      var processed := 1;
      assert [] + d.events == d.events;
      while processed == 1 && connected
        invariant Valid() && frameOffset == 0 && processed in {0, 1} && log == old(log) + done
        invariant connected ==> Prefixed(done, Drain(Pending(), hasCallback)) == d
        invariant connected && processed == 0 ==> Parse(Pending()) == Incomplete
        invariant !connected ==> done == d.events && !d.connected
        decreases connected, processed, readLen
      {
        ghost var b := Pending();
        DrainStep(b, hasCallback);
        DrainTurn(done, b, hasCallback);
        processed := TryProcessOneFrame();
        if processed < 0 {
          connected := false;
          return;
        }
        if processed == 1 {
          ghost var e := Effects(Parse(b).frame, hasCallback);
          assert old(log) + done + e == old(log) + (done + e);
          done := done + e;
        }
      }
      if connected { DrainStep(Pending(), hasCallback); }
    }

    /**
     `ws_read_and_parse`. The environment's `recv` returns at most the free space it was offered.
     Because a settled buffer always has room, its buffer-full branch is never taken.
     */
    method ReadAndParse(recv: Recv)
      requires Settled() && (connected && recv.Data? ==> 0 < |recv.chunk| <= READ_BUF - readLen)
      modifies this`readLen, this`frameOffset, this`connected, this`log, readBuf
      ensures Settled()
      ensures recv.Data? ==> SameOutcome(View(), Feed(old(View()), recv.chunk, hasCallback))
      ensures recv.WouldBlock? ==> View() == old(View())
      ensures recv.Failed? || recv.Eof? ==> log == old(log) && !connected
    {
      if !connected { return; }
      ghost var rest := Pending();
      IncompleteFits(rest);
      if readLen >= READ_BUF {
        assert false; // the source would drop the connection here
      }
      match recv {
        case WouldBlock => return;
        case Failed => connected := false; return;
        case Eof => connected := false; return;
        case Data(chunk) =>
          forall i | 0 <= i < |chunk| {
            readBuf[readLen + i] := chunk[i];
          }
          readLen := readLen + |chunk|;
          assert Pending() == rest + chunk;
          if Drain(rest + chunk, hasCallback).connected {
            DrainLeavesIncomplete(rest + chunk, hasCallback);
          }
          hide Drain, Parse;
          DrainBuffer();
      }
    }
  }

  /** The chunks a `recv` may hand over when the connection behaves as in `Run`. */
  predicate Fits(chunks: seq<Bytes>, hasCallback: bool) {
    forall i :: 0 <= i < |chunks| ==>
      var st := Run(chunks[..i], hasCallback);
      st.connected ==> 0 < |chunks[i]| <= READ_BUF - |st.rest|
  }

  /** A whole life of a connection: whatever the cuts, it ends as if the stream had been read at once. */
  method ReadAll(c: Connection, chunks: seq<Bytes>)
    requires c.Settled() && c.View() == Start() && Fits(chunks, c.hasCallback)
    modifies c, c.readBuf
    ensures c.Settled() && SameOutcome(c.View(), Drain(Concat(chunks), c.hasCallback))
    ensures c.connected ==> c.readLen <= 65542 && c.frameOffset == 0
  {
    hide Drain, Parse;
    var i := 0;
    assert chunks[..0] == [];
    while i < |chunks|
      invariant i <= |chunks| && c.Settled() && SameOutcome(c.View(), Run(chunks[..i], c.hasCallback))
    {
      assert chunks[..i + 1][..i] == chunks[..i] && chunks[..i + 1][i] == chunks[i];
      c.ReadAndParse(Data(chunks[i]));
      i := i + 1;
    }
    assert chunks[..|chunks|] == chunks;
    ChunkingIrrelevant(chunks, c.hasCallback);
    if c.connected { IncompleteFits(c.Pending()); }
  }
}
