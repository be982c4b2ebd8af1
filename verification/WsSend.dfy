/** Sending frames over a socket whose kernel takes as much of each write as it likes. */
module WsSend {
  import opened Bytes
  import opened WsFrame
  import Bits

  /** `(fin ? 0x80 : 0) | (opcode & 0x0F)`. */
  function FirstByte(opcode: nat, fin: bool): (b: byte)
    ensures b == (if fin then 0x80 else 0) + opcode % 16
  {
    FirstByteIs(opcode, fin);
    Bits.Or(if fin then 0x80 else 0, Bits.And(opcode, 0x0F))
  }

  lemma FirstByteIs(opcode: nat, fin: bool)
    ensures Bits.Or(if fin then 0x80 else 0, Bits.And(opcode, 0x0F)) == (if fin then 0x80 else 0) + opcode % 16
  {
    Bits.Powers();
    hide Bits.And, Bits.Or, Bits.Pow2;
    Bits.ByteMasks(opcode);
    Bits.Join(if fin then 1 else 0, opcode % 16, 7);
  }

  /** `len & 0xFF`. */
  function LowByte(n: nat): (b: byte)
    ensures b == n % 0x100
  {
    Bits.ByteMasks(n);
    Bits.And(n, 0xFF)
  }

  /** What a frame with this header and `data` puts on the wire; `data` may be NULL. */
  function WireOf(opcode: nat, data: Option<Bytes>, length: nat, fin: bool): Bytes
    requires length <= 65535
  {
    Header(opcode, length, fin) + Body(data)
  }

  /** The header of `ws_send_frame`, or None when the payload is too long for it. */
  method FrameHeader(opcode: nat, length: nat, fin: bool) returns (header: Option<Bytes>)
    ensures header == if length > 65535 then None else Some(Header(opcode, length, fin))
    ensures header.Some? ==> 2 <= |header.value| <= 4
  {
    var first := FirstByte(opcode, fin);
    if length <= 125 {
      header := Some([first, length]);
    } else if length <= 65535 {
      header := Some([first, 126, LowByte(length / 0x100), LowByte(length)]);
    } else {
      header := None;
    }
  }

  lemma WireIs(opcode: nat, data: Option<Bytes>, length: nat, fin: bool)
    requires length <= 65535 && (data.Some? ==> |data.value| == length)
    ensures var h, w := Header(opcode, length, fin), WireOf(opcode, data, length, fin);
            && w == h + Body(data) && (data.Some? ==> Encode(opcode, data.value, fin) == Some(w))
  {
    hide Header;
  }

  // ------------------------------------------- what a script of sends does

  /** How a run of `send` calls went: bytes taken, results left over, and the result that stopped it, if any. */
  datatype Played = Played(taken: nat, left: seq<int>, stop: Option<int>) {
    predicate Refused() { stop.Some? && stop.value < 0 }
  }

  /** The calls `ws_send_all` makes for `n` bytes when they return `script`; nothing left counts as an error. */
  function Play(script: seq<int>, n: nat): (p: Played)
    ensures p.taken <= n && (p.stop.None? <==> p.taken == n) && (p.stop.Some? ==> p.stop.value <= 0)
    decreases script
  {
    if n == 0 then Played(0, script, None)
    else if script == [] then Played(0, [], Some(-1))
    else if script[0] <= 0 then Played(0, script[1..], Some(script[0]))
    else
      var k := if script[0] > n then n else script[0];
      var rest := Play(script[1..], n - k);
      Played(k + rest.taken, rest.left, rest.stop)
  }

  /** Enough positive results to carry `n` bytes one at a time. */
  ghost predicate Willing(script: seq<int>, n: nat) {
    |script| >= n && forall i :: 0 <= i < |script| ==> script[i] > 0
  }

  /** No coming `send` returns 0. */
  ghost predicate Steady(script: seq<int>) {
    forall i :: 0 <= i < |script| ==> script[i] != 0
  }

  lemma PlayDone(script: seq<int>)
    ensures Play(script, 0) == Played(0, script, None)
  {
  }

  /** The next `send`. */
  lemma PlayTurn(script: seq<int>, n: nat)
    requires n > 0
    ensures var k := if script == [] then -1 else if script[0] > n then n else script[0];
            var left := if script == [] then [] else script[1..];
            if k <= 0 then Play(script, n) == Played(0, left, Some(k))
            else var p := Play(left, n - k); Play(script, n) == Played(k + p.taken, p.left, p.stop)
  {
  }

  lemma {:induction false} WillingPlays(script: seq<int>, n: nat, more: nat)
    requires Willing(script, n + more)
    ensures Play(script, n).stop == None && Willing(Play(script, n).left, more)
    decreases n
  {
    if n > 0 {
      var k := if script[0] > n then n else script[0];
      WillingPlays(script[1..], n - k, more);
    }
  }

  lemma {:induction false} SteadyPlays(script: seq<int>, n: nat)
    requires Steady(script)
    ensures Play(script, n).stop != Some(0) && Steady(Play(script, n).left)
    decreases script
  {
    if n > 0 && script != [] && script[0] > 0 {
      SteadyPlays(script[1..], n - if script[0] > n then n else script[0]);
    }
  }

  /**
   When `ws_send_frame` reports success for a frame that is not whole on the wire: a `send` of 0 cuts
   the header and the payload is then sent without an error, or the header goes out whole and a
   `send` of 0 cuts the payload.
   */
  predicate Claims(script: seq<int>, header: nat, body: nat) {
    var p := Play(script, header);
    var q := Play(p.left, body);
    if p.stop == Some(0) then !q.Refused() else p.stop == None && q.stop == Some(0)
  }

  /** What `data`, which may be NULL, adds after the header. */
  function Body(data: Option<Bytes>): Bytes { if data.Some? then data.value else [] }


  /** What has gone out, compared with the whole frame. */
  lemma Cut(before: Bytes, h: Bytes, body: Bytes, i: nat, j: nat)
    requires i <= |h| && j <= |body|
    ensures before + h[..i] + body[..j] == before + (h + body) <==> i == |h| && j == |body|
    ensures i == |h| || j == 0 ==> before + h[..i] + body[..j] == before + (h + body)[..i + j]
  {
    if i == |h| && j == |body| {
      assert before + h[..i] + body[..j] == before + (h + body);
    } else {
      assert |before + h[..i] + body[..j]| != |before + (h + body)|;
    }
    if i == |h| || j == 0 {
      assert h[..i] + body[..j] == (h + body)[..i + j];
      assert before + h[..i] + body[..j] == before + (h[..i] + body[..j]);
    }
  }

  lemma ClaimsIs(script: seq<int>, h: nat, body: nat)
    ensures var p := Play(script, h);
            var q := if p.Refused() then Played(0, p.left, None) else Play(p.left, body);
            && (Claims(script, h, body) <==> !p.Refused() && !q.Refused() && !(p.taken == h && q.taken == body))
            && (p.stop == None ==> p.taken == h) && (q.stop == None && p.stop == None ==> q.taken == body)
            && p.taken <= h && q.taken <= body
  {
    hide Play;
  }

  lemma EnoughForBoth(script: seq<int>, h: nat, body: nat, n: nat)
    requires Willing(script, n) && h + body <= n
    ensures var p := Play(script, h); p.stop == None && Play(p.left, body).stop == None
  {
    hide Play;
    WillingPlays(script, h, body);
    WillingPlays(Play(script, h).left, body, 0);
  }

  lemma SteadyBoth(script: seq<int>, h: nat, body: nat)
    requires Steady(script)
    ensures var p := Play(script, h); p.stop != Some(0) && Play(p.left, body).stop != Some(0)
  {
    hide Play;
    SteadyPlays(script, h);
    SteadyPlays(Play(script, h).left, body);
  }

  lemma CutHeader(h: nat, body: nat)
    requires h > 1 && body > 0
    ensures var p := Play([1, 0, body], h);
            p == Played(1, [body], Some(0)) && Play(p.left, body) == Played(body, [], None)
  {
    assert [1, 0, body][1..] == [0, body] && [0, body][1..] == [body] && [body][1..] == [];
    assert Play([0, body], h - 1) == Played(0, [body], Some(0));
    assert Play([], 0) == Played(0, [], None);
  }

  class Socket {
    /** Bytes accepted by the kernel so far. */
    var wire: Bytes
    /** What the coming `send` calls will return, before clipping to the length offered. */
    var script: seq<int>

    constructor (script: seq<int>)
      ensures wire == [] && this.script == script
    {
      wire, this.script := [], script;
    }

    /** `send`: a positive result is the number of leading bytes accepted. */
    method Send(data: Bytes) returns (n: int)
      requires data != []
      modifies this
      ensures old(script) == [] ==> n == -1 && script == []
      ensures old(script) != [] ==>
              n == (if old(script)[0] > |data| then |data| else old(script)[0]) && script == old(script)[1..]
      ensures wire == old(wire) + if n > 0 then data[..n] else []
    {
      if script == [] { return -1; }
      n := if script[0] > |data| then |data| else script[0];
      script := script[1..];
      if n > 0 {
        wire := wire + data[..n];
      }
    }

    /** `ws_send_all`. However positive sends split the bytes, they reach the wire whole and in order. */
    method SendAll(buf: Bytes) returns (r: int)
      modifies this
      ensures var p := Play(old(script), |buf|);
              && script == p.left && wire == old(wire) + buf[..p.taken]
              && r == if p.stop.Some? then p.stop.value else |buf|
      ensures r > 0 || buf == [] ==> r == |buf| && wire == old(wire) + buf
      ensures r <= 0 && buf != [] ==> exists k :: 0 <= k < |buf| && wire == old(wire) + buf[..k]
    {
      hide Play;
      var total := 0;
      ghost var whole := Play(script, |buf|);
      assert buf[..0] == [];
      while total < |buf|
        invariant total <= |buf| && wire == old(wire) + buf[..total]
        invariant var p := Play(script, |buf| - total); whole == Played(total + p.taken, p.left, p.stop)
      {
        PlayTurn(script, |buf| - total);
        var n := Send(buf[total..]);
        if n <= 0 { return n; }
        assert buf[..total] + buf[total..][..n] == buf[..total + n];
        total := total + n;
      }
      PlayDone(script);
      assert buf[..|buf|] == buf;
      r := total;
    }

    /**
     `ws_send_frame`. `data` may be NULL; a negative result is an error. The length is returned for a
     frame that is not whole on the wire exactly when `Claims` says so, which takes a `send` of 0;
     when no `send` returns 0, the length means that the whole frame went out and anything else that
     a proper prefix did. When the kernel keeps accepting, it is the encoded frame.
     */
    method SendFrame(opcode: nat, data: Option<Bytes>, length: nat, fin: bool) returns (r: int)
      requires data.Some? ==> |data.value| == length
      modifies this
      ensures length > 65535 ==> r == -1 && wire == old(wire) && script == old(script)
      ensures length <= 65535 ==> r == length || r == -1
      ensures length <= 65535 ==>
                var h, body := Header(opcode, length, fin), Body(data);
                var p := Play(old(script), |h|);
                var q := if p.Refused() then Played(0, p.left, None) else Play(p.left, |body|);
                && wire == old(wire) + h[..p.taken] + body[..q.taken] && script == q.left
                && (r == -1 <==> p.Refused() || q.Refused())
      ensures length <= 65535 ==>
                (r == length && wire != old(wire) + WireOf(opcode, data, length, fin)
                 <==> Claims(old(script), |Header(opcode, length, fin)|, |Body(data)|))
      ensures length <= 65535 && Willing(old(script), length + 4) ==>
                r == length && wire == old(wire) + WireOf(opcode, data, length, fin)
      ensures data.Some? && Encode(opcode, data.value, fin).Some? && Willing(old(script), length + 4) ==>
                wire == old(wire) + Encode(opcode, data.value, fin).value
      ensures length <= 65535 && Steady(old(script)) ==>
                var w := WireOf(opcode, data, length, fin);
                if r == length then wire == old(wire) + w else exists k :: 0 <= k < |w| && wire == old(wire) + w[..k]
    {
      hide Header, WireOf, Play, Claims;
      var header := FrameHeader(opcode, length, fin);
      if header == None { return -1; }
      WireIs(opcode, data, length, fin);
      ghost var h, body := header.value, Body(data);
      ghost var p := Play(script, |h|);
      ghost var q := if p.Refused() then Played(0, p.left, None) else Play(p.left, |body|);
      ClaimsIs(script, |h|, |body|);
      Cut(wire, h, body, p.taken, q.taken);
      PlayDone(p.left);
      if Willing(script, length + 4) { EnoughForBoth(script, |h|, |body|, length + 4); }
      if Steady(script) { SteadyBoth(script, |h|, |body|); }
      var n := SendAll(header.value);
      assert wire + body[..0] == wire;
      if n < 0 { return -1; }
      if length > 0 && data.Some? {
        n := SendAll(data.value);
        if n < 0 { return -1; }
      }
      return length;
    }
  }

  /**
   The source takes a `send` that returns 0 for success: an empty frame is lost and the call still
   reports that all of it was sent.
   */
  method ZeroSendCutsFrame(opcode: nat) returns (r: int, wire: Bytes)
    ensures r == 0 && wire == [] && |WireOf(opcode, Some([]), 0, true)| == 2
  {
    var s := new Socket([0]);
    r := s.SendFrame(opcode, Some([]), 0, true);
    wire := s.wire;
  }

  /** A `send` of 0 inside the header, whatever the payload: the payload follows one byte of header. */
  method ZeroSendCutsHeader(opcode: nat, payload: Bytes) returns (r: int, wire: Bytes)
    requires 0 < |payload| <= 65535
    ensures r == |payload| && wire == Header(opcode, |payload|, true)[..1] + payload
    ensures wire != Encode(opcode, payload, true).value
  {
    var s := new Socket([1, 0, |payload|]);
    CutHeader(|Header(opcode, |payload|, true)|, |payload|);
    r := s.SendFrame(opcode, Some(payload), |payload|, true);
    wire := s.wire;
  }
}
