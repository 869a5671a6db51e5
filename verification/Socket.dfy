// The buffer side of server/socket.c: framing on the way out, de-framing and
// decoding on the way in, over three circular buffers.

module Socket {
  import opened Bytes
  import opened Sequences
  import opened Incremental
  import opened Framing
  import opened RingBuffer

  const SENDBUFLEN: nat := 200000000

  /** The bytes one call of push_str adds to the outbuffer. */
  function Pushed(ws: bool, m: Msg): seq<byte>
    requires Pushable(m)
  {
    (if ws then WsHeaderFor(m) else []) + Encode(m)
  }

  /** The assertion in push_str: the length fits 63 bits. */
  predicate Pushable(m: Msg) {
    12 + |m.json| + |m.bin| < TWO63
  }

  /** Everything pushed so far, in order. */
  ghost function Stream(ws: bool, msgs: seq<Msg>): seq<byte>
    requires forall m | m in msgs :: Pushable(m)
  {
    if msgs == [] then [] else Stream(ws, msgs[..|msgs| - 1]) + Pushed(ws, msgs[|msgs| - 1])
  }

  /** On a plain connection the stream is the concatenation of the encodings,
      which the receiving side decodes. */
  lemma {:induction false} StreamPlain(msgs: seq<Msg>)
    requires forall m | m in msgs :: Pushable(m)
    ensures Stream(false, msgs) == Concat(EncodeAll(msgs))
  {
    if msgs != [] {
      var n := |msgs| - 1;
      StreamPlain(msgs[..n]);
      EncodeAllMore(msgs[..n], msgs[n]);
      StreamMore(false, msgs[..n], msgs[n]);
      assert msgs == msgs[..n] + [msgs[n]];
      hide Stream, Concat, EncodeAll, Encode, Pushable;
      assert [] + Encode(msgs[n]) == Encode(msgs[n]);
    }
  }

  lemma EncodeAllMore(msgs: seq<Msg>, m: Msg)
    ensures Concat(EncodeAll(msgs + [m])) == Concat(EncodeAll(msgs)) + Encode(m)
  {
    hide Encode;
    assert EncodeAll(msgs + [m]) == EncodeAll(msgs) + [Encode(m)];
    ConcatAppend(EncodeAll(msgs), [Encode(m)]);
    assert Concat([Encode(m)]) == Encode(m);
  }

  /** On a WebSocket connection every push is one frame whose payload is the
      encoded message. */
  lemma PushedFrame(m: Msg, t: seq<byte>)
    requires Pushable(m)
    ensures var u := Pushed(true, m) + t;
            var h := RfcHeader(u);
            h.Item? && h.v.fin && h.v.opcode == 2 && !h.v.masked &&
            h.size + h.v.payloadLen == |Pushed(true, m)| &&
            u[h.size..h.size + h.v.payloadLen] == Encode(m)
  {
    var n := 12 + |m.json| + |m.bin|;
    assert |Encode(m)| == n;
    WsHeaderReads(n, Encode(m) + t);
    hide WsHeader, Encode, RfcHeader;
    assert Pushed(true, m) + t == WsHeader(n) + (Encode(m) + t);
  }

  /** The frames of a WebSocket stream. */
  function PushedAll(msgs: seq<Msg>): (codes: seq<seq<byte>>)
    requires forall m | m in msgs :: Pushable(m)
    ensures |codes| == |msgs|
  {
    seq(|msgs|, i requires 0 <= i < |msgs| => Pushed(true, msgs[i]))
  }

  lemma {:induction false} StreamFrames(msgs: seq<Msg>)
    requires forall m | m in msgs :: Pushable(m)
    ensures Stream(true, msgs) == Concat(PushedAll(msgs))
  {
    if msgs != [] {
      var n := |msgs| - 1;
      hide Pushable, Pushed;
      StreamFrames(msgs[..n]);
      PushedAllMore(msgs, n);
      hide PushedAll;
      ConcatAppend(PushedAll(msgs[..n]), [Pushed(true, msgs[n])]);
      assert Concat([Pushed(true, msgs[n])]) == Pushed(true, msgs[n]);
    }
  }

  lemma PushedAllMore(msgs: seq<Msg>, n: nat)
    requires n + 1 == |msgs| && forall m | m in msgs :: Pushable(m)
    ensures PushedAll(msgs) == PushedAll(msgs[..n]) + [Pushed(true, msgs[n])]
  {
    hide Pushable, Pushed;
  }

  lemma FramesDecode(msgs: seq<Msg>)
    requires forall m | m in msgs :: Pushable(m)
    ensures forall i | 0 <= i < |msgs| :: Encodes(RfcStep(), PushedAll(msgs)[i], EncodeAll(msgs)[i])
  {
    hide Encode, Pushable, Pushed, Encodes;
    forall i | 0 <= i < |msgs| ensures Encodes(RfcStep(), PushedAll(msgs)[i], EncodeAll(msgs)[i]) {
      PushedDecodes(msgs[i]);
    }
  }

  lemma PushedDecodes(m: Msg)
    requires Pushable(m)
    ensures Encodes(RfcStep(), Pushed(true, m), Encode(m))
  {
    forall t ensures RfcStep()(Pushed(true, m) + t) == Item(Encode(m), |Pushed(true, m)|) {
      PushedFrame(m, t);
      hide RfcHeader, Pushed, Encode;
    }
  }

  /** Reading a WebSocket stream frame by frame, in any chunks and after any
      part of it, yields the encodings of the messages sent completely, each in
      a frame of its own. */
  lemma PeerFrames(msgs: seq<Msg>, chunks: seq<seq<byte>>, later: seq<byte>) returns (k: nat)
    requires forall m | m in msgs :: Pushable(m)
    requires Concat(chunks) + later == Stream(true, msgs)
    ensures IsIncremental(RfcStep()) && k <= |msgs| && (later == [] ==> k == |msgs|)
    ensures var r := Receive(RfcStep(), [], chunks);
            r.items == EncodeAll(msgs)[..k] && !r.dead && |r.rest| <= |Concat(chunks)| &&
            (k < |msgs| ==> |r.rest| < |Pushed(true, msgs[k])|)
    ensures later == [] ==> Receive(RfcStep(), [], chunks).rest == []
  {
    RfcIncremental();
    StreamFrames(msgs);
    FramesDecode(msgs);
    hide IsIncremental, Encodes, RfcFrame, Encode, Pushable, Pushed, Stream, Concat, Drain, Receive;
    var codes, n := PushedAll(msgs), |Concat(chunks)|;
    k := DrainPrefix(RfcStep(), codes, EncodeAll(msgs), n);
    if later == [] {
      PartsWhole(codes, k);
    }
    assert Concat(codes)[..n] == Concat(chunks) && [] + Concat(chunks) == Concat(chunks);
    ChunkIndependence(RfcStep(), [], chunks);
  }

  /** The peer of a plain connection decodes what was pushed: all of it once the
      outbuffer is empty, and at any moment the messages sent completely. */
  lemma PeerDecodes(sock: Socket, chunks: seq<seq<byte>>, parses: seq<byte> -> bool) returns (k: nat)
    requires sock.Valid() && !sock.wsEnabled && AllSendable(sock.pushed, parses)
    requires Concat(chunks) == sock.sent
    ensures k <= |sock.pushed| && (sock.wbuf.Contents() == [] ==> k == |sock.pushed|)
    ensures DimeReceive(chunks, parses).items == sock.pushed[..k] && !DimeReceive(chunks, parses).dead
    ensures k < |sock.pushed| ==> |DimeReceive(chunks, parses).rest| < |Encode(sock.pushed[k])|
  {
    StreamPlain(sock.pushed);
    hide Stream, Concat, Encode, AllSendable, DimeReceive, RingBuffer.Contents;
    k := DimeTail(sock.pushed, chunks, sock.wbuf.Contents(), parses);
    if sock.wbuf.Contents() == [] {
      PartsWhole(EncodeAll(sock.pushed), k);
    }
  }

  /** The same on a WebSocket connection, frame by frame. */
  lemma PeerDeframes(sock: Socket, chunks: seq<seq<byte>>) returns (k: nat)
    requires sock.Valid() && sock.wsEnabled && Concat(chunks) == sock.sent
    ensures IsIncremental(RfcStep()) && k <= |sock.pushed| && (sock.wbuf.Contents() == [] ==> k == |sock.pushed|)
    ensures Receive(RfcStep(), [], chunks).items == EncodeAll(sock.pushed)[..k]
    ensures !Receive(RfcStep(), [], chunks).dead
  {
    hide Stream, Concat, IsIncremental, EncodeAll, Receive, RingBuffer.Contents;
    k := PeerFrames(sock.pushed, chunks, sock.wbuf.Contents());
  }

  lemma StreamMore(ws: bool, msgs: seq<Msg>, m: Msg)
    requires Pushable(m) && forall x | x in msgs :: Pushable(x)
    ensures Stream(ws, msgs + [m]) == Stream(ws, msgs) + Pushed(ws, m)
  {
    assert (msgs + [m])[..|msgs|] == msgs;
  }

  function WsHeaderFor(m: Msg): seq<byte>
    requires Pushable(m)
  {
    WsHeader(12 + |m.json| + |m.bin|)
  }

  /** The writes of push_str, one after the other. */
  lemma PushedParts(ws: bool, m: Msg, before: seq<byte>, wsHdr: seq<byte>, hdr: seq<byte>)
    requires Pushable(m) && wsHdr == if ws then WsHeaderFor(m) else []
    requires hdr == MAGIC + ToBE(|m.json| % TWO32, 4) + ToBE(|m.bin| % TWO32, 4)
    ensures before + wsHdr + hdr + m.json + m.bin == before + Pushed(ws, m)
    ensures |Pushed(ws, m)| == 12 + |wsHdr| + |m.json| + |m.bin|
    ensures !ws ==> before + wsHdr == before
  {
    hide ToBE, WsHeader;
    assert Encode(m) == hdr + m.json + m.bin;
    assert before + wsHdr + hdr + m.json + m.bin == before + (wsHdr + Encode(m));
  }

  lemma Split(a: seq<byte>, b: seq<byte>, k: nat)
    requires k <= |b|
    ensures (a + b[..k]) + b[k..] == a + b
  {
  }

  lemma PrependMore<T>(done: seq<T>, v: T, d: Drained<T>)
    ensures Prepend(done, Prepend([v], d)) == Prepend(done + [v], d)
  {
    assert done + ([v] + d.items) == done + [v] + d.items;
  }

  /** The pop loop on what has been received. */
  ghost function PopAll(ws: bool, s: WsState, parses: seq<byte> -> bool): Outcome {
    DimeIncremental(parses);
    if ws then WsDrain(s, parses)
    else
      var d := Drain(DimeStep(parses), s.rbuf);
      Outcome(d.items, s.(rbuf := d.rest), d.dead)
  }

  /** A chunk arrives, on a plain or a WebSocket connection. */
  function Arrived(ws: bool, s: WsState, chunk: seq<byte>): WsState {
    if ws then s.(ws := s.ws + chunk) else s.(rbuf := s.rbuf + chunk)
  }

  /** What one readable event achieves. */
  ghost function Handled(ws: bool, s: WsState, chunk: seq<byte>, parses: seq<byte> -> bool): Outcome {
    PopAll(ws, Arrived(ws, s, chunk), parses)
  }

  /** One pop of the loop: what is left to pop is what the loop will still do. */
  lemma PopAllStep(ws: bool, s: WsState, parses: seq<byte> -> bool)
    ensures ws && FrameError(s) ==> PopAll(ws, s, parses) == Outcome([], Deframed(s), true)
    ensures !(ws && FrameError(s)) ==>
              var t := if ws then Deframed(s) else s;
              var r := PopOne(t.rbuf, parses);
              (!r.Item? ==> PopAll(ws, s, parses) == Outcome([], t, r.Bad?)) &&
              (r.Item? ==> 0 < r.size <= |t.rbuf|) &&
              (r.Item? ==> PopAll(ws, s, parses) == After([r.v], PopAll(ws, t.(rbuf := t.rbuf[r.size..]), parses))) &&
              (r.Item? && ws ==> Deframed(t.(rbuf := t.rbuf[r.size..])) == t.(rbuf := t.rbuf[r.size..]))
  {
    var t := if ws then Deframed(s) else s;
    if !(ws && FrameError(s)) {
      DrainOnce(parses, t.rbuf);
      var r := PopOne(t.rbuf, parses);
      if ws && r.Item? {
        DeframedNothing(s, t.(rbuf := t.rbuf[r.size..]));
      }
      hide PopOne, Deframed, FrameError, Drain, IsIncremental;
    }
  }

  lemma DrainOnce(parses: seq<byte> -> bool, s: seq<byte>)
    ensures IsIncremental(DimeStep(parses))
    ensures PopOne(s, parses).More? ==> Drain(DimeStep(parses), s) == Drained([], s, false)
    ensures PopOne(s, parses).Bad? ==> Drain(DimeStep(parses), s) == Drained([], s, true)
    ensures PopOne(s, parses).Item? ==> 0 < PopOne(s, parses).size <= |s|
    ensures PopOne(s, parses).Item? ==>
              Drain(DimeStep(parses), s) ==
              Prepend([PopOne(s, parses).v], Drain(DimeStep(parses), s[PopOne(s, parses).size..]))
  {
    DimeIncremental(parses);
  }

  /** What is left after de-framing holds no further frame. */
  lemma DeframedNothing(start: WsState, now: WsState)
    requires now.ws == Deframed(start).ws && !FrameError(start)
    ensures Deframed(now) == now && !FrameError(now)
  {
    FrameIncremental();
    assert now.rbuf + Concat<byte>([]) == now.rbuf;
  }

  /** Invariant of the de-framing loop: `done` are the payloads taken so far. */
  ghost predicate Deframing(start: WsState, done: seq<seq<byte>>, now: WsState) {
    FrameIncremental();
    now.rbuf == start.rbuf + Concat(done) && Drain(FrameStep(), start.ws) == Prepend(done, Drain(FrameStep(), now.ws))
  }

  lemma DeframeStart(start: WsState)
    ensures Deframing(start, [], start)
  {
    FrameIncremental();
    assert start.rbuf + Concat<byte>([]) == start.rbuf;
    var d := Drain(FrameStep(), start.ws);
    assert Prepend([], d) == d;
  }

  lemma DeframeMore(start: WsState, done: seq<seq<byte>>, now: WsState)
    requires Deframing(start, done, now) && FrameOne(now.ws).Item?
    ensures var f := FrameOne(now.ws);
            0 < f.size <= |now.ws| &&
            Deframing(start, done + [f.v], WsState(now.ws[f.size..], now.rbuf + f.v))
  {
    FrameIncremental();
    hide FrameOne, IsIncremental;
    var f := FrameOne(now.ws);
    StepSize(FrameStep(), now.ws);
    ConcatAppend(done, [f.v]);
    assert Concat([f.v]) == f.v;
    PrependMore(done, f.v, Drain(FrameStep(), now.ws[f.size..]));
  }

  lemma DeframeEnd(start: WsState, done: seq<seq<byte>>, now: WsState)
    requires Deframing(start, done, now) && !FrameOne(now.ws).Item?
    ensures now == Deframed(start) && FrameError(start) == FrameOne(now.ws).Bad?
  {
    FrameIncremental();
    hide FrameOne, IsIncremental;
    assert done + [] == done;
  }

  /** The in-place unmasking loop. */
  method Unmask(frame: array<byte>, mask: seq<byte>)
    requires |mask| == 4
    modifies frame
    ensures frame[..] == Masked(old(frame[..]), mask)
  {
    for i := 0 to frame.Length
      invariant forall j | 0 <= j < i :: frame[j] == Xor(old(frame[j]), mask[j % 4])
      invariant forall j | i <= j < frame.Length :: frame[j] == old(frame[j])
    {
      frame[i] := Xor(frame[i], mask[i % 4]);
    }
  }

  class Socket {
    const wsEnabled: bool
    const rbuf: RingBuffer
    const wbuf: RingBuffer
    const wsRbuf: RingBuffer

    ghost var sent: seq<byte>
    ghost var pushed: seq<Msg>

    ghost predicate Valid()
      reads this, rbuf, wbuf, wsRbuf, wbuf.arr
    {
      && rbuf != wbuf && rbuf != wsRbuf && wbuf != wsRbuf
      && rbuf.Valid() && wbuf.Valid() && wsRbuf.Valid()
      && rbuf.arr != wbuf.arr && rbuf.arr != wsRbuf.arr && wbuf.arr != wsRbuf.arr
      && Accounted()
    }

    /** The bytes sent plus the outbuffer are the bytes of all messages pushed. */
    ghost predicate Accounted()
      reads this, wbuf, wbuf.arr
      requires wbuf.Valid()
    {
      && (forall m | m in pushed :: Pushable(m))
      && sent + wbuf.Contents() == Stream(wsEnabled, pushed)
    }

    /** What has been received and not yet consumed. */
    ghost function In(): WsState
      reads this, rbuf, wsRbuf, rbuf.arr, wsRbuf.arr
      requires rbuf.Valid() && wsRbuf.Valid()
    {
      WsState(wsRbuf.Contents(), rbuf.Contents())
    }

    /** dime_socket_init. */
    constructor (wsEnabled: bool)
      ensures Valid() && this.wsEnabled == wsEnabled
      ensures In() == WsState([], []) && sent == [] && pushed == []
      ensures fresh(rbuf) && fresh(wbuf) && fresh(wsRbuf) && fresh(rbuf.arr) && fresh(wbuf.arr) && fresh(wsRbuf.arr)
    {
      this.wsEnabled := wsEnabled;
      rbuf := new RingBuffer();
      wbuf := new RingBuffer();
      wsRbuf := new RingBuffer();
      sent, pushed := [], [];
    }

    /** dime_socket_push_str. */
    method PushStr(json: seq<byte>, bin: seq<byte>) returns (n: nat)
      requires Valid() && Pushable(Msg(json, bin))
      modifies this`pushed, wbuf, wbuf.arr
      ensures Valid() && (wbuf.arr == old(wbuf.arr) || fresh(wbuf.arr))
      ensures pushed == old(pushed) + [Msg(json, bin)] && sent == old(sent)
      ensures wbuf.Contents() == old(wbuf.Contents()) + Pushed(wsEnabled, Msg(json, bin))
      ensures n == |Pushed(wsEnabled, Msg(json, bin))|
    {
      hide Stream, Pushable, Pushed, RingBuffer.Contents;
      ghost var m, before := Msg(json, bin), wbuf.Contents();
      n := WriteMessage(json, bin);
      StreamMore(wsEnabled, pushed, m);
      Regroup(sent, before, Pushed(wsEnabled, m));
      pushed := pushed + [m];
    }

    /** The writes of push_str. */
    method WriteMessage(json: seq<byte>, bin: seq<byte>) returns (n: nat)
      requires wbuf.Valid() && Pushable(Msg(json, bin))
      modifies wbuf, wbuf.arr
      ensures wbuf.Valid() && (wbuf.arr == old(wbuf.arr) || fresh(wbuf.arr))
      ensures wbuf.Contents() == old(wbuf.Contents()) + Pushed(wsEnabled, Msg(json, bin))
      ensures n == |Pushed(wsEnabled, Msg(json, bin))|
    {
      hide WsHeader, ToBE, Encode, Pushable, Pushed, WsHeaderFor, RingBuffer.Contents;
      var m := Msg(json, bin);
      var hdr := MAGIC + ToBE(|json| % TWO32, 4) + ToBE(|bin| % TWO32, 4);
      var wsHdr: seq<byte> := [];
      ghost var before := wbuf.Contents();
      if wsEnabled {
        wsHdr := WsHeaderFor(m);
        var w := wbuf.Write(wsHdr);
      }
      var w := wbuf.Write(hdr);
      w := wbuf.Write(json);
      w := wbuf.Write(bin);
      PushedParts(wsEnabled, m, before, wsHdr, hdr);
      return 12 + |wsHdr| + |json| + |bin|;
    }

    /** dime_socket_sendpartial; `accepted` is what send() answers. */
    method SendPartial(accepted: int) returns (n: int)
      requires Valid()
      requires accepted <= |wbuf.Contents()| && accepted <= SENDBUFLEN
      modifies this`sent, wbuf
      ensures Valid() && wbuf.arr == old(wbuf.arr) && pushed == old(pushed)
      ensures n == (if accepted < 0 then -1 else accepted)
      ensures accepted < 0 ==> sent == old(sent) && wbuf.Contents() == old(wbuf.Contents())
      ensures accepted >= 0 ==> sent == old(sent) + old(wbuf.Contents())[..accepted]
      ensures accepted >= 0 ==> wbuf.Contents() == old(wbuf.Contents())[accepted..]
    {
      hide Stream, RingBuffer.Contents;
      var buf := wbuf.Peek(SENDBUFLEN);
      if accepted < 0 {
        return -1;
      }
      ghost var was := wbuf.Contents();
      Split(sent, was, accepted);
      assert buf[..accepted] == was[..accepted];
      var d := wbuf.Discard(accepted);
      sent := sent + buf[..accepted];
      return accepted;
    }

    /** dime_socket_recvpartial; `data` is what recv() delivers. */
    method RecvPartial(data: seq<byte>) returns (n: nat)
      requires Valid()
      modifies rbuf, wsRbuf, rbuf.arr, wsRbuf.arr
      ensures Valid() && n == |data|
      ensures rbuf.arr == old(rbuf.arr) || fresh(rbuf.arr)
      ensures wsRbuf.arr == old(wsRbuf.arr) || fresh(wsRbuf.arr)
      ensures In() == Arrived(wsEnabled, old(In()), data)
    {
      if wsEnabled {
        n := wsRbuf.Write(data);
      } else {
        n := rbuf.Write(data);
      }
    }

    /** The top of the de-framing loop: is there a frame to take? */
    method NextFrame() returns (f: Step<seq<byte>>, hdrLen: nat)
      requires wsRbuf.Valid()
      ensures f.More? || f.Bad? ==> f == FrameOne(wsRbuf.Contents())
      ensures f.Item? ==> FrameOne(wsRbuf.Contents()).Item?
      ensures f.Item? ==> 4 <= hdrLen <= f.size == FrameOne(wsRbuf.Contents()).size <= |wsRbuf.Contents()|
      ensures f.Item? ==> |f.v| == 4
      ensures f.Item? ==> FrameOne(wsRbuf.Contents()).v == Masked(wsRbuf.Contents()[hdrLen..f.size], f.v)
    {
      var wsHdr := wsRbuf.Peek(14);
      var nread := |wsHdr|;
      ghost var s := wsRbuf.Contents();
      hide RingBuffer.Contents, FromBE, Masked;
      assert wsHdr == s[..nread];
      var frameLen;
      if nread >= 6 && wsHdr[1] % 128 < 126 {
        hdrLen := 6;
        frameLen := wsHdr[1] % 128;
      } else if nread >= 8 && wsHdr[1] % 128 == 126 {
        hdrLen := 8;
        frameLen := FromBE(wsHdr[2..4]);
        SlicePrefix(s, nread, 2, 4);
      } else if nread == 14 && wsHdr[1] % 128 == 127 {
        hdrLen := 14;
        frameLen := FromBE(wsHdr[2..10]);
        SlicePrefix(s, nread, 2, 10);
      } else {
        return More, 0;
      }
      var mask := wsHdr[hdrLen - 4..hdrLen];
      SlicePrefix(s, nread, hdrLen - 4, hdrLen);
      if wsHdr[1] < 128 || hdrLen + frameLen >= TWO64 {
        return Bad, 0;
      }
      var msgsiz := hdrLen + frameLen;
      var n := wsRbuf.Len();
      if n < msgsiz {
        return More, 0;
      }
      return Item(mask, msgsiz), hdrLen;
    }

    /** dime_socket_pop: de-frame all that is complete, then take one message. */
    method Pop(parses: seq<byte> -> bool) returns (r: Step<Msg>)
      requires Valid()
      modifies rbuf, wsRbuf, rbuf.arr
      ensures Valid() && wsRbuf.arr == old(wsRbuf.arr)
      ensures rbuf.arr == old(rbuf.arr) || fresh(rbuf.arr)
      ensures var s := if wsEnabled then Deframed(old(In())) else old(In());
              if wsEnabled && FrameError(old(In())) then r == Bad && In() == s
              else r == PopOne(s.rbuf, parses) &&
                   In() == if r.Item? then s.(rbuf := s.rbuf[r.size..]) else s
    {
      if wsEnabled {
        var ok := Deframe();
        if !ok {
          return Bad;
        }
      }
      r := PopMessage(parses);
    }

    /** The de-framing loop. */
    method Deframe() returns (ok: bool)
      requires Valid()
      modifies rbuf, wsRbuf, rbuf.arr
      ensures Valid() && wsRbuf.arr == old(wsRbuf.arr)
      ensures rbuf.arr == old(rbuf.arr) || fresh(rbuf.arr)
      ensures In() == Deframed(old(In())) && ok == !FrameError(old(In()))
    {
      hide FrameOne, RingBuffer.Contents, Accounted, Deframing, Deframed, FrameError;
      ghost var start := In();
      ghost var done: seq<seq<byte>> := [];
      DeframeStart(start);
      while true
        invariant Valid() && wsRbuf.arr == old(wsRbuf.arr)
        invariant rbuf.arr == old(rbuf.arr) || fresh(rbuf.arr)
        invariant Deframing(start, done, In())
        decreases |wsRbuf.Contents()|
      {
        ghost var s := In();
        var f := TakeFrame();
        if !f.Item? {
          DeframeEnd(start, done, s);
          return f.More?;
        }
        DeframeMore(start, done, s);
        done := done + [f.v];
      }
    }

    /** One round of the loop: unmask a complete frame into the inbuffer. */
    method TakeFrame() returns (f: Step<seq<byte>>)
      requires Valid()
      modifies rbuf, wsRbuf, rbuf.arr
      ensures Valid() && wsRbuf.arr == old(wsRbuf.arr)
      ensures rbuf.arr == old(rbuf.arr) || fresh(rbuf.arr)
      ensures f == FrameOne(old(wsRbuf.Contents()))
      ensures !f.Item? ==> In() == old(In())
      ensures f.Item? ==> f.size <= |old(wsRbuf.Contents())|
      ensures f.Item? ==> In() == WsState(old(wsRbuf.Contents())[f.size..], old(rbuf.Contents()) + f.v)
    {
      hide FrameOne, Masked, Accounted, RingBuffer.Contents;
      ghost var s := wsRbuf.Contents();
      var hdr, hdrLen := NextFrame();
      if !hdr.Item? {
        return hdr;
      }
      var msg := wsRbuf.Peek(hdr.size);
      var frame := new byte[hdr.size - hdrLen](i requires 0 <= i < hdr.size - hdrLen => msg[hdrLen + i]);
      assert frame[..] == s[hdrLen..hdr.size];
      Unmask(frame, hdr.v);
      var n := rbuf.Write(frame[..]);
      n := wsRbuf.Discard(hdr.size);
      return Item(frame[..], hdr.size);
    }

    /** The second half of pop, on the inbuffer. */
    method PopMessage(parses: seq<byte> -> bool) returns (r: Step<Msg>)
      requires Valid()
      modifies rbuf
      ensures Valid() && rbuf.arr == old(rbuf.arr)
      ensures r == PopOne(old(In()).rbuf, parses)
      ensures In() == (if r.Item? then old(In()).(rbuf := old(In()).rbuf[r.size..]) else old(In()))
    {
      hide Accounted, RingBuffer.Contents, FromBE;
      ghost var s := rbuf.Contents();
      var hdr := rbuf.Peek(12);
      if |hdr| < 12 {
        return More;
      }
      assert hdr[..4] == s[..4] && hdr[4..8] == s[4..8] && hdr[8..12] == s[8..12];
      if hdr[..4] != MAGIC {
        return Bad;
      }
      var jsondataLen, bindataLen := FromBE(hdr[4..8]), FromBE(hdr[8..12]);
      var msgsiz := 12 + jsondataLen + bindataLen;
      if msgsiz >= TWO32 {
        return Bad;
      }
      var buf := rbuf.Peek(msgsiz);
      if |buf| < msgsiz {
        return More;
      }
      var json := buf[12..12 + jsondataLen];
      assert json == s[12..12 + jsondataLen];
      if !parses(json) {
        return Bad;
      }
      var bin := buf[12 + jsondataLen..msgsiz];
      assert bin == s[12 + jsondataLen..msgsiz];
      var n := rbuf.Discard(msgsiz);
      return Item(Msg(json, bin), msgsiz);
    }

    /** One readable event of the server loop: receive a chunk, then pop until
        nothing more comes; an error stops the server. */
    method HandleReadable(chunk: seq<byte>, parses: seq<byte> -> bool) returns (msgs: seq<Msg>, alive: bool)
      requires Valid()
      modifies rbuf, wsRbuf, rbuf.arr, wsRbuf.arr
      ensures Valid()
      ensures rbuf.arr == old(rbuf.arr) || fresh(rbuf.arr)
      ensures wsRbuf.arr == old(wsRbuf.arr) || fresh(wsRbuf.arr)
      ensures Outcome(msgs, In(), !alive) == Handled(wsEnabled, old(In()), chunk, parses)
    {
      hide PopOne, Deframed, FrameError, PopAll, Accounted, RingBuffer.Contents, After;
      var n := RecvPartial(chunk);
      ghost var start := In();
      msgs := [];
      ghost var first := true;
      AfterNothing(PopAll(wsEnabled, start, parses));
      while true
        invariant Valid()
        invariant rbuf.arr == old(rbuf.arr) || fresh(rbuf.arr)
        invariant wsRbuf.arr == old(wsRbuf.arr) || fresh(wsRbuf.arr)
        invariant PopAll(wsEnabled, start, parses) == After(msgs, PopAll(wsEnabled, In(), parses))
        invariant !first && wsEnabled ==> Deframed(In()) == In()
        decreases if first then 1 else 0, |In().rbuf|
      {
        ghost var s := In();
        PopAllStep(wsEnabled, s, parses);
        var r := Pop(parses);
        if !r.Item? {
          AfterEnd(msgs, In(), r.Bad?);
          return msgs, r.More?;
        }
        AfterMore(msgs, [r.v], PopAll(wsEnabled, In(), parses));
        msgs := msgs + [r.v];
        first := false;
      }
    }

    /** All readable events of a connection, while the server lives. */
    method ReceiveAll(chunks: seq<seq<byte>>, parses: seq<byte> -> bool) returns (msgs: seq<Msg>, alive: bool)
      requires Valid()
      modifies rbuf, wsRbuf, rbuf.arr, wsRbuf.arr
      ensures Valid()
      ensures Outcome(msgs, In(), !alive) == Received(wsEnabled, old(In()), chunks, parses)
    {
      hide Accounted, RingBuffer.Contents, Handled;
      msgs, alive := [], true;
      var i := 0;
      ghost var total := Received(wsEnabled, In(), chunks, parses);
      while i < |chunks| && alive
        invariant 0 <= i <= |chunks| && Valid()
        invariant rbuf.arr == old(rbuf.arr) || fresh(rbuf.arr)
        invariant wsRbuf.arr == old(wsRbuf.arr) || fresh(wsRbuf.arr)
        invariant alive ==> total == After(msgs, Received(wsEnabled, In(), chunks[i..], parses))
        invariant !alive ==> total == Outcome(msgs, In(), true)
      {
        assert chunks[i..][0] == chunks[i] && chunks[i..][1..] == chunks[i + 1..];
        ghost var s := In();
        var more;
        more, alive := HandleReadable(chunks[i], parses);
        AfterMore(msgs, more, Received(wsEnabled, In(), chunks[i + 1..], parses));
        msgs := msgs + more;
        i := i + 1;
      }
    }
  }

  ghost function After(msgs: seq<Msg>, o: Outcome): Outcome {
    Outcome(msgs + o.msgs, o.state, o.dead)
  }

  lemma AfterNothing(o: Outcome)
    ensures After([], o) == o
  {
    assert [] + o.msgs == o.msgs;
  }

  lemma AfterEnd(msgs: seq<Msg>, s: WsState, dead: bool)
    ensures After(msgs, Outcome([], s, dead)) == Outcome(msgs, s, dead)
  {
    assert msgs + [] == msgs;
  }

  lemma AfterMore(msgs: seq<Msg>, more: seq<Msg>, o: Outcome)
    ensures After(msgs, After(more, o)) == After(msgs + more, o)
  {
    assert msgs + (more + o.msgs) == msgs + more + o.msgs;
  }

  /** One readable event after the other; an error ends the run. */
  ghost function Received(ws: bool, s: WsState, chunks: seq<seq<byte>>, parses: seq<byte> -> bool): Outcome
    decreases |chunks|
  {
    if chunks == [] then Outcome([], s, false)
    else
      var o := Handled(ws, s, chunks[0], parses);
      if o.dead then o else After(o.msgs, Received(ws, o.state, chunks[1..], parses))
  }

  lemma {:induction false} ReceivedPlain(s: WsState, chunks: seq<seq<byte>>, parses: seq<byte> -> bool)
    ensures var o, d := Received(false, s, chunks, parses), DimeReceiveFrom(s.rbuf, chunks, parses);
            o == Outcome(d.items, WsState(s.ws, d.rest), d.dead)
    decreases |chunks|
  {
    DimeIncremental(parses);
    hide IsIncremental, PopOne, Drain;
    if chunks != [] {
      var o := Handled(false, s, chunks[0], parses);
      if !o.dead {
        ReceivedPlain(o.state, chunks[1..], parses);
      }
    }
  }

  lemma {:induction false} ReceivedWs(s: WsState, chunks: seq<seq<byte>>, parses: seq<byte> -> bool)
    ensures Received(true, s, chunks, parses) == WsReceive(s, chunks, parses)
    decreases |chunks|
  {
    hide WsDrain;
    if chunks != [] {
      ReceivedWs(Handled(true, s, chunks[0], parses).state, chunks[1..], parses);
    }
  }

  /** End to end over the concrete buffers: a fresh socket that receives the
      encoding of some messages, in any chunks, pops exactly those messages. */
  method ReceiveMessages(ghost msgs: seq<Msg>, chunks: seq<seq<byte>>, parses: seq<byte> -> bool)
    returns (popped: seq<Msg>, alive: bool)
    requires AllSendable(msgs, parses) && Concat(chunks) == Concat(EncodeAll(msgs))
    ensures popped == msgs && alive
  {
    var sock := new Socket(false);
    DimeRoundTrip(msgs, chunks, parses);
    ReceivedPlain(WsState([], []), chunks, parses);
    hide *;
    popped, alive := sock.ReceiveAll(chunks, parses);
  }

  /** The same under WebSocket framing, for any cutting into masked frames. */
  method ReceiveFrames(ghost msgs: seq<Msg>, ghost frames: seq<ClientFrame>, chunks: seq<seq<byte>>,
                       parses: seq<byte> -> bool)
    returns (popped: seq<Msg>, alive: bool)
    requires AllSendable(msgs, parses) && AllWellFormed(frames)
    requires Concat(Payloads(frames)) == Concat(EncodeAll(msgs))
    requires Concat(chunks) == Concat(EncodeFrames(frames))
    ensures popped == msgs && alive
  {
    var sock := new Socket(true);
    WsRoundTrip(msgs, frames, chunks, parses);
    ReceivedWs(WsState([], []), chunks, parses);
    hide *;
    popped, alive := sock.ReceiveAll(chunks, parses);
  }
}
