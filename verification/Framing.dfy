// The two wire formats of server/socket.c: length-prefixed DiME messages, and
// the WebSocket frames (sections 5.2 and 5.3 of RFC 6455) they may travel in.

module Framing {
  import opened Bytes
  import opened Sequences
  import opened Incremental

  // ------------------------------------------------------------ DiME messages

  datatype Msg = Msg(json: seq<byte>, bin: seq<byte>)

  /** "DiME" */
  const MAGIC: seq<byte> := [0x44, 0x69, 0x4D, 0x45]

  /** The message bytes dime_socket_push_str writes: the lengths are stored in
      32 bits each. */
  function Encode(m: Msg): seq<byte> {
    MAGIC + ToBE(|m.json| % TWO32, 4) + ToBE(|m.bin| % TWO32, 4) + m.json + m.bin
  }

  /** A whole message of less than 2^32 bytes, whose JSON part parses. */
  predicate Sendable(m: Msg, parses: seq<byte> -> bool) {
    12 + |m.json| + |m.bin| < TWO32 && parses(m.json)
  }

  /** The second half of dime_socket_pop on the inbuffer: a message, too few
      bytes, or an error (bad magic, a size that does not fit 32 bits - the C
      code would compute with the wrapped size - or JSON that does not parse). */
  function PopOne(buf: seq<byte>, parses: seq<byte> -> bool): Step<Msg> {
    if |buf| < 12 then More
    else if buf[..4] != MAGIC then Bad
    else
      var j, b := FromBE(buf[4..8]), FromBE(buf[8..12]);
      var msgsiz := 12 + j + b;
      if msgsiz >= TWO32 then Bad
      else if |buf| < msgsiz then More
      else if !parses(buf[12..12 + j]) then Bad
      else Item(Msg(buf[12..12 + j], buf[12 + j..msgsiz]), msgsiz)
  }

  /** The wire format, byte by byte: the four bytes "DiME", the two lengths, and
      the two parts. */
  lemma MessageLayout(m: Msg)
    requires |m.json| < 0x1_0000_0000 && |m.bin| < 0x1_0000_0000
    ensures var u, j := Encode(m), 12 + |m.json|;
            |u| == j + |m.bin| && u[..4] == [0x44, 0x69, 0x4D, 0x45] &&
            FromBE(u[4..8]) == |m.json| && FromBE(u[8..12]) == |m.bin| && u[12..j] == m.json && u[j..] == m.bin
  {
    hide Pow256;
    Pow256Values();
    FromToBE(|m.json|, 4);
    FromToBE(|m.bin|, 4);
    EncodeParts(m, []);
    hide ToBE, FromBE, Encode;
    assert Encode(m) + [] == Encode(m);
  }

  /** Anything else than "DiME" at the front is an error. */
  lemma BadMagic(buf: seq<byte>, parses: seq<byte> -> bool)
    requires |buf| >= 12
    ensures buf[..4] != [0x44, 0x69, 0x4D, 0x45] ==> PopOne(buf, parses).Bad?
  {
  }

  function DimeStep(parses: seq<byte> -> bool): seq<byte> -> Step<Msg> {
    buf => PopOne(buf, parses)
  }

  lemma PopOneLater(s: seq<byte>, t: seq<byte>, parses: seq<byte> -> bool)
    requires !PopOne(s, parses).More?
    ensures PopOne(s + t, parses) == PopOne(s, parses)
  {
    var u := s + t;
    assert u[..4] == s[..4] && u[4..8] == s[4..8] && u[8..12] == s[8..12];
    var j, b := FromBE(s[4..8]), FromBE(s[8..12]);
    if 12 + j + b <= |s| {
      assert u[12..12 + j] == s[12..12 + j] && u[12 + j..12 + j + b] == s[12 + j..12 + j + b];
    }
  }

  lemma DimeIncremental(parses: seq<byte> -> bool)
    ensures IsIncremental(DimeStep(parses)) && DimeStep(parses)([]).More?
  {
    forall s, t | !DimeStep(parses)(s).More? ensures DimeStep(parses)(s + t) == DimeStep(parses)(s) {
      PopOneLater(s, t, parses);
    }
  }

  /** Decoding what was encoded, whatever follows it. */
  lemma EncodeDecodes(m: Msg, parses: seq<byte> -> bool)
    requires Sendable(m, parses)
    ensures Encodes(DimeStep(parses), Encode(m), m)
  {
    var jl, bl := ToBE(|m.json|, 4), ToBE(|m.bin|, 4);
    hide Pow256;
    Pow256Values();
    FromToBE(|m.json|, 4);
    FromToBE(|m.bin|, 4);
    forall t ensures DimeStep(parses)(Encode(m) + t) == Item(m, |Encode(m)|) {
      EncodeParts(m, t);
    }
  }

  lemma EncodeParts(m: Msg, t: seq<byte>)
    requires |m.json| < TWO32 && |m.bin| < TWO32
    ensures var u := Encode(m) + t;
            var j := 12 + |m.json|;
            var e := j + |m.bin|;
            |Encode(m)| == e && u[..4] == MAGIC &&
            u[4..8] == ToBE(|m.json|, 4) && u[8..12] == ToBE(|m.bin|, 4) &&
            u[12..j] == m.json && u[j..e] == m.bin
  {
    EncodeIs(m);
    hide ToBE, Encode;
    FivePieces(Encode(m) + t, MAGIC, ToBE(|m.json|, 4), ToBE(|m.bin|, 4), m.json, m.bin, t);
  }

  lemma EncodeIs(m: Msg)
    requires |m.json| < TWO32 && |m.bin| < TWO32
    ensures Encode(m) == MAGIC + ToBE(|m.json|, 4) + ToBE(|m.bin|, 4) + m.json + m.bin
    ensures |Encode(m)| == 12 + |m.json| + |m.bin|
  {
    hide ToBE;
  }

  lemma FivePieces(u: seq<byte>, a: seq<byte>, b: seq<byte>, c: seq<byte>, d: seq<byte>, e: seq<byte>, t: seq<byte>)
    requires u == a + b + c + d + e + t && |a| == |b| == |c| == 4
    ensures var j, k := 12 + |d|, 12 + |d| + |e|;
            |u| == k + |t| && u[..4] == a && u[4..8] == b && u[8..12] == c && u[12..j] == d && u[j..k] == e
  {
    Regroup(a + b + c + d, e, t);
    Regroup(a + b + c, d, e + t);
    Regroup(a + b, c, d + (e + t));
    Regroup(a, b, c + (d + (e + t)));
    assert [] + a == a;
    SliceMiddle(u, [], a, b + (c + (d + (e + t))));
    SliceMiddle(u, a, b, c + (d + (e + t)));
    SliceMiddle(u, a + b, c, d + (e + t));
    SliceMiddle(u, a + b + c, d, e + t);
    SliceMiddle(u, a + b + c + d, e, t);
  }

  // --------------------------------------------------------- WebSocket frames

  /** frame[i] ^= mask[i & 3] over the whole payload. */
  function Masked(p: seq<byte>, mask: seq<byte>): (q: seq<byte>)
    requires |mask| == 4
    ensures |q| == |p|
  {
    seq(|p|, i requires 0 <= i < |p| => Xor(p[i], mask[i % 4]))
  }

  /** Masking is its own inverse. */
  lemma MaskedTwice(p: seq<byte>, mask: seq<byte>)
    requires |mask| == 4
    ensures Masked(Masked(p, mask), mask) == p
  {
    forall i | 0 <= i < |p| ensures Masked(Masked(p, mask), mask)[i] == p[i] {
      XorTwice(p[i], mask[i % 4]);
    }
  }

  /** Section 5.3: a bit of the masked byte i is set if and only if exactly one of
      byte i of the payload and byte i mod 4 of the mask has it set. */
  lemma MaskedAt(p: seq<byte>, mask: seq<byte>, i: nat, k: nat)
    requires |mask| == 4 && i < |p| && k < 8
    ensures Masked(p, mask)[i] / Pow2(k) % 2 == 1 <==> p[i] / Pow2(k) % 2 != mask[i % 4] / Pow2(k) % 2
  {
    XorBit(p[i], mask[i % 4], k);
    hide Xor;
  }

  /** The three forms of the payload length. */
  datatype Form = Short | Medium | Long

  function FormMax(f: Form): nat {
    match f case Short => 126 case Medium => 65536 case Long => TWO64 - 14
  }

  /** Second header byte (without the mask bit) and extended length. */
  function LengthField(f: Form, n: nat): (s: seq<byte>)
    requires n < FormMax(f)
    ensures |s| == match f case Short => 1 case Medium => 3 case Long => 9
  {
    match f
    case Short => [n]
    case Medium => [126] + ToBE(n, 2)
    case Long => [127] + ToBE(n, 8)
  }

  /** A masked frame as a client sends it. Any first byte: the server looks
      neither at FIN nor at the opcode. */
  datatype ClientFrame = ClientFrame(first: byte, form: Form, mask: seq<byte>, payload: seq<byte>)

  predicate WellFormed(f: ClientFrame) {
    |f.mask| == 4 && |f.payload| < FormMax(f.form)
  }

  function EncodeFrame(f: ClientFrame): seq<byte>
    requires WellFormed(f)
  {
    var l := LengthField(f.form, |f.payload|);
    [f.first] + [l[0] + 128] + l[1..] + f.mask + Masked(f.payload, f.mask)
  }

  /** One round of the de-framing loop of dime_socket_pop. A frame without mask
      is an error as soon as its header is there. A size of 2^64 or more is not
      representable; the C code would compute with the wrapped size. */
  function FrameOne(buf: seq<byte>): Step<seq<byte>> {
    if |buf| < 6 then More
    else
      var n := buf[1] % 128;
      if n < 126 then FrameBody(buf, 6, n)
      else if n == 126 then
        if |buf| < 8 then More else FrameBody(buf, 8, FromBE(buf[2..4]))
      else
        if |buf| < 14 then More else FrameBody(buf, 14, FromBE(buf[2..10]))
  }

  function FrameBody(buf: seq<byte>, hdrLen: nat, frameLen: nat): Step<seq<byte>>
    requires 6 <= hdrLen <= |buf|
  {
    if buf[1] < 128 then Bad
    else if hdrLen + frameLen >= TWO64 then Bad
    else if |buf| < hdrLen + frameLen then More
    else Item(Masked(buf[hdrLen..hdrLen + frameLen], buf[hdrLen - 4..hdrLen]), hdrLen + frameLen)
  }

  function FrameStep(): seq<byte> -> Step<seq<byte>> {
    buf => FrameOne(buf)
  }

  lemma FrameBodyLater(s: seq<byte>, t: seq<byte>, hdrLen: nat, frameLen: nat)
    requires 6 <= hdrLen <= |s| && !FrameBody(s, hdrLen, frameLen).More?
    ensures FrameBody(s + t, hdrLen, frameLen) == FrameBody(s, hdrLen, frameLen)
  {
    var u := s + t;
    assert u[hdrLen - 4..hdrLen] == s[hdrLen - 4..hdrLen];
    if hdrLen + frameLen <= |s| {
      assert u[hdrLen..hdrLen + frameLen] == s[hdrLen..hdrLen + frameLen];
    }
  }

  lemma FrameOneLater(s: seq<byte>, t: seq<byte>)
    requires !FrameOne(s).More?
    ensures FrameOne(s + t) == FrameOne(s)
  {
    hide FrameBody;
    var u, n := s + t, s[1] % 128;
    if n < 126 {
      FrameBodyLater(s, t, 6, n);
    } else if n == 126 {
      assert u[2..4] == s[2..4];
      FrameBodyLater(s, t, 8, FromBE(s[2..4]));
    } else {
      assert u[2..10] == s[2..10];
      FrameBodyLater(s, t, 14, FromBE(s[2..10]));
    }
  }

  lemma FrameIncremental()
    ensures IsIncremental(FrameStep()) && FrameStep()([]).More?
  {
    forall s, t | !FrameStep()(s).More? ensures FrameStep()(s + t) == FrameStep()(s) {
      FrameOneLater(s, t);
    }
  }

  /** De-framing what a client framed, whatever follows it. */
  lemma FrameDecodes(f: ClientFrame)
    requires WellFormed(f)
    ensures Encodes(FrameStep(), EncodeFrame(f), f.payload)
  {
    var n := |f.payload|;
    var h := 5 + |LengthField(f.form, n)|;
    var code := EncodeFrame(f);
    MaskedTwice(f.payload, f.mask);
    hide ToBE, FromBE, EncodeFrame, Masked, LengthField, FrameOne;
    forall t ensures FrameStep()(code + t) == Item(f.payload, |code|) {
      FrameParts(f, t);
      FrameLength(f.form, n, code + t);
    }
  }

  /** The length field reads back. */
  lemma FrameLength(form: Form, n: nat, u: seq<byte>)
    requires n < FormMax(form)
    requires var l := LengthField(form, n);
             5 + |l| <= |u| && u[1] == l[0] + 128 && u[2..1 + |l|] == l[1..]
    ensures FrameOne(u) == FrameBody(u, 5 + |LengthField(form, n)|, n)
  {
    hide FrameBody, ToBE, FromBE;
    match form {
      case Short =>
      case Medium => LengthBack(n, 2, u);
      case Long => LengthBack(n, 8, u);
    }
  }

  lemma LengthBack(n: nat, w: nat, u: seq<byte>)
    requires (w == 2 && n < 65536) || (w == 8 && n < TWO64)
    requires 2 + w <= |u| && u[2..2 + w] == ToBE(n, w)
    ensures FromBE(u[2..2 + w]) == n
  {
    Pow256Values();
    hide Pow256;
    FromToBE(n, w);
  }

  lemma FrameParts(f: ClientFrame, t: seq<byte>)
    requires WellFormed(f)
    ensures var u := EncodeFrame(f) + t;
            var l := LengthField(f.form, |f.payload|);
            var h := 5 + |l|;
            |EncodeFrame(f)| == h + |f.payload| && u[1] == l[0] + 128 && u[2..1 + |l|] == l[1..] &&
            u[h - 4..h] == f.mask && u[h..h + |f.payload|] == Masked(f.payload, f.mask)
  {
    hide ToBE, LengthField, Masked;
  }

  // ------------------------------------------------------ the server's frames

  /** The header dime_socket_push_str puts before a message of n bytes: FIN and
      the binary opcode, no mask. */
  function WsHeader(n: nat): seq<byte>
    requires n < TWO63
  {
    if n < 126 then [0x82, n]
    else if n < 65536 then [0x82, 126] + ToBE(n, 2)
    else [0x82, 127] + ToBE(n, 8)
  }

  /** Section 5.2 of RFC 6455, for any frame. */
  datatype FrameHeader = FrameHeader(fin: bool, rsv: nat, opcode: nat, masked: bool, payloadLen: nat, size: nat)

  function RfcHeader(s: seq<byte>): Step<FrameHeader> {
    if |s| < 2 then More
    else
      var fin, rsv, opcode := s[0] >= 128, (s[0] / 16) % 8, s[0] % 16;
      var masked, len7 := s[1] >= 128, s[1] % 128;
      var ext := if len7 == 127 then 8 else if len7 == 126 then 2 else 0;
      var size := 2 + ext + if masked then 4 else 0;
      if |s| < size then More
      else
        var n := if ext == 0 then len7 else FromBE(s[2..2 + ext]);
        if n >= TWO63 then Bad
        else Item(FrameHeader(fin, rsv, opcode, masked, n, size), size)
  }

  /** The server's header reads back as one final, unmasked binary frame of the
      payload length. */
  lemma WsHeaderReads(n: nat, t: seq<byte>)
    requires n < TWO63
    ensures RfcHeader(WsHeader(n) + t) == Item(FrameHeader(true, 0, 2, false, n, |WsHeader(n)|), |WsHeader(n)|)
  {
    hide Pow256;
    Pow256Values();
    var w := if n < 126 then 0 else if n < 65536 then 2 else 8;
    FromToBE(n, if w == 0 then 8 else w);
    hide ToBE, FromBE;
    var u := WsHeader(n) + t;
    assert u[2..2 + w] == WsHeader(n)[2..];
  }

  /** No header that expresses this length is shorter. */
  lemma WsHeaderShortest(n: nat, s: seq<byte>)
    requires n < TWO63
    requires RfcHeader(s).Item? && RfcHeader(s).v.payloadLen == n
    ensures |WsHeader(n)| <= RfcHeader(s).size
  {
    hide Pow256;
    Pow256Values();
    if s[1] % 128 == 126 {
      ToFromBE(s[2..4]);
    }
  }

  /** A whole frame as section 5.2 defines it, masked or not. */
  function RfcFrame(s: seq<byte>): Step<seq<byte>> {
    match RfcHeader(s)
    case More => More
    case Bad => Bad
    case Item(h, size) =>
      if |s| < size + h.payloadLen then More
      else
        var p := s[size..size + h.payloadLen];
        Item(if h.masked then Masked(p, s[size - 4..size]) else p, size + h.payloadLen)
  }

  function RfcStep(): seq<byte> -> Step<seq<byte>> {
    s => RfcFrame(s)
  }

  lemma RfcFrameLater(s: seq<byte>, t: seq<byte>)
    requires !RfcFrame(s).More?
    ensures RfcFrame(s + t) == RfcFrame(s)
  {
    hide RfcHeader, Masked;
    RfcHeaderLater(s, t);
    if RfcHeader(s).Item? {
      var u, h, size := s + t, RfcHeader(s).v, RfcHeader(s).size;
      assert u[size..size + h.payloadLen] == s[size..size + h.payloadLen];
      assert h.masked ==> u[size - 4..size] == s[size - 4..size];
    }
  }

  lemma RfcHeaderLater(s: seq<byte>, t: seq<byte>)
    requires !RfcHeader(s).More?
    ensures RfcHeader(s + t) == RfcHeader(s)
    ensures RfcHeader(s).Item? ==> RfcHeader(s).size == RfcHeader(s).v.size <= |s|
    ensures RfcHeader(s).Item? ==> RfcHeader(s).size >= if RfcHeader(s).v.masked then 6 else 2
  {
    hide FromBE;
    var ext := if s[1] % 128 == 127 then 8 else if s[1] % 128 == 126 then 2 else 0;
    assert (s + t)[2..2 + ext] == s[2..2 + ext];
  }

  lemma RfcIncremental()
    ensures IsIncremental(RfcStep()) && RfcStep()([]).More?
  {
    forall s, t | !RfcStep()(s).More? ensures RfcStep()(s + t) == RfcStep()(s) {
      RfcFrameLater(s, t);
    }
    forall s | RfcStep()(s).Item? ensures 0 < RfcStep()(s).size <= |s| {
      RfcHeaderLater(s, []);
    }
  }

  /** The server's de-framing loop reads any bytes as section 5.2 does: a masked
      frame is taken exactly as defined there, one without a mask is an error as
      soon as four bytes follow its header, and nothing else is taken, but for a
      64-bit length with the reserved bit set. */
  lemma FrameOneAgrees(s: seq<byte>)
    ensures RfcHeader(s).Item? && RfcHeader(s).v.masked ==> FrameOne(s) == RfcFrame(s)
    ensures RfcHeader(s).Item? && !RfcHeader(s).v.masked ==>
              FrameOne(s) == if |s| < RfcHeader(s).size + 4 then More else Bad
    ensures RfcHeader(s).More? ==> FrameOne(s).More?
    ensures FrameOne(s).Item? ==> RfcHeader(s).Bad? || (RfcHeader(s).Item? && RfcHeader(s).v.masked)
  {
    hide FromBE, Masked;
  }

  /** The header of a client's frame, read as section 5.2 defines it. */
  lemma FrameHeaderAgrees(f: ClientFrame, t: seq<byte>)
    requires WellFormed(f) && |f.payload| < TWO63
    ensures var h := RfcHeader(EncodeFrame(f) + t);
            h.Item? && h.v.masked && h.v.payloadLen == |f.payload| &&
            h.size + |f.payload| == |EncodeFrame(f)|
  {
    var n := |f.payload|;
    var u := EncodeFrame(f) + t;
    FrameParts(f, t);
    hide Pow256;
    Pow256Values();
    if f.form.Medium? {
      FromToBE(n, 2);
    } else if f.form.Long? {
      FromToBE(n, 8);
    }
  }

  // ------------------------------------------------------ the receiving side

  /** What a WebSocket connection has received and not yet consumed: frame
      bytes, and de-framed message bytes. */
  datatype WsState = WsState(ws: seq<byte>, rbuf: seq<byte>)

  /** De-frame everything complete. */
  ghost function Deframed(s: WsState): WsState {
    FrameIncremental();
    var w := Drain(FrameStep(), s.ws);
    WsState(w.rest, s.rbuf + Concat(w.items))
  }

  ghost predicate FrameError(s: WsState) {
    FrameIncremental();
    Drain(FrameStep(), s.ws).dead
  }

  datatype Outcome = Outcome(msgs: seq<Msg>, state: WsState, dead: bool)

  /** The server's pop loop after one chunk: a frame error ends it before any
      message is popped. */
  ghost function WsDrain(s: WsState, parses: seq<byte> -> bool): Outcome {
    DimeIncremental(parses);
    var t := Deframed(s);
    if FrameError(s) then Outcome([], t, true)
    else
      var d := Drain(DimeStep(parses), t.rbuf);
      Outcome(d.items, WsState(t.ws, d.rest), d.dead)
  }

  ghost function WsReceive(s: WsState, chunks: seq<seq<byte>>, parses: seq<byte> -> bool): Outcome
    decreases |chunks|
  {
    if chunks == [] then Outcome([], s, false)
    else
      var o := WsDrain(s.(ws := s.ws + chunks[0]), parses);
      if o.dead then o
      else
        var rest := WsReceive(o.state, chunks[1..], parses);
        Outcome(o.msgs + rest.msgs, rest.state, rest.dead)
  }

  /** As long as no frame is in error, the chunks do not matter: the messages
      are those of the concatenated payloads. */
  lemma {:induction false} WsChunkIndependence(s: WsState, chunks: seq<seq<byte>>, parses: seq<byte> -> bool)
    requires FrameStep()(s.ws).More? && DimeStep(parses)(s.rbuf).More?
    requires !FrameError(s.(ws := s.ws + Concat(chunks)))
    ensures var all := WsDrain(s.(ws := s.ws + Concat(chunks)), parses);
            var r := WsReceive(s, chunks, parses);
            r.msgs == all.msgs && r.dead == all.dead && (!r.dead ==> r == all)
    decreases |chunks|
  {
    FrameIncremental();
    DimeIncremental(parses);
    hide IsIncremental, FrameOne, PopOne;
    if chunks == [] {
      assert s.ws + Concat(chunks) == s.ws;
      assert s.rbuf + Concat([]) == s.rbuf;
    } else {
      var c, more := chunks[0], Concat(chunks[1..]);
      assert s.ws + Concat(chunks) == (s.ws + c) + more;
      DrainAppend(FrameStep(), s.ws + c, more);
      var w1 := Drain(FrameStep(), s.ws + c);
      var w2 := Drain(FrameStep(), w1.rest + more);
      ConcatAppend(w1.items, w2.items);
      var rbuf := s.rbuf + Concat(w1.items);
      assert s.rbuf + Concat(w1.items + w2.items) == rbuf + Concat(w2.items);
      DrainAppend(DimeStep(parses), rbuf, Concat(w2.items));
      var d1 := Drain(DimeStep(parses), rbuf);
      if !d1.dead {
        WsChunkIndependence(WsState(w1.rest, d1.rest), chunks[1..], parses);
      }
    }
  }

  /** One chunk later: what was de-framed stays de-framed. */
  lemma DeframedLater(s: WsState, c: seq<byte>, more: seq<byte>)
    ensures var s1, all := s.(ws := s.ws + c), s.(ws := s.ws + (c + more));
            var t := Deframed(s1);
            if FrameError(s1) then FrameError(all)
            else Deframed(all) == Deframed(t.(ws := t.ws + more)) &&
                 (FrameError(all) <==> FrameError(t.(ws := t.ws + more)))
  {
    FrameIncremental();
    hide IsIncremental, FrameOne;
    assert s.ws + (c + more) == (s.ws + c) + more;
    DrainAppend(FrameStep(), s.ws + c, more);
    var w1 := Drain(FrameStep(), s.ws + c);
    if !w1.dead {
      var w2 := Drain(FrameStep(), w1.rest + more);
      ConcatAppend(w1.items, w2.items);
      assert s.rbuf + Concat(w1.items + w2.items) == (s.rbuf + Concat(w1.items)) + Concat(w2.items);
    }
  }

  /** After the first k chunks, all without frame error, the message bytes begin
      with a complete message. */
  ghost predicate CompleteAfter(s: WsState, chunks: seq<seq<byte>>, k: nat, parses: seq<byte> -> bool)
    requires k <= |chunks|
  {
    var p := s.(ws := s.ws + Concat(chunks[..k]));
    !FrameError(p) && DimeStep(parses)(Deframed(p).rbuf).Item?
  }

  ghost predicate CompletesEarly(s: WsState, chunks: seq<seq<byte>>, parses: seq<byte> -> bool) {
    exists k: nat | k <= |chunks| :: CompleteAfter(s, chunks, k, parses)
  }

  /** Looking at the boundaries from one chunk later. */
  lemma CompleteLater(s: WsState, chunks: seq<seq<byte>>, k: nat, parses: seq<byte> -> bool)
    requires k < |chunks|
    ensures var s1 := s.(ws := s.ws + chunks[0]);
            CompleteAfter(s, chunks, k + 1, parses) <==>
            !FrameError(s1) && CompleteAfter(Deframed(s1), chunks[1..], k, parses)
  {
    assert chunks[..k + 1][1..] == chunks[1..][..k];
    DeframedLater(s, chunks[0], Concat(chunks[1..][..k]));
    assert Concat(chunks[..k + 1]) == chunks[0] + Concat(chunks[1..][..k]);
    hide DimeStep, Deframed, FrameError, Concat;
  }

  /** At a boundary where nothing was received since. */
  lemma CompleteNow(t: WsState, chunks: seq<seq<byte>>, parses: seq<byte> -> bool)
    requires FrameStep()(t.ws).More?
    ensures !FrameError(t) && (CompleteAfter(t, chunks, 0, parses) <==> DimeStep(parses)(t.rbuf).Item?)
  {
    FrameIncremental();
    hide IsIncremental, FrameOne, DimeStep;
    assert chunks[..0] == [] && t.ws + [] == t.ws && t.rbuf + Concat([]) == t.rbuf;
  }

  /** Message bytes that do not begin with a message never will, unless they
      are only too few. */
  lemma CompleteStays(t: WsState, chunks: seq<seq<byte>>, k: nat, parses: seq<byte> -> bool)
    requires k <= |chunks| && DimeStep(parses)(t.rbuf).Bad?
    ensures !CompleteAfter(t, chunks, k, parses)
  {
    FrameIncremental();
    DimeIncremental(parses);
    hide IsIncremental, FrameOne, DimeStep;
    StepLater(DimeStep(parses), t.rbuf, Concat(Drain(FrameStep(), t.ws + Concat(chunks[..k])).items));
  }

  /** What is popped after one chunk begins with the message that is complete,
      if there is one. */
  lemma WsDrainFirst(s: WsState, parses: seq<byte> -> bool)
    ensures var o, t := WsDrain(s, parses), Deframed(s);
            var step := DimeStep(parses)(t.rbuf);
            (o.msgs != [] <==> !FrameError(s) && step.Item?) &&
            (FrameError(s) || step.Bad? ==> o.dead) &&
            (!FrameError(s) ==> FrameStep()(t.ws).More?) &&
            (!FrameError(s) && step.More? ==> o == Outcome([], t, false))
  {
    FrameIncremental();
    DimeIncremental(parses);
    hide IsIncremental, FrameOne, PopOne;
  }

  lemma ErrorNeedsChunk(s: WsState, chunks: seq<seq<byte>>)
    requires FrameStep()(s.ws).More? && FrameError(s.(ws := s.ws + Concat(chunks)))
    ensures chunks != []
  {
    assert Concat<byte>([]) == [] && s.ws + [] == s.ws;
  }

  /** A stream with a frame error fails, at the latest when the error arrives. */
  lemma {:induction false} WsReceiveFails(s: WsState, chunks: seq<seq<byte>>, parses: seq<byte> -> bool)
    requires FrameStep()(s.ws).More? && FrameError(s.(ws := s.ws + Concat(chunks)))
    ensures WsReceive(s, chunks, parses).dead
    decreases |chunks|
  {
    ErrorNeedsChunk(s, chunks);
    FrameIncremental();
    DimeIncremental(parses);
    hide IsIncremental, FrameOne, PopOne;
    var c, more := chunks[0], Concat(chunks[1..]);
    DeframedLater(s, c, more);
    var o := WsDrain(s.(ws := s.ws + c), parses);
    if !o.dead {
      FrameErrorOnly(o.state, Deframed(s.(ws := s.ws + c)), more);
      WsReceiveFails(o.state, chunks[1..], parses);
    }
  }

  lemma FrameErrorOnly(s: WsState, t: WsState, more: seq<byte>)
    requires s.ws == t.ws
    ensures FrameError(s.(ws := s.ws + more)) == FrameError(t.(ws := t.ws + more))
  {
  }

  lemma CompletesLater(s: WsState, chunks: seq<seq<byte>>, parses: seq<byte> -> bool)
    requires chunks != [] && !CompleteAfter(s, chunks, 0, parses)
    ensures var s1 := s.(ws := s.ws + chunks[0]);
            CompletesEarly(s, chunks, parses) <==>
            !FrameError(s1) && CompletesEarly(Deframed(s1), chunks[1..], parses)
  {
    hide CompleteAfter, Deframed, FrameError;
    var s1, rest := s.(ws := s.ws + chunks[0]), chunks[1..];
    var t := Deframed(s1);
    if k: nat :| k <= |chunks| && CompleteAfter(s, chunks, k, parses) {
      CompleteLater(s, chunks, k - 1, parses);
      assert CompleteAfter(t, rest, k - 1, parses);
    }
    if k: nat :| k <= |rest| && CompleteAfter(t, rest, k, parses) {
      CompleteLater(s, chunks, k, parses);
      assert !FrameError(s1) ==> CompleteAfter(s, chunks, k + 1, parses);
    }
  }

  /** Whether a message becomes complete, if all is well with the frames so far. */
  lemma CompletesNow(t: WsState, chunks: seq<seq<byte>>, parses: seq<byte> -> bool)
    requires FrameStep()(t.ws).More?
    ensures DimeStep(parses)(t.rbuf).Item? ==> CompletesEarly(t, chunks, parses)
    ensures DimeStep(parses)(t.rbuf).Bad? ==> !CompletesEarly(t, chunks, parses)
  {
    CompleteNow(t, chunks, parses);
    hide CompleteAfter, FrameStep, DimeStep;
    if DimeStep(parses)(t.rbuf).Bad? {
      forall k: nat | k <= |chunks| ensures !CompleteAfter(t, chunks, k, parses) {
        CompleteStays(t, chunks, k, parses);
      }
    }
  }

  /** With a frame error in the stream, something is popped exactly if a chunk
      ended between the first message and the error. */
  lemma {:induction false} WsErrorPops(s: WsState, chunks: seq<seq<byte>>, parses: seq<byte> -> bool)
    requires FrameStep()(s.ws).More? && DimeStep(parses)(s.rbuf).More?
    requires FrameError(s.(ws := s.ws + Concat(chunks)))
    ensures WsReceive(s, chunks, parses).msgs != [] <==> CompletesEarly(s, chunks, parses)
    decreases |chunks|
  {
    ErrorNeedsChunk(s, chunks);
    CompleteNow(s, chunks, parses);
    var c, rest := chunks[0], chunks[1..];
    var s1 := s.(ws := s.ws + c);
    var t := Deframed(s1);
    assert Concat(chunks) == c + Concat(rest);
    hide CompletesEarly, CompleteAfter, WsDrain, Deframed, FrameError, FrameStep, DimeStep, Concat;
    DeframedLater(s, c, Concat(rest));
    WsDrainFirst(s1, parses);
    CompletesLater(s, chunks, parses);
    if !FrameError(s1) {
      CompletesNow(t, rest, parses);
      if DimeStep(parses)(t.rbuf).More? {
        WsErrorPops(t, rest, parses);
      }
    }
  }

  /** The chunks do not matter exactly if no frame is in error, or the first
      message was not complete at any earlier chunk boundary. */
  lemma WsChunksMatter(s: WsState, chunks: seq<seq<byte>>, parses: seq<byte> -> bool)
    requires FrameStep()(s.ws).More? && DimeStep(parses)(s.rbuf).More?
    ensures var all := s.(ws := s.ws + Concat(chunks));
            var r, once := WsReceive(s, chunks, parses), WsDrain(all, parses);
            r.dead == once.dead &&
            (r.msgs == once.msgs <==> !FrameError(all) || !CompletesEarly(s, chunks, parses))
  {
    if FrameError(s.(ws := s.ws + Concat(chunks))) {
      WsErrorPops(s, chunks, parses);
      WsReceiveFails(s, chunks, parses);
    } else {
      WsChunkIndependence(s, chunks, parses);
    }
  }

  /** A complete message in its frame, then a frame without mask: received
      together nothing is popped, received one after the other the message is. */
  lemma FrameErrorHides(m: Msg, f: ClientFrame, parses: seq<byte> -> bool) returns (bad: seq<byte>)
    requires Sendable(m, parses) && WellFormed(f) && f.payload == Encode(m)
    ensures WsReceive(WsState([], []), [EncodeFrame(f) + bad], parses).msgs == []
    ensures WsReceive(WsState([], []), [EncodeFrame(f), bad], parses).msgs == [m]
  {
    bad := [0, 0, 0, 0, 0, 0];
    FrameDecodes(f);
    EncodeDecodes(m, parses);
    BrokenFrame(EncodeFrame(f), f.payload, bad);
    WholeFrame(EncodeFrame(f), f.payload, m, parses);
    hide *;
    HidesConclude(EncodeFrame(f), bad, m, parses);
  }

  lemma BrokenFrame(code: seq<byte>, payload: seq<byte>, bad: seq<byte>)
    requires Encodes(FrameStep(), code, payload) && FrameStep()(bad).Bad?
    ensures FrameError(WsState(code + bad, [])) && FrameError(WsState(bad, []))
  {
    FrameIncremental();
    hide IsIncremental, Encodes, FrameOne;
    DrainCons(FrameStep(), code, payload, bad);
  }

  lemma WholeFrame(code: seq<byte>, payload: seq<byte>, m: Msg, parses: seq<byte> -> bool)
    requires Encodes(FrameStep(), code, payload) && Encodes(DimeStep(parses), payload, m)
    ensures WsDrain(WsState(code, []), parses) == Outcome([m], WsState([], []), false)
  {
    FrameIncremental();
    DimeIncremental(parses);
    hide IsIncremental, Encodes, FrameOne, PopOne;
    assert code + [] == code && payload + [] == payload;
    DrainCons(FrameStep(), code, payload, []);
    DrainCons(DimeStep(parses), payload, m, []);
    assert [] + Concat([payload]) == payload;
  }

  lemma HidesConclude(code: seq<byte>, bad: seq<byte>, m: Msg, parses: seq<byte> -> bool)
    requires FrameError(WsState(code + bad, [])) && FrameError(WsState(bad, []))
    requires WsDrain(WsState(code, []), parses) == Outcome([m], WsState([], []), false)
    ensures WsReceive(WsState([], []), [code + bad], parses).msgs == []
    ensures WsReceive(WsState([], []), [code, bad], parses).msgs == [m]
  {
    hide FrameError, Deframed;
    var start := WsState([], []);
    assert [] + (code + bad) == code + bad && [] + code == code && [] + bad == bad;
    var b := WsDrain(WsState(bad, []), parses);
    assert b.msgs == [] && b.dead;
    var two: seq<seq<byte>> := [code, bad];
    assert two[1..] == [bad];
    assert WsReceive(start, [bad], parses) == b;
    assert [m] + b.msgs == [m];
  }

  ghost predicate AllSendable(msgs: seq<Msg>, parses: seq<byte> -> bool) {
    forall i | 0 <= i < |msgs| :: Sendable(msgs[i], parses)
  }

  function EncodeAll(msgs: seq<Msg>): (codes: seq<seq<byte>>)
    ensures |codes| == |msgs|
  {
    seq(|msgs|, i requires 0 <= i < |msgs| => Encode(msgs[i]))
  }

  ghost predicate AllWellFormed(frames: seq<ClientFrame>) {
    forall i | 0 <= i < |frames| :: WellFormed(frames[i])
  }

  ghost function EncodeFrames(frames: seq<ClientFrame>): (codes: seq<seq<byte>>)
    requires AllWellFormed(frames)
    ensures |codes| == |frames|
  {
    seq(|frames|, i requires 0 <= i < |frames| => EncodeFrame(frames[i]))
  }

  function Payloads(frames: seq<ClientFrame>): (ps: seq<seq<byte>>)
    ensures |ps| == |frames|
  {
    seq(|frames|, i requires 0 <= i < |frames| => frames[i].payload)
  }

  lemma AllEncode(msgs: seq<Msg>, parses: seq<byte> -> bool)
    requires AllSendable(msgs, parses)
    ensures forall i | 0 <= i < |msgs| :: Encodes(DimeStep(parses), EncodeAll(msgs)[i], msgs[i])
  {
    forall i | 0 <= i < |msgs| ensures Encodes(DimeStep(parses), EncodeAll(msgs)[i], msgs[i]) {
      EncodeDecodes(msgs[i], parses);
    }
  }

  /** The server's receive loop on a plain connection. */
  ghost function DimeReceiveFrom(rbuf: seq<byte>, chunks: seq<seq<byte>>, parses: seq<byte> -> bool): Drained<Msg> {
    DimeIncremental(parses);
    Receive(DimeStep(parses), rbuf, chunks)
  }

  ghost function DimeReceive(chunks: seq<seq<byte>>, parses: seq<byte> -> bool): Drained<Msg> {
    DimeReceiveFrom([], chunks, parses)
  }

  /** Plain connections: any messages, any chunking of their encoding. */
  lemma DimeRoundTrip(msgs: seq<Msg>, chunks: seq<seq<byte>>, parses: seq<byte> -> bool)
    requires AllSendable(msgs, parses) && Concat(chunks) == Concat(EncodeAll(msgs))
    ensures DimeReceive(chunks, parses) == Drained(msgs, [], false)
  {
    DimeIncremental(parses);
    AllEncode(msgs, parses);
    hide IsIncremental, Encodes, PopOne, Concat, Drain, Receive, AllSendable;
    var code := Concat(EncodeAll(msgs));
    assert [] + Concat(chunks) == code && code + [] == code;
    DrainEncoded(DimeStep(parses), EncodeAll(msgs), msgs, []);
    ChunkIndependence(DimeStep(parses), [], chunks);
  }

  /** After any part of the encoding, the messages popped are those received
      completely and the inbuffer is exactly the unfinished tail. */
  lemma DimeTail(msgs: seq<Msg>, chunks: seq<seq<byte>>, later: seq<byte>, parses: seq<byte> -> bool) returns (k: nat)
    requires AllSendable(msgs, parses) && Concat(chunks) + later == Concat(EncodeAll(msgs))
    ensures k <= |msgs| && |Concat(EncodeAll(msgs)[..k])| <= |Concat(chunks)|
    ensures k < |msgs| ==> |Concat(chunks)| < |Concat(EncodeAll(msgs)[..k])| + |Encode(msgs[k])|
    ensures DimeReceive(chunks, parses) ==
            Drained(msgs[..k], Concat(chunks)[|Concat(EncodeAll(msgs)[..k])|..], false)
  {
    AllEncode(msgs, parses);
    k := DimeTailCodes(EncodeAll(msgs), msgs, chunks, later, parses);
  }

  lemma DimeTailCodes(codes: seq<seq<byte>>, msgs: seq<Msg>, chunks: seq<seq<byte>>, later: seq<byte>,
                      parses: seq<byte> -> bool) returns (k: nat)
    requires |codes| == |msgs| && Concat(chunks) + later == Concat(codes)
    requires forall i | 0 <= i < |msgs| :: Encodes(DimeStep(parses), codes[i], msgs[i])
    ensures k <= |msgs| && |Concat(codes[..k])| <= |Concat(chunks)|
    ensures k < |msgs| ==> |Concat(chunks)| < |Concat(codes[..k])| + |codes[k]|
    ensures DimeReceive(chunks, parses) == Drained(msgs[..k], Concat(chunks)[|Concat(codes[..k])|..], false)
  {
    DimeIncremental(parses);
    hide IsIncremental, Encodes, PopOne, Concat, Drain, Receive;
    var n := |Concat(chunks)|;
    k := DrainPrefix(DimeStep(parses), codes, msgs, n);
    assert Concat(codes)[..n] == Concat(chunks);
    assert [] + Concat(chunks) == Concat(chunks);
    ChunkIndependence(DimeStep(parses), [], chunks);
  }

  lemma AllFramed(frames: seq<ClientFrame>)
    requires AllWellFormed(frames)
    ensures forall i | 0 <= i < |frames| :: Encodes(FrameStep(), EncodeFrames(frames)[i], Payloads(frames)[i])
  {
    forall i | 0 <= i < |frames|
      ensures Encodes(FrameStep(), EncodeFrames(frames)[i], Payloads(frames)[i])
    {
      FrameDecodes(frames[i]);
    }
  }

  /** WebSocket connections: any messages, cut into frames of any form anyhow,
      and the frames received in any chunks. */
  lemma WsRoundTrip(msgs: seq<Msg>, frames: seq<ClientFrame>, chunks: seq<seq<byte>>, parses: seq<byte> -> bool)
    requires AllSendable(msgs, parses) && AllWellFormed(frames)
    requires Concat(Payloads(frames)) == Concat(EncodeAll(msgs))
    requires Concat(chunks) == Concat(EncodeFrames(frames))
    ensures WsReceive(WsState([], []), chunks, parses) == Outcome(msgs, WsState([], []), false)
  {
    AllFramed(frames);
    AllEncode(msgs, parses);
    hide *;
    var f, m := Drained(Payloads(frames), [], false), Drained(msgs, [], false);
    assert WsDrains(Concat(EncodeFrames(frames)), f, Concat(EncodeAll(msgs)), m, parses) by {
      WsDrainsEncoded(EncodeFrames(frames), Payloads(frames), EncodeAll(msgs), msgs, parses);
    }
    WsConclude(Concat(EncodeFrames(frames)), f, Concat(EncodeAll(msgs)), m, chunks, parses);
  }

  /** Draining the frame bytes and the message bytes each at once. */
  ghost predicate WsDrains(ws: seq<byte>, f: Drained<seq<byte>>, code: seq<byte>, m: Drained<Msg>,
                           parses: seq<byte> -> bool) {
    FrameIncremental();
    DimeIncremental(parses);
    Drain(FrameStep(), ws) == f && Drain(DimeStep(parses), code) == m
  }

  lemma WsDrainsEncoded(fcodes: seq<seq<byte>>, payloads: seq<seq<byte>>, codes: seq<seq<byte>>, msgs: seq<Msg>,
                        parses: seq<byte> -> bool)
    requires |fcodes| == |payloads| && |codes| == |msgs|
    requires forall i | 0 <= i < |payloads| :: Encodes(FrameStep(), fcodes[i], payloads[i])
    requires forall i | 0 <= i < |msgs| :: Encodes(DimeStep(parses), codes[i], msgs[i])
    ensures WsDrains(Concat(fcodes), Drained(payloads, [], false), Concat(codes), Drained(msgs, [], false), parses)
  {
    FrameIncremental();
    DimeIncremental(parses);
    hide IsIncremental, Encodes, PopOne, FrameOne, Concat, Drain;
    assert Concat(fcodes) + [] == Concat(fcodes) && Concat(codes) + [] == Concat(codes);
    DrainEncoded(FrameStep(), fcodes, payloads, []);
    DrainEncoded(DimeStep(parses), codes, msgs, []);
  }

  lemma WsConclude(ws: seq<byte>, f: Drained<seq<byte>>, code: seq<byte>, m: Drained<Msg>,
                   chunks: seq<seq<byte>>, parses: seq<byte> -> bool)
    requires WsDrains(ws, f, code, m, parses) && Concat(chunks) == ws && Concat(f.items) == code
    requires !f.dead && f.rest == [] && !m.dead && m.rest == []
    ensures WsReceive(WsState([], []), chunks, parses) == Outcome(m.items, WsState([], []), false)
  {
    FrameIncremental();
    DimeIncremental(parses);
    hide IsIncremental, PopOne, FrameOne, Concat, Drain, WsReceive;
    assert [] + ws == ws && [] + code == code;
    WsChunkIndependence(WsState([], []), chunks, parses);
  }
}
