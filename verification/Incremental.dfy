// Incremental parsing of a byte stream: a step function looks at what has been
// received and answers "need more", "here is an item of this many bytes", or
// "this stream is broken". Both the DiME decoder and the WebSocket de-framing
// loop of server/socket.c have this shape.

module Incremental {
  import opened Bytes
  import opened Sequences

  datatype Step<T> = More | Item(v: T, size: nat) | Bad

  /** Items are non-empty, and bytes that arrive later change no answer. */
  ghost predicate IsIncremental<T(!new)>(step: seq<byte> -> Step<T>) {
    && (forall s :: step(s).Item? ==> 0 < step(s).size <= |s|)
    && (forall s, t :: !step(s).More? ==> step(s + t) == step(s))
  }

  datatype Drained<T> = Drained(items: seq<T>, rest: seq<byte>, dead: bool)

  /** Take items until the rest is incomplete or broken. */
  ghost function Drain<T(!new)>(step: seq<byte> -> Step<T>, s: seq<byte>): (d: Drained<T>)
    requires IsIncremental(step)
    ensures !step(d.rest).Item? && (d.dead <==> step(d.rest).Bad?)
    decreases |s|
  {
    match step(s)
    case More => Drained([], s, false)
    case Bad => Drained([], s, true)
    case Item(v, size) => Prepend([v], Drain(step, s[size..]))
  }

  ghost function Prepend<T>(items: seq<T>, d: Drained<T>): Drained<T> {
    Drained(items + d.items, d.rest, d.dead)
  }

  lemma StepLater<T(!new)>(step: seq<byte> -> Step<T>, s: seq<byte>, t: seq<byte>)
    requires IsIncremental(step) && !step(s).More?
    ensures step(s + t) == step(s)
  {
  }

  lemma StepSize<T(!new)>(step: seq<byte> -> Step<T>, s: seq<byte>)
    requires IsIncremental(step) && step(s).Item?
    ensures 0 < step(s).size <= |s|
  {
  }

  /** Draining what came first, then the rest with what came later, is
      draining everything at once. */
  lemma {:induction false} DrainAppend<T(!new)>(step: seq<byte> -> Step<T>, s: seq<byte>, t: seq<byte>)
    requires IsIncremental(step)
    ensures var d := Drain(step, s);
            Drain(step, s + t) == if d.dead then Drained(d.items, d.rest + t, true)
                                  else Prepend(d.items, Drain(step, d.rest + t))
    decreases |s|
  {
    hide IsIncremental;
    match step(s) {
      case More =>
        assert [] + Drain(step, s + t).items == Drain(step, s + t).items;
      case Bad =>
        StepLater(step, s, t);
      case Item(v, size) =>
        StepLater(step, s, t);
        StepSize(step, s);
        assert (s + t)[size..] == s[size..] + t;
        DrainAppend(step, s[size..], t);
        var d := Drain(step, s[size..]);
        assert [v] + (d.items + Drain(step, d.rest + t).items) == ([v] + d.items) + Drain(step, d.rest + t).items;
    }
  }

  /** Drain after every chunk; a broken stream is given up. */
  ghost function Receive<T(!new)>(step: seq<byte> -> Step<T>, rest: seq<byte>, chunks: seq<seq<byte>>): Drained<T>
    requires IsIncremental(step)
    decreases |chunks|
  {
    if chunks == [] then Drained([], rest, false)
    else
      var d := Drain(step, rest + chunks[0]);
      if d.dead then d else Prepend(d.items, Receive(step, d.rest, chunks[1..]))
  }

  /** How the bytes were cut into chunks does not matter. */
  lemma {:induction false} ChunkIndependence<T(!new)>(step: seq<byte> -> Step<T>, rest: seq<byte>,
                                                     chunks: seq<seq<byte>>)
    requires IsIncremental(step) && step(rest).More?
    ensures var r, d := Receive(step, rest, chunks), Drain(step, rest + Concat(chunks));
            r.items == d.items && r.dead == d.dead && (!r.dead ==> r.rest == d.rest)
    decreases |chunks|
  {
    if chunks == [] {
      assert rest + Concat(chunks) == rest;
    } else {
      var s := rest + chunks[0];
      assert rest + Concat(chunks) == s + Concat(chunks[1..]);
      DrainAppend(step, s, Concat(chunks[1..]));
      var d := Drain(step, s);
      if !d.dead {
        ChunkIndependence(step, d.rest, chunks[1..]);
      }
    }
  }

  /** Encodings the step function recognises, whatever follows them. */
  ghost predicate Encodes<T(!new)>(step: seq<byte> -> Step<T>, code: seq<byte>, v: T) {
    forall t :: step(code + t) == Item(v, |code|)
  }

  lemma EncodesAt<T(!new)>(step: seq<byte> -> Step<T>, code: seq<byte>, v: T, t: seq<byte>)
    requires Encodes(step, code, v)
    ensures step(code + t) == Item(v, |code|)
  {
  }

  lemma DrainCons<T(!new)>(step: seq<byte> -> Step<T>, code: seq<byte>, v: T, s: seq<byte>)
    requires IsIncremental(step) && Encodes(step, code, v)
    ensures Drain(step, code + s) == Prepend([v], Drain(step, s))
  {
    EncodesAt(step, code, v, s);
    assert (code + s)[|code|..] == s;
  }

  /** Round trip of a whole stream of encodings, up to an unfinished tail. */
  lemma {:induction false} DrainEncoded<T(!new)>(step: seq<byte> -> Step<T>, codes: seq<seq<byte>>, vs: seq<T>,
                                                tail: seq<byte>)
    requires IsIncremental(step) && |codes| == |vs| && step(tail).More?
    requires forall i | 0 <= i < |vs| :: Encodes(step, codes[i], vs[i])
    ensures Drain(step, Concat(codes) + tail) == Drained(vs, tail, false)
    decreases |codes|
  {
    if codes == [] {
      assert Concat(codes) + tail == tail;
    } else {
      var more := Concat(codes[1..]) + tail;
      assert Concat(codes) + tail == codes[0] + more;
      DrainCons(step, codes[0], vs[0], more);
      DrainEncoded(step, codes[1..], vs[1..], tail);
      assert vs == [vs[0]] + vs[1..];
    }
  }

  /** A proper prefix of an encoding is incomplete. */
  lemma ProperPrefix<T(!new)>(step: seq<byte> -> Step<T>, code: seq<byte>, v: T, n: nat)
    requires IsIncremental(step) && Encodes(step, code, v) && n < |code|
    ensures step(code[..n]).More?
  {
    EncodesAt(step, code, v, []);
    assert code + [] == code;
    assert code[..n] + code[n..] == code;
    if !step(code[..n]).More? {
      StepLater(step, code[..n], code[n..]);
      StepSize(step, code[..n]);
    }
  }

  /** At any moment: what has been popped is the messages received completely,
      and the buffer holds exactly the unfinished tail. */
  lemma DrainPrefix<T(!new)>(step: seq<byte> -> Step<T>, codes: seq<seq<byte>>, vs: seq<T>, n: nat)
    returns (k: nat)
    requires IsIncremental(step) && |codes| == |vs| && n <= |Concat(codes)|
    requires forall i | 0 <= i < |vs| :: Encodes(step, codes[i], vs[i])
    requires step([]).More?
    ensures k <= |vs| && |Concat(codes[..k])| <= n
    ensures k < |vs| ==> n < |Concat(codes[..k])| + |codes[k]|
    ensures Drain(step, Concat(codes)[..n]) == Drained(vs[..k], Concat(codes)[|Concat(codes[..k])|..n], false)
  {
    hide Concat, IsIncremental, Encodes;
    k := WholeParts(codes, n);
    SplitAt(codes, k, n);
    var tail := Concat(codes)[|Concat(codes[..k])|..n];
    if k < |vs| {
      ProperPrefix(step, codes[k], vs[k], |tail|);
    }
    DrainEncoded(step, codes[..k], vs[..k], tail);
  }
}
