// The batching loop of client/python/dime/client.py, and why it meets its end
// against this server.

module PyClient {
  import opened Wrappers
  import opened Sequences
  import opened Framing
  import opened BrokerModel
  import opened BrokerInvariants
  import opened BrokerCommands

  /** What __recv reads: a reregister message, an answer with its status, or a
      message without one. */
  datatype Frame = Meta(ser: Ser) | Status(ok: bool) | Bare

  /** How a variable went out: the serialization named in the message, and the
      one its bytes are in. */
  datatype Sent<V> = Sent(v: V, tag: Ser, codec: Ser)

  datatype Outcome = Done | Raised | Blocked

  /** Reregister messages only move the client up. */
  predicate Ordered(ser: Ser, incoming: seq<Frame>)
    decreases |incoming|
  {
    incoming == [] ||
    match incoming[0]
    case Meta(x) => Rank(x) > Rank(ser) && Ordered(x, incoming[1..])
    case _ => Ordered(ser, incoming[1..])
  }

  /** The frames __recv hands on, in order. */
  function Answers(incoming: seq<Frame>): seq<Frame> {
    if incoming == [] then []
    else (if incoming[0].Meta? then [] else [incoming[0]]) + Answers(incoming[1..])
  }

  /** The serialization after the reregister messages of a stream. */
  function LastSer(ser: Ser, incoming: seq<Frame>): Ser
    decreases |incoming|
  {
    if incoming == [] then ser
    else LastSer(if incoming[0].Meta? then incoming[0].ser else ser, incoming[1..])
  }

  ghost predicate AllOk(answers: seq<Frame>) {
    forall i | 0 <= i < |answers| :: answers[i] == Status(true)
  }

  /** How reading m answers ends: all of them are ok; or the last one read is
      not; or there are fewer, and none is left. */
  ghost predicate Ends(o: Outcome, was: seq<Frame>, left: seq<Frame>, m: nat) {
    var k := |was| - |left|;
    0 <= k <= m && left == was[k..] &&
    match o
    case Done => k == m && AllOk(was[..k])
    case Raised => k > 0 && AllOk(was[..k - 1]) && was[k - 1] != Status(true)
    case Blocked => k < m && left == [] && AllOk(was)
  }

  /** Reading n answers, then m more. */
  lemma EndsLater(o: Outcome, was: seq<Frame>, mid: seq<Frame>, left: seq<Frame>, n: nat, m: nat)
    requires Ends(Done, was, mid, n) && Ends(o, mid, left, m)
    ensures Ends(o, was, left, n + m)
  {
    var k := |mid| - |left|;
    OkLater(was, mid, n, if o == Done then k else if o == Raised then k - 1 else |mid|);
    hide AllOk;
    assert left == was[n + k..];
  }

  lemma OkLater(was: seq<Frame>, mid: seq<Frame>, n: nat, k: nat)
    requires n <= |was| && mid == was[n..] && k <= |mid| && AllOk(was[..n]) && AllOk(mid[..k])
    ensures AllOk(was[..n + k]) && (k == |mid| ==> was[..n + k] == was)
    ensures mid[..|mid|] == mid
  {
    forall i | 0 <= i < n + k ensures was[i] == Status(true) {
      if i < n {
        assert was[i] == was[..n][i];
      } else {
        assert was[i] == mid[..k][i - n];
      }
    }
  }

  lemma EndsNow(was: seq<Frame>)
    ensures Ends(Done, was, was, 0)
  {
  }

  /** One more answer. */
  lemma EndsOne(was: seq<Frame>, mid: seq<Frame>, left: seq<Frame>, i: nat, n: nat, f: Frame)
    requires Ends(Done, was, mid, i) && i < n && mid == [f] + left
    ensures f == Status(true) ==> Ends(Done, was, left, i + 1)
    ensures f != Status(true) ==> Ends(Raised, was, left, n)
  {
    var o := if f == Status(true) then Done else Raised;
    assert mid[..0] == [] && mid[1..] == left && mid[..1] == [f];
    assert Ends(o, mid, left, n - i) || o == Done;
    assert o == Done ==> Ends(Done, mid, left, 1);
    EndsLater(o, was, mid, left, i, if o == Done then 1 else n - i);
  }

  lemma EndsBlocked(was: seq<Frame>, mid: seq<Frame>, i: nat, n: nat)
    requires Ends(Done, was, mid, i) && i < n && mid == []
    ensures Ends(Blocked, was, [], n)
  {
    assert was[..i] == was;
  }

  /** Enough good answers decide the outcome. */
  lemma EndsWell(o: Outcome, was: seq<Frame>, left: seq<Frame>, m: nat)
    requires Ends(o, was, left, m) && AllOk(was) && |was| >= m
    ensures o == Done
  {
  }

  /** All variables, sent with one serialization. */
  function Tagged<V>(vars: seq<V>, ser: Ser): (t: seq<Sent<V>>)
    ensures |t| == |vars|
  {
    seq(|vars|, i requires 0 <= i < |vars| => Sent(vars[i], ser, ser))
  }

  lemma TaggedMore<V>(vars: seq<V>, i: nat, j: nat, ser: Ser)
    requires i <= j <= |vars|
    ensures Tagged(vars[..j], ser) == Tagged(vars[..i], ser) + Tagged(vars[i..j], ser)
    ensures j < |vars| ==> Tagged(vars[i..j + 1], ser) == Tagged(vars[i..j], ser) + [Sent(vars[j], ser, ser)]
  {
  }

  /** Whatever was sent in between, `all` is what was sent last. */
  ghost predicate SentLast<T(!new)>(before: seq<T>, now: seq<T>, all: seq<T>) {
    exists early :: now == before + early + all
  }

  lemma SentNow<T(!new)>(before: seq<T>, all: seq<T>)
    ensures SentLast(before, before + all, all)
  {
    assert before + all == before + [] + all;
  }

  lemma SentLater<T(!new)>(before: seq<T>, early: seq<T>, now: seq<T>, all: seq<T>)
    requires SentLast(before + early, now, all)
    ensures SentLast(before, now, all)
  {
    var more :| now == before + early + more + all;
    assert now == before + (early + more) + all;
  }

  /** The most messages send_r may send for n variables. */
  function Budget(n: nat, ser: Ser): nat {
    n * (3 - Rank(ser))
  }

  /** A restart spends at most one round of sends and raises the rank. */
  lemma BudgetLeft(n: nat, i: nat, from: Ser, to: Ser)
    requires i <= n && Rank(from) < Rank(to)
    ensures 3 - Rank(from) > 3 - Rank(to) >= 0 && i + Budget(n, to) <= Budget(n, from)
  {
    var r, t := Rank(from), Rank(to);
    assert n * (3 - r) == n * (3 - t) + n * (t - r);
    assert n * (t - r) >= n;
  }

  lemma BudgetFits(n: nat, i: nat, ser: Ser)
    requires i <= n
    ensures i <= Budget(n, ser)
  {
    assert n * (3 - Rank(ser)) >= n;
  }

  class Client<V(!new)> {
    var ser: Ser
    var codec: Ser
    var incoming: seq<Frame>
    var sent: seq<Sent<V>>

    /** After open: the codec in use is the one of the serialization. */
    ghost predicate Valid()
      reads this
    {
      ser != NoSer && ser != Matlab && codec == ser && Ordered(ser, incoming)
    }

    constructor (ser: Ser, incoming: seq<Frame>)
      requires ser != NoSer && ser != Matlab && Ordered(ser, incoming)
      ensures Valid() && this.ser == ser && this.incoming == incoming && sent == []
    {
      this.ser, this.codec, this.incoming, sent := ser, ser, incoming, [];
    }

    /** __meta: a reregister message sets the serialization and the codec. */
    method Reregister(x: Ser)
      modifies `ser, `codec
      ensures ser == x && codec == (if x == Pickle || x == Dimeb || x == Json then x else old(codec))
    {
      ser := x;
      if x == Pickle || x == Dimeb || x == Json {
        codec := x;
      }
    }

    /** __recv: skips over reregister messages and answers the first other frame;
        None, which blocks for ever, if and only if there is none. */
    method Recv() returns (f: Option<Frame>)
      requires Valid()
      modifies `ser, `codec, `incoming
      ensures Valid()
      ensures old(Answers(incoming)) == (if f.None? then [] else [f.value]) + Answers(incoming)
      ensures f.None? ==> incoming == []
      ensures LastSer(ser, incoming) == old(LastSer(ser, incoming))
      ensures ser == old(ser) || Rank(ser) > Rank(old(ser))
      decreases |incoming|
    {
      if incoming == [] {
        return None;
      }
      var head := incoming[0];
      incoming := incoming[1..];
      if head.Meta? {
        Reregister(head.ser);
        f := Recv();
        return;
      }
      return Some(head);
    }

    /** The inner sending loop of send_r: up to 16 variables. */
    method SendBatch(vars: seq<V>, i: nat) returns (j: nat)
      requires Valid() && i < |vars|
      modifies `sent
      ensures j == (if i + 16 <= |vars| then i + 16 else |vars|)
      ensures sent == old(sent) + Tagged(vars[i..j], ser)
    {
      var n := 0;
      j := i;
      ghost var before := sent;
      while n < 16 && j < |vars|
        invariant 0 <= n <= 16 && i + n == j <= |vars|
        invariant sent == before + Tagged(vars[i..j], ser)
      {
        TaggedMore(vars, i, j, ser);
        sent := sent + [Sent(vars[j], ser, codec)];
        n, j := n + 1, j + 1;
      }
    }

    /** The inner receiving loop of send_r: an answer for every message. */
    method ReadAnswers(n: nat) returns (o: Outcome)
      requires Valid()
      modifies `ser, `codec, `incoming
      ensures Valid() && (ser == old(ser) || Rank(ser) > Rank(old(ser)))
      ensures Ends(o, old(Answers(incoming)), Answers(incoming), n)
      ensures LastSer(ser, incoming) == old(LastSer(ser, incoming))
    {
      hide Answers, LastSer, Ordered, Ends, AllOk;
      ghost var was := Answers(incoming);
      EndsNow(was);
      for i := 0 to n
        invariant Valid() && (ser == old(ser) || Rank(ser) > Rank(old(ser)))
        invariant Ends(Done, was, Answers(incoming), i)
        invariant LastSer(ser, incoming) == old(LastSer(ser, incoming))
      {
        ghost var mid := Answers(incoming);
        var f := Recv();
        if f.None? {
          NothingLeft(incoming);
          EndsBlocked(was, mid, i, n);
          return Blocked;
        }
        EndsOne(was, mid, Answers(incoming), i, n, f.value);
        if f.value != Status(true) {
          return Raised;
        }
      }
      return Done;
    }

    /** send_r: batches of 16; after each batch it starts again from the first
        variable if the serialization changed meanwhile. An answer with a
        negative status raises an error, and so does one without a status. */
    method SendR(vars: seq<V>) returns (o: Outcome)
      requires Valid()
      modifies this
      ensures Valid() && (ser == old(ser) || Rank(ser) > Rank(old(ser)))
      ensures o == Done ==> SentLast(old(sent), sent, Tagged(vars, ser))
      ensures old(sent) <= sent
      ensures |sent| <= old(|sent|) + Budget(|vars|, old(ser))
      ensures Ends(o, old(Answers(incoming)), Answers(incoming), |sent| - old(|sent|))
      ensures LastSer(ser, incoming) == old(LastSer(ser, incoming))
      decreases 3 - Rank(ser)
    {
      hide Answers, LastSer, Ordered, Ends, Rank, Tagged, SentLast, Budget;
      var serialization := ser;
      ghost var before, was := sent, Answers(incoming);
      var i := 0;
      RoundsStart(before, vars, ser, was);
      while i < |vars|
        invariant 0 <= i <= |vars|
        invariant Valid() && ser == serialization
        invariant sent == before + Tagged(vars[..i], serialization)
        invariant Ends(Done, was, Answers(incoming), i)
        invariant LastSer(ser, incoming) == old(LastSer(ser, incoming))
      {
        ghost var mid := Answers(incoming);
        var j;
        j, o := SendRound(vars, i);
        RoundsMore(before, vars, i, j, serialization, o, was, mid, Answers(incoming));
        i := j;
        if o != Done {
          BudgetFits(|vars|, i, serialization);
          return;
        }
        if serialization != ser {
          ghost var read := Answers(incoming);
          BudgetLeft(|vars|, i, serialization, ser);
          o := SendR(vars);
          RestartDone(before, vars, i, serialization, ser, sent, o, was, read, Answers(incoming));
          return;
        }
      }
      RoundsEnd(before, vars, ser);
      return Done;
    }

    /** One round of send_r: a batch, and an answer for each of its messages. */
    method SendRound(vars: seq<V>, i: nat) returns (j: nat, o: Outcome)
      requires Valid() && i < |vars|
      modifies this
      ensures Valid() && (ser == old(ser) || Rank(ser) > Rank(old(ser)))
      ensures i < j <= |vars| && sent == old(sent) + Tagged(vars[i..j], old(ser))
      ensures Ends(o, old(Answers(incoming)), Answers(incoming), j - i)
      ensures LastSer(ser, incoming) == old(LastSer(ser, incoming))
    {
      hide Answers, LastSer, Ordered, Ends, Rank, Tagged;
      j := SendBatch(vars, i);
      o := ReadAnswers(j - i);
    }

    /** send_r succeeds whenever the server answers every message with ok: no
        answer is bad, and there are enough even for the longest run. */
    method SendAnswered(vars: seq<V>)
      requires Valid() && AllOk(Answers(incoming))
      requires |Answers(incoming)| >= Budget(|vars|, ser)
      modifies this
      ensures Valid() && SentLast(old(sent), sent, Tagged(vars, ser))
    {
      hide Answers, Ordered, Ends;
      ghost var was := Answers(incoming);
      ghost var before := |sent|;
      var o := SendR(vars);
      EndsWell(o, was, Answers(incoming), |sent| - before);
    }
  }

  lemma RoundsStart<V(!new)>(before: seq<Sent<V>>, vars: seq<V>, ser: Ser, was: seq<Frame>)
    ensures before == before + Tagged(vars[..0], ser) && Ends(Done, was, was, 0)
  {
  }

  lemma RoundsMore<V(!new)>(before: seq<Sent<V>>, vars: seq<V>, i: nat, j: nat, ser: Ser,
                            o: Outcome, was: seq<Frame>, mid: seq<Frame>, left: seq<Frame>)
    requires i <= j <= |vars| && Ends(Done, was, mid, i) && Ends(o, mid, left, j - i)
    ensures before + Tagged(vars[..i], ser) + Tagged(vars[i..j], ser) == before + Tagged(vars[..j], ser)
    ensures Ends(o, was, left, j)
  {
    hide Ends, Tagged;
    TaggedMore(vars, i, j, ser);
    Regroup(before, Tagged(vars[..i], ser), Tagged(vars[i..j], ser));
    EndsLater(o, was, mid, left, i, j - i);
  }

  lemma RoundsEnd<V(!new)>(before: seq<Sent<V>>, vars: seq<V>, ser: Ser)
    ensures var sent := before + Tagged(vars[..|vars|], ser);
            SentLast(before, sent, Tagged(vars, ser)) && |sent| <= |before| + Budget(|vars|, ser)
  {
    assert vars[..|vars|] == vars;
    SentNow(before, Tagged(vars, ser));
    BudgetFits(|vars|, |vars|, ser);
  }

  /** What a restart with serialization `to` achieves, seen from the start. */
  lemma RestartDone<V(!new)>(before: seq<Sent<V>>, vars: seq<V>, i: nat, from: Ser, to: Ser, sent: seq<Sent<V>>,
                             o: Outcome, was: seq<Frame>, read: seq<Frame>, left: seq<Frame>)
    requires i <= |vars| && before + Tagged(vars[..i], from) <= sent && Ends(Done, was, read, i)
    requires Ends(o, read, left, |sent| - |before + Tagged(vars[..i], from)|)
    ensures before <= sent && Ends(o, was, left, |sent| - |before|)
    ensures forall all :: SentLast(before + Tagged(vars[..i], from), sent, all) ==> SentLast(before, sent, all)
  {
    hide Ends, Tagged, SentLast;
    EndsLater(o, was, read, left, i, |sent| - |before| - i);
    forall all | SentLast(before + Tagged(vars[..i], from), sent, all) ensures SentLast(before, sent, all) {
      SentLater(before, Tagged(vars[..i], from), sent, all);
    }
  }

  lemma NothingLeft(incoming: seq<Frame>)
    requires incoming == []
    ensures Answers(incoming) == []
  {
  }

  // ------------------------------------------------ the server keeps its side

  /** What a client reads of the server's output, apart from messages. */
  function Frames(out: seq<Output>): seq<Frame> {
    if out == [] then []
    else (match out[0]
          case Reregister(x) => [Meta(x)]
          case Error => [Status(false)]
          case Data(_) => [Bare]
          case _ => [Status(true)]) + Frames(out[1..])
  }

  /** Whatever the server writes to a client after its handshake answer is in
      order. */
  lemma {:induction false} FramesOrdered(out: seq<Output>, more: seq<Output>, ser: Ser)
    requires Ascending(out + more) && Announced(out) == Some(ser)
    requires forall o | o in more :: !o.Shaken?
    ensures Ordered(ser, Frames(more))
    decreases |more|
  {
    if more != [] {
      var o := more[0];
      assert (out + more)[|out|] == o && (out + more)[..|out|] == out;
      assert out + more == (out + [o]) + more[1..];
      OutSay(out, o);
      FramesOrdered(out + [o], more[1..], if o.Reregister? then o.ser else ser);
    }
  }

  /** In every run: from the point where a client that asked for pickle or json
      got its handshake answer, it reads an ordered stream - what SendR needs. */
  lemma ServerOrdered(evs: seq<Event>, fd: int, out: seq<Output>, more: seq<Output>, ser: Ser)
    requires PossibleRun(INITIAL, evs) && fd in Run(INITIAL, evs).clients
    requires Run(INITIAL, evs).clients[fd].out == out + more
    requires Announced(out) == Some(ser) && forall o | o in more :: !o.Shaken?
    ensures Ordered(ser, Frames(more))
  {
    InvInitial();
    InvRun(INITIAL, evs);
    OwnOk(Run(INITIAL, evs), fd);
    FramesOrdered(out, more, ser);
  }

  /** The handshake of a Python client, which asks for pickle or json, is never
      answered with a serialization it has no codec for. */
  lemma AnswerKnown(s: State, fd: int, asked: Ser)
    requires fd in s.clients && (asked == Pickle || asked == Json)
    ensures var t := Step(s, Request(fd, Handshake(Named(asked))));
            fd in t.clients && Announced(t.clients[fd].out) == Some(t.ser) && t.ser != NoSer && t.ser != Matlab
  {
    HandshakeOutcome(s, fd, asked);
    hide Step, Announced;
    OutSay(s.clients[fd].out, Shaken(Step(s, Request(fd, Handshake(Named(asked)))).ser));
  }

  // ------------------------------------------------ the answers to send_r

  lemma {:induction false} FramesAppend(a: seq<Output>, b: seq<Output>)
    ensures Frames(a + b) == Frames(a) + Frames(b)
  {
    if a == [] {
      assert a + b == b;
    } else {
      assert (a + b)[1..] == a[1..] + b;
      FramesAppend(a[1..], b);
    }
  }

  lemma {:induction false} AnswersAppend(a: seq<Frame>, b: seq<Frame>)
    ensures Answers(a + b) == Answers(a) + Answers(b)
  {
    if a == [] {
      assert a + b == b;
    } else {
      assert (a + b)[1..] == a[1..] + b;
      AnswersAppend(a[1..], b);
    }
  }

  /** What one more output adds to the answers a client reads. */
  lemma AnswersSay(out: seq<Output>, o: Output)
    ensures Answers(Frames(out + [o])) == Answers(Frames(out)) + Answers(Frames([o]))
    ensures Answers(Frames([Ok])) == [Status(true)] && Answers(Frames([Error])) == [Status(false)]
    ensures o.Reregister? ==> Answers(Frames([o])) == []
    ensures o.Data? ==> Answers(Frames([o])) == [Bare]
    ensures !o.Error? && !o.Reregister? && !o.Data? ==> Answers(Frames([o])) == [Status(true)]
  {
    FramesAppend(out, [o]);
    AnswersAppend(Frames(out), Frames([o]));
    assert [o][1..] == [] && [Ok][1..] == [] && [Error][1..] == [];
    assert Frames([]) == [] && Answers([]) == [];
  }

  /** In these events the client only sends, and stays. */
  ghost predicate OnlySends(ev: Event, fd: int) {
    ev != Disconnect(fd) && (ev.Request? && ev.fd == fd ==> ev.cmd.Send? && ev.cmd.name.Some?)
  }

  /** The status a send command deserves: is there anybody in the group? */
  ghost function SendAnswer(s: State, ev: Event, fd: int): seq<Frame>
    requires OnlySends(ev, fd)
  {
    if ev.Request? && ev.fd == fd then [Status(Subscribers(s, ev.cmd.name.value) != {})] else []
  }

  ghost function SendAnswers(s: State, evs: seq<Event>, fd: int): seq<Frame>
    requires PossibleRun(s, evs) && forall ev | ev in evs :: OnlySends(ev, fd)
    decreases |evs|
  {
    if evs == [] then [] else SendAnswer(s, evs[0], fd) + SendAnswers(Step(s, evs[0]), evs[1..], fd)
  }

  /** What an event of somebody else writes to a client that is not waiting. */
  lemma StepOther(s: State, ev: Event, fd: int)
    requires Inv(s) && Possible(s, ev) && fd in s.clients && !s.clients[fd].waiting
    requires ev.fd != fd
    ensures var c, t := s.clients[fd], Step(s, ev);
            fd in t.clients && !t.clients[fd].waiting &&
            (t.clients[fd].out == c.out || t.clients[fd].out == c.out + [Reregister(Dimeb)])
  {
    hide Inv, ReleaseAll, DataOf, Deliver, JoinNames, LeaveNames, SendStep, BroadcastStep, HandshakeStep;
    assert s.clients[fd].out + [] == s.clients[fd].out;
    match ev {
      case Connect(x) =>
      case Disconnect(x) =>
      case Request(x, cmd) =>
        match cmd {
          case Join(names) => if names.Some? { var k := JoinOutcome(s, x, names.value); }
          case Leave(names) => if names.Some? { var k := LeaveOutcome(s, x, names.value); }
          case Handshake(arg) =>
            if arg.Named? { HandshakeOutcome(s, x, arg.ser); } else { RefusedCommands(s, x, Msg([], []), 0); }
          case Send(name, msg) =>
            if name.Some? { SendOutcome(s, x, name.value, msg); } else { RefusedCommands(s, x, msg, 0); }
          case Broadcast(msg) => BroadcastOutcome(s, x, msg);
          case Sync(n, writes) =>
          case Wait =>
          case ListDevices(order) =>
          case UnknownCommand =>
        }
    }
  }

  lemma StepAnswers(s: State, ev: Event, fd: int)
    requires Inv(s) && Possible(s, ev) && fd in s.clients && !s.clients[fd].waiting && OnlySends(ev, fd)
    ensures var c, t := s.clients[fd], Step(s, ev);
            fd in t.clients && !t.clients[fd].waiting &&
            Answers(Frames(t.clients[fd].out)) == Answers(Frames(c.out)) + SendAnswer(s, ev, fd)
  {
    var out := s.clients[fd].out;
    AnswersSay(out, Reregister(Dimeb));
    AnswersSay(out, Ok);
    AnswersSay(out, Error);
    hide Inv, Step, Possible, Answers, Frames, Subscribers;
    assert out + [] == out && Answers(Frames(out)) + [] == Answers(Frames(out));
    if ev.Request? && ev.fd == fd {
      SendOutcome(s, fd, ev.cmd.name.value, ev.cmd.msg);
    } else {
      StepOther(s, ev, fd);
    }
  }

  /** Over any run in which a client that is not waiting only sends, whatever the
      others do meanwhile: it reads exactly one answer for each of its messages,
      in order, and it is ok if and only if somebody was in the group. */
  lemma {:induction false} RunAnswers(s: State, evs: seq<Event>, fd: int)
    requires Inv(s) && PossibleRun(s, evs) && fd in s.clients && !s.clients[fd].waiting
    requires forall ev | ev in evs :: OnlySends(ev, fd)
    ensures var t := Run(s, evs);
            fd in t.clients &&
            Answers(Frames(t.clients[fd].out)) == Answers(Frames(s.clients[fd].out)) + SendAnswers(s, evs, fd)
    decreases |evs|
  {
    hide Inv, Answers, Frames, SendAnswer;
    if evs != [] {
      var t := Step(s, evs[0]);
      StepAnswers(s, evs[0], fd);
      InvStep(s, evs[0]);
      RunAnswers(t, evs[1..], fd);
      hide Step;
      Regroup(Answers(Frames(s.clients[fd].out)), SendAnswer(s, evs[0], fd), SendAnswers(t, evs[1..], fd));
    } else {
      assert Answers(Frames(s.clients[fd].out)) + [] == Answers(Frames(s.clients[fd].out));
    }
  }
}
