// What the invariants mean for the users of the broker.

module BrokerTheorems {
  import opened Wrappers
  import opened Sequences
  import opened Framing
  import opened Deque
  import opened BrokerModel
  import opened BrokerInvariants

  // ------------------------------------------------------------ delivery

  /** The clients an event addresses a message to: the members of a group, or
      everybody but the sender. */
  ghost function Addressees(s: State, ev: Event): set<int> {
    if ev.Request? && ev.cmd.Send? && ev.cmd.name.Some? then Elements(Members(s, ev.cmd.name.value))
    else if ev.Request? && ev.cmd.Broadcast? then s.clients.Keys - {ev.fd}
    else {}
  }

  /** The messages a run addresses to a client, in order. */
  ghost function AddressedDuring(s: State, evs: seq<Event>, fd: int): seq<Msg>
    requires PossibleRun(s, evs)
    decreases |evs|
  {
    if evs == [] then []
    else
      (if fd in Addressees(s, evs[0]) then [evs[0].cmd.msg] else [])
      + AddressedDuring(Step(s, evs[0]), evs[1..], fd)
  }

  /** Neither a message nor a wait for this client. */
  ghost predicate SameHistory(c: Client, d: Client) {
    d.addressed == c.addressed && d.asked == c.asked && d.waiting == c.waiting
  }

  lemma {:induction false} JoinKeeps(s: State, fd: int, names: seq<Option<string>>, x: int)
    requires fd in s.clients && x in s.clients
    ensures var t := JoinNames(s, fd, names);
            x in t.clients && SameHistory(s.clients[x], t.clients[x]) && t.ser == s.ser
    decreases |names|
  {
    if names != [] && names[0].Some? && names[0].value !in s.clients[fd].groups {
      JoinKeeps(JoinOne(s, fd, names[0].value), fd, names[1..], x);
    }
  }

  lemma {:induction false} LeaveKeeps(s: State, fd: int, names: seq<Option<string>>, x: int)
    requires fd in s.clients && x in s.clients
    ensures var t := LeaveNames(s, fd, names);
            x in t.clients && SameHistory(s.clients[x], t.clients[x]) && t.ser == s.ser
    decreases |names|
  {
    if names != [] && names[0].Some? && names[0].value in s.clients[fd].groups {
      LeaveKeeps(LeaveOne(s, fd, names[0].value), fd, names[1..], x);
    }
  }

  lemma StepAddressed(s: State, ev: Event, fd: int)
    requires Inv(s) && Possible(s, ev) && fd in s.clients && ev != Disconnect(fd)
    ensures var t := Step(s, ev);
            fd in t.clients &&
            t.clients[fd].addressed ==
              s.clients[fd].addressed + if fd in Addressees(s, ev) then [ev.cmd.msg] else []
  {
    hide Inv, ReleaseAll, DataOf, Deliver, JoinNames, LeaveNames;
    assert s.clients[fd].addressed + [] == s.clients[fd].addressed;
    match ev {
      case Connect(x) =>
      case Disconnect(x) =>
      case Request(x, cmd) =>
        match cmd {
          case Join(names) => if names.Some? { JoinKeeps(s, x, names.value, fd); }
          case Leave(names) => if names.Some? { LeaveKeeps(s, x, names.value, fd); }
          case Handshake(arg) =>
          case Send(name, msg) =>
            if name.Some? && Members(s, name.value) != [] {
              DeliverAddressed(s, Elements(Members(s, name.value)), msg, x, fd);
            }
          case Broadcast(msg) => DeliverAddressed(s, s.clients.Keys - {x}, msg, x, fd);
          case Sync(n, writes) =>
          case Wait =>
          case ListDevices(order) =>
          case UnknownCommand =>
        }
    }
  }

  lemma DeliverAddressed(s: State, targets: set<int>, msg: Msg, x: int, fd: int)
    requires fd in s.clients
    ensures var t := Reply(Deliver(s, targets, msg), x, Ok);
            fd in t.clients &&
            t.clients[fd].addressed == s.clients[fd].addressed + (if fd in targets then [msg] else []) &&
            t.clients[fd].asked == s.clients[fd].asked
  {
  }

  lemma {:induction false} RunAddressed(s: State, evs: seq<Event>, fd: int)
    requires Inv(s) && PossibleRun(s, evs) && fd in s.clients && Disconnect(fd) !in evs
    ensures fd in Run(s, evs).clients
    ensures Run(s, evs).clients[fd].addressed == s.clients[fd].addressed + AddressedDuring(s, evs, fd)
    decreases |evs|
  {
    hide Inv;
    if evs != [] {
      StepAddressed(s, evs[0], fd);
      InvStep(s, evs[0]);
      RunAddressed(Step(s, evs[0]), evs[1..], fd);
      hide Step;
      Regroup(s.clients[fd].addressed, if fd in Addressees(s, evs[0]) then [evs[0].cmd.msg] else [],
              AddressedDuring(Step(s, evs[0]), evs[1..], fd));
    } else {
      assert s.clients[fd].addressed + [] == s.clients[fd].addressed;
    }
  }

  /** Exactly-once FIFO delivery: over any run a connected client has been
      written, followed by what is still queued for it, exactly the messages
      addressed to it, in order. */
  lemma FifoDelivery(s: State, evs: seq<Event>, fd: int)
    requires Inv(s) && PossibleRun(s, evs) && fd in s.clients && Disconnect(fd) !in evs
    ensures var t := Run(s, evs);
            fd in t.clients &&
            Delivered(t.clients[fd].out) + Contents(t.mem, t.clients[fd].queue.items) ==
              s.clients[fd].addressed + AddressedDuring(s, evs, fd)
  {
    RunAddressed(s, evs, fd);
    InvRun(s, evs);
    OwnOk(Run(s, evs), fd);
  }

  // ------------------------------------------------------------ memory

  lemma NoMember<T(!new)>(h: set<T>)
    requires forall x :: x !in h
    ensures |h| == 0
  {
    assert h == {};
  }

  /** With exact counts a message is in memory as long as somebody holds it, and
      no longer. */
  lemma LiveIffQueued(s: State, id: nat)
    requires Inv(s) && Exact(s)
    ensures id in s.mem <==> exists fd :: fd in s.clients && id in s.clients[fd].queue.items
  {
    if id in s.mem {
      assert Excess(s, id) == 0;
      if forall fd | fd in s.clients :: id !in s.clients[fd].queue.items {
        NoMember(Holders(s, id));
      }
    }
    if fd :| fd in s.clients && id in s.clients[fd].queue.items {
      OwnOk(s, fd);
    }
  }

  /** From the start: counts are exact if and only if nobody left with a full
      queue. */
  lemma ExactFromStart(evs: seq<Event>)
    requires PossibleRun(INITIAL, evs)
    ensures Inv(Run(INITIAL, evs))
    ensures Exact(Run(INITIAL, evs)) <==> LeakFree(INITIAL, evs)
  {
    InvInitial();
    InvRun(INITIAL, evs);
  }

  /** n broadcasts by client 3. */
  function Broadcasts(n: nat): seq<Event> {
    if n == 0 then [] else [Request(3, Broadcast(Msg([], [])))] + Broadcasts(n - 1)
  }

  /** Client 4 has n messages queued, client 3 none, and there is nobody else. */
  ghost predicate Filled(s: State, n: nat) {
    && s.clients.Keys == {3, 4} && s.clients[3].queue.items == []
    && |s.clients[4].queue.items| == n && s.clients[4].queue.cap == 16
  }

  lemma BroadcastGrows(s: State, n: nat)
    requires Filled(s, n) && n < 16
    ensures Filled(Step(s, Request(3, Broadcast(Msg([], [])))), n + 1)
  {
  }

  lemma FillStep(s: State, n: nat)
    requires Inv(s) && Filled(s, n) && n < 16
    ensures var ev := Request(3, Broadcast(Msg([], [])));
            3 in s.clients && Possible(s, ev) && Inv(Step(s, ev)) && Filled(Step(s, ev), n + 1)
  {
    BroadcastGrows(s, n);
    hide Inv, Step;
    InvStep(s, Request(3, Broadcast(Msg([], []))));
  }

  lemma {:induction false} Fill(s: State, done: nat, n: nat)
    requires Inv(s) && Filled(s, done) && done + n <= 16
    ensures PossibleRun(s, Broadcasts(n))
    ensures var t := Run(s, Broadcasts(n)); Inv(t) && Filled(t, done + n)
    decreases n
  {
    hide Inv, Step, Possible, Filled;
    if n > 0 {
      FillStep(s, done);
      FillMore(s, n);
      Fill(Step(s, Request(3, Broadcast(Msg([], [])))), done + 1, n - 1);
    }
  }

  lemma FillMore(s: State, n: nat)
    requires n > 0 && Possible(s, Request(3, Broadcast(Msg([], []))))
    ensures var t := Step(s, Request(3, Broadcast(Msg([], []))));
            PossibleRun(t, Broadcasts(n - 1)) ==>
              (PossibleRun(s, Broadcasts(n)) && Run(s, Broadcasts(n)) == Run(t, Broadcasts(n - 1)))
  {
    hide Step, Possible;
    assert Broadcasts(n)[1..] == Broadcasts(n - 1);
  }

  /** The leak is real: two clients connect, one broadcasts 16 messages, the
      other goes away without having read any. All of them are still in memory,
      and in no queue. */
  lemma LeakReachable() returns (s: State, evs: seq<Event>)
    ensures s == ConnectStep(ConnectStep(INITIAL, 3), 4) && evs == Broadcasts(16)
    ensures PossibleRun(s, evs) && 4 in Run(s, evs).clients
    ensures var ids, t := Run(s, evs).clients[4].queue.items, DisconnectStep(Run(s, evs), 4);
            |ids| == 16 && Inv(t) && !Exact(t) &&
            forall id | id in ids :: id in t.mem && forall x | x in t.clients :: id !in t.clients[x].queue.items
  {
    InvInitial();
    InvConnect(INITIAL, 3);
    InvConnect(ConnectStep(INITIAL, 3), 4);
    s, evs := ConnectStep(ConnectStep(INITIAL, 3), 4), Broadcasts(16);
    hide Inv, Exact, Broadcasts;
    Fill(s, 0, 16);
    InvDisconnect(Run(s, evs), 4);
  }

  /** A reference too many is one for ever. */
  lemma StepKeepsExcess(s: State, ev: Event, id: nat)
    requires Inv(s) && Possible(s, ev) && id in s.mem && Excess(s, id) > 0
    ensures id in Step(s, ev).mem && Excess(Step(s, ev), id) > 0
  {
    hide Inv, FullQueue, Excess, CommandStep;
    match ev {
      case Connect(fd) => InvConnect(s, fd);
      case Disconnect(fd) => InvDisconnect(s, fd);
      case Request(fd, cmd) => InvCommand(s, fd, cmd);
    }
  }

  lemma {:induction false} RunKeepsExcess(s: State, evs: seq<Event>, id: nat)
    requires Inv(s) && PossibleRun(s, evs) && id in s.mem && Excess(s, id) > 0
    ensures id in Run(s, evs).mem && Excess(Run(s, evs), id) > 0
    decreases |evs|
  {
    hide Inv, Excess, Step;
    if evs != [] {
      StepKeepsExcess(s, evs[0], id);
      InvStep(s, evs[0]);
      RunKeepsExcess(Step(s, evs[0]), evs[1..], id);
    }
  }

  /** No later run frees a message that was queued for a client that went away
      with an exactly full queue. */
  lemma LeakedForever(s: State, fd: int, evs: seq<Event>)
    requires Inv(s) && FullQueue(s, fd) && PossibleRun(DisconnectStep(s, fd), evs)
    ensures forall id | id in s.clients[fd].queue.items :: id in Run(DisconnectStep(s, fd), evs).mem
  {
    InvDisconnect(s, fd);
    var t := DisconnectStep(s, fd);
    hide Inv, DisconnectStep;
    forall id | id in s.clients[fd].queue.items ensures id in Run(t, evs).mem {
      RunKeepsExcess(t, evs, id);
    }
  }

  // ------------------------------------------------------------ groups

  /** In every reachable state membership is symmetric, and free of duplicates on
      both sides. */
  lemma MembershipSymmetric(evs: seq<Event>, fd: int, name: string)
    requires PossibleRun(INITIAL, evs)
    ensures var s := Run(INITIAL, evs);
            (fd in Members(s, name) <==> fd in s.clients && name in s.clients[fd].groups) &&
            NoDup(Members(s, name)) && (fd in s.clients ==> NoDup(s.clients[fd].groups))
  {
    InvInitial();
    InvRun(INITIAL, evs);
    MembersAgree(Run(INITIAL, evs), fd, name);
  }

  lemma MembersAgree(s: State, fd: int, name: string)
    requires Inv(s)
    ensures fd in Members(s, name) <==> fd in s.clients && name in s.clients[fd].groups
    ensures NoDup(Members(s, name)) && (fd in s.clients ==> NoDup(s.clients[fd].groups))
  {
  }

  // ------------------------------------------------------------ wait

  /** The wait commands a client issues in a run while not already waiting. */
  ghost function WaitsDuring(s: State, evs: seq<Event>, fd: int): nat
    requires PossibleRun(s, evs)
    decreases |evs|
  {
    if evs == [] then 0
    else (if AsksNow(s, evs[0], fd) then 1 else 0) + WaitsDuring(Step(s, evs[0]), evs[1..], fd)
  }

  ghost predicate AsksNow(s: State, ev: Event, fd: int) {
    ev == Request(fd, Wait) && fd in s.clients && !s.clients[fd].waiting
  }

  lemma StepAsked(s: State, ev: Event, fd: int)
    requires Inv(s) && Possible(s, ev) && fd in s.clients && ev != Disconnect(fd)
    ensures var t := Step(s, ev);
            fd in t.clients && t.clients[fd].asked == s.clients[fd].asked + if AsksNow(s, ev, fd) then 1 else 0
  {
    hide Inv, ReleaseAll, DataOf, Deliver, JoinNames, LeaveNames;
    match ev {
      case Connect(x) =>
      case Disconnect(x) =>
      case Request(x, cmd) =>
        match cmd {
          case Join(names) => if names.Some? { JoinKeeps(s, x, names.value, fd); }
          case Leave(names) => if names.Some? { LeaveKeeps(s, x, names.value, fd); }
          case Handshake(arg) =>
          case Send(name, msg) =>
            if name.Some? && Members(s, name.value) != [] {
              DeliverAddressed(s, Elements(Members(s, name.value)), msg, x, fd);
            }
          case Broadcast(msg) => DeliverAddressed(s, s.clients.Keys - {x}, msg, x, fd);
          case Sync(n, writes) =>
          case Wait =>
          case ListDevices(order) =>
          case UnknownCommand =>
        }
    }
  }

  lemma {:induction false} RunAsked(s: State, evs: seq<Event>, fd: int)
    requires Inv(s) && PossibleRun(s, evs) && fd in s.clients && Disconnect(fd) !in evs
    ensures fd in Run(s, evs).clients
    ensures Run(s, evs).clients[fd].asked == s.clients[fd].asked + WaitsDuring(s, evs, fd)
    decreases |evs|
  {
    hide Inv;
    if evs != [] {
      StepAsked(s, evs[0], fd);
      InvStep(s, evs[0]);
      RunAsked(Step(s, evs[0]), evs[1..], fd);
      hide Step;
    }
  }

  /** Over any run, the answers a client gets, plus one if it is left waiting, are
      the waits it issues while not already waiting, plus one if it was waiting
      at the start; and a waiting client has an empty queue. */
  lemma WaitsAnsweredOnce(s: State, evs: seq<Event>, fd: int)
    requires Inv(s) && PossibleRun(s, evs) && fd in s.clients && Disconnect(fd) !in evs
    ensures var c, t := s.clients[fd], Run(s, evs);
            fd in t.clients &&
            var d := t.clients[fd];
            WaitReplies(d.out) + (if d.waiting then 1 else 0) ==
              WaitReplies(c.out) + (if c.waiting then 1 else 0) + WaitsDuring(s, evs, fd) &&
            (d.waiting ==> d.queue.items == []) && WaitsPositive(d.out)
  {
    RunAsked(s, evs, fd);
    InvRun(s, evs);
    OwnOk(s, fd);
    OwnOk(Run(s, evs), fd);
  }

  // ------------------------------------------------------------ serialization

  lemma SerStep(s: State, ev: Event)
    requires Possible(s, ev)
    ensures Step(s, ev).ser == s.ser || Rank(Step(s, ev).ser) > Rank(s.ser)
  {
    hide ReleaseAll, DataOf;
    match ev {
      case Connect(x) =>
      case Disconnect(x) =>
      case Request(x, cmd) =>
        match cmd {
          case Join(names) => if names.Some? { JoinKeeps(s, x, names.value, x); }
          case Leave(names) => if names.Some? { LeaveKeeps(s, x, names.value, x); }
          case Handshake(arg) =>
          case Send(name, msg) =>
          case Broadcast(msg) =>
          case Sync(n, writes) =>
          case Wait =>
          case ListDevices(order) =>
          case UnknownCommand =>
        }
    }
  }

  /** How often a run changes the server's serialization. */
  ghost function SerChanges(s: State, evs: seq<Event>): nat
    requires PossibleRun(s, evs)
    decreases |evs|
  {
    if evs == [] then 0
    else (if Step(s, evs[0]).ser != s.ser then 1 else 0) + SerChanges(Step(s, evs[0]), evs[1..])
  }

  /** At most twice; and dimeb and json are never left. */
  lemma {:induction false} SerSettles(s: State, evs: seq<Event>)
    requires PossibleRun(s, evs)
    ensures SerChanges(s, evs) <= Rank(Run(s, evs).ser) - Rank(s.ser) <= 2
    ensures Rank(s.ser) == 2 ==> Run(s, evs).ser == s.ser
    decreases |evs|
  {
    if evs != [] {
      SerStep(s, evs[0]);
      hide Step;
      SerSettles(Step(s, evs[0]), evs[1..]);
    }
  }

  /** In every reachable state, what a client that completed a handshake was
      told last is the server's serialization; and no client is ever told to
      reregister twice. */
  lemma SerializationAgreement(evs: seq<Event>, fd: int)
    requires PossibleRun(INITIAL, evs) && fd in Run(INITIAL, evs).clients
    ensures var s := Run(INITIAL, evs);
            var c := s.clients[fd];
            (c.shaken ==> Announced(c.out) == Some(s.ser)) &&
            (Announced(c.out).Some? ==> Announced(c.out).value == s.ser) &&
            Reregisters(c.out) <= 1
  {
    InvInitial();
    InvRun(INITIAL, evs);
    OwnOk(Run(INITIAL, evs), fd);
  }
}
