// What each command does to the state, as the clients see it: every statement is
// about Step, and names neither the step function nor its helpers.

module BrokerCommands {
  import opened Wrappers
  import opened Bytes
  import opened Framing
  import opened Deque
  import opened BrokerModel
  import opened BrokerInvariants
  import opened BrokerTheorems

  // ------------------------------------------------------------ connections

  /** The server starts with nothing, and without a serialization. */
  lemma StartsEmpty()
    ensures INITIAL.clients == map[] && INITIAL.groups == map[] && INITIAL.mem == map[] && INITIAL.ser == NoSer
  {
  }

  /** A new client has no group, nothing queued, and has been written nothing. */
  lemma ConnectOutcome(s: State, fd: int)
    requires fd !in s.clients
    ensures var t := Step(s, Connect(fd));
            t == s.(clients := s.clients[fd := t.clients[fd]]) &&
            var c := t.clients[fd];
            c.groups == [] && c.queue.items == [] && c.queue.cap == 16 && c.out == [] && !c.waiting && !c.shaken
  {
  }

  /** A client that goes away is gone from all groups; nobody else changes. */
  lemma DisconnectOutcome(s: State, fd: int)
    requires Inv(s) && fd in s.clients
    ensures var t := Step(s, Disconnect(fd));
            t.clients == s.clients - {fd} && t.ser == s.ser &&
            forall g :: Elements(Members(t, g)) == Elements(Members(s, g)) - {fd}
  {
    var t := Step(s, Disconnect(fd));
    forall g ensures Elements(Members(t, g)) == Elements(Members(s, g)) - {fd} {
      if g in s.groups {
        RemoveValueFacts(s.groups[g], fd);
        hide RemoveValue;
      }
    }
  }

  // ------------------------------------------------------------ replies

  /** `fd` is written these outputs, and nothing else changes. */
  ghost predicate OnlyAnswered(s: State, t: State, fd: int, outputs: seq<Output>) {
    fd in s.clients &&
    t == s.(clients := s.clients[fd := s.clients[fd].(out := s.clients[fd].out + outputs)])
  }

  /** Commands that cannot be carried out are answered Error and change nothing;
      an unknown serialization and a sync without a count are not answered. */
  lemma RefusedCommands(s: State, fd: int, msg: Msg, writes: nat)
    requires fd in s.clients
    ensures OnlyAnswered(s, Step(s, Request(fd, Join(None))), fd, [Error])
    ensures OnlyAnswered(s, Step(s, Request(fd, Leave(None))), fd, [Error])
    ensures OnlyAnswered(s, Step(s, Request(fd, Send(None, msg))), fd, [Error])
    ensures OnlyAnswered(s, Step(s, Request(fd, Handshake(Malformed))), fd, [Error])
    ensures OnlyAnswered(s, Step(s, Request(fd, UnknownCommand)), fd, [Error])
    ensures Step(s, Request(fd, Handshake(UnknownName))) == s == Step(s, Request(fd, Sync(None, writes)))
  {
  }

  // ------------------------------------------------------------ messages

  /** A new message has gone to exactly the targets, and its sender is told Ok:
      who was waiting is told that one message is there. */
  ghost predicate Reached(s: State, t: State, targets: set<int>, fd: int, msg: Msg) {
    && t.clients.Keys == s.clients.Keys && t.groups == s.groups && t.ser == s.ser && t.next == s.next + 1
    && t.mem == (if targets == {} then s.mem else s.mem[s.next := Rc(|targets|, msg)])
    && forall x | x in s.clients ::
        ReachedOne(s.clients[x], t.clients[x], x in targets, x == fd, s.next)
  }

  ghost predicate ReachedOne(c: Client, d: Client, target: bool, sender: bool, id: nat) {
    && d.queue.items == c.queue.items + (if target then [id] else [])
    && d.out == c.out + (if target && c.waiting then [Waited(1)] else []) + (if sender then [Ok] else [])
    && d.waiting == (c.waiting && !target)
    && d.groups == c.groups && d.shaken == c.shaken
  }

  lemma DeliverReaches(s: State, targets: set<int>, fd: int, msg: Msg)
    requires Inv(s) && fd in s.clients && targets <= s.clients.Keys
    ensures Reached(s, Reply(Deliver(s, targets, msg), fd, Ok), targets, fd, msg)
  {
    var t := Reply(Deliver(s, targets, msg), fd, Ok);
    forall x | x in s.clients ensures ReachedOne(s.clients[x], t.clients[x], x in targets, x == fd, s.next) {
      OwnOk(s, x);
      var c := s.clients[x];
      assert c.out + [] == c.out && c.queue.items + [] == c.queue.items;
    }
  }

  /** The clients that joined a group. */
  ghost function Subscribers(s: State, g: string): set<int> {
    set x | x in s.clients && g in s.clients[x].groups
  }

  lemma SubscribersAre(s: State, g: string)
    requires Inv(s)
    ensures Elements(Members(s, g)) == Subscribers(s, g)
    ensures Members(s, g) == [] <==> Subscribers(s, g) == {}
  {
    forall x ensures x in Members(s, g) <==> x in Subscribers(s, g) {
      MembersAgree(s, x, g);
    }
    if Members(s, g) != [] {
      assert Members(s, g)[0] in Subscribers(s, g);
    }
  }

  /** send reaches exactly the subscribers and is answered Ok; without any it is
      answered Error and nothing else happens. */
  lemma SendOutcome(s: State, fd: int, g: string, msg: Msg)
    requires Inv(s) && fd in s.clients
    ensures var t := Step(s, Request(fd, Send(Some(g), msg)));
            if Subscribers(s, g) == {} then OnlyAnswered(s, t, fd, [Error])
            else Reached(s, t, Subscribers(s, g), fd, msg)
  {
    SubscribersAre(s, g);
    hide Inv, Reached, Members, Deliver, Elements;
    if Subscribers(s, g) != {} {
      DeliverReaches(s, Subscribers(s, g), fd, msg);
    }
  }

  /** broadcast reaches everybody else, and is always answered Ok. */
  lemma BroadcastOutcome(s: State, fd: int, msg: Msg)
    requires Inv(s) && fd in s.clients
    ensures Reached(s, Step(s, Request(fd, Broadcast(msg))), s.clients.Keys - {fd}, fd, msg)
  {
    hide Inv, Reached, Deliver;
    DeliverReaches(s, s.clients.Keys - {fd}, fd, msg);
  }

  /** Whatever message reaches a waiting client first, it answers the wait; the
      queue was empty, so the answer is 1. */
  lemma WaitAnsweredLater(s: State, ev: Event, fd: int)
    requires Inv(s) && Possible(s, ev) && fd in Addressees(s, ev) && fd in s.clients && s.clients[fd].waiting
    ensures var t := Step(s, ev);
            fd in t.clients && !t.clients[fd].waiting && |t.clients[fd].queue.items| == 1 &&
            t.clients[fd].out == s.clients[fd].out + [Waited(1)] + if ev.fd == fd then [Ok] else []
  {
    OwnOk(s, fd);
    if ev.cmd.Send? {
      SubscribersAre(s, ev.cmd.name.value);
      SendOutcome(s, ev.fd, ev.cmd.name.value, ev.cmd.msg);
    } else {
      BroadcastOutcome(s, ev.fd, ev.cmd.msg);
    }
    hide Inv, Step, Possible;
  }

  // ------------------------------------------------------------ sync and wait

  /** A sync of n writes the first min(n, queue length) queued messages - all
      of them for a negative n - and then the status. If a write fails, it
      leaves that message and the later ones in the queue, without a status. */
  lemma SyncDelivers(s: State, fd: int, n: int, writes: nat)
    requires Inv(s) && fd in s.clients
    requires |s.clients[fd].queue.items| < TWO64
    ensures var c, t := s.clients[fd], Step(s, Request(fd, Sync(Some(n), writes)));
            var k := if n < 0 || n > |c.queue.items| then |c.queue.items| else n;
            var m := if writes < k then writes else k;
            t == s.(clients := s.clients[fd := t.clients[fd]], mem := t.mem) &&
            t.clients[fd].queue == c.queue.(items := c.queue.items[m..]) &&
            t.clients[fd].waiting == c.waiting && t.clients[fd].groups == c.groups &&
            t.clients[fd].out == c.out + Written(s, c.queue.items[..m]) + (if writes >= k then [Ok] else []) &&
            Delivered(t.clients[fd].out) == Delivered(c.out) + Contents(s.mem, c.queue.items[..m])
  {
    SyncWrites(s, fd, n, writes);
    SyncContents(s, fd, n, writes);
  }

  lemma SyncWrites(s: State, fd: int, n: int, writes: nat)
    requires Inv(s) && fd in s.clients
    requires |s.clients[fd].queue.items| < TWO64
    ensures var c, t := s.clients[fd], Step(s, Request(fd, Sync(Some(n), writes)));
            var k := if n < 0 || n > |c.queue.items| then |c.queue.items| else n;
            var m := if writes < k then writes else k;
            t == s.(clients := s.clients[fd := t.clients[fd]], mem := t.mem) &&
            t.clients[fd].queue == c.queue.(items := c.queue.items[m..]) &&
            t.clients[fd].waiting == c.waiting && t.clients[fd].groups == c.groups &&
            t.clients[fd].out == c.out + Written(s, c.queue.items[..m]) + (if writes >= k then [Ok] else [])
  {
    var c := s.clients[fd];
    var k := if n < 0 || n > |c.queue.items| then |c.queue.items| else n;
    var m := if writes < k then writes else k;
    SyncIs(s, fd, n, writes);
    WrittenIs(s, fd, m);
    FlushState(s, fd, m);
    hide ReleaseAll, DataOf, Inv, Written, Flush, Step;
    assert c.out + Written(s, c.queue.items[..m]) + [] == c.out + Written(s, c.queue.items[..m]);
  }

  lemma SyncIs(s: State, fd: int, n: int, writes: nat)
    requires fd in s.clients && |s.clients[fd].queue.items| < TWO64
    ensures var len := |s.clients[fd].queue.items|;
            var k := if n < 0 || n > len then len else n;
            Step(s, Request(fd, Sync(Some(n), writes))) ==
              if writes < k then Flush(s, fd, writes) else Reply(Flush(s, fd, k), fd, Ok)
  {
    hide Flush;
  }

  lemma WrittenIs(s: State, fd: int, m: nat)
    requires Inv(s) && fd in s.clients && m <= |s.clients[fd].queue.items|
    ensures var ids := s.clients[fd].queue.items[..m];
            DataOf(s.mem, ids) == Written(s, ids)
  {
    OwnOk(s, fd);
    hide Inv;
    assert forall i | 0 <= i < m :: s.clients[fd].queue.items[..m][i] in s.clients[fd].queue.items;
  }

  lemma SyncContents(s: State, fd: int, n: int, writes: nat)
    requires Inv(s) && fd in s.clients
    requires |s.clients[fd].queue.items| < TWO64
    ensures var c, t := s.clients[fd], Step(s, Request(fd, Sync(Some(n), writes)));
            var k := if n < 0 || n > |c.queue.items| then |c.queue.items| else n;
            var m := if writes < k then writes else k;
            Delivered(t.clients[fd].out) == Delivered(c.out) + Contents(s.mem, c.queue.items[..m])
  {
    hide ReleaseAll, DataOf, Delivered, WaitReplies, Reregisters, Announced, WaitsPositive, Ascending, Inv;
    var c := s.clients[fd];
    var k := if n < 0 || n > |c.queue.items| then |c.queue.items| else n;
    var m := if writes < k then writes else k;
    assert k == Flushed(s, fd, n);
    FlushDelivers(s, fd, m);
    OutSay(Flush(s, fd, m).clients[fd].out, Ok);
    assert Delivered(Flush(s, fd, m).clients[fd].out) + [] == Delivered(Flush(s, fd, m).clients[fd].out);
  }

  lemma FlushDelivers(s: State, fd: int, m: nat)
    requires Inv(s) && fd in s.clients && m <= |s.clients[fd].queue.items|
    ensures var c, d := s.clients[fd], Flush(s, fd, m).clients[fd];
            Delivered(d.out) == Delivered(c.out) + Contents(s.mem, c.queue.items[..m]) &&
            d.queue == c.queue.(items := c.queue.items[m..])
  {
    var c := s.clients[fd];
    OwnOk(s, fd);
    assert forall id | id in c.queue.items[..m] :: id in s.mem;
    hide ReleaseAll, DataOf, Delivered, WaitReplies, Reregisters, Announced, WaitsPositive, Ascending, Inv;
    OutData(c.out, s.mem, c.queue.items[..m]);
  }

  /** The queued messages with these ids, as they are written. */
  ghost function Written(s: State, ids: seq<nat>): seq<Output> {
    seq(|ids|, i requires 0 <= i < |ids| => Data(Content(s.mem, ids[i])))
  }

  /** A wait is answered at once, with the queue length, exactly if messages are
      queued; else the client is waiting afterwards. */
  lemma WaitAnsweredNow(s: State, fd: int)
    requires Inv(s) && fd in s.clients
    ensures var c, t := s.clients[fd], Step(s, Request(fd, Wait));
            t == s.(clients := s.clients[fd := t.clients[fd]]) &&
            t.clients[fd].queue == c.queue && t.clients[fd].groups == c.groups &&
            t.clients[fd].waiting == (c.queue.items == []) &&
            t.clients[fd].out == c.out + if c.queue.items != [] then [Waited(|c.queue.items|)] else []
  {
    OwnOk(s, fd);
    assert s.clients[fd].out + [] == s.clients[fd].out;
  }

  // ------------------------------------------------------------ handshake

  /** The first handshake settles the serialization. Later dimeb and json stay,
      and any other one gives way to dimeb as soon as a client asks for
      something else; only then the other clients are told to reregister. The
      client is always told what is in force. */
  lemma HandshakeOutcome(s: State, fd: int, asked: Ser)
    requires fd in s.clients && asked != NoSer
    ensures var t := Step(s, Request(fd, Handshake(Named(asked))));
            var moved := (s.ser == Matlab || s.ser == Pickle) && asked != s.ser;
            t == s.(clients := t.clients, ser := t.ser) && t.clients.Keys == s.clients.Keys &&
            (s.ser == NoSer ==> t.ser == asked) &&
            (s.ser == Dimeb || s.ser == Json || s.ser == asked ==> t.ser == s.ser) &&
            (moved ==> t.ser == Dimeb) &&
            t.clients[fd] == s.clients[fd].(shaken := true, out := s.clients[fd].out + [Shaken(t.ser)]) &&
            forall x | x in s.clients && x != fd :: t.clients[x] ==
              if moved then s.clients[x].(out := s.clients[x].out + [Reregister(Dimeb)]) else s.clients[x]
  {
    hide Say;
    SayIs(s.clients[fd].(shaken := true));
    forall x | x in s.clients ensures Say(s.clients[x], Reregister(Dimeb)) ==
      s.clients[x].(out := s.clients[x].out + [Reregister(Dimeb)])
    {
      SayIs(s.clients[x]);
    }
  }

  lemma SayIs(c: Client)
    ensures forall o :: Say(c, o) == c.(out := c.out + [o])
  {
  }

  // ------------------------------------------------------------ join and leave

  /** The first k names are strings, and all different. */
  ghost predicate Distinct(names: seq<Option<string>>, k: nat) {
    && k <= |names| && (forall i | 0 <= i < k :: names[i].Some?)
    && forall i, j | 0 <= i < j < k :: names[i] != names[j]
  }

  ghost predicate Joinable(groups: seq<string>, names: seq<Option<string>>, k: nat) {
    Distinct(names, k) && forall i | 0 <= i < k :: names[i].value !in groups
  }

  ghost predicate Leavable(groups: seq<string>, names: seq<Option<string>>, k: nat) {
    Distinct(names, k) && forall i | 0 <= i < k :: names[i].value in groups
  }

  ghost function Values(names: seq<Option<string>>, k: nat): seq<string>
    requires Distinct(names, k)
  {
    seq(k, i requires 0 <= i < k => names[i].value)
  }

  lemma JoinableCons(groups: seq<string>, names: seq<Option<string>>, k: nat)
    requires names != [] && names[0].Some? && names[0].value !in groups
    ensures Joinable(groups + [names[0].value], names[1..], k) <==> Joinable(groups, names, k + 1)
  {
    var rest, more := names[1..], groups + [names[0].value];
    if Joinable(more, rest, k) {
      forall i | 0 <= i < k + 1
        ensures names[i].Some? && names[i].value !in groups && (i > 0 ==> names[i] != names[0])
      {
        if i > 0 {
          assert rest[i - 1] == names[i];
        }
      }
      forall i, j | 0 <= i < j < k + 1 ensures names[i] != names[j] {
        if i > 0 {
          assert rest[i - 1] == names[i] && rest[j - 1] == names[j];
        }
      }
    }
    if Joinable(groups, names, k + 1) {
      forall i | 0 <= i < k ensures rest[i].Some? && rest[i].value !in more {
        assert rest[i] == names[i + 1] && names[i + 1] != names[0];
      }
    }
  }

  lemma LeavableCons(groups: seq<string>, left: seq<string>, names: seq<Option<string>>, k: nat)
    requires names != [] && names[0].Some? && names[0].value in groups
    requires forall g :: g in left <==> g in groups && g != names[0].value
    ensures Leavable(left, names[1..], k) <==> Leavable(groups, names, k + 1)
  {
    var rest := names[1..];
    if Leavable(left, rest, k) {
      forall i | 0 <= i < k + 1
        ensures names[i].Some? && names[i].value in groups && (i > 0 ==> names[i] != names[0])
      {
        if i > 0 {
          assert rest[i - 1] == names[i];
        }
      }
      forall i, j | 0 <= i < j < k + 1 ensures names[i] != names[j] {
        if i > 0 {
          assert rest[i - 1] == names[i] && rest[j - 1] == names[j];
        }
      }
    }
    if Leavable(groups, names, k + 1) {
      forall i | 0 <= i < k ensures rest[i].Some? && rest[i].value in left {
        assert rest[i] == names[i + 1] && names[i + 1] != names[0];
      }
    }
  }

  /** A join takes effect up to the first name that is no string, is joined
      already or repeats an earlier one, and is answered Ok exactly if there is
      none: the client gets these groups, and each of them gets the client. */
  lemma JoinOutcome(s: State, fd: int, names: seq<Option<string>>) returns (k: nat)
    requires fd in s.clients
    ensures Joinable(s.clients[fd].groups, names, k)
    ensures k < |names| ==> !Joinable(s.clients[fd].groups, names, k + 1)
    ensures var c, t := s.clients[fd], Step(s, Request(fd, Join(Some(names))));
            t == s.(clients := t.clients, groups := t.groups) &&
            t.clients == s.clients[fd := c.(groups := c.groups + Values(names, k),
                                            out := c.out + [if k == |names| then Ok else Error])] &&
            forall g :: Members(t, g) == Members(s, g) + if Some(g) in names[..k] then [fd] else []
  {
    k := JoinRest(s, fd, names);
  }

  /** What a join of the first k names achieves. */
  ghost predicate Joined(s: State, t: State, fd: int, names: seq<Option<string>>, k: nat)
    requires fd in s.clients && Distinct(names, k)
  {
    var c := s.clients[fd];
    && t == s.(clients := t.clients, groups := t.groups)
    && t.clients == s.clients[fd := c.(groups := c.groups + Values(names, k),
                                       out := c.out + [if k == |names| then Ok else Error])]
    && forall g :: Members(t, g) == Members(s, g) + if Some(g) in names[..k] then [fd] else []
  }

  lemma {:induction false} JoinRest(s: State, fd: int, names: seq<Option<string>>) returns (k: nat)
    requires fd in s.clients
    ensures Joinable(s.clients[fd].groups, names, k) && Joined(s, JoinNames(s, fd, names), fd, names, k)
    ensures k < |names| ==> !Joinable(s.clients[fd].groups, names, k + 1)
    decreases |names|
  {
    var c := s.clients[fd];
    if names == [] || names[0].None? || names[0].value in c.groups {
      k := 0;
      assert c.groups + Values(names, 0) == c.groups && forall g :: Members(s, g) + [] == Members(s, g);
    } else {
      var name, u := names[0].value, JoinOne(s, fd, names[0].value);
      JoinOneIs(s, fd, name);
      var j := JoinRest(u, fd, names[1..]);
      k := j + 1;
      JoinableCons(c.groups, names, j);
      JoinableCons(c.groups, names, j + 1);
      JoinedMore(s, u, JoinNames(u, fd, names[1..]), fd, names, j);
      hide JoinOne, Joined, Joinable;
    }
  }

  lemma JoinedMore(s: State, u: State, t: State, fd: int, names: seq<Option<string>>, j: nat)
    requires fd in s.clients && names != [] && names[0].Some? && Distinct(names[1..], j) && Distinct(names, j + 1)
    requires var c := s.clients[fd];
             u.clients == s.clients[fd := c.(groups := c.groups + [names[0].value])] &&
             u.groups == s.groups[names[0].value := Members(s, names[0].value) + [fd]] &&
             u == s.(clients := u.clients, groups := u.groups)
    requires Joined(u, t, fd, names[1..], j)
    ensures Joined(s, t, fd, names, j + 1)
  {
    var c, name := s.clients[fd], names[0].value;
    JoinMore(c.groups, names, j);
    assert Some(name) !in names[1..][..j];
    hide Distinct, Values;
    forall g ensures Members(t, g) == Members(s, g) + if Some(g) in names[..j + 1] then [fd] else [] {
      assert Members(t, g) == Members(u, g) + if Some(g) in names[1..][..j] then [fd] else [];
      assert Members(u, g) == Members(s, g) + if g == name then [fd] else [];
    }
  }

  lemma JoinMore(groups: seq<string>, names: seq<Option<string>>, j: nat)
    requires names != [] && names[0].Some? && Distinct(names, j + 1) && Distinct(names[1..], j)
    ensures groups + Values(names, j + 1) == groups + [names[0].value] + Values(names[1..], j)
    ensures forall g :: Some(g) in names[..j + 1] <==> g == names[0].value || Some(g) in names[1..][..j]
  {
    assert names[..j + 1] == [names[0]] + names[1..][..j];
  }

  lemma JoinOneIs(s: State, fd: int, name: string)
    requires fd in s.clients
    ensures var c, t := s.clients[fd], JoinOne(s, fd, name);
            t.clients == s.clients[fd := c.(groups := c.groups + [name])] &&
            t.groups == s.groups[name := Members(s, name) + [fd]] && t == s.(clients := t.clients, groups := t.groups)
    ensures Members(JoinOne(s, fd, name), name) == Members(s, name) + [fd]
  {
  }

  lemma LeaveOneIs(s: State, fd: int, name: string)
    requires fd in s.clients
    ensures var c, t := s.clients[fd], LeaveOne(s, fd, name);
            t.clients == s.clients[fd := c.(groups := RemoveValue(c.groups, name))] &&
            t.groups == s.groups[name := RemoveValue(Members(s, name), fd)] &&
            t == s.(clients := t.clients, groups := t.groups)
  {
    hide RemoveValue, Members;
  }

  /** A leave takes effect up to the first name that is no string, is not
      joined or repeats an earlier one, and is answered Ok exactly if there is
      none: these groups and the client forget each other. */
  lemma LeaveOutcome(s: State, fd: int, names: seq<Option<string>>) returns (k: nat)
    requires Inv(s) && fd in s.clients
    ensures Leavable(s.clients[fd].groups, names, k)
    ensures k < |names| ==> !Leavable(s.clients[fd].groups, names, k + 1)
    ensures var c, t := s.clients[fd], Step(s, Request(fd, Leave(Some(names))));
            fd in t.clients && t == s.(clients := s.clients[fd := t.clients[fd]], groups := t.groups) &&
            t.clients[fd] == c.(groups := t.clients[fd].groups,
                                out := c.out + [if k == |names| then Ok else Error]) &&
            (forall g :: g in t.clients[fd].groups <==> g in c.groups && Some(g) !in names[..k]) &&
            forall g, x :: x in Members(t, g) <==> x in Members(s, g) && !(x == fd && Some(g) in names[..k])
  {
    k := LeaveRest(s, fd, names);
  }

  lemma {:induction false} LeaveRest(s: State, fd: int, names: seq<Option<string>>) returns (k: nat)
    requires Inv(s) && fd in s.clients
    ensures Leavable(s.clients[fd].groups, names, k)
    ensures k < |names| ==> !Leavable(s.clients[fd].groups, names, k + 1)
    ensures var c, t := s.clients[fd], LeaveNames(s, fd, names);
            fd in t.clients && t == s.(clients := s.clients[fd := t.clients[fd]], groups := t.groups) &&
            t.clients[fd] == c.(groups := t.clients[fd].groups,
                                out := c.out + [if k == |names| then Ok else Error]) &&
            (forall g :: g in t.clients[fd].groups <==> g in c.groups && Some(g) !in names[..k]) &&
            forall g, x :: x in Members(t, g) <==> x in Members(s, g) && !(x == fd && Some(g) in names[..k])
    decreases |names|
  {
    hide Inv;
    var c := s.clients[fd];
    if names == [] || names[0].None? || names[0].value !in c.groups {
      k := 0;
    } else {
      var name, u := names[0].value, LeaveOne(s, fd, names[0].value);
      InvLeaveOne(s, fd, name);
      LeftOne(s, fd, name);
      hide LeaveOne;
      var j := LeaveRest(u, fd, names[1..]);
      k := j + 1;
      LeavableCons(c.groups, u.clients[fd].groups, names, j);
      LeavableCons(c.groups, u.clients[fd].groups, names, j + 1);
      LeaveMore(names, j);
      assert LeaveNames(s, fd, names) == LeaveNames(u, fd, names[1..]);
      hide LeaveNames, Members, Leavable;
    }
  }

  lemma LeaveMore(names: seq<Option<string>>, j: nat)
    requires j < |names| && names[0].Some?
    ensures forall g :: Some(g) in names[..j + 1] <==> g == names[0].value || Some(g) in names[1..][..j]
  {
    assert names[..j + 1] == [names[0]] + names[1..][..j];
  }

  lemma LeftOne(s: State, fd: int, name: string)
    requires Inv(s) && fd in s.clients && name in s.clients[fd].groups
    ensures var c, t := s.clients[fd], LeaveOne(s, fd, name);
            fd in t.clients && t == s.(clients := s.clients[fd := t.clients[fd]], groups := t.groups) &&
            t.clients[fd] == c.(groups := t.clients[fd].groups) &&
            (forall g :: g in t.clients[fd].groups <==> g in c.groups && g != name) &&
            forall g, x :: x in Members(t, g) <==> x in Members(s, g) && !(x == fd && g == name)
  {
    LeaveOneIs(s, fd, name);
    MembersAgree(s, fd, name);
    RemoveValueFacts(s.clients[fd].groups, name);
    RemoveValueFacts(Members(s, name), fd);
    hide Inv, RemoveValue, LeaveOne, NoDup;
  }

  lemma RemoveLast<T(!new)>(s: seq<T>, x: T)
    requires x !in s
    ensures RemoveValue(s + [x], x) == s
  {
    var t := s + [x];
    assert forall i | 0 <= i < |s| :: t[i] != x;
    assert t[|s| := t[|t| - 1]][..|s|] == s;
  }

  /** Leaving undoes joining: all that remains is that the group exists, and the
      two replies. */
  lemma LeaveUndoesJoin(s: State, fd: int, name: string)
    requires Inv(s) && fd in s.clients && name !in s.clients[fd].groups
    ensures var t := Step(s, Request(fd, Join(Some([Some(name)]))));
            fd in t.clients &&
            Step(t, Request(fd, Leave(Some([Some(name)])))) ==
              s.(clients := s.clients[fd := s.clients[fd].(out := s.clients[fd].out + [Ok, Ok])],
                 groups := s.groups[name := Members(s, name)])
  {
    var c, t := s.clients[fd], Step(s, Request(fd, Join(Some([Some(name)]))));
    MembersAgree(s, fd, name);
    RemoveLast(c.groups, name);
    RemoveLast(Members(s, name), fd);
    SingleJoin(s, fd, name);
    SingleLeave(t, fd, name);
    hide Inv, RemoveValue, Step, NoDup;
    assert c.out + [Ok] + [Ok] == c.out + [Ok, Ok];
    assert Members(t, name) == Members(s, name) + [fd];
    hide Members;
    TwoUpdates(s.clients, fd, t.clients[fd], c.(out := c.out + [Ok, Ok]));
    TwoUpdates(s.groups, name, t.groups[name], Members(s, name));
  }

  lemma TwoUpdates<K, V>(m: map<K, V>, k: K, v: V, w: V)
    ensures m[k := v][k := w] == m[k := w]
  {
  }

  lemma SingleJoin(s: State, fd: int, name: string)
    requires fd in s.clients && name !in s.clients[fd].groups
    ensures var c := s.clients[fd];
            Step(s, Request(fd, Join(Some([Some(name)])))) ==
              s.(clients := s.clients[fd := c.(groups := c.groups + [name], out := c.out + [Ok])],
                 groups := s.groups[name := Members(s, name) + [fd]])
  {
    assert [Some(name)][1..] == [];
    assert JoinNames(s, fd, [Some(name)]) == Reply(JoinOne(s, fd, name), fd, Ok);
  }

  lemma SingleLeave(s: State, fd: int, name: string)
    requires fd in s.clients && name in s.clients[fd].groups
    ensures var c := s.clients[fd];
            Step(s, Request(fd, Leave(Some([Some(name)])))) ==
              s.(clients := s.clients[fd := c.(groups := RemoveValue(c.groups, name), out := c.out + [Ok])],
                 groups := s.groups[name := RemoveValue(Members(s, name), fd)])
  {
    hide RemoveValue;
    assert [Some(name)][1..] == [];
    assert LeaveNames(s, fd, [Some(name)]) == Reply(LeaveOne(s, fd, name), fd, Ok);
  }

  // ------------------------------------------------------------ devices

  lemma {:induction false} NonEmptyFacts(s: State, order: seq<string>)
    requires NoDup(order)
    ensures NoDup(NonEmptyGroups(s, order))
    ensures forall g :: g in NonEmptyGroups(s, order) <==> g in order && Members(s, g) != []
  {
    if order != [] {
      NonEmptyFacts(s, order[1..]);
      assert order == [order[0]] + order[1..];
    }
  }

  /** The devices command is answered with every group that has a member, once
      each, and changes nothing. */
  lemma DevicesExact(s: State, fd: int, order: seq<string>) returns (names: seq<string>)
    requires Inv(s) && Possible(s, Request(fd, ListDevices(order)))
    ensures OnlyAnswered(s, Step(s, Request(fd, ListDevices(order))), fd, [Devices(names)])
    ensures NoDup(names)
    ensures forall g :: g in names <==> exists x :: x in s.clients && g in s.clients[x].groups
  {
    names := NonEmptyGroups(s, order);
    NonEmptyFacts(s, order);
    forall g ensures g in names <==> exists x :: x in s.clients && g in s.clients[x].groups {
      if g in names {
        MembersAgree(s, Members(s, g)[0], g);
      }
      if x :| x in s.clients && g in s.clients[x].groups {
        MembersAgree(s, x, g);
      }
    }
  }
}
