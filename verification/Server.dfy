// The commands of server/client.c and the dispatch of server/server.c as
// methods with the loops of the C code, each proved to make exactly the step
// of BrokerModel.

module Server {
  import opened Wrappers
  import opened Sequences
  import opened Framing
  import opened Deque
  import opened BrokerModel
  import opened BrokerInvariants

  /** A linear search, as the C code searches its arrays. */
  method Find<T(==)>(s: seq<T>, x: T) returns (i: nat)
    ensures i == if x in s then IndexOf(s, x) else |s|
  {
    i := 0;
    while i < |s| && s[i] != x
      invariant 0 <= i <= |s| && forall j | 0 <= j < i :: s[j] != x
    {
      i := i + 1;
    }
    IndexOfUnique(s, x, i);
  }

  lemma IndexOfUnique<T>(s: seq<T>, x: T, i: nat)
    requires i <= |s| && (forall j | 0 <= j < i :: s[j] != x) && (i < |s| ==> s[i] == x)
    ensures i == if x in s then IndexOf(s, x) else |s|
  {
  }

  lemma {:induction false} ElementsSize<T(!new)>(s: seq<T>)
    requires NoDup(s)
    ensures |Elements(s)| == |s|
  {
    if s != [] {
      var n := |s| - 1;
      ElementsSize(s[..n]);
      ElementsMore(s, n);
      assert s[..n + 1] == s;
    }
  }

  lemma ElementsMore<T(!new)>(s: seq<T>, i: nat)
    requires NoDup(s) && i < |s|
    ensures Elements(s[..i + 1]) == Elements(s[..i]) + {s[i]} && s[i] !in Elements(s[..i])
  {
  }

  lemma InformedNobody(clients: map<int, Client>, id: nat, msg: Msg)
    ensures Informed(clients, {}, id, msg) == clients
  {
  }

  lemma InformedMore(clients: map<int, Client>, targets: set<int>, x: int, id: nat, msg: Msg)
    requires x in clients && x !in targets
    ensures var part := Informed(clients, targets, id, msg);
            x in part && part[x] == clients[x] &&
            part[x := Receive(part[x], id, msg)] == Informed(clients, targets + {x}, id, msg)
  {
    hide Receive;
  }

  /** State of the loops of send and broadcast: the clients of `done` have got
      message `id`, which has as many references. */
  ghost predicate Enqueued(before: map<int, Client>, m: map<nat, Rc>, done: set<int>, id: nat, msg: Msg,
                           clients: map<int, Client>, mem: map<nat, Rc>) {
    clients == Informed(before, done, id, msg) && mem == m[id := Rc(|done|, msg)]
  }

  lemma EnqueuedNobody(before: map<int, Client>, m: map<nat, Rc>, id: nat, msg: Msg)
    ensures Enqueued(before, m, {}, id, msg, before, m[id := Rc(0, msg)])
  {
    InformedNobody(before, id, msg);
  }

  lemma EnqueuedMore(before: map<int, Client>, m: map<nat, Rc>, done: set<int>, id: nat, msg: Msg,
                     clients: map<int, Client>, mem: map<nat, Rc>, x: int)
    requires Enqueued(before, m, done, id, msg, clients, mem) && x in before && x !in done
    ensures x in clients && id in mem
    ensures Enqueued(before, m, done + {x}, id, msg,
                     clients[x := Receive(clients[x], id, msg)], mem[id := mem[id].(refs := mem[id].refs + 1)])
  {
    InformedMore(before, done, x, id, msg);
    hide Informed, Receive;
  }

  lemma ReregisteredMore(clients: map<int, Client>, others: set<int>, x: int)
    requires x in clients && x !in others
    ensures var part := Reregistered(clients, others);
            x in part && part[x := Say(part[x], Reregister(Dimeb))] == Reregistered(clients, others + {x})
  {
    hide Say;
  }

  lemma WithoutMore(groups: map<string, seq<int>>, names: set<string>, g: string, fd: int)
    requires g in groups && g !in names
    ensures var part := WithoutMember(groups, names, fd);
            g in part && part[g] == groups[g] &&
            part[g := RemoveValue(part[g], fd)] == WithoutMember(groups, names + {g}, fd)
  {
    hide RemoveValue;
  }

  lemma {:induction false} ReleaseMore(mem: map<nat, Rc>, ids: seq<nat>, id: nat)
    ensures ReleaseAll(mem, ids + [id]) == Release(ReleaseAll(mem, ids), id)
    decreases |ids|
  {
    if ids == [] {
      assert [id][1..] == [];
    } else {
      assert (ids + [id])[1..] == ids[1..] + [id];
      ReleaseMore(Release(mem, ids[0]), ids[1..], id);
    }
  }

  lemma DataMore(mem: map<nat, Rc>, ids: seq<nat>, id: nat)
    requires id in mem
    ensures DataOf(mem, ids + [id]) == DataOf(mem, ids) + [Data(mem[id].msg)]
  {
  }

  lemma OthersMore(order: seq<int>, i: nat, fd: int, done: set<int>)
    requires NoDup(order) && i < |order| && done == Elements(order[..i]) - {fd}
    ensures Elements(order[..i + 1]) - {fd} == if order[i] == fd then done else done + {order[i]}
    ensures order[i] !in done
  {
    ElementsMore(order, i);
  }

  lemma NonEmptyMore(s: State, order: seq<string>, i: nat)
    requires i < |order|
    ensures NonEmptyGroups(s, order[i..]) ==
            (if Members(s, order[i]) != [] then [order[i]] else []) + NonEmptyGroups(s, order[i + 1..])
  {
    assert order[i..][0] == order[i] && order[i..][1..] == order[i + 1..];
  }

  /** One more message written and released. */
  lemma FlushMore(s: State, fd: int, k: nat)
    requires Inv(s) && fd in s.clients && k < |s.clients[fd].queue.items|
    ensures var t := Flush(s, fd, k);
            fd in t.clients && t.clients[fd].queue.items == s.clients[fd].queue.items[k..] &&
            var c, id := t.clients[fd], t.clients[fd].queue.items[0];
            id in t.mem && t.mem[id].refs >= 1 &&
            Flush(s, fd, k + 1) ==
              t.(clients := t.clients[fd := Say(c.(queue := PoppedL(c.queue)), Data(t.mem[id].msg))],
                 mem := Release(t.mem, id))
  {
    hide Inv, Flush, ReleaseAll, Release, DataOf;
    FlushState(s, fd, k);
    FlushState(s, fd, k + 1);
    FlushMemory(s, fd, k);
    var items := s.clients[fd].queue.items;
    assert items[..k + 1] == items[..k] + [items[k]];
    DataMore(s.mem, items[..k], items[k]);
    Regroup(s.clients[fd].out, DataOf(s.mem, items[..k]), [Data(s.mem[items[k]].msg)]);
    assert items[k..][1..] == items[k + 1..];
  }

  /** The message to be written next is still there. */
  lemma FlushMemory(s: State, fd: int, k: nat)
    requires Inv(s) && fd in s.clients && k < |s.clients[fd].queue.items|
    ensures var items := s.clients[fd].queue.items;
            var m, id := ReleaseAll(s.mem, items[..k]), items[k];
            id in s.mem && id in m && m[id].msg == s.mem[id].msg && m[id].refs >= 1 &&
            ReleaseAll(s.mem, items[..k + 1]) == Release(m, id)
  {
    var items := s.clients[fd].queue.items;
    OwnOk(s, fd);
    SplitItems(items, k);
    assert items[k] in items[k..];
    ReleaseAllFacts(s.mem, items[..k]);
    ReleaseMore(s.mem, items[..k], items[k]);
    assert items[..k + 1] == items[..k] + [items[k]];
  }

  class Server {
    var clients: map<int, Client>
    var groups: map<string, seq<int>>
    var mem: map<nat, Rc>
    var next: nat
    var ser: Ser

    ghost function Now(): State
      reads this
    {
      State(clients, groups, mem, next, ser)
    }

    /** dime_server_init. */
    constructor ()
      ensures Now() == INITIAL && Inv(Now())
    {
      clients, groups, mem, next, ser := map[], map[], map[], 0, NoSer;
      new;
      InvInitial();
    }

    /** dime_socket_push of a reply. */
    method Push(fd: int, o: Output)
      requires fd in clients
      modifies `clients
      ensures Now() == Reply(old(Now()), fd, o)
    {
      clients := clients[fd := Say(clients[fd], o)];
    }

    /** One round of the loops of send and broadcast. */
    method Enqueue(fd: int, id: nat, msg: Msg)
      requires fd in clients && id in mem
      modifies `clients, `mem
      ensures clients == old(clients)[fd := Receive(old(clients)[fd], id, msg)]
      ensures mem == old(mem)[id := old(mem)[id].(refs := old(mem)[id].refs + 1)]
    {
      var c := clients[fd];
      c := c.(queue := PushedR(c.queue, id), addressed := c.addressed + [msg]);
      if c.waiting {
        c := Say(c, Waited(|c.queue.items|));
        c := c.(waiting := false);
      }
      clients := clients[fd := c];
      mem := mem[id := mem[id].(refs := mem[id].refs + 1)];
    }

    /** The loop of send over the members of the group. */
    method EnqueueMembers(group: seq<int>, id: nat, msg: Msg)
      requires id in mem && mem[id] == Rc(0, msg)
      requires NoDup(group) && forall fd | fd in group :: fd in clients
      modifies `clients, `mem
      ensures Enqueued(old(clients), old(mem), Elements(group), id, msg, clients, mem)
    {
      ghost var before, m := clients, mem;
      EnqueuedNobody(before, m, id, msg);
      assert m[id := Rc(0, msg)] == m;
      assert Elements(group[..0]) == {};
      hide NoDup, Enqueued, Elements, Receive;
      for i := 0 to |group|
        invariant Enqueued(before, m, Elements(group[..i]), id, msg, clients, mem)
      {
        ElementsMore(group, i);
        EnqueuedMore(before, m, Elements(group[..i]), id, msg, clients, mem, group[i]);
        Enqueue(group[i], id, msg);
      }
      assert group[..|group|] == group;
    }

    /** dime_client_send. */
    method Send(fd: int, name: Option<string>, msg: Msg)
      requires Inv(Now()) && fd in clients
      modifies this
      ensures Now() == SendStep(old(Now()), fd, name, msg)
    {
      if name.None? || name.value !in groups || |groups[name.value]| == 0 {
        Push(fd, Error);
        return;
      }
      var group := groups[name.value];
      ghost var s := Now();
      MembersConnected(s, name.value);
      var id := next;
      assert id !in mem;
      next := next + 1;
      mem := mem[id := Rc(0, msg)];
      EnqueueMembers(group, id, msg);
      hide Inv, NoDup, Informed;
      ElementsSize(group);
      assert mem == s.mem[id := Rc(|Elements(group)|, msg)];
      assert mem[id].refs > 0;
      InformedKeys(s.clients, Elements(group), id, msg);
      Push(fd, Ok);
    }

    /** The loop of broadcast over the client table. */
    method EnqueueOthers(fd: int, id: nat, msg: Msg, order: seq<int>)
      requires id in mem && mem[id] == Rc(0, msg)
      requires Enumerates(order, clients.Keys)
      modifies `clients, `mem
      ensures Enqueued(old(clients), old(mem), old(clients).Keys - {fd}, id, msg, clients, mem)
    {
      ghost var before, m := clients, mem;
      EnqueuedNobody(before, m, id, msg);
      assert m[id := Rc(0, msg)] == m;
      assert Elements(order[..0]) == {} && forall i | 0 <= i < |order| :: order[i] in Elements(order);
      hide NoDup, Enqueued, Elements, Receive;
      ghost var done: set<int> := {};
      for i := 0 to |order|
        invariant done == Elements(order[..i]) - {fd}
        invariant Enqueued(before, m, done, id, msg, clients, mem)
      {
        OthersMore(order, i, fd, done);
        if fd != order[i] {
          EnqueuedMore(before, m, done, id, msg, clients, mem, order[i]);
          Enqueue(order[i], id, msg);
          done := done + {order[i]};
        }
      }
      assert order[..|order|] == order;
    }

    /** dime_client_broadcast; `order` is the order of the table iteration. */
    method Broadcast(fd: int, msg: Msg, order: seq<int>)
      requires Inv(Now()) && fd in clients
      requires Enumerates(order, clients.Keys)
      modifies this
      ensures Now() == BroadcastStep(old(Now()), fd, msg)
    {
      ghost var s := Now();
      var id := next;
      assert id !in mem;
      next := next + 1;
      mem := mem[id := Rc(0, msg)];
      EnqueueOthers(fd, id, msg, order);
      hide Inv, NoDup, Informed, Receive;
      BroadcastDelivers(s, fd, msg, clients, mem);
      if mem[id].refs == 0 {
        mem := mem - {id};
      }
      Push(fd, Ok);
    }

    /** Drop one reference; the last one frees the message. */
    method Unref(id: nat)
      requires id in mem && mem[id].refs > 0
      modifies `mem
      ensures mem == Release(old(mem), id)
    {
      ghost var was := mem;
      mem := mem[id := mem[id].(refs := mem[id].refs - 1)];
      if mem[id].refs == 0 {
        mem := mem - {id};
      }
      ReleaseIs(was, id, mem);
    }

    /** dime_client_sync. `writes` messages can be written before a write
        fails; then the message popped last goes back to the front. */
    method Sync(fd: int, n: Option<int>, writes: nat)
      requires Inv(Now()) && fd in clients
      modifies this
      ensures Now() == SyncStep(old(Now()), fd, n, writes)
    {
      if n.None? {
        return;
      }
      ghost var s := Now();
      var m := SyncCount(n.value);
      OwnOk(s, fd);
      FlushNothing(s, fd);
      hide Inv, Flush, ReleaseAll, Release, QueueOk, WaitOk, SerOk;
      var i := 0;
      while i < m
        invariant 0 <= i <= m && i <= |s.clients[fd].queue.items| && i <= writes
        invariant Now() == Flush(s, fd, i)
        invariant fd in clients && clients[fd].queue == s.clients[fd].queue.(items := s.clients[fd].queue.items[i..])
        decreases m - i
      {
        var c := clients[fd];
        if c.queue.items == [] {
          break;
        }
        FlushMore(s, fd, i);
        var id := c.queue.items[0];
        c := c.(queue := PoppedL(c.queue));
        if i == writes {
          PopThenPush(clients[fd].queue);
          PutBack(clients, fd);
          clients := clients[fd := c.(queue := PushedL(c.queue, id))];
          return;
        }
        clients := clients[fd := Say(c, Data(mem[id].msg))];
        Unref(id);
        i := i + 1;
      }
      Push(fd, Ok);
    }

    /** dime_client_wait. */
    method Wait(fd: int)
      requires fd in clients
      modifies `clients
      ensures Now() == WaitStep(old(Now()), fd)
    {
      var c := clients[fd];
      c := c.(asked := if c.waiting then c.asked else c.asked + 1);
      if |c.queue.items| > 0 {
        clients := clients[fd := Say(c, Waited(|c.queue.items|))];
      } else {
        clients := clients[fd := c.(waiting := true)];
      }
    }

    /** dime_client_devices; `order` is the order of the table iteration. */
    method ListDevices(fd: int, order: seq<string>)
      requires fd in clients && forall g | g in order :: g in groups
      modifies `clients
      ensures Now() == Reply(old(Now()), fd, Devices(NonEmptyGroups(old(Now()), order)))
    {
      var arr := [];
      ghost var s := Now();
      assert order[0..] == order;
      assert NonEmptyGroups(s, []) == [];
      hide NonEmptyGroups;
      for i := 0 to |order|
        invariant Now() == s
        invariant arr + NonEmptyGroups(s, order[i..]) == NonEmptyGroups(s, order)
      {
        NonEmptyMore(s, order, i);
        Regroup(arr, if Members(s, order[i]) != [] then [order[i]] else [], NonEmptyGroups(s, order[i + 1..]));
        if |groups[order[i]]| > 0 {
          arr := arr + [order[i]];
        }
      }
      assert order[|order|..] == [] && arr + [] == arr;
      Push(fd, Devices(arr));
    }

    /** One round of join: the group is created if it does not exist. */
    method JoinGroup(fd: int, name: string)
      requires fd in clients
      modifies `clients, `groups
      ensures Now() == JoinOne(old(Now()), fd, name)
    {
      if name !in groups {
        groups := groups[name := []];
      }
      clients := clients[fd := clients[fd].(groups := clients[fd].groups + [name])];
      groups := groups[name := groups[name] + [fd]];
    }

    /** dime_client_join. */
    method Join(fd: int, names: Option<seq<Option<string>>>)
      requires fd in clients
      modifies this
      ensures Now() == CommandStep(old(Now()), fd, BrokerModel.Join(names))
    {
      if names.None? {
        Push(fd, Error);
        return;
      }
      hide JoinOne;
      var arr := names.value;
      ghost var s := Now();
      for i := 0 to |arr|
        invariant fd in clients
        invariant JoinNames(s, fd, arr) == JoinNames(Now(), fd, arr[i..])
      {
        assert arr[i..][0] == arr[i] && arr[i..][1..] == arr[i + 1..];
        if arr[i].None? {
          Push(fd, Error);
          return;
        }
        var name := arr[i].value;
        var j := Find(clients[fd].groups, name);
        if j < |clients[fd].groups| {
          Push(fd, Error);
          return;
        }
        JoinGroup(fd, name);
      }
      Push(fd, Ok);
    }

    /** One round of leave, once the group was found at index k of the client's
        list. The client is in the group's list: the C code's assert(0) is
        unreachable. */
    method LeaveGroup(fd: int, name: string, k: nat)
      requires Inv(Now()) && fd in clients && name in clients[fd].groups && k == IndexOf(clients[fd].groups, name)
      modifies `clients, `groups
      ensures Now() == LeaveOne(old(Now()), fd, name) && Inv(Now())
    {
      InvLeaveOne(Now(), fd, name);
      hide Inv;
      ghost var s := Now();
      var j := Find(groups[name], fd);
      assert j < |groups[name]|;
      groups := groups[name := SwapRemove(groups[name], j)];
      clients := clients[fd := clients[fd].(groups := SwapRemove(clients[fd].groups, k))];
      assert Now() == LeaveOne(s, fd, name);
    }

    /** dime_client_leave. */
    method Leave(fd: int, names: Option<seq<Option<string>>>)
      requires Inv(Now()) && fd in clients
      modifies this
      ensures Now() == CommandStep(old(Now()), fd, BrokerModel.Leave(names))
    {
      if names.None? {
        Push(fd, Error);
        return;
      }
      var arr := names.value;
      ghost var s := Now();
      hide Inv, LeaveOne;
      for i := 0 to |arr|
        invariant fd in clients && Inv(Now())
        invariant LeaveNames(s, fd, arr) == LeaveNames(Now(), fd, arr[i..])
      {
        assert arr[i..][0] == arr[i] && arr[i..][1..] == arr[i + 1..];
        if arr[i].None? {
          Push(fd, Error);
          return;
        }
        var name := arr[i].value;
        var mine := clients[fd].groups;
        var k := Find(mine, name);
        if k == |mine| {
          Push(fd, Error);
          return;
        }
        LeaveGroup(fd, name, k);
      }
      Push(fd, Ok);
    }

    /** The loop of handshake over the client table. */
    method TellOthers(fd: int, order: seq<int>)
      requires Enumerates(order, clients.Keys)
      modifies `clients
      ensures clients == Reregistered(old(clients), old(clients).Keys - {fd})
    {
      ghost var before := clients;
      hide NoDup;
      ghost var done: set<int> := {};
      assert clients == Reregistered(before, {});
      for i := 0 to |order|
        invariant done == Elements(order[..i]) - {fd}
        invariant clients == Reregistered(before, done)
      {
        OthersMore(order, i, fd, done);
        if order[i] != fd {
          ReregisteredMore(before, done, order[i]);
          clients := clients[order[i] := Say(clients[order[i]], Reregister(Dimeb))];
          done := done + {order[i]};
        }
      }
      assert order[..|order|] == order;
    }

    /** dime_client_handshake; `order` is the order of the table iteration. */
    method Handshake(fd: int, arg: HandshakeArg, order: seq<int>)
      requires fd in clients
      requires Enumerates(order, clients.Keys)
      modifies this
      ensures Now() == HandshakeStep(old(Now()), fd, arg)
    {
      if arg.Malformed? {
        Push(fd, Error);
        return;
      }
      if arg.UnknownName? {
        return;
      }
      ghost var s := Now();
      if ser == NoSer {
        ser := arg.ser;
      } else if ser != arg.ser && ser != Dimeb && ser != Json {
        TellOthers(fd, order);
        ser := Dimeb;
      }
      assert Now() == Negotiate(s, fd, arg.ser);
      clients := clients[fd := Say(clients[fd].(shaken := true), Shaken(ser))];
    }

    /** Accepting a connection. */
    method Connect(fd: int)
      requires fd !in clients
      modifies `clients
      ensures Now() == ConnectStep(old(Now()), fd)
    {
      clients := clients[fd := NEW_CLIENT];
    }

    /** Removal from the table, then dime_client_destroy. */
    method Disconnect(fd: int)
      requires Inv(Now()) && fd in clients
      modifies this
      ensures Now() == DisconnectStep(old(Now()), fd)
    {
      var c := clients[fd];
      ghost var s := Now();
      DisconnectReady(s, fd);
      clients := clients - {fd};
      LeaveAll(fd, c.groups);
      DropAll(Iterated(c.queue));
    }

    /** The first loop of destroy: out of every group. */
    method LeaveAll(fd: int, names: seq<string>)
      requires NoDup(names) && forall g | g in names :: g in groups
      modifies `groups
      ensures groups == WithoutMember(old(groups), Elements(names), fd)
    {
      ghost var before := groups;
      hide NoDup;
      assert groups == WithoutMember(before, {}, fd);
      for i := 0 to |names|
        invariant groups == WithoutMember(before, Elements(names[..i]), fd)
      {
        var g := names[i];
        ElementsMore(names, i);
        WithoutMore(before, Elements(names[..i]), g, fd);
        var j := Find(groups[g], fd);
        if j < |groups[g]| {
          groups := groups[g := SwapRemove(groups[g], j)];
        } else {
          assert groups[g := groups[g]] == groups;
        }
      }
      assert names[..|names|] == names;
    }

    /** The second loop of destroy: one reference less on every message the
        deque iterator yields; each of them is still in memory. */
    method DropAll(ids: seq<nat>)
      requires NoDup(ids) && forall id | id in ids :: id in mem && mem[id].refs >= 1
      modifies `mem
      ensures mem == ReleaseAll(old(mem), ids)
    {
      ghost var before := mem;
      for i := 0 to |ids|
        invariant mem == ReleaseAll(before, ids[..i])
      {
        var id := ids[i];
        assert ids[..i + 1] == ids[..i] + [id];
        ReleaseMore(before, ids[..i], id);
        ReleaseAllFacts(before, ids[..i]);
        Unref(id);
      }
      assert ids[..|ids|] == ids;
    }

    /** The command dispatch of the server loop. */
    method Dispatch(fd: int, cmd: Command, order: seq<int>)
      requires Inv(Now()) && Possible(Now(), Request(fd, cmd))
      requires Enumerates(order, clients.Keys)
      modifies this
      ensures Now() == Step(old(Now()), Request(fd, cmd))
      ensures Inv(Now())
    {
      InvCommand(Now(), fd, cmd);
      hide Inv, NoDup;
      match cmd {
        case Handshake(arg) => Handshake(fd, arg, order);
        case Join(names) => Join(fd, names);
        case Leave(names) => Leave(fd, names);
        case Send(name, msg) => Send(fd, name, msg);
        case Broadcast(msg) => Broadcast(fd, msg, order);
        case Sync(n, writes) => Sync(fd, n, writes);
        case Wait => Wait(fd);
        case ListDevices(names) => ListDevices(fd, names);
        case UnknownCommand => Push(fd, Error);
      }
    }
  }

  lemma MembersConnected(s: State, name: string)
    requires Inv(s) && name in s.groups
    ensures NoDup(s.groups[name]) && forall fd | fd in s.groups[name] :: fd in s.clients
  {
  }

  lemma InformedKeys(clients: map<int, Client>, targets: set<int>, id: nat, msg: Msg)
    ensures Informed(clients, targets, id, msg).Keys == clients.Keys
  {
  }

  /** What the loop of broadcast leaves, once a message without receiver is
      freed. */
  lemma BroadcastDelivers(s: State, fd: int, msg: Msg, clients: map<int, Client>, mem: map<nat, Rc>)
    requires fd in s.clients && s.next !in s.mem
    requires Enqueued(s.clients, s.mem[s.next := Rc(0, msg)], s.clients.Keys - {fd}, s.next, msg, clients, mem)
    ensures s.next in mem && fd in clients
    ensures var m := if mem[s.next].refs == 0 then mem - {s.next} else mem;
            State(clients, s.groups, m, s.next + 1, s.ser) == Deliver(s, s.clients.Keys - {fd}, msg)
  {
    hide Informed;
    var others := s.clients.Keys - {fd};
    InformedKeys(s.clients, others, s.next, msg);
    assert mem == s.mem[s.next := Rc(|others|, msg)];
    if others == {} {
      assert mem - {s.next} == s.mem;
    }
  }

  lemma FlushNothing(s: State, fd: int)
    requires fd in s.clients
    ensures Flush(s, fd, 0) == s
  {
    var c := s.clients[fd];
    assert c.queue.items[0..] == c.queue.items && c.out + DataOf(s.mem, []) == c.out;
  }

  lemma ReleaseIs(mem: map<nat, Rc>, id: nat, mem': map<nat, Rc>)
    requires id in mem && mem[id].refs >= 1
    requires mem' == if mem[id].refs == 1 then mem[id := mem[id].(refs := 0)] - {id}
                     else mem[id := mem[id].(refs := mem[id].refs - 1)]
    ensures mem' == Release(mem, id)
  {
  }

  lemma PutBack(clients: map<int, Client>, fd: int)
    requires fd in clients
    ensures clients[fd := clients[fd].(queue := clients[fd].queue)] == clients
  {
  }

  lemma DisconnectReady(s: State, fd: int)
    requires Inv(s) && fd in s.clients
    ensures var c := s.clients[fd];
            NoDup(c.groups) && (forall g | g in c.groups :: g in s.groups) &&
            NoDup(Iterated(c.queue)) &&
            forall id | id in Iterated(c.queue) :: id in s.mem && s.mem[id].refs >= 1
  {
    OwnOk(s, fd);
  }
}
