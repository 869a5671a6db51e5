// What every event keeps, and what follows for whole runs of the broker.

module BrokerInvariants {
  import opened Wrappers
  import opened Sequences
  import opened Framing
  import opened Deque
  import opened BrokerModel

  // ------------------------------------------------------------ output streams

  /** The messages written to a client. */
  ghost function Delivered(out: seq<Output>): seq<Msg> {
    if out == [] then []
    else Delivered(out[..|out| - 1]) + match out[|out| - 1] case Data(m) => [m] case _ => []
  }

  /** The number of answers to wait commands. */
  ghost function WaitReplies(out: seq<Output>): nat {
    if out == [] then 0
    else WaitReplies(out[..|out| - 1]) + if out[|out| - 1].Waited? then 1 else 0
  }

  ghost function Reregisters(out: seq<Output>): nat {
    if out == [] then 0
    else Reregisters(out[..|out| - 1]) + if out[|out| - 1].Reregister? then 1 else 0
  }

  /** The serialization the client was told last. */
  ghost function Announced(out: seq<Output>): Option<Ser> {
    if out == [] then None
    else match out[|out| - 1]
      case Shaken(ser) => Some(ser)
      case Reregister(ser) => Some(ser)
      case _ => Announced(out[..|out| - 1])
  }

  ghost predicate WaitsPositive(out: seq<Output>) {
    forall i | 0 <= i < |out| && out[i].Waited? :: out[i].n >= 1
  }

  /** The order in which the serialization can change. */
  function Rank(ser: Ser): nat {
    match ser
    case NoSer => 0
    case Matlab => 1
    case Pickle => 1
    case Dimeb => 2
    case Json => 2
  }

  /** A client is told to reregister only to move up from what it was told
      before. */
  ghost predicate Ascending(out: seq<Output>) {
    forall i | 0 <= i < |out| && out[i].Reregister? ::
      Announced(out[..i]).Some? ==> Rank(Announced(out[..i]).value) < Rank(out[i].ser)
  }

  ghost predicate Upward(out: seq<Output>, o: Output) {
    o.Reregister? && Announced(out).Some? ==> Rank(Announced(out).value) < Rank(o.ser)
  }

  lemma AscendingSay(out: seq<Output>, o: Output)
    requires Ascending(out) && Upward(out, o)
    ensures Ascending(out + [o])
  {
    hide Announced;
    forall i | 0 <= i < |out + [o]| ensures (out + [o])[..i] == if i <= |out| then out[..i] else out {
    }
    assert out[..|out|] == out;
  }

  lemma OutSay(out: seq<Output>, o: Output)
    ensures Delivered(out + [o]) == Delivered(out) + match o case Data(m) => [m] case _ => []
    ensures WaitReplies(out + [o]) == WaitReplies(out) + if o.Waited? then 1 else 0
    ensures Reregisters(out + [o]) == Reregisters(out) + if o.Reregister? then 1 else 0
    ensures Announced(out + [o]) == match o case Shaken(ser) => Some(ser)
                                            case Reregister(ser) => Some(ser)
                                            case _ => Announced(out)
    ensures WaitsPositive(out) && (o.Waited? ==> o.n >= 1) ==> WaitsPositive(out + [o])
    ensures Ascending(out) && Upward(out, o) ==> Ascending(out + [o])
  {
    assert (out + [o])[..|out|] == out;
    if Ascending(out) && Upward(out, o) {
      AscendingSay(out, o);
    }
  }

  ghost function Content(mem: map<nat, Rc>, id: nat): Msg {
    if id in mem then mem[id].msg else Msg([], [])
  }

  ghost function Contents(mem: map<nat, Rc>, ids: seq<nat>): seq<Msg> {
    seq(|ids|, i requires 0 <= i < |ids| => Content(mem, ids[i]))
  }

  lemma {:induction false} OutData(out: seq<Output>, mem: map<nat, Rc>, ids: seq<nat>)
    requires forall id | id in ids :: id in mem
    ensures Delivered(out + DataOf(mem, ids)) == Delivered(out) + Contents(mem, ids)
    ensures WaitReplies(out + DataOf(mem, ids)) == WaitReplies(out)
    ensures Reregisters(out + DataOf(mem, ids)) == Reregisters(out)
    ensures Announced(out + DataOf(mem, ids)) == Announced(out)
    ensures WaitsPositive(out) ==> WaitsPositive(out + DataOf(mem, ids))
    ensures Ascending(out) ==> Ascending(out + DataOf(mem, ids))
  {
    hide Delivered, WaitReplies, Reregisters, Announced, Ascending, WaitsPositive;
    if ids == [] {
      assert out + DataOf(mem, ids) == out;
      assert Delivered(out) + Contents(mem, ids) == Delivered(out);
    } else {
      var n := |ids| - 1;
      OutData(out, mem, ids[..n]);
      OutSay(out + DataOf(mem, ids[..n]), Data(mem[ids[n]].msg));
      assert out + DataOf(mem, ids) == out + DataOf(mem, ids[..n]) + [Data(mem[ids[n]].msg)];
      assert Contents(mem, ids) == Contents(mem, ids[..n]) + [mem[ids[n]].msg];
    }
  }

  // ------------------------------------------------------------ invariants

  /** Exactly-once FIFO delivery: what was written out, followed by what is
      queued, is what was addressed to the client; no queued message is freed. */
  ghost predicate QueueOk(c: Client, mem: map<nat, Rc>) {
    && Fits(c.queue) && NoDup(c.queue.items)
    && (forall id | id in c.queue.items :: id in mem)
    && Delivered(c.out) + Contents(mem, c.queue.items) == c.addressed
  }

  /** Wait discipline. */
  ghost predicate WaitOk(c: Client) {
    && (c.waiting ==> c.queue.items == [])
    && c.asked == WaitReplies(c.out) + (if c.waiting then 1 else 0)
    && WaitsPositive(c.out)
  }

  /** Serialization agreement. */
  ghost predicate SerOk(c: Client, ser: Ser) {
    && (Announced(c.out).Some? ==> Announced(c.out).value == ser != NoSer)
    && (c.shaken ==> Announced(c.out).Some?)
    && Reregisters(c.out) <= 1 && (Reregisters(c.out) == 1 ==> ser == Dimeb)
    && Ascending(c.out)
  }

  /** Group membership is symmetric and free of duplicates. */
  ghost predicate GroupsOk(s: State) {
    && (forall fd | fd in s.clients :: NoDup(s.clients[fd].groups))
    && (forall fd, g | fd in s.clients && g in s.clients[fd].groups :: g in s.groups && fd in s.groups[g])
    && (forall g | g in s.groups :: NoDup(s.groups[g]))
    && (forall g, fd | g in s.groups && fd in s.groups[g] :: fd in s.clients && g in s.clients[fd].groups)
  }

  /** The clients that hold a message. */
  ghost function Holders(s: State, id: nat): set<int> {
    set fd | fd in s.clients && id in s.clients[fd].queue.items
  }

  ghost predicate RefsOk(s: State) {
    forall id | id in s.mem :: id < s.next && s.mem[id].refs >= 1 && s.mem[id].refs >= |Holders(s, id)|
  }

  ghost predicate ClientsOk(s: State) {
    forall fd | fd in s.clients ::
      QueueOk(s.clients[fd], s.mem) && WaitOk(s.clients[fd]) && SerOk(s.clients[fd], s.ser)
  }

  ghost predicate Inv(s: State) {
    ClientsOk(s) && GroupsOk(s) && RefsOk(s)
  }

  /** References beyond the queue occurrences. */
  ghost function Excess(s: State, id: nat): int
    requires id in s.mem
  {
    s.mem[id].refs - |Holders(s, id)|
  }

  /** Every live message is referenced exactly as often as it is queued. */
  ghost predicate Exact(s: State) {
    forall id | id in s.mem :: Excess(s, id) == 0
  }

  /** A step that neither loses nor invents references. */
  ghost predicate Balanced(s: State, t: State) {
    && (forall id | id in t.mem :: if id in s.mem then Excess(t, id) == Excess(s, id) else Excess(t, id) == 0)
    && (forall id | id in s.mem && id !in t.mem :: Excess(s, id) == 0)
  }

  lemma BalancedExact(s: State, t: State)
    requires Balanced(s, t)
    ensures Exact(t) <==> Exact(s)
  {
    if Exact(t) {
      forall id | id in s.mem ensures Excess(s, id) == 0 {
        if id in t.mem {
          assert Excess(t, id) == 0;
        }
      }
    }
  }

  // ------------------------------------------------------------ sequences

  lemma RemoveValueFacts<T(!new)>(s: seq<T>, x: T)
    requires NoDup(s)
    ensures NoDup(RemoveValue(s, x))
    ensures forall y :: y in RemoveValue(s, x) <==> y in s && y != x
  {
    if x in s {
      var i, n := IndexOf(s, x), |s| - 1;
      var t := SwapRemove(s, i);
      forall y | y in s && y != x ensures y in t {
        var j :| 0 <= j < |s| && s[j] == y;
        if j == n {
          assert t[i] == y;
        } else {
          assert t[j] == y;
        }
      }
    }
  }

  // ------------------------------------------------------------ memory

  /** What releasing a list of distinct messages does to each of them. */
  lemma {:induction false} ReleaseAllFacts(mem: map<nat, Rc>, ids: seq<nat>)
    requires NoDup(ids) && forall id | id in ids :: id in mem && mem[id].refs >= 1
    ensures var t := ReleaseAll(mem, ids);
            (forall id :: id in t <==> id in mem && !(id in ids && mem[id].refs == 1)) &&
            (forall id | id in t :: t[id].msg == mem[id].msg &&
              t[id].refs == mem[id].refs - (if id in ids then 1 else 0))
    decreases |ids|
  {
    if ids != [] {
      var m := Release(mem, ids[0]);
      forall id | id in ids[1..] ensures id in m && m[id] == mem[id] {
        var j :| 0 <= j < |ids[1..]| && ids[1..][j] == id;
        assert ids[j + 1] == id;
      }
      ReleaseAllFacts(m, ids[1..]);
      assert forall id :: id in ids <==> id == ids[0] || id in ids[1..];
      assert ids[0] !in ids[1..];
    }
  }

  lemma TwoHolders(s: State, id: nat, a: int, b: int)
    requires a in Holders(s, id) && b in Holders(s, id) && a != b
    ensures |Holders(s, id)| >= 2
  {
    assert {a, b} <= Holders(s, id);
    var rest := Holders(s, id) - {a, b};
    assert Holders(s, id) == {a, b} + rest;
  }

  /** A client whose queued messages are still there unchanged. */
  lemma QueueFrame(c: Client, mem: map<nat, Rc>, mem': map<nat, Rc>)
    requires QueueOk(c, mem)
    requires forall id | id in c.queue.items :: id in mem' && mem'[id].msg == mem[id].msg
    ensures QueueOk(c, mem')
  {
    assert Contents(mem', c.queue.items) == Contents(mem, c.queue.items);
  }

  // ------------------------------------------------------------ replies

  /** A reply that is no message, no wait answer and no announcement. */
  predicate Plain(o: Output) {
    o.Ok? || o.Error? || o.Devices?
  }

  lemma SayOk(c: Client, mem: map<nat, Rc>, ser: Ser, o: Output)
    requires QueueOk(c, mem) && WaitOk(c) && SerOk(c, ser) && Plain(o)
    ensures QueueOk(Say(c, o), mem) && WaitOk(Say(c, o)) && SerOk(Say(c, o), ser)
  {
    hide Delivered, WaitReplies, Reregisters, Announced, Ascending, WaitsPositive;
    OutSay(c.out, o);
  }

  /** Same queues, same memory. */
  lemma SameQueues(s: State, t: State)
    requires s.clients.Keys == t.clients.Keys && s.mem == t.mem && s.next <= t.next
    requires forall fd | fd in s.clients :: t.clients[fd].queue == s.clients[fd].queue
    ensures RefsOk(s) ==> RefsOk(t)
    ensures Balanced(s, t)
  {
    forall id: nat ensures Holders(t, id) == Holders(s, id) {
      assert forall fd :: fd in Holders(t, id) <==> fd in Holders(s, id);
    }
  }

  lemma SameGroups(s: State, t: State)
    requires s.clients.Keys == t.clients.Keys && s.groups == t.groups && GroupsOk(s)
    requires forall fd | fd in s.clients :: t.clients[fd].groups == s.clients[fd].groups
    ensures GroupsOk(t)
  {
  }

  /** Only one client's record changes. */
  lemma OneClient(s: State, t: State, fd: int)
    requires ClientsOk(s) && fd in s.clients && t.clients.Keys == s.clients.Keys && t.mem == s.mem && t.ser == s.ser
    requires forall x | x in s.clients && x != fd :: t.clients[x] == s.clients[x]
    requires QueueOk(t.clients[fd], t.mem) && WaitOk(t.clients[fd]) && SerOk(t.clients[fd], t.ser)
    ensures ClientsOk(t)
  {
    hide QueueOk, WaitOk, SerOk;
  }

  lemma OwnOk(s: State, fd: int)
    requires ClientsOk(s) && fd in s.clients
    ensures QueueOk(s.clients[fd], s.mem) && WaitOk(s.clients[fd]) && SerOk(s.clients[fd], s.ser)
  {
  }

  lemma InvReply(s: State, fd: int, o: Output)
    requires Inv(s) && Plain(o)
    ensures Inv(Reply(s, fd, o)) && Balanced(s, Reply(s, fd, o))
  {
    var t := Reply(s, fd, o);
    if fd in s.clients {
      SayOk(s.clients[fd], s.mem, s.ser, o);
    }
    SameQueues(s, t);
    SameGroups(s, t);
  }

  // ------------------------------------------------------------ messages

  lemma ReceiveOk(c: Client, mem: map<nat, Rc>, ser: Ser, id: nat, rc: Rc)
    requires QueueOk(c, mem) && WaitOk(c) && SerOk(c, ser) && id !in mem
    ensures var d := Receive(c, id, rc.msg);
            QueueOk(d, mem[id := rc]) && WaitOk(d) && SerOk(d, ser)
  {
    hide Delivered, WaitReplies, Reregisters, Announced, Ascending, WaitsPositive;
    var mem' := mem[id := rc];
    QueueFrame(c, mem, mem');
    var items := c.queue.items;
    assert Contents(mem', items + [id]) == Contents(mem', items) + [rc.msg];
    OutSay(c.out, Waited(|items| + 1));
    assert Delivered(c.out) + Contents(mem', items + [id]) == c.addressed + [rc.msg];
  }

  lemma InvDeliver(s: State, targets: set<int>, msg: Msg)
    requires Inv(s) && targets <= s.clients.Keys
    ensures Inv(Deliver(s, targets, msg)) && Balanced(s, Deliver(s, targets, msg))
  {
    var t, id := Deliver(s, targets, msg), s.next;
    assert id !in s.mem;
    forall fd | fd in t.clients
      ensures QueueOk(t.clients[fd], t.mem) && WaitOk(t.clients[fd]) && SerOk(t.clients[fd], t.ser)
    {
      if fd in targets {
        ReceiveOk(s.clients[fd], s.mem, s.ser, id, Rc(|targets|, msg));
      } else {
        QueueFrame(s.clients[fd], s.mem, t.mem);
      }
    }
    SameGroups(s, t);
    DeliverHolders(s, targets, msg);
  }

  lemma DeliverHolders(s: State, targets: set<int>, msg: Msg)
    requires Inv(s) && targets <= s.clients.Keys
    ensures RefsOk(Deliver(s, targets, msg)) && Balanced(s, Deliver(s, targets, msg))
  {
    var t, id := Deliver(s, targets, msg), s.next;
    NewHolders(s, targets, msg);
    hide Holders, Informed;
  }

  lemma NewHolders(s: State, targets: set<int>, msg: Msg)
    requires Inv(s) && targets <= s.clients.Keys
    ensures forall x: nat :: Holders(Deliver(s, targets, msg), x) == if x == s.next then targets else Holders(s, x)
  {
    var t, id := Deliver(s, targets, msg), s.next;
    forall fd | fd in s.clients ensures id !in s.clients[fd].queue.items {
      OwnOk(s, fd);
    }
    forall x: nat ensures Holders(t, x) == if x == id then targets else Holders(s, x) {
      assert forall fd :: fd in Holders(t, x) <==> fd in if x == id then targets else Holders(s, x);
    }
  }

  lemma FlushState(s: State, fd: int, k: nat)
    requires fd in s.clients && k <= |s.clients[fd].queue.items|
    ensures var c, t := s.clients[fd], Flush(s, fd, k);
            var items := c.queue.items;
            var d := c.(queue := c.queue.(items := items[k..]), out := c.out + DataOf(s.mem, items[..k]));
            t == s.(clients := s.clients[fd := d], mem := ReleaseAll(s.mem, items[..k]))
  {
    hide DataOf, ReleaseAll;
  }

  /** Writing out and releasing the first k messages of one client. */
  lemma InvFlush(s: State, fd: int, k: nat)
    requires Inv(s) && fd in s.clients && k <= |s.clients[fd].queue.items|
    ensures Inv(Flush(s, fd, k)) && Balanced(s, Flush(s, fd, k))
  {
    FlushFacts(s, fd, k);
    FlushState(s, fd, k);
    FlushClients(s, fd, k);
    FlushRefs(s, fd, k);
    hide Flush, ReleaseAll, DataOf, ClientsOk, RefsOk, GroupsOk, QueueOk, WaitOk, SerOk, NoDup, Holders, Balanced;
    SameGroups(s, Flush(s, fd, k));
  }

  lemma FlushFacts(s: State, fd: int, k: nat)
    requires Inv(s) && fd in s.clients && k <= |s.clients[fd].queue.items|
    ensures var c := s.clients[fd];
            var ids := c.queue.items[..k];
            GroupsOk(s) && RefsOk(s) && QueueOk(c, s.mem) && WaitOk(c) && SerOk(c, s.ser) &&
            NoDup(c.queue.items) && NoDup(ids) &&
            (forall id | id in ids :: id in s.mem && s.mem[id].refs >= 1 && id in c.queue.items && fd in Holders(s, id))
  {
    OwnOk(s, fd);
    SplitItems(s.clients[fd].queue.items, k);
  }

  lemma FlushClients(s: State, fd: int, k: nat)
    requires Inv(s) && fd in s.clients && k <= |s.clients[fd].queue.items|
    ensures ClientsOk(Flush(s, fd, k))
  {
    var c, t := s.clients[fd], Flush(s, fd, k);
    FlushFacts(s, fd, k);
    FlushState(s, fd, k);
    ReleaseAllFacts(s.mem, c.queue.items[..k]);
    hide Flush, QueueOk, WaitOk, SerOk, NoDup, Holders, ReleaseAll, DataOf;
    FlushOwn(c, s.mem, t.mem, s.ser, k);
    ReleasedFrame(s, t, fd, c.queue.items[..k]);
    forall x | x in t.clients
      ensures QueueOk(t.clients[x], t.mem) && WaitOk(t.clients[x]) && SerOk(t.clients[x], t.ser)
    {
      if x != fd {
        OwnOk(s, x);
      }
    }
  }

  lemma FlushRefs(s: State, fd: int, k: nat)
    requires Inv(s) && fd in s.clients && k <= |s.clients[fd].queue.items|
    ensures RefsOk(Flush(s, fd, k)) && Balanced(s, Flush(s, fd, k))
  {
    FlushFacts(s, fd, k);
    FlushState(s, fd, k);
    FlushHolders(s, fd, k);
    hide Inv, Flush, QueueOk, WaitOk, SerOk, NoDup, Holders, ReleaseAll, DataOf, Balanced, RefsOk;
    ReleasedHolders(s, Flush(s, fd, k), fd, s.clients[fd].queue.items[..k]);
  }

  lemma FlushHolders(s: State, fd: int, k: nat)
    requires fd in s.clients && NoDup(s.clients[fd].queue.items) && k <= |s.clients[fd].queue.items|
    ensures var ids := s.clients[fd].queue.items[..k];
            forall id: nat ::
              Holders(Flush(s, fd, k), id) == if id in ids then Holders(s, id) - {fd} else Holders(s, id)
  {
    var items, t := s.clients[fd].queue.items, Flush(s, fd, k);
    var ids, rest := items[..k], items[k..];
    assert items == ids + rest;
    forall id: nat ensures Holders(t, id) == if id in ids then Holders(s, id) - {fd} else Holders(s, id) {
      assert id in ids ==> id !in rest;
      assert id in items <==> id in ids || id in rest;
      assert forall x :: x in Holders(t, id) <==> x in if id in ids then Holders(s, id) - {fd} else Holders(s, id);
    }
  }

  lemma FlushOwn(c: Client, mem: map<nat, Rc>, mem': map<nat, Rc>, ser: Ser, k: nat)
    requires QueueOk(c, mem) && WaitOk(c) && SerOk(c, ser) && k <= |c.queue.items|
    requires forall id | id in mem && id !in c.queue.items[..k] :: id in mem' && mem'[id].msg == mem[id].msg
    ensures var d := c.(queue := c.queue.(items := c.queue.items[k..]), out := c.out + DataOf(mem, c.queue.items[..k]));
            QueueOk(d, mem') && WaitOk(d) && SerOk(d, ser)
  {
    hide Delivered, WaitReplies, Reregisters, Announced, Ascending, WaitsPositive, DataOf, Contents, NoDup;
    var items := c.queue.items;
    var ids, rest := items[..k], items[k..];
    SplitItems(items, k);
    OutData(c.out, mem, ids);
    ContentsSplit(mem, items, k);
    ContentsSame(mem, mem', rest);
    Regroup(Delivered(c.out), Contents(mem, ids), Contents(mem, rest));
  }

  lemma ContentsSame(mem: map<nat, Rc>, mem': map<nat, Rc>, ids: seq<nat>)
    requires forall id | id in ids :: Content(mem', id) == Content(mem, id)
    ensures Contents(mem', ids) == Contents(mem, ids)
  {
  }

  lemma SplitItems(items: seq<nat>, k: nat)
    requires NoDup(items) && k <= |items|
    ensures NoDup(items[..k]) && NoDup(items[k..])
    ensures forall id | id in items[k..] :: id in items && id !in items[..k]
    ensures forall id | id in items[..k] :: id in items
  {
  }

  lemma ContentsSplit(mem: map<nat, Rc>, items: seq<nat>, k: nat)
    requires k <= |items|
    ensures Contents(mem, items) == Contents(mem, items[..k]) + Contents(mem, items[k..])
  {
  }

  /** Releasing messages one client holds takes nothing from another client. */
  lemma ReleasedFrame(s: State, t: State, fd: int, ids: seq<nat>)
    requires Inv(s) && fd in s.clients && NoDup(ids)
    requires forall id | id in ids :: id in s.clients[fd].queue.items
    requires t.mem == ReleaseAll(s.mem, ids) && t.ser == s.ser
    requires forall id | id in ids :: id in s.mem
    ensures forall x | x in s.clients && x != fd :: QueueOk(s.clients[x], t.mem)
  {
    ReleaseAllFacts(s.mem, ids);
    forall x | x in s.clients && x != fd ensures QueueOk(s.clients[x], t.mem) {
      forall id | id in s.clients[x].queue.items ensures id in t.mem && t.mem[id].msg == s.mem[id].msg {
        assert QueueOk(s.clients[x], s.mem);
        if id in ids {
          TwoHolders(s, id, fd, x);
        }
      }
      QueueFrame(s.clients[x], s.mem, t.mem);
    }
  }

  lemma ReleasedHolders(s: State, t: State, fd: int, ids: seq<nat>)
    requires RefsOk(s) && fd in s.clients && NoDup(ids) && t.next == s.next
    requires forall id | id in ids :: fd in Holders(s, id) && id in s.mem
    requires t.mem == ReleaseAll(s.mem, ids)
    requires forall id: nat :: Holders(t, id) == if id in ids then Holders(s, id) - {fd} else Holders(s, id)
    ensures RefsOk(t) && Balanced(s, t)
  {
    ReleaseAllFacts(s.mem, ids);
    hide ReleaseAll, Holders, NoDup, Excess;
    forall id | id in s.mem
      ensures id in t.mem ==> Excess(t, id) == Excess(s, id) && t.mem[id].refs >= 1
      ensures id !in t.mem ==> Excess(s, id) == 0
    {
      ReleasedExcess(s, t, fd, id, id in ids);
    }
    assert RefsOk(t) by {
      forall id | id in t.mem ensures t.mem[id].refs >= |Holders(t, id)| {
        ReleasedExcess(s, t, fd, id, id in ids);
      }
    }
  }

  lemma ReleasedExcess(s: State, t: State, fd: int, id: nat, released: bool)
    requires id in s.mem && s.mem[id].refs >= 1 && s.mem[id].refs >= |Holders(s, id)|
    requires released ==> fd in Holders(s, id)
    requires Holders(t, id) == if released then Holders(s, id) - {fd} else Holders(s, id)
    requires id in t.mem <==> !(released && s.mem[id].refs == 1)
    requires id in t.mem ==> t.mem[id].refs == s.mem[id].refs - if released then 1 else 0
    ensures id in t.mem ==> Excess(t, id) == Excess(s, id) >= 0 && t.mem[id].refs >= 1
    ensures id in t.mem ==> t.mem[id].refs >= |Holders(t, id)|
    ensures id !in t.mem ==> Excess(s, id) == 0
  {
    ReleasedOne(Holders(s, id), Holders(t, id), fd, released);
    hide Holders;
  }

  lemma ReleasedOne(h: set<int>, h': set<int>, fd: int, released: bool)
    requires h' == (if released then h - {fd} else h) && (released ==> fd in h)
    ensures |h'| == |h| - if released then 1 else 0
  {
  }

  // ------------------------------------------------------------ wait

  lemma InvWait(s: State, fd: int)
    requires Inv(s) && fd in s.clients
    ensures Inv(WaitStep(s, fd)) && Balanced(s, WaitStep(s, fd))
  {
    hide QueueOk, WaitOk, SerOk, GroupsOk, RefsOk, Balanced, ClientsOk;
    var t := WaitStep(s, fd);
    OwnOk(s, fd);
    WaitOwn(s.clients[fd], s.mem, s.ser);
    SameQueues(s, t);
    SameGroups(s, t);
    OneClient(s, t, fd);
  }

  lemma WaitOwn(c: Client, mem: map<nat, Rc>, ser: Ser)
    requires QueueOk(c, mem) && WaitOk(c) && SerOk(c, ser)
    ensures var d := c.(asked := if c.waiting then c.asked else c.asked + 1);
            var e := if c.queue.items != [] then Say(d, Waited(|c.queue.items|)) else d.(waiting := true);
            QueueOk(e, mem) && WaitOk(e) && SerOk(e, ser)
  {
    hide Delivered, WaitReplies, Reregisters, Announced, Ascending, WaitsPositive;
    OutSay(c.out, Waited(|c.queue.items|));
  }

  // ------------------------------------------------------------ handshake

  lemma InvHandshake(s: State, fd: int, arg: HandshakeArg)
    requires Inv(s) && fd in s.clients && (arg.Named? ==> arg.ser != NoSer)
    ensures Inv(HandshakeStep(s, fd, arg)) && Balanced(s, HandshakeStep(s, fd, arg))
  {
    var t := HandshakeStep(s, fd, arg);
    HandshakeShape(s, fd, arg);
    hide QueueOk, WaitOk, SerOk, GroupsOk, RefsOk, Balanced;
    SameQueues(s, t);
    SameGroups(s, t);
    match arg {
      case Malformed =>
        InvReply(s, fd, Error);
      case UnknownName =>
      case Named(asked) =>
        HandshakeClients(s, fd, asked);
    }
  }

  lemma HandshakeShape(s: State, fd: int, arg: HandshakeArg)
    requires fd in s.clients
    ensures var t := HandshakeStep(s, fd, arg);
            t.clients.Keys == s.clients.Keys && t.mem == s.mem && t.next == s.next && t.groups == s.groups &&
            forall x | x in s.clients ::
              t.clients[x].queue == s.clients[x].queue && t.clients[x].groups == s.clients[x].groups
  {
    if arg.Named? {
      NegotiateShape(s, fd, arg.ser);
    }
    hide Negotiate;
  }

  lemma NegotiateShape(s: State, fd: int, asked: Ser)
    ensures var t := Negotiate(s, fd, asked);
            t == s.(clients := t.clients, ser := t.ser) && t.clients.Keys == s.clients.Keys &&
            forall x | x in s.clients ::
              t.clients[x].queue == s.clients[x].queue && t.clients[x].groups == s.clients[x].groups
  {
  }

  /** Every client's record after a handshake of fd. */
  lemma HandshakeRecords(s: State, fd: int, asked: Ser)
    requires fd in s.clients && asked != NoSer
    ensures var t := HandshakeStep(s, fd, Named(asked));
            t.clients.Keys == s.clients.Keys && t.mem == s.mem && t.ser == Agreed(s.ser, asked) &&
            t.clients[fd] == Say(s.clients[fd].(shaken := true), Shaken(t.ser)) &&
            forall x | x in s.clients && x != fd :: t.clients[x] ==
              if s.ser != NoSer && Agreed(s.ser, asked) != s.ser then Say(s.clients[x], Reregister(Dimeb))
              else s.clients[x]
  {
    hide Say;
  }

  lemma HandshakeClients(s: State, fd: int, asked: Ser)
    requires ClientsOk(s) && fd in s.clients && asked != NoSer
    ensures ClientsOk(HandshakeStep(s, fd, Named(asked)))
  {
    hide QueueOk, WaitOk, SerOk, HandshakeStep;
    var t := HandshakeStep(s, fd, Named(asked));
    HandshakeRecords(s, fd, asked);
    forall x | x in t.clients
      ensures QueueOk(t.clients[x], t.mem) && WaitOk(t.clients[x]) && SerOk(t.clients[x], t.ser)
    {
      OwnOk(s, x);
      if x == fd {
        HandshakeOwn(s.clients[x], s.mem, s.ser, t.ser);
      } else {
        HandshakeOther(s.clients[x], s.mem, s.ser, asked);
      }
    }
  }

  /** The serialization in force after a handshake asking for `asked`. */
  function Agreed(ser: Ser, asked: Ser): Ser {
    if ser == NoSer then asked
    else if ser != asked && ser != Dimeb && ser != Json then Dimeb
    else ser
  }

  lemma HandshakeOwn(c: Client, mem: map<nat, Rc>, ser: Ser, ser': Ser)
    requires QueueOk(c, mem) && WaitOk(c) && SerOk(c, ser) && ser' != NoSer && (ser == Dimeb ==> ser' == Dimeb)
    ensures var d := Say(c.(shaken := true), Shaken(ser'));
            QueueOk(d, mem) && WaitOk(d) && SerOk(d, ser')
  {
    hide Delivered, WaitReplies, Reregisters, Announced, Ascending, WaitsPositive;
    OutSay(c.out, Shaken(ser'));
  }

  lemma HandshakeOther(c: Client, mem: map<nat, Rc>, ser: Ser, asked: Ser)
    requires QueueOk(c, mem) && WaitOk(c) && SerOk(c, ser) && asked != NoSer
    ensures var d := if ser != NoSer && Agreed(ser, asked) != ser then Say(c, Reregister(Dimeb)) else c;
            QueueOk(d, mem) && WaitOk(d) && SerOk(d, Agreed(ser, asked))
  {
    hide Delivered, WaitReplies, Reregisters, Announced, Ascending, WaitsPositive;
    OutSay(c.out, Reregister(Dimeb));
  }

  // ------------------------------------------------------------ groups

  lemma InvJoinOne(s: State, fd: int, name: string)
    requires Inv(s) && fd in s.clients && name !in s.clients[fd].groups
    ensures Inv(JoinOne(s, fd, name)) && Balanced(s, JoinOne(s, fd, name))
  {
    var t := JoinOne(s, fd, name);
    SameQueues(s, t);
    OwnOk(s, fd);
    OneClient(s, t, fd);
    JoinGroups(s, fd, name);
  }

  lemma JoinGroups(s: State, fd: int, name: string)
    requires GroupsOk(s) && fd in s.clients && name !in s.clients[fd].groups
    ensures GroupsOk(JoinOne(s, fd, name))
  {
    var t := JoinOne(s, fd, name);
    assert fd !in Members(s, name);
    forall g | g in t.groups
      ensures NoDup(t.groups[g])
      ensures forall x :: x in t.groups[g] <==> x in Members(s, g) || (g == name && x == fd)
    {
    }
    forall x | x in t.clients
      ensures NoDup(t.clients[x].groups)
      ensures forall g :: g in t.clients[x].groups <==> g in s.clients[x].groups || (g == name && x == fd)
    {
    }
    hide NoDup;
  }

  lemma InvLeaveOne(s: State, fd: int, name: string)
    requires Inv(s) && fd in s.clients && name in s.clients[fd].groups
    ensures Inv(LeaveOne(s, fd, name)) && Balanced(s, LeaveOne(s, fd, name))
    ensures name in s.groups && fd in s.groups[name]
  {
    var t := LeaveOne(s, fd, name);
    SameQueues(s, t);
    OwnOk(s, fd);
    OneClient(s, t, fd);
    LeaveGroups(s, fd, name);
  }

  lemma LeaveGroups(s: State, fd: int, name: string)
    requires GroupsOk(s) && fd in s.clients && name in s.clients[fd].groups
    ensures GroupsOk(LeaveOne(s, fd, name)) && name in s.groups && fd in s.groups[name]
  {
    RemoveValueFacts(s.clients[fd].groups, name);
    RemoveValueFacts(s.groups[name], fd);
    hide NoDup;
  }

  lemma BalancedTrans(s: State, t: State, u: State)
    requires Balanced(s, t) && Balanced(t, u) && t.mem.Keys <= s.mem.Keys
    ensures Balanced(s, u)
  {
  }

  lemma {:induction false} InvJoin(s: State, fd: int, names: seq<Option<string>>)
    requires Inv(s) && fd in s.clients
    ensures Inv(JoinNames(s, fd, names)) && Balanced(s, JoinNames(s, fd, names))
    decreases |names|
  {
    hide Inv, Balanced;
    if names == [] {
      InvReply(s, fd, Ok);
    } else if names[0].None? || names[0].value in s.clients[fd].groups {
      InvReply(s, fd, Error);
    } else {
      var t := JoinOne(s, fd, names[0].value);
      InvJoinOne(s, fd, names[0].value);
      InvJoin(t, fd, names[1..]);
      BalancedTrans(s, t, JoinNames(t, fd, names[1..]));
    }
  }

  lemma {:induction false} InvLeave(s: State, fd: int, names: seq<Option<string>>)
    requires Inv(s) && fd in s.clients
    ensures Inv(LeaveNames(s, fd, names)) && Balanced(s, LeaveNames(s, fd, names))
    decreases |names|
  {
    hide Inv, Balanced;
    if names == [] {
      InvReply(s, fd, Ok);
    } else if names[0].None? || names[0].value !in s.clients[fd].groups {
      InvReply(s, fd, Error);
    } else {
      var t := LeaveOne(s, fd, names[0].value);
      InvLeaveOne(s, fd, names[0].value);
      InvLeave(t, fd, names[1..]);
      BalancedTrans(s, t, LeaveNames(t, fd, names[1..]));
    }
  }

  // ------------------------------------------------------------ sync

  lemma InvSync(s: State, fd: int, n: Option<int>, writes: nat)
    requires Inv(s) && fd in s.clients
    ensures Inv(SyncStep(s, fd, n, writes)) && Balanced(s, SyncStep(s, fd, n, writes))
  {
    hide Inv, Balanced, ReleaseAll;
    if n.None? {
      BalancedSelf(s);
    } else {
      var k := Flushed(s, fd, n.value);
      if writes < k {
        InvFlush(s, fd, writes);
      } else {
        var t := Flush(s, fd, k);
        InvFlush(s, fd, k);
        InvReply(t, fd, Ok);
        FlushShrinks(s, fd, k);
        BalancedTrans(s, t, Reply(t, fd, Ok));
      }
    }
  }

  lemma BalancedSelf(s: State)
    ensures Balanced(s, s)
  {
  }

  lemma {:induction false} ReleaseShrinks(mem: map<nat, Rc>, ids: seq<nat>)
    ensures ReleaseAll(mem, ids).Keys <= mem.Keys
    decreases |ids|
  {
    if ids != [] {
      ReleaseShrinks(Release(mem, ids[0]), ids[1..]);
    }
  }

  lemma FlushShrinks(s: State, fd: int, k: nat)
    ensures Flush(s, fd, k).mem.Keys <= s.mem.Keys
  {
    if fd in s.clients && k <= |s.clients[fd].queue.items| {
      ReleaseShrinks(s.mem, s.clients[fd].queue.items[..k]);
    }
  }

  // ------------------------------------------------------------ connections

  lemma InvConnect(s: State, fd: int)
    requires Inv(s) && fd !in s.clients
    ensures Inv(ConnectStep(s, fd)) && Balanced(s, ConnectStep(s, fd))
  {
    var t := ConnectStep(s, fd);
    forall id: nat ensures Holders(t, id) == Holders(s, id) {
      assert forall x :: x in Holders(t, id) <==> x in Holders(s, id);
    }
    assert Contents(t.mem, []) == [];
    assert ClientsOk(t) by {
      forall x | x in t.clients
        ensures QueueOk(t.clients[x], t.mem) && WaitOk(t.clients[x]) && SerOk(t.clients[x], t.ser)
      {
        if x != fd {
          assert QueueOk(s.clients[x], s.mem) && WaitOk(s.clients[x]) && SerOk(s.clients[x], s.ser);
        }
      }
    }
  }

  /** Is the client's queue exactly full? */
  ghost predicate FullQueue(s: State, fd: int) {
    fd in s.clients && |s.clients[fd].queue.items| == s.clients[fd].queue.cap
  }

  /** The messages of the client's queue stay, with a reference too many, and no
      other message loses one. */
  ghost predicate Leaked(s: State, fd: int, t: State)
    requires fd in s.clients
  {
    && (forall id | id in s.clients[fd].queue.items :: id in t.mem && Excess(t, id) > 0)
    && (forall id | id in s.mem :: id in t.mem && Excess(t, id) >= Excess(s, id))
  }

  lemma InvDisconnect(s: State, fd: int)
    requires Inv(s) && fd in s.clients
    ensures Inv(DisconnectStep(s, fd))
    ensures !FullQueue(s, fd) ==> Balanced(s, DisconnectStep(s, fd))
    ensures FullQueue(s, fd) ==> !Exact(DisconnectStep(s, fd))
    ensures FullQueue(s, fd) ==> Leaked(s, fd, DisconnectStep(s, fd))
  {
    var c, t := s.clients[fd], DisconnectStep(s, fd);
    var ids := Iterated(c.queue);
    assert QueueOk(c, s.mem);
    assert NoDup(ids) && forall id | id in ids :: id in c.queue.items && id in s.mem;
    ReleasedFrame(s, t, fd, ids);
    DisconnectGroups(s, fd);
    assert ClientsOk(t) by {
      forall x | x in t.clients
        ensures QueueOk(t.clients[x], t.mem) && WaitOk(t.clients[x]) && SerOk(t.clients[x], t.ser)
      {
        assert WaitOk(s.clients[x]) && SerOk(s.clients[x], s.ser);
      }
    }
    DisconnectRefs(s, fd);
  }

  lemma DisconnectGroups(s: State, fd: int)
    requires GroupsOk(s) && fd in s.clients
    ensures GroupsOk(DisconnectStep(s, fd))
  {
    var c, t := s.clients[fd], DisconnectStep(s, fd);
    forall g | g in s.groups
      ensures NoDup(t.groups[g]) && forall x :: x in t.groups[g] <==> x in s.groups[g] && x != fd
    {
      RemoveValueFacts(s.groups[g], fd);
    }
    hide RemoveValue, NoDup;
  }

  lemma DisconnectRefs(s: State, fd: int)
    requires Inv(s) && fd in s.clients
    ensures RefsOk(DisconnectStep(s, fd))
    ensures !FullQueue(s, fd) ==> Balanced(s, DisconnectStep(s, fd))
    ensures FullQueue(s, fd) ==> !Exact(DisconnectStep(s, fd))
    ensures FullQueue(s, fd) ==> Leaked(s, fd, DisconnectStep(s, fd))
  {
    DisconnectHolders(s, fd);
    OwnOk(s, fd);
    if FullQueue(s, fd) {
      DisconnectFull(s, fd);
    } else {
      hide Inv, ReleaseAll, Balanced, Exact, Leaked;
      ReleasedHolders(s, DisconnectStep(s, fd), fd, s.clients[fd].queue.items);
    }
  }

  lemma DisconnectHolders(s: State, fd: int)
    requires Inv(s) && fd in s.clients
    ensures var items, t := s.clients[fd].queue.items, DisconnectStep(s, fd);
            (forall id | id in items :: fd in Holders(s, id)) &&
            forall id: nat :: Holders(t, id) == if id in items then Holders(s, id) - {fd} else Holders(s, id)
  {
    var t := DisconnectStep(s, fd);
    forall id: nat
      ensures Holders(t, id) == if id in s.clients[fd].queue.items then Holders(s, id) - {fd} else Holders(s, id)
    {
      assert forall x :: x in Holders(t, id) <==> x in Holders(s, id) && x != fd;
    }
  }

  lemma DisconnectFull(s: State, fd: int)
    requires Inv(s) && FullQueue(s, fd)
    ensures var t := DisconnectStep(s, fd);
            RefsOk(t) && !Exact(t) && Leaked(s, fd, t)
  {
    var items, t := s.clients[fd].queue.items, DisconnectStep(s, fd);
    FullQueueFacts(s, fd);
    DisconnectHolders(s, fd);
    hide Holders, DisconnectStep, Inv, Excess, FullQueue;
    forall id | id in s.mem
      ensures s.mem[id].refs >= |Holders(t, id)| && Excess(t, id) == Excess(s, id) + if id in items then 1 else 0
    {
      KeptExcess(s, t, fd, id, id in items);
    }
    assert items[0] in items && Excess(t, items[0]) > 0;
  }

  lemma FullQueueFacts(s: State, fd: int)
    requires Inv(s) && FullQueue(s, fd)
    ensures var items, t := s.clients[fd].queue.items, DisconnectStep(s, fd);
            items != [] && t.mem == s.mem && t.next == s.next && forall id | id in items :: id in s.mem
    ensures RefsOk(s) && forall id | id in s.mem :: Excess(s, id) >= 0
  {
    OwnOk(s, fd);
    hide Holders;
  }

  /** An entry that keeps its references while perhaps a holder goes. */
  lemma KeptExcess(s: State, t: State, fd: int, id: nat, held: bool)
    requires id in s.mem && t.mem == s.mem && s.mem[id].refs >= |Holders(s, id)|
    requires held ==> fd in Holders(s, id)
    requires Holders(t, id) == if held then Holders(s, id) - {fd} else Holders(s, id)
    ensures s.mem[id].refs >= |Holders(t, id)| && Excess(t, id) == Excess(s, id) + if held then 1 else 0
  {
    ReleasedOne(Holders(s, id), Holders(t, id), fd, held);
    hide Holders;
  }

  // ------------------------------------------------------------ steps and runs

  lemma InvCommand(s: State, fd: int, cmd: Command)
    requires Inv(s) && Possible(s, Request(fd, cmd))
    ensures Inv(CommandStep(s, fd, cmd)) && Balanced(s, CommandStep(s, fd, cmd))
  {
    hide Inv, Balanced, ReleaseAll;
    match cmd {
      case Handshake(arg) => InvHandshake(s, fd, arg);
      case Join(names) =>
        if names.None? { InvReply(s, fd, Error); } else { InvJoin(s, fd, names.value); }
      case Leave(names) =>
        if names.None? { InvReply(s, fd, Error); } else { InvLeave(s, fd, names.value); }
      case Send(name, msg) => InvSend(s, fd, name, msg);
      case Broadcast(msg) => InvDeliverReply(s, fd, s.clients.Keys - {fd}, msg);
      case Sync(n, writes) => InvSync(s, fd, n, writes);
      case Wait => InvWait(s, fd);
      case ListDevices(order) => InvReply(s, fd, Devices(NonEmptyGroups(s, order)));
      case UnknownCommand => InvReply(s, fd, Error);
    }
  }

  lemma InvSend(s: State, fd: int, name: Option<string>, msg: Msg)
    requires Inv(s) && fd in s.clients
    ensures Inv(SendStep(s, fd, name, msg)) && Balanced(s, SendStep(s, fd, name, msg))
  {
    if name.None? || Members(s, name.value) == [] {
      InvReply(s, fd, Error);
    } else {
      var targets := Elements(Members(s, name.value));
      assert forall k | k in targets :: k in s.clients;
      InvDeliverReply(s, fd, targets, msg);
    }
  }

  lemma InvDeliverReply(s: State, fd: int, targets: set<int>, msg: Msg)
    requires Inv(s) && fd in s.clients && targets <= s.clients.Keys
    ensures Inv(Reply(Deliver(s, targets, msg), fd, Ok))
    ensures Balanced(s, Reply(Deliver(s, targets, msg), fd, Ok))
  {
    var t := Deliver(s, targets, msg);
    InvDeliver(s, targets, msg);
    InvReply(t, fd, Ok);
    hide Inv, ClientsOk, GroupsOk, RefsOk;
    var u := Reply(t, fd, Ok);
    assert u.mem == t.mem;
  }

  lemma InvStep(s: State, ev: Event)
    requires Inv(s) && Possible(s, ev)
    ensures Inv(Step(s, ev))
    ensures Exact(Step(s, ev)) <==> Exact(s) && !Leaks(s, ev)
  {
    hide Inv, Balanced, Exact, FullQueue, CommandStep;
    match ev {
      case Connect(fd) =>
        InvConnect(s, fd);
        BalancedExact(s, Step(s, ev));
      case Disconnect(fd) =>
        InvDisconnect(s, fd);
        if !FullQueue(s, fd) {
          BalancedExact(s, Step(s, ev));
        }
      case Request(fd, cmd) =>
        InvCommand(s, fd, cmd);
        BalancedExact(s, Step(s, ev));
    }
  }

  /** A client goes away while its queue is exactly full. */
  ghost predicate Leaks(s: State, ev: Event) {
    ev.Disconnect? && FullQueue(s, ev.fd)
  }

  ghost predicate LeakFree(s: State, evs: seq<Event>)
    requires PossibleRun(s, evs)
    decreases |evs|
  {
    evs == [] || (!Leaks(s, evs[0]) && LeakFree(Step(s, evs[0]), evs[1..]))
  }

  lemma InvInitial()
    ensures Inv(INITIAL) && Exact(INITIAL)
  {
  }

  /** Every reachable state satisfies the invariant; the reference counts are
      exact if and only if no client was destroyed with an exactly full queue. */
  lemma {:induction false} InvRun(s: State, evs: seq<Event>)
    requires Inv(s) && PossibleRun(s, evs)
    ensures Inv(Run(s, evs))
    ensures Exact(Run(s, evs)) <==> Exact(s) && LeakFree(s, evs)
    decreases |evs|
  {
    hide Inv, Exact, Leaks;
    if evs != [] {
      InvStep(s, evs[0]);
      InvRun(Step(s, evs[0]), evs[1..]);
    }
  }
}
