// The broker of server/client.c and the command dispatch of server/server.c,
// as a state machine: what each event does to the whole state. The methods of
// class Server (Server.dfy) are proved against these functions.

module BrokerModel {
  import opened Wrappers
  import opened Framing
  import opened Deque

  /** enum dime_serialization. */
  datatype Ser = NoSer | Matlab | Pickle | Dimeb | Json

  /** What the broker writes to a client's socket. */
  datatype Output =
    | Ok
    | Error
    | Shaken(ser: Ser)
    | Reregister(ser: Ser)
    | Waited(n: nat)
    | Devices(names: seq<string>)
    | Data(msg: Msg)

  /** dime_rcmessage_t. */
  datatype Rc = Rc(refs: nat, msg: Msg)

  /** dime_client_t; the queue holds message ids. `out` is everything written to
      the socket. The last three fields are history: the messages ever
      addressed to the client, the waits it issued while not already waiting,
      and whether it completed a handshake. */
  datatype Client = Client(
    waiting: bool,
    groups: seq<string>,
    queue: Queue<nat>,
    out: seq<Output>,
    addressed: seq<Msg>,
    asked: nat,
    shaken: bool)

  /** dime_server_t. Messages live in `mem` under an id that stands for their
      address; freeing one removes its id. */
  datatype State = State(
    clients: map<int, Client>,
    groups: map<string, seq<int>>,
    mem: map<nat, Rc>,
    next: nat,
    ser: Ser)

  const INITIAL: State := State(map[], map[], map[], 0, NoSer)

  // ------------------------------------------------------------ events

  datatype HandshakeArg = Malformed | UnknownName | Named(ser: Ser)

  /** A command as parsed from its JSON part; None is a missing field, or a
      list element that is not a string. `order` is the order in which the
      hash table yields the groups. `writes` is how many messages can be
      written before a write fails. */
  datatype Command =
    | Handshake(arg: HandshakeArg)
    | Join(names: Option<seq<Option<string>>>)
    | Leave(names: Option<seq<Option<string>>>)
    | Send(name: Option<string>, msg: Msg)
    | Broadcast(msg: Msg)
    | Sync(n: Option<int>, writes: nat)
    | Wait
    | ListDevices(order: seq<string>)
    | UnknownCommand

  datatype Event = Connect(fd: int) | Disconnect(fd: int) | Request(fd: int, cmd: Command)

  // ------------------------------------------------------------ sequences

  ghost predicate NoDup<T(!new)>(s: seq<T>) {
    forall i, j | 0 <= i < j < |s| :: s[i] != s[j]
  }

  function Elements<T(==)>(s: seq<T>): set<T> {
    set x | x in s
  }

  /** An iteration over a table yields every key once, in some order. */
  ghost predicate Enumerates<T(!new)>(order: seq<T>, keys: set<T>) {
    NoDup(order) && Elements(order) == keys
  }

  function IndexOf<T(==)>(s: seq<T>, x: T): (i: nat)
    requires x in s
    ensures i < |s| && s[i] == x && forall j | 0 <= j < i :: s[j] != x
  {
    if s[0] == x then 0 else 1 + IndexOf(s[1..], x)
  }

  /** Overwrite an element with the last one and shorten the array. */
  function SwapRemove<T>(s: seq<T>, i: nat): seq<T>
    requires i < |s|
  {
    s[i := s[|s| - 1]][..|s| - 1]
  }

  function RemoveValue<T(==)>(s: seq<T>, x: T): seq<T> {
    if x in s then SwapRemove(s, IndexOf(s, x)) else s
  }

  // ------------------------------------------------------------ one client

  const NEW_CLIENT: Client := Client(false, [], Queue([], 16), [], [], 0, false)

  function Say(c: Client, o: Output): Client {
    c.(out := c.out + [o])
  }

  /** A message arrives in a client's queue; a waiting client is told. */
  function Receive(c: Client, id: nat, msg: Msg): Client {
    var q := PushedR(c.queue, id);
    var d := c.(queue := q, addressed := c.addressed + [msg]);
    if c.waiting then Say(d.(waiting := false), Waited(|q.items|)) else d
  }

  function DataOf(mem: map<nat, Rc>, ids: seq<nat>): seq<Output> {
    seq(|ids|, i requires 0 <= i < |ids| => if ids[i] in mem then Data(mem[ids[i]].msg) else Error)
  }

  // ------------------------------------------------------------ the memory

  /** Drop one reference; the last one frees the message. */
  function Release(mem: map<nat, Rc>, id: nat): map<nat, Rc> {
    if id !in mem then mem
    else if mem[id].refs <= 1 then mem - {id}
    else mem[id := mem[id].(refs := mem[id].refs - 1)]
  }

  function ReleaseAll(mem: map<nat, Rc>, ids: seq<nat>): map<nat, Rc> {
    if ids == [] then mem else ReleaseAll(Release(mem, ids[0]), ids[1..])
  }

  // ------------------------------------------------------------ steps

  function Reply(s: State, fd: int, o: Output): State {
    if fd in s.clients then s.(clients := s.clients[fd := Say(s.clients[fd], o)]) else s
  }

  /** The targets receive message `id`. */
  function Informed(clients: map<int, Client>, targets: set<int>, id: nat, msg: Msg): map<int, Client> {
    map k | k in clients :: if k in targets then Receive(clients[k], id, msg) else clients[k]
  }

  /** A new message goes to every target; without a target it is freed. */
  function Deliver(s: State, targets: set<int>, msg: Msg): State {
    s.(clients := Informed(s.clients, targets, s.next, msg),
       mem := if targets == {} then s.mem else s.mem[s.next := Rc(|targets|, msg)],
       next := s.next + 1)
  }

  function Members(s: State, name: string): seq<int> {
    if name in s.groups then s.groups[name] else []
  }

  function SendStep(s: State, fd: int, name: Option<string>, msg: Msg): State {
    if name.None? || Members(s, name.value) == [] then Reply(s, fd, Error)
    else Reply(Deliver(s, Elements(Members(s, name.value)), msg), fd, Ok)
  }

  function BroadcastStep(s: State, fd: int, msg: Msg): State {
    Reply(Deliver(s, s.clients.Keys - {fd}, msg), fd, Ok)
  }

  /** The size_t a sync count is converted to. */
  function SyncCount(n: int): nat {
    if n < 0 then 0xFFFF_FFFF_FFFF_FFFF else n
  }

  function Min(a: nat, b: nat): nat {
    if a <= b then a else b
  }

  /** The first k queued messages are written out and released. */
  function Flush(s: State, fd: int, k: nat): State {
    if fd !in s.clients || k > |s.clients[fd].queue.items| then s
    else
      var c := s.clients[fd];
      var ids := c.queue.items[..k];
      var d := c.(queue := c.queue.(items := c.queue.items[k..]), out := c.out + DataOf(s.mem, ids));
      s.(clients := s.clients[fd := d],
         mem := ReleaseAll(s.mem, ids))
  }

  /** How many messages a sync of n writes. */
  function Flushed(s: State, fd: int, n: int): nat {
    if fd in s.clients then Min(SyncCount(n), |s.clients[fd].queue.items|) else 0
  }

  /** A failed write leaves the message in the queue and ends the command
      without a status reply. */
  function SyncStep(s: State, fd: int, n: Option<int>, writes: nat): State {
    if n.None? then s
    else
      var k := Flushed(s, fd, n.value);
      if writes < k then Flush(s, fd, writes) else Reply(Flush(s, fd, k), fd, Ok)
  }

  function WaitStep(s: State, fd: int): State {
    if fd !in s.clients then s
    else
      var c := s.clients[fd];
      var d := c.(asked := if c.waiting then c.asked else c.asked + 1);
      var e := if c.queue.items != [] then Say(d, Waited(|c.queue.items|)) else d.(waiting := true);
      s.(clients := s.clients[fd := e])
  }

  function NonEmptyGroups(s: State, order: seq<string>): seq<string> {
    if order == [] then []
    else (if Members(s, order[0]) != [] then [order[0]] else []) + NonEmptyGroups(s, order[1..])
  }

  /** Join one more group; the group is created when nobody joined it before. */
  function JoinOne(s: State, fd: int, name: string): State
    requires fd in s.clients
  {
    var c := s.clients[fd];
    s.(clients := s.clients[fd := c.(groups := c.groups + [name])],
       groups := s.groups[name := Members(s, name) + [fd]])
  }

  /** The names are joined one by one, up to the first bad one. */
  function JoinNames(s: State, fd: int, names: seq<Option<string>>): State
    requires fd in s.clients
    decreases |names|
  {
    if names == [] then Reply(s, fd, Ok)
    else if names[0].None? || names[0].value in s.clients[fd].groups then Reply(s, fd, Error)
    else JoinNames(JoinOne(s, fd, names[0].value), fd, names[1..])
  }

  function LeaveOne(s: State, fd: int, name: string): State
    requires fd in s.clients
  {
    var c := s.clients[fd];
    s.(clients := s.clients[fd := c.(groups := RemoveValue(c.groups, name))],
       groups := s.groups[name := RemoveValue(Members(s, name), fd)])
  }

  function LeaveNames(s: State, fd: int, names: seq<Option<string>>): State
    requires fd in s.clients
    decreases |names|
  {
    if names == [] then Reply(s, fd, Ok)
    else if names[0].None? || names[0].value !in s.clients[fd].groups then Reply(s, fd, Error)
    else LeaveNames(LeaveOne(s, fd, names[0].value), fd, names[1..])
  }

  function Reregistered(clients: map<int, Client>, others: set<int>): map<int, Client> {
    map k | k in clients :: if k in others then Say(clients[k], Reregister(Dimeb)) else clients[k]
  }

  /** The first handshake fixes the serialization; a client that asks for
      another one moves everybody to dimeb, unless dimeb or json is in force. */
  function Negotiate(s: State, fd: int, asked: Ser): State {
    if s.ser == NoSer then s.(ser := asked)
    else if s.ser != asked && s.ser != Dimeb && s.ser != Json then
      s.(ser := Dimeb,
         clients := Reregistered(s.clients, s.clients.Keys - {fd}))
    else s
  }

  function HandshakeStep(s: State, fd: int, arg: HandshakeArg): State {
    if fd !in s.clients then s
    else match arg
      case Malformed => Reply(s, fd, Error)
      case UnknownName => s
      case Named(asked) =>
        var t := Negotiate(s, fd, asked);
        var c := t.clients[fd];
        t.(clients := t.clients[fd := Say(c.(shaken := true), Shaken(t.ser))])
  }

  function ConnectStep(s: State, fd: int): State {
    s.(clients := s.clients[fd := NEW_CLIENT])
  }

  function WithoutMember(groups: map<string, seq<int>>, names: set<string>, fd: int): map<string, seq<int>> {
    map g | g in groups :: if g in names then RemoveValue(groups[g], fd) else groups[g]
  }

  /** dime_client_destroy: leave the groups, drop the references the deque
      iterator yields, and forget the client. */
  function DisconnectStep(s: State, fd: int): State {
    if fd !in s.clients then s
    else
      var c := s.clients[fd];
      s.(clients := s.clients - {fd},
         groups := WithoutMember(s.groups, Elements(c.groups), fd),
         mem := ReleaseAll(s.mem, Iterated(c.queue)))
  }

  function CommandStep(s: State, fd: int, cmd: Command): State
    requires fd in s.clients
  {
    match cmd
    case Handshake(arg) => HandshakeStep(s, fd, arg)
    case Join(names) => if names.None? then Reply(s, fd, Error) else JoinNames(s, fd, names.value)
    case Leave(names) => if names.None? then Reply(s, fd, Error) else LeaveNames(s, fd, names.value)
    case Send(name, msg) => SendStep(s, fd, name, msg)
    case Broadcast(msg) => BroadcastStep(s, fd, msg)
    case Sync(n, writes) => SyncStep(s, fd, n, writes)
    case Wait => WaitStep(s, fd)
    case ListDevices(order) => Reply(s, fd, Devices(NonEmptyGroups(s, order)))
    case UnknownCommand => Reply(s, fd, Error)
  }

  /** Which events can happen: accepted descriptors are fresh, only connected
      clients send commands or go away, a handshake names a real
      serialization, and the table iterates over all its groups. */
  ghost predicate Possible(s: State, ev: Event) {
    match ev
    case Connect(fd) => fd !in s.clients
    case Disconnect(fd) => fd in s.clients
    case Request(fd, cmd) =>
      fd in s.clients &&
      (cmd.ListDevices? ==> Enumerates(cmd.order, s.groups.Keys)) &&
      (cmd.Handshake? && cmd.arg.Named? ==> cmd.arg.ser != NoSer)
  }

  function Step(s: State, ev: Event): State
    requires ev.Request? ==> ev.fd in s.clients
  {
    match ev
    case Connect(fd) => ConnectStep(s, fd)
    case Disconnect(fd) => DisconnectStep(s, fd)
    case Request(fd, cmd) => CommandStep(s, fd, cmd)
  }

  ghost predicate PossibleRun(s: State, evs: seq<Event>)
    decreases |evs|
  {
    evs == [] || (Possible(s, evs[0]) && PossibleRun(Step(s, evs[0]), evs[1..]))
  }

  ghost function Run(s: State, evs: seq<Event>): State
    requires PossibleRun(s, evs)
    decreases |evs|
  {
    if evs == [] then s else Run(Step(s, evs[0]), evs[1..])
  }
}
