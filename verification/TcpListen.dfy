// Passive open in net/tcp_socket.cpp and the demultiplexer of net/tcp.cpp: SYN
// cache, accept backlog and the table of connected sockets. Opening and closing a
// port, processing a packet, the two regions of an accept call and destroying a
// socket are each one step. The backlog is the message queue of kernel/msgq.cpp.
module TcpListen {
  import opened Arithmetic
  import opened Common
  import opened IntrusiveList
  import opened TcpReceive
  import Q = MsgQueue

  datatype SocketId = SocketId(hostPort: nat, remotePort: nat, remoteIp: nat)

  // An arriving segment with the flags this part looks at; id names the local
  // port and the peer.
  datatype Packet = Packet(id: SocketId, ackNum: int, syn: bool, ack: bool, rst: bool, seg: Segment)

  // A SYN that was entered in the cache and the isn its SYN+ACK carried.
  datatype Opening = Opening(syn: Packet, isn: int)

  // serial is the position of the entry's Opening; the source keeps only the two
  // sequence numbers.
  datatype Entry = Entry(isn: int, remoteIsn: int, serial: nat)

  // The backlog carries socket numbers; SYN cache and backlog have the same size.
  datatype Listener = Listener(cache: map<SocketId, Entry>, backlog: Q.State<nat>) {
    function Size(): nat { |backlog.storage| }
  }

  // A socket created by accept_connection, with the packet that created it and
  // its receiver at that moment.
  datatype Conn = Conn(id: SocketId, num: int, serial: nat, start: Packet, first: Receiver, rcv: Receiver, closed: bool)

  datatype Reply = SynAck(id: SocketId, num: int, ackNum: int) | Reset(id: SocketId)

  // conns lists every socket ever created; table holds the numbers of those in
  // the connected table.
  datatype Tcp = Tcp(
    listeners: map<nat, Listener>, conns: seq<Conn>, table: seq<nat>, openings: seq<Opening>, replies: seq<Reply>)

  // ---- operations ---------------------------------------------------------------------

  function Lookup(t: Tcp, id: SocketId): (r: Option<nat>)
    ensures r.Some? ==> r.value in t.table && r.value < |t.conns| && t.conns[r.value].id == id
    ensures r.None? ==> forall k | k in t.table && k < |t.conns| :: t.conns[k].id != id
    decreases |t.table|
  {
    if t.table == [] then None
    else if t.table[0] < |t.conns| && t.conns[t.table[0]].id == id then Some(t.table[0])
    else Lookup(t.(table := t.table[1..]), id)
  }

  function Replied(t: Tcp, r: Reply): Tcp { t.(replies := t.replies + [r]) }

  // send_syn_ack acknowledges the SYN and any payload it carried.
  function AnswerSyn(p: Packet, isn: int): Reply {
    SynAck(p.id, isn, (p.seg.num + |p.seg.data.payload| + 1) % M32)
  }

  function HandleSyn(t: Tcp, p: Packet, isn: int): Tcp
    requires p.id.hostPort in t.listeners
  {
    var l := t.listeners[p.id.hostPort];
    if p.id in l.cache then
      if p.seg.num == l.cache[p.id].remoteIsn then Replied(t, AnswerSyn(p, l.cache[p.id].isn)) else Replied(t, Reset(p.id))
    else if |l.cache| == l.Size() then t
    else
      var e := Entry(isn, p.seg.num, |t.openings|);
      Replied(t, AnswerSyn(p, isn)).(
        listeners := t.listeners[p.id.hostPort := l.(cache := l.cache[p.id := e])],
        openings := t.openings + [Opening(p, isn)])
  }

  predicate Matches(p: Packet, e: Entry) {
    p.seg.num == (e.remoteIsn + 1) % M32 && p.ackNum == (e.isn + 1) % M32
  }

  predicate BacklogFull(l: Listener) { l.backlog.count == l.Size() }

  // A backlog without slots counts as full, so nothing is ever written to it.
  predicate Usable(l: Listener) {
    Q.Shape(l.backlog) || (l.Size() == 0 && l.backlog.count == 0)
  }

  predicate AllUsable(t: Tcp) {
    forall port | port in t.listeners :: Usable(t.listeners[port])
  }

  predicate InListenTable(t: Tcp, id: SocketId) {
    id.remotePort == 0 && id.remoteIp == 0 && id.hostPort in t.listeners
  }

  // accept_connection: the entry leaves the cache, the new socket enters the
  // connected table unless the listen table holds its id, and is then written to the
  // backlog, which may refuse it.
  function Accept(t: Tcp, p: Packet, garbage: int): Tcp
    requires p.id.hostPort in t.listeners && AllUsable(t)
  {
    var l := t.listeners[p.id.hostPort];
    if p.id !in l.cache || !Matches(p, l.cache[p.id]) then Replied(t, Reset(p.id))
    else if BacklogFull(l) then t
    else
      var e, k := l.cache[p.id], |t.conns|;
      var r := Accepted(p.seg.num, garbage, p.seg);
      var l' := l.(cache := l.cache - {p.id}, backlog := Q.Write(l.backlog, k));
      t.(listeners := t.listeners[p.id.hostPort := l'],
         conns := t.conns + [Conn(p.id, (e.isn + 1) % M32, e.serial, p, r, r, false)],
         table := if InListenTable(t, p.id) then t.table else Pushed(t.table, k))
  }

  function Listen(t: Tcp, p: Packet, isn: int, garbage: int): Tcp
    requires p.id.hostPort in t.listeners && AllUsable(t)
  {
    if p.syn then HandleSyn(t, p, isn) else if p.ack then Accept(t, p, garbage) else Replied(t, Reset(p.id))
  }

  // An established socket wants ACK; one past the peer's FIN also honours RST.
  function Deliver(t: Tcp, k: nat, p: Packet): Tcp
    requires k < |t.conns|
  {
    var c := t.conns[k];
    if c.closed then t
    else if !c.rcv.closeWait && !p.ack then Replied(t, Reset(p.id))
    else if c.rcv.closeWait && p.rst then t.(conns := t.conns[k := c.(closed := true)])
    else t.(conns := t.conns[k := c.(rcv := HandleSegment(c.rcv, p.seg))])
  }

  // tcp::process_packet
  function Process(t: Tcp, p: Packet, isn: int, garbage: int): Tcp
    requires AllUsable(t)
  {
    var hit := Lookup(t, p.id);
    if p.syn || hit.None? then
      if p.id.hostPort in t.listeners then Listen(t, p, isn, garbage) else Replied(t, Reset(p.id))
    else Deliver(t, hit.value, p)
  }

  function Unlisted(table: seq<nat>, k: nat): seq<nat> {
    if k in table then RemovedAt(table, IndexOf(table, k)) else table
  }

  function Fresh(size: nat): Listener {
    Listener(map[], Q.Start(seq(size, _ => 0)))
  }

  function WithBacklog(t: Tcp, port: nat, b: Q.State<nat>): Tcp
    requires port in t.listeners
  {
    t.(listeners := t.listeners[port := t.listeners[port].(backlog := b)])
  }

  // Open is bind and listen, or listen again; Call and Return are the two regions of
  // accept by some thread.
  datatype Action =
    | Open(port: nat, size: nat) | Close(port: nat)
    | Receive(p: Packet, isn: int, garbage: int)
    | Call(port: nat, thread: int) | Return(port: nat, thread: int)
    | Destroy(k: nat)

  predicate Enabled(t: Tcp, a: Action) {
    AllUsable(t) &&
    match a
    case Open(_, _) => true
    case Close(_) => true
    case Receive(p, isn, _) =>
      0 <= isn < M32 && 0 <= p.seg.num < M32 && 0 <= p.ackNum < M32 && |p.seg.data.payload| < M32
    case Call(port, thread) => port in t.listeners && Q.PcOf(t.listeners[port].backlog, thread).Outside?
    case Return(port, thread) =>
      && port in t.listeners && Q.Shape(t.listeners[port].backlog)
      && Q.PcOf(t.listeners[port].backlog, thread).Token?
    case Destroy(_) => true
  }

  function Step(t: Tcp, a: Action): Tcp
    requires Enabled(t, a)
  {
    match a
    case Open(port, size) => t.(listeners := t.listeners[port := Fresh(size)])
    case Close(port) => t.(listeners := t.listeners - {port})
    case Receive(p, isn, garbage) => Process(t, p, isn, garbage)
    case Call(port, thread) => WithBacklog(t, port, Q.Take(t.listeners[port].backlog, thread))
    case Return(port, thread) => WithBacklog(t, port, Q.Copy(t.listeners[port].backlog, thread))
    case Destroy(k) => t.(table := Unlisted(t.table, k))
  }

  // ---- invariant -----------------------------------------------------------------------

  // The socket was opened by a SYN from its own peer: the ACK that created it
  // matched both sequence numbers, and it starts right behind them.
  predicate WellOpened(c: Conn, o: Opening) {
    && o.syn.syn && o.syn.id == c.id == c.start.id && !c.start.syn && c.start.ack
    && c.start.seg.num == (o.syn.seg.num + 1) % M32
    && c.start.ackNum == (o.isn + 1) % M32
    && c.num == (o.isn + 1) % M32
    && c.first.ack == (o.syn.seg.num + 1 + HandshakeTaken(|c.start.seg.data.payload|)) % M32
  }

  ghost predicate ConnsOk(conns: seq<Conn>, openings: seq<Opening>) {
    && (forall k | 0 <= k < |conns| :: conns[k].serial < |openings| && WellOpened(conns[k], openings[conns[k].serial]))
    && (forall i, j | 0 <= i < j < |conns| :: conns[i].serial != conns[j].serial)
  }

  predicate EntryOk(e: Entry, id: SocketId, openings: seq<Opening>) {
    && e.serial < |openings|
    && var o := openings[e.serial];
       o.syn.syn && o.syn.id == id && o.syn.seg.num == e.remoteIsn && o.isn == e.isn
  }

  ghost predicate CacheOk(port: int, cache: map<SocketId, Entry>, conns: seq<Conn>, openings: seq<Opening>) {
    && (forall id | id in cache :: id.hostPort == port && EntryOk(cache[id], id, openings))
    && (forall id, k | id in cache && 0 <= k < |conns| :: cache[id].serial != conns[k].serial)
  }

  predicate Increasing(s: seq<nat>, n: nat) {
    && (forall i | 0 <= i < |s| :: s[i] < n)
    && (forall i, j | 0 <= i < j < |s| :: s[i] < s[j])
  }

  // A backlog is a message queue in some state it can reach; the sockets written to it
  // exist, and none is written twice.
  ghost predicate BacklogOk(b: Q.State<nat>, n: nat) {
    && (b.storage != [] ==> Q.Sane(b))
    && (b.storage == [] ==> b.count == 0 && b.written == b.copied == [] && forall t | t in b.pc :: !b.pc[t].Token?)
    && Increasing(b.written, n)
  }

  ghost predicate ListenerOk(port: int, l: Listener, conns: seq<Conn>, openings: seq<Opening>) {
    && |l.cache| <= l.Size()
    && CacheOk(port, l.cache, conns, openings)
    && BacklogOk(l.backlog, |conns|)
  }

  // No two sockets in the connected table share an id.
  ghost predicate TableOk(table: seq<nat>, conns: seq<Conn>) {
    && (forall i | 0 <= i < |table| :: table[i] < |conns|)
    && (forall i, j | 0 <= i < j < |table| :: conns[table[i]].id != conns[table[j]].id)
  }

  // Every opening was answered with a SYN+ACK carrying its isn.
  ghost predicate RepliesOk(openings: seq<Opening>, replies: seq<Reply>) {
    forall i | 0 <= i < |openings| :: AnswerSyn(openings[i].syn, openings[i].isn) in replies
  }

  ghost predicate Inv(t: Tcp) {
    && ConnsOk(t.conns, t.openings)
    && (forall port | port in t.listeners :: ListenerOk(port, t.listeners[port], t.conns, t.openings))
    && TableOk(t.table, t.conns)
    && RepliesOk(t.openings, t.replies)
  }

  lemma InvUsable(t: Tcp)
    requires Inv(t)
    ensures AllUsable(t)
  {
    forall port | port in t.listeners ensures Usable(t.listeners[port]) {
      assert ListenerOk(port, t.listeners[port], t.conns, t.openings);
    }
  }

  lemma ConnsGrow(conns: seq<Conn>, openings: seq<Opening>, o: Opening)
    requires ConnsOk(conns, openings)
    ensures ConnsOk(conns, openings + [o])
  {
  }

  lemma RepliesGrow(openings: seq<Opening>, replies: seq<Reply>, r: Reply)
    requires RepliesOk(openings, replies)
    ensures RepliesOk(openings, replies + [r])
  {
  }

  lemma RepliesAdd(openings: seq<Opening>, replies: seq<Reply>, p: Packet, isn: int)
    requires RepliesOk(openings, replies)
    ensures RepliesOk(openings + [Opening(p, isn)], replies + [AnswerSyn(p, isn)])
  {
  }

  lemma CacheGrows(port: int, cache: map<SocketId, Entry>, conns: seq<Conn>, openings: seq<Opening>, o: Opening)
    requires CacheOk(port, cache, conns, openings)
    ensures CacheOk(port, cache, conns, openings + [o])
  {
  }

  lemma CacheAdds(port: int, cache: map<SocketId, Entry>, conns: seq<Conn>, openings: seq<Opening>, p: Packet, isn: int)
    requires CacheOk(port, cache, conns, openings) && ConnsOk(conns, openings)
    requires p.id !in cache && p.id.hostPort == port && p.syn
    ensures CacheOk(port, cache[p.id := Entry(isn, p.seg.num, |openings|)], conns, openings + [Opening(p, isn)])
  {
    hide WellOpened;
    CacheGrows(port, cache, conns, openings, Opening(p, isn));
  }

  lemma SynKeeps(t: Tcp, p: Packet, isn: int)
    requires Inv(t) && p.id.hostPort in t.listeners && p.syn
    ensures Inv(HandleSyn(t, p, isn))
  {
    hide TableOk, ConnsOk, ListenerOk, RepliesOk;
    var l := t.listeners[p.id.hostPort];
    var r := if p.id in l.cache && p.seg.num != l.cache[p.id].remoteIsn then Reset(p.id)
             else AnswerSyn(p, if p.id in l.cache then l.cache[p.id].isn else isn);
    RepliesGrow(t.openings, t.replies, r);
    if p.id !in l.cache && |l.cache| != l.Size() {
      SynAdds(t, p, isn);
    }
  }

  lemma SynAdds(t: Tcp, p: Packet, isn: int)
    requires Inv(t) && p.id.hostPort in t.listeners && p.syn
    requires var l := t.listeners[p.id.hostPort]; p.id !in l.cache && |l.cache| != l.Size()
    ensures Inv(HandleSyn(t, p, isn))
  {
    hide TableOk, ConnsOk, CacheOk, BacklogOk, RepliesOk;
    var t', port := HandleSyn(t, p, isn), p.id.hostPort;
    var l := t.listeners[port];
    assert ListenerOk(port, l, t.conns, t.openings);
    ConnsGrow(t.conns, t.openings, Opening(p, isn));
    CacheAdds(port, l.cache, t.conns, t.openings, p, isn);
    RepliesAdd(t.openings, t.replies, p, isn);
    forall q | q in t'.listeners ensures ListenerOk(q, t'.listeners[q], t'.conns, t'.openings) {
      if q != port {
        assert ListenerOk(q, t.listeners[q], t.conns, t.openings);
        CacheGrows(q, t.listeners[q].cache, t.conns, t.openings, Opening(p, isn));
      }
    }
  }

  // The ACK of p matches the cache entry of its id and a connection is created.
  predicate Opens(t: Tcp, p: Packet)
    requires p.id.hostPort in t.listeners
  {
    var l := t.listeners[p.id.hostPort];
    p.id in l.cache && Matches(p, l.cache[p.id]) && !BacklogFull(l)
  }

  // At the moment a connection is accepted its id is not in the table: a packet
  // reaches the listener without SYN only after the lookup failed.
  lemma AcceptKeeps(t: Tcp, p: Packet, garbage: int)
    requires Inv(t) && p.id.hostPort in t.listeners && !p.syn && p.ack && Lookup(t, p.id).None?
    requires 0 <= p.seg.num < M32 && |p.seg.data.payload| < M32
    ensures AllUsable(t) && Inv(Accept(t, p, garbage))
  {
    hide TableOk, ConnsOk, ListenerOk, RepliesOk, Matches, BacklogFull, Usable;
    InvUsable(t);
    if Opens(t, p) {
      AcceptConns(t, p, garbage);
      AcceptTable(t, p, garbage);
      AcceptListeners(t, p, garbage);
    } else {
      RepliesGrow(t.openings, t.replies, Reset(p.id));
    }
  }

  lemma EntryFor(t: Tcp, p: Packet)
    requires Inv(t) && p.id.hostPort in t.listeners && p.id in t.listeners[p.id.hostPort].cache
    ensures var e := t.listeners[p.id.hostPort].cache[p.id];
            EntryOk(e, p.id, t.openings) && forall k | 0 <= k < |t.conns| :: t.conns[k].serial != e.serial
  {
    hide TableOk, ConnsOk, RepliesOk, BacklogOk, EntryOk;
    assert ListenerOk(p.id.hostPort, t.listeners[p.id.hostPort], t.conns, t.openings);
  }

  lemma ConnAdds(conns: seq<Conn>, openings: seq<Opening>, c: Conn)
    requires ConnsOk(conns, openings) && c.serial < |openings| && WellOpened(c, openings[c.serial])
    requires forall k | 0 <= k < |conns| :: conns[k].serial != c.serial
    ensures ConnsOk(conns + [c], openings)
  {
    hide WellOpened;
  }

  // The socket accept_connection creates.
  function NewConn(p: Packet, e: Entry, garbage: int): Conn {
    var r := Accepted(p.seg.num, garbage, p.seg);
    Conn(p.id, (e.isn + 1) % M32, e.serial, p, r, r, false)
  }

  lemma NewConnOpened(p: Packet, e: Entry, garbage: int, openings: seq<Opening>)
    requires !p.syn && p.ack && 0 <= p.seg.num < M32 && |p.seg.data.payload| < M32
    requires Matches(p, e) && EntryOk(e, p.id, openings)
    ensures WellOpened(NewConn(p, e, garbage), openings[e.serial])
  {
    hide Accepted, HandshakeTaken;
    AcceptedAck(p.seg.num, garbage, p.seg);
    AddMod32(e.remoteIsn + 1, HandshakeTaken(|p.seg.data.payload|));
  }

  lemma AcceptConns(t: Tcp, p: Packet, garbage: int)
    requires Inv(t) && AllUsable(t) && p.id.hostPort in t.listeners && !p.syn && p.ack && Opens(t, p)
    requires 0 <= p.seg.num < M32 && |p.seg.data.payload| < M32
    ensures ConnsOk(Accept(t, p, garbage).conns, t.openings)
  {
    hide TableOk, RepliesOk, ListenerOk, ConnsOk, WellOpened, EntryOk, Matches, BacklogFull, Usable;
    var e := t.listeners[p.id.hostPort].cache[p.id];
    EntryFor(t, p);
    NewConnOpened(p, e, garbage, t.openings);
    EntrySerial(e, p.id, t.openings);
    ConnAdds(t.conns, t.openings, NewConn(p, e, garbage));
  }

  lemma EntrySerial(e: Entry, id: SocketId, openings: seq<Opening>)
    requires EntryOk(e, id, openings)
    ensures e.serial < |openings|
  {
  }

  lemma TableAdds(table: seq<nat>, conns: seq<Conn>, c: Conn)
    requires TableOk(table, conns) && forall i | 0 <= i < |table| :: conns[table[i]].id != c.id
    ensures TableOk(table, conns + [c]) && TableOk(Pushed(table, |conns|), conns + [c])
  {
  }

  lemma AcceptTable(t: Tcp, p: Packet, garbage: int)
    requires Inv(t) && AllUsable(t) && p.id.hostPort in t.listeners && Lookup(t, p.id).None? && Opens(t, p)
    ensures TableOk(Accept(t, p, garbage).table, Accept(t, p, garbage).conns)
  {
    hide ConnsOk, ListenerOk, RepliesOk, Matches, BacklogFull, Usable;
    forall i | 0 <= i < |t.table| ensures t.conns[t.table[i]].id != p.id {
      assert t.table[i] in t.table;
    }
    TableAdds(t.table, t.conns, NewConn(p, t.listeners[p.id.hostPort].cache[p.id], garbage));
  }

  // A socket made from another entry does not use up the entries of this cache.
  lemma CacheKeeps(port: int, cache: map<SocketId, Entry>, conns: seq<Conn>, openings: seq<Opening>, c: Conn)
    requires CacheOk(port, cache, conns, openings)
    requires forall id | id in cache :: cache[id].serial != c.serial
    ensures CacheOk(port, cache, conns + [c], openings)
  {
    hide EntryOk;
  }

  lemma CacheRemoves(port: int, cache: map<SocketId, Entry>, conns: seq<Conn>, openings: seq<Opening>, id: SocketId)
    requires CacheOk(port, cache, conns, openings)
    ensures CacheOk(port, cache - {id}, conns, openings) && |cache - {id}| <= |cache|
  {
    hide EntryOk;
    assert (cache - {id}).Keys <= cache.Keys;
    SmallerSet((cache - {id}).Keys, cache.Keys);
  }

  lemma SmallerSet(a: set<SocketId>, b: set<SocketId>)
    requires a <= b
    ensures |a| <= |b|
  {
    assert b == a + (b - a);
  }

  // Entries of different ids come from different openings.
  lemma SerialsDiffer(port: int, cache: map<SocketId, Entry>, conns: seq<Conn>, openings: seq<Opening>, id: SocketId, e: Entry)
    requires CacheOk(port, cache, conns, openings) && EntryOk(e, id, openings)
    ensures forall other | other in cache && other != id :: cache[other].serial != e.serial
  {
    forall other | other in cache && other != id ensures cache[other].serial != e.serial {
      assert EntryOk(cache[other], other, openings);
    }
  }

  lemma BacklogMore(b: Q.State<nat>, n: nat)
    requires BacklogOk(b, n)
    ensures BacklogOk(b, n + 1)
  {
  }

  lemma BacklogWrites(b: Q.State<nat>, n: nat)
    requires BacklogOk(b, n) && Q.Shape(b)
    ensures BacklogOk(Q.Write(b, n), n + 1)
    ensures |Q.Write(b, n).storage| == |b.storage|
  {
    hide Q.Sane;
    Q.WriteSane(b, n);
  }

  lemma AcceptListeners(t: Tcp, p: Packet, garbage: int)
    requires Inv(t) && AllUsable(t) && p.id.hostPort in t.listeners && Opens(t, p)
    ensures var t' := Accept(t, p, garbage);
            forall q | q in t'.listeners :: ListenerOk(q, t'.listeners[q], t'.conns, t'.openings)
  {
    hide TableOk, RepliesOk, ConnsOk, ListenerOk, EntryOk, Matches, Usable, BacklogFull;
    var t', port := Accept(t, p, garbage), p.id.hostPort;
    var l, c := t.listeners[port], NewConn(p, t.listeners[port].cache[p.id], garbage);
    EntryFor(t, p);
    forall q | q in t'.listeners ensures ListenerOk(q, t'.listeners[q], t'.conns, t'.openings) {
      assert ListenerOk(q, t.listeners[q], t.conns, t.openings);
      if q == port {
        AcceptingListener(q, l, t.conns, t.openings, p.id, c);
      } else {
        OtherListener(q, t.listeners[q], t.conns, t.openings, p.id, l.cache[p.id], c);
      }
    }
  }

  lemma AcceptingListener(port: int, l: Listener, conns: seq<Conn>, openings: seq<Opening>, id: SocketId, c: Conn)
    requires ListenerOk(port, l, conns, openings) && Usable(l) && !BacklogFull(l)
    requires id in l.cache && EntryOk(l.cache[id], id, openings) && c.serial == l.cache[id].serial
    ensures ListenerOk(port, l.(cache := l.cache - {id}, backlog := Q.Write(l.backlog, |conns|)), conns + [c], openings)
  {
    hide CacheOk, BacklogOk, EntryOk;
    SerialsDiffer(port, l.cache, conns, openings, id, l.cache[id]);
    CacheRemoves(port, l.cache, conns, openings, id);
    CacheKeeps(port, l.cache - {id}, conns, openings, c);
    BacklogWrites(l.backlog, |conns|);
  }

  lemma OtherListener(port: int, l: Listener, conns: seq<Conn>, openings: seq<Opening>, id: SocketId, e: Entry, c: Conn)
    requires ListenerOk(port, l, conns, openings) && id.hostPort != port && EntryOk(e, id, openings) && c.serial == e.serial
    ensures ListenerOk(port, l, conns + [c], openings)
  {
    hide BacklogOk, EntryOk;
    assert id !in l.cache;
    SerialsDiffer(port, l.cache, conns, openings, id, e);
    CacheKeeps(port, l.cache, conns, openings, c);
    BacklogMore(l.backlog, |conns|);
  }

  lemma DeliverKeeps(t: Tcp, k: nat, p: Packet)
    requires Inv(t) && k < |t.conns|
    ensures Inv(Deliver(t, k, p))
  {
    hide TableOk, RepliesOk, ConnsOk, ListenerOk, HandleSegment;
    var t' := Deliver(t, k, p);
    RepliesGrow(t.openings, t.replies, Reset(p.id));
    var c := t.conns[k];
    if t'.conns != t.conns {
      SameOpening(t.conns, t.openings, t.table, k, t'.conns[k]);
      forall q | q in t.listeners ensures ListenerOk(q, t.listeners[q], t'.conns, t.openings) {
        assert ListenerOk(q, t.listeners[q], t.conns, t.openings);
        SameSerials(q, t.listeners[q], t.conns, t.openings, k, t'.conns[k]);
      }
    }
  }

  // A socket's receiver may change, its origin does not.
  predicate SameOrigin(c: Conn, d: Conn) {
    c == d.(rcv := c.rcv, closed := c.closed)
  }

  lemma SameOpening(conns: seq<Conn>, openings: seq<Opening>, table: seq<nat>, k: nat, c: Conn)
    requires ConnsOk(conns, openings) && TableOk(table, conns) && k < |conns| && SameOrigin(conns[k], c)
    ensures ConnsOk(conns[k := c], openings) && TableOk(table, conns[k := c])
  {
    forall i | 0 <= i < |conns| ensures WellOpened(conns[k := c][i], openings[conns[i].serial]) {
      assert WellOpened(conns[i], openings[conns[i].serial]);
    }
  }

  lemma SameSerials(port: int, l: Listener, conns: seq<Conn>, openings: seq<Opening>, k: nat, c: Conn)
    requires ListenerOk(port, l, conns, openings) && k < |conns| && SameOrigin(conns[k], c)
    ensures ListenerOk(port, l, conns[k := c], openings)
  {
    hide EntryOk, BacklogOk;
  }

  // A table stays free of repeated ids when a position is taken out.
  lemma RemovedTable(table: seq<nat>, i: int, conns: seq<Conn>)
    requires TableOk(table, conns) && 0 <= i < |table|
    ensures TableOk(RemovedAt(table, i), conns)
  {
    var r := RemovedAt(table, i);
    forall j | 0 <= j < |r| ensures r[j] == table[if j < i then j else j + 1] { }
  }

  lemma RemovedOnce(table: seq<nat>, i: int, conns: seq<Conn>)
    requires TableOk(table, conns) && 0 <= i < |table|
    ensures forall x :: x in RemovedAt(table, i) <==> x in table && x != table[i]
  {
    var r := RemovedAt(table, i);
    forall x ensures x in r <==> x in table && x != table[i] {
      if x in r {
        var j :| 0 <= j < |r| && r[j] == x;
        assert r[j] == table[if j < i then j else j + 1];
      }
      if x in table && x != table[i] {
        var j :| 0 <= j < |table| && table[j] == x;
        assert r[if j < i then j else j - 1] == x;
      }
    }
  }

  lemma UnlistedKeeps(table: seq<nat>, k: nat, conns: seq<Conn>)
    requires TableOk(table, conns)
    ensures TableOk(Unlisted(table, k), conns)
    ensures forall x :: x in Unlisted(table, k) <==> x in table && x != k
  {
    hide TableOk, RemovedAt, IndexOf;
    if k in table {
      RemovedTable(table, IndexOf(table, k), conns);
      RemovedOnce(table, IndexOf(table, k), conns);
    }
  }

  lemma ReceiveKeeps(t: Tcp, p: Packet, isn: int, garbage: int)
    requires Inv(t) && Enabled(t, Receive(p, isn, garbage))
    ensures Inv(Process(t, p, isn, garbage))
  {
    hide TableOk, ConnsOk, RepliesOk, ListenerOk, Usable, HandleSyn, Accept, Deliver;
    RepliesGrow(t.openings, t.replies, Reset(p.id));
    var hit := Lookup(t, p.id);
    if p.syn || hit.None? {
      if p.id.hostPort in t.listeners {
        if p.syn { SynKeeps(t, p, isn); } else if p.ack { AcceptKeeps(t, p, garbage); }
      }
    } else {
      DeliverKeeps(t, hit.value, p);
    }
  }

  lemma BacklogCalls(b: Q.State<nat>, n: nat, thread: int)
    requires BacklogOk(b, n) && Q.PcOf(b, thread).Outside?
    ensures BacklogOk(Q.Take(b, thread), n)
  {
    hide Q.Sane;
    if b.storage != [] { Q.TakeSane(b, thread); }
  }

  lemma BacklogReturns(b: Q.State<nat>, n: nat, thread: int)
    requires BacklogOk(b, n) && Q.Shape(b) && Q.PcOf(b, thread).Token?
    ensures BacklogOk(Q.Copy(b, thread), n)
    ensures b.storage[b.readP] in b.written && b.storage[b.readP] < n
  {
    hide Q.Sane;
    Q.CopySane(b, thread);
  }

  lemma StepKeeps(t: Tcp, a: Action)
    requires Inv(t) && Enabled(t, a)
    ensures Inv(Step(t, a))
  {
    hide TableOk, ConnsOk, RepliesOk, CacheOk, BacklogOk, Process;
    match a
    case Open(port, size) => FreshOk(port, size, t.conns, t.openings);
    case Close(port) =>
    case Receive(p, isn, garbage) => ReceiveKeeps(t, p, isn, garbage);
    case Call(port, thread) =>
      assert ListenerOk(port, t.listeners[port], t.conns, t.openings);
      BacklogCalls(t.listeners[port].backlog, |t.conns|, thread);
    case Return(port, thread) =>
      assert ListenerOk(port, t.listeners[port], t.conns, t.openings);
      BacklogReturns(t.listeners[port].backlog, |t.conns|, thread);
    case Destroy(k) =>
      UnlistedKeeps(t.table, k, t.conns);
  }

  lemma FreshOk(port: int, size: nat, conns: seq<Conn>, openings: seq<Opening>)
    ensures ListenerOk(port, Fresh(size), conns, openings)
  {
    if size > 0 { Q.StartSane(seq(size, _ => 0)); }
  }

  // ---- what a packet does --------------------------------------------------------------

  // No socket with the id is in the connected table.
  predicate Unconnected(t: Tcp, id: SocketId) {
    forall k | k in t.table && k < |t.conns| :: t.conns[k].id != id
  }

  lemma LookupNone(t: Tcp, id: SocketId)
    ensures Lookup(t, id).None? <==> Unconnected(t, id)
  {
  }

  // The packet completes a handshake: it has ACK and no SYN, no connected socket has its
  // id, the port listens, the cache holds the id, both numbers are one past those of the
  // SYN and the SYN+ACK, and the backlog has a count to spare.
  predicate Completes(t: Tcp, p: Packet) {
    && p.ack && !p.syn && Unconnected(t, p.id)
    && p.id.hostPort in t.listeners
    && var l := t.listeners[p.id.hostPort];
       && p.id in l.cache
       && p.seg.num == (l.cache[p.id].remoteIsn + 1) % 0x1_0000_0000
       && p.ackNum == (l.cache[p.id].isn + 1) % 0x1_0000_0000
       && l.backlog.count != |l.backlog.storage|
  }

  // A packet opens a connection exactly when it completes a handshake.
  lemma OpensExactlyWhen(t: Tcp, p: Packet, isn: int, garbage: int)
    requires AllUsable(t)
    ensures |Process(t, p, isn, garbage).conns| > |t.conns| <==> Completes(t, p)
    ensures Completes(t, p) || |Process(t, p, isn, garbage).conns| == |t.conns|
  {
    hide Lookup, Usable, Unconnected, Accepted, HandleSegment;
    LookupNone(t, p.id);
  }

  // Then exactly one socket is new, with the id and the numbers of the handshake; the
  // entry leaves the cache; a lookup finds the socket unless the listen table holds its
  // id; and its number is written to the backlog, unless that ring is full with a count
  // to spare. Nothing else changes.
  lemma OpenEffect(t: Tcp, p: Packet, isn: int, garbage: int)
    requires Inv(t) && Enabled(t, Receive(p, isn, garbage)) && Completes(t, p)
    ensures var t', l, k := Process(t, p, isn, garbage), t.listeners[p.id.hostPort], |t.conns|;
            && |t'.conns| == k + 1 && t'.conns[..k] == t.conns
            && t'.openings == t.openings && t'.replies == t.replies
            && t'.conns[k].id == p.id && !t'.conns[k].closed
            && t'.conns[k].num == (l.cache[p.id].isn + 1) % 0x1_0000_0000
            && t'.conns[k].rcv == t'.conns[k].first
            && t'.conns[k].rcv.ack == (p.seg.num + HandshakeTaken(|p.seg.data.payload|)) % 0x1_0000_0000
    ensures var t', k := Process(t, p, isn, garbage), |t.conns|;
            var bound := p.id.remotePort == 0 && p.id.remoteIp == 0;
            && t'.table == (if bound then t.table else [k] + t.table)
            && Lookup(t', p.id) == if bound then None else Some(k)
    ensures var t', l, k := Process(t, p, isn, garbage), t.listeners[p.id.hostPort], |t.conns|;
            && t'.listeners.Keys == t.listeners.Keys
            && (forall q | q in t.listeners && q != p.id.hostPort :: t'.listeners[q] == t.listeners[q])
            && t'.listeners[p.id.hostPort].cache == l.cache - {p.id}
            && var b, b' := l.backlog, t'.listeners[p.id.hostPort].backlog;
               && b'.copied == b.copied
               && b'.written == if b.writeP == b.readP && b.count != 0 then b.written else b.written + [k]
  {
    hide Usable, Accepted, HandshakeTaken, Unconnected, ConnsOk, ListenerOk, RepliesOk;
    LookupNone(t, p.id);
    AcceptedAck(p.seg.num, garbage, p.seg);
    var t' := Process(t, p, isn, garbage);
    assert t' == Accept(t, p, garbage);
    if !(p.id.remotePort == 0 && p.id.remoteIp == 0) {
      FirstFound(t', p.id);
    } else {
      StillMissing(t, t', p.id);
    }
  }

  lemma FirstFound(t: Tcp, id: SocketId)
    requires t.table != [] && t.table[0] < |t.conns| && t.conns[t.table[0]].id == id
    ensures Lookup(t, id) == Some(t.table[0])
  {
  }

  lemma StillMissing(t: Tcp, t': Tcp, id: SocketId)
    requires Lookup(t, id).None? && t'.table == t.table && |t.conns| <= |t'.conns| && t.conns == t'.conns[..|t.conns|]
    requires forall k | k in t.table :: k < |t.conns|
    ensures Lookup(t', id).None?
  {
    LookupNone(t, id);
    LookupNone(t', id);
  }

  // An ACK for a listening port that completes no handshake draws a reset, unless it
  // matches and only the backlog stands in its way; then it is ignored.
  lemma RefusedEffect(t: Tcp, p: Packet, isn: int, garbage: int)
    requires AllUsable(t) && p.ack && !p.syn && Unconnected(t, p.id) && p.id.hostPort in t.listeners && !Completes(t, p)
    ensures var t', cache := Process(t, p, isn, garbage), t.listeners[p.id.hostPort].cache;
            if p.id in cache
               && p.seg.num == (cache[p.id].remoteIsn + 1) % 0x1_0000_0000
               && p.ackNum == (cache[p.id].isn + 1) % 0x1_0000_0000
            then t' == t else t' == t.(replies := t.replies + [Reset(p.id)])
  {
    hide Usable, Unconnected;
    LookupNone(t, p.id);
  }

  // A SYN for a listening port. A new one is cached and answered with a SYN+ACK that
  // carries the isn and acknowledges the SYN and its payload, unless the cache is full;
  // a repeated one is answered again; one that contradicts its entry is reset. No
  // connection, table or backlog changes.
  lemma SynEffect(t: Tcp, p: Packet, isn: int, garbage: int)
    requires AllUsable(t) && p.syn && p.id.hostPort in t.listeners
    ensures var t', l := Process(t, p, isn, garbage), t.listeners[p.id.hostPort];
            var next := (p.seg.num + |p.seg.data.payload| + 1) % 0x1_0000_0000;
            && t'.conns == t.conns && t'.table == t.table && t'.listeners.Keys == t.listeners.Keys
            && (forall q | q in t.listeners && q != p.id.hostPort :: t'.listeners[q] == t.listeners[q])
            && t'.listeners[p.id.hostPort].backlog == l.backlog
            && (p.id !in l.cache && |l.cache| != |l.backlog.storage| ==>
                  && t'.listeners[p.id.hostPort].cache.Keys == l.cache.Keys + {p.id}
                  && (forall id | id in l.cache :: t'.listeners[p.id.hostPort].cache[id] == l.cache[id])
                  && t'.listeners[p.id.hostPort].cache[p.id].isn == isn
                  && t'.listeners[p.id.hostPort].cache[p.id].remoteIsn == p.seg.num
                  && t'.replies == t.replies + [SynAck(p.id, isn, next)])
            && (p.id !in l.cache && |l.cache| == |l.backlog.storage| ==> t' == t)
            && (p.id in l.cache ==>
                  t' == t.(replies := t.replies + [if p.seg.num == l.cache[p.id].remoteIsn
                                                   then SynAck(p.id, l.cache[p.id].isn, next) else Reset(p.id)]))
  {
    hide Usable, Lookup;
  }

  // A packet without SYN for a connected socket reaches that socket and no other: its
  // segment is handled, except that an established socket answers a packet without ACK
  // with a reset, a socket past the peer's FIN is closed by RST, and a closed one is
  // left alone.
  lemma DeliverEffect(t: Tcp, p: Packet, isn: int, garbage: int, k: nat)
    requires Inv(t) && !p.syn && k in t.table && k < |t.conns| && t.conns[k].id == p.id
    ensures AllUsable(t)
    ensures var t', c := Process(t, p, isn, garbage), t.conns[k];
            && t'.listeners == t.listeners && t'.table == t.table && t'.openings == t.openings
            && |t'.conns| == |t.conns| && (forall j | 0 <= j < |t.conns| && j != k :: t'.conns[j] == t.conns[j])
            && t'.replies == (if !c.closed && !c.rcv.closeWait && !p.ack then t.replies + [Reset(p.id)] else t.replies)
            && t'.conns[k].(rcv := c.rcv, closed := c.closed) == c
            && t'.conns[k].closed == (c.closed || (c.rcv.closeWait && p.rst))
            && t'.conns[k].rcv == if !c.closed && (if c.rcv.closeWait then !p.rst else p.ack)
                                  then HandleSegment(c.rcv, p.seg) else c.rcv
  {
    InvUsable(t);
    hide Usable, ConnsOk, ListenerOk, RepliesOk, HandleSegment;
    LookupOnly(t, k);
  }

  lemma LookupOnly(t: Tcp, k: nat)
    requires TableOk(t.table, t.conns) && k in t.table && k < |t.conns|
    ensures Lookup(t, t.conns[k].id) == Some(k)
  {
    LookupNone(t, t.conns[k].id);
    var hit := Lookup(t, t.conns[k].id).value;
    var i :| 0 <= i < |t.table| && t.table[i] == k;
    var j :| 0 <= j < |t.table| && t.table[j] == hit;
    assert t.conns[t.table[i]].id == t.conns[t.table[j]].id;
  }

  // A packet nobody listens for is reset.
  lemma StrayEffect(t: Tcp, p: Packet, isn: int, garbage: int)
    requires AllUsable(t) && p.id.hostPort !in t.listeners && (p.syn || Unconnected(t, p.id))
    ensures Process(t, p, isn, garbage) == t.(replies := t.replies + [Reset(p.id)])
  {
    hide Usable, Unconnected;
    LookupNone(t, p.id);
  }

  // From any state: a first SYN without data that finds room, and then the ACK of the
  // SYN+ACK it was answered with, open a connection, if the id is not connected yet and
  // the backlog is not full.
  lemma HandshakeOpens(t: Tcp, syn: Packet, ack: Packet, isn: int, garbage: int)
    requires Inv(t) && Enabled(t, Receive(syn, isn, garbage)) && Enabled(t, Receive(ack, isn, garbage))
    requires syn.syn && syn.seg.data.payload == [] && ack.ack && !ack.syn && ack.id == syn.id && Unconnected(t, syn.id)
    requires syn.id.hostPort in t.listeners
    requires var l := t.listeners[syn.id.hostPort];
             syn.id !in l.cache && |l.cache| != |l.backlog.storage| && l.backlog.count != |l.backlog.storage|
    requires ack.ackNum == (isn + 1) % M32 && ack.seg.num == (syn.seg.num + 1) % M32
    ensures var t1 := Process(t, syn, isn, garbage);
            && AllUsable(t1) && SynAck(syn.id, isn, ack.seg.num) in t1.replies
            && |Process(t1, ack, isn, garbage).conns| == |t.conns| + 1
            && Process(t1, ack, isn, garbage).conns[|t.conns|].id == syn.id
  {
    hide Usable, ListenerOk, ConnsOk, RepliesOk, TableOk, Process;
    SynEffect(t, syn, isn, garbage);
    ReceiveKeeps(t, syn, isn, garbage);
    var t1 := Process(t, syn, isn, garbage);
    InvUsable(t1);
    assert Completes(t1, ack);
    OpenEffect(t1, ack, isn, garbage);
  }

  // ---- runs ---------------------------------------------------------------------------------

  predicate IsRun(t: Tcp, actions: seq<Action>)
    decreases |actions|
  {
    actions != [] ==> Enabled(t, actions[0]) && IsRun(Step(t, actions[0]), actions[1..])
  }

  function After(t: Tcp, actions: seq<Action>): Tcp
    requires IsRun(t, actions)
    decreases |actions|
  {
    if actions == [] then t else After(Step(t, actions[0]), actions[1..])
  }

  lemma {:induction false} RunKeeps(t: Tcp, actions: seq<Action>)
    requires Inv(t) && IsRun(t, actions)
    ensures Inv(After(t, actions))
    decreases |actions|
  {
    if actions != [] {
      StepKeeps(t, actions[0]);
      RunKeeps(Step(t, actions[0]), actions[1..]);
    }
  }

  const START: Tcp := Tcp(map[], [], [], [], [])

  // Over every run: each socket on a backlog, and each other accepted one, goes
  // back to a SYN from its own peer that was answered with a SYN+ACK; its ACK
  // matched both sequence numbers and it starts right behind them. One cache
  // entry yields at most one socket, a socket is put on a backlog at most once,
  // accept returns only sockets that were put there, and the connected table
  // never holds two sockets with the same id. Every packet can be processed at
  // every point.
  lemma PassiveOpen(actions: seq<Action>)
    requires IsRun(START, actions)
    ensures var t := After(START, actions);
            && (forall port | port in t.listeners ::
                  && Increasing(t.listeners[port].backlog.written, |t.conns|)
                  && forall k | k in t.listeners[port].backlog.copied :: k in t.listeners[port].backlog.written)
            && (forall k | 0 <= k < |t.conns| ::
                  && t.conns[k].serial < |t.openings|
                  && WellOpened(t.conns[k], t.openings[t.conns[k].serial])
                  && var o := t.openings[t.conns[k].serial];
                     SynAck(o.syn.id, o.isn, (o.syn.seg.num + |o.syn.seg.data.payload| + 1) % M32) in t.replies)
            && (forall i, j | 0 <= i < j < |t.conns| :: t.conns[i].serial != t.conns[j].serial)
            && TableOk(t.table, t.conns) && AllUsable(t)
  {
    RunKeeps(START, actions);
    var t := After(START, actions);
    InvUsable(t);
    hide TableOk, WellOpened, CacheOk, Increasing;
    forall port | port in t.listeners
      ensures Increasing(t.listeners[port].backlog.written, |t.conns|)
      ensures forall k | k in t.listeners[port].backlog.copied :: k in t.listeners[port].backlog.written
    {
      assert ListenerOk(port, t.listeners[port], t.conns, t.openings);
    }
  }

  // A peer that puts data on its SYN continues behind the data the SYN+ACK
  // acknowledged; its ACK is then refused unless there was none.
  lemma SynDataRefused(syn: Packet, ack: Packet, isn: int)
    requires 0 <= syn.seg.num < M32 && |syn.seg.data.payload| < M32
    requires ack.seg.num == AnswerSyn(syn, isn).ackNum && ack.ackNum == (isn + 1) % M32
    ensures Matches(ack, Entry(isn, syn.seg.num, 0)) <==> syn.seg.data.payload == []
  {
  }
}
