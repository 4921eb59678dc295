// net/tcp.cpp in place: the demultiplexer and the listening side of net/tcp_socket.cpp
// on the two socket tables in memory. Sockets are found through their list nodes.
module TcpDemux {
  import opened Common
  import opened IntrusiveList
  import opened Memory
  import opened RingFamily
  import opened TcpListen
  import opened TcpReceive
  import opened TcpTables
  import Q = MsgQueue

  // The connected table in memory stands for the list of sockets: each listed socket is
  // found under its id, and nothing else is.
  ghost predicate Stands(table: seq<nat>, conns: seq<Conn>, node: seq<int>, number: map<int, nat>, joined: map<SocketId, int>) {
    && |node| == |conns|
    && (forall k | k in table :: k < |conns| && Stored(k, conns[k].id, node[k], number, joined))
    && (forall id | id in joined :: Holds(table, conns, id))
  }

  predicate Stored(k: nat, id: SocketId, p: int, number: map<int, nat>, joined: map<SocketId, int>) {
    id in joined && joined[id] == p && p in number && number[p] == k
  }

  predicate Holds(table: seq<nat>, conns: seq<Conn>, id: SocketId) {
    exists k | k in table :: k < |conns| && conns[k].id == id
  }

  // The listen table holds the open ports.
  ghost predicate Ports(listeners: map<nat, Listener>, bound: map<SocketId, int>) {
    && (forall port | port in listeners :: ListenId(port) in bound)
    && (forall id | id in bound :: id.hostPort in listeners && id == ListenId(id.hostPort))
  }

  // Listed sockets with the same id are the same.
  lemma OnlyOne(table: seq<nat>, conns: seq<Conn>, k: nat, l: nat)
    requires TableOk(table, conns) && k in table && l in table && conns[k].id == conns[l].id
    ensures k == l
  {
    var i :| 0 <= i < |table| && table[i] == k;
    var j :| 0 <= j < |table| && table[j] == l;
    assert conns[table[i]].id == conns[table[j]].id;
  }

  // The lookup in memory and the one in the list agree.
  lemma LookupFinds(t: Tcp, node: seq<int>, number: map<int, nat>, joined: map<SocketId, int>, id: SocketId)
    requires TableOk(t.table, t.conns) && Stands(t.table, t.conns, node, number, joined) && id in joined
    ensures joined[id] in number && Lookup(t, id) == Some(number[joined[id]])
  {
    hide TableOk;
    assert Holds(t.table, t.conns, id);
    var k :| k in t.table && k < |t.conns| && t.conns[k].id == id;
    OnlyOne(t.table, t.conns, k, Lookup(t, id).value);
    assert Stored(k, t.conns[k].id, node[k], number, joined);
  }

  lemma LookupMisses(t: Tcp, node: seq<int>, number: map<int, nat>, joined: map<SocketId, int>, id: SocketId)
    requires Stands(t.table, t.conns, node, number, joined) && id !in joined
    ensures Lookup(t, id) == None
  {
    forall k | k in t.table ensures k < |t.conns| && t.conns[k].id != id {
      assert Stored(k, t.conns[k].id, node[k], number, joined);
    }
  }

  lemma StandsAdds(table: seq<nat>, conns: seq<Conn>, node: seq<int>, number: map<int, nat>, joined: map<SocketId, int>,
                   c: Conn, p: int, listed: bool)
    requires Stands(table, conns, node, number, joined) && c.id !in joined && p !in joined.Values
    ensures var k := |conns|;
            Stands(if listed then Pushed(table, k) else table, conns + [c], node + [p], number[p := k],
                   if listed then joined[c.id := p] else joined)
  {
    var table' := if listed then Pushed(table, |conns|) else table;
    var joined' := if listed then joined[c.id := p] else joined;
    forall l | l in table'
      ensures l < |conns| + 1 && Stored(l, (conns + [c])[l].id, (node + [p])[l], number[p := |conns|], joined')
    {
      if l in table { assert Stored(l, conns[l].id, node[l], number, joined); }
    }
    forall id | id in joined' ensures Holds(table', conns + [c], id) {
      if id in joined {
        assert Holds(table, conns, id);
        var l :| l in table && l < |conns| && conns[l].id == id;
        assert l in table' && (conns + [c])[l].id == id;
      } else {
        assert |conns| in table' && (conns + [c])[|conns|].id == id;
      }
    }
  }

  lemma StandsUpdated(table: seq<nat>, conns: seq<Conn>, node: seq<int>, number: map<int, nat>, joined: map<SocketId, int>,
                      k: nat, c: Conn)
    requires Stands(table, conns, node, number, joined) && k < |conns| && c.id == conns[k].id
    ensures Stands(table, conns[k := c], node, number, joined)
  {
    hide Stored;
    forall id | id in joined ensures Holds(table, conns[k := c], id) {
      assert Holds(table, conns, id);
      var l :| l in table && l < |conns| && conns[l].id == id;
      assert conns[k := c][l].id == id;
    }
  }

  lemma StandsRemoved(table: seq<nat>, conns: seq<Conn>, node: seq<int>, number: map<int, nat>, joined: map<SocketId, int>, k: nat)
    requires Stands(table, conns, node, number, joined) && TableOk(table, conns) && k in table
    ensures Stands(Unlisted(table, k), conns, node, number, joined - {conns[k].id})
  {
    hide TableOk, Unlisted;
    UnlistedKeeps(table, k, conns);
    var table', joined' := Unlisted(table, k), joined - {conns[k].id};
    forall l | l in table' ensures l < |conns| && Stored(l, conns[l].id, node[l], number, joined') {
      assert Stored(l, conns[l].id, node[l], number, joined);
      if conns[l].id == conns[k].id { OnlyOne(table, conns, k, l); }
    }
    forall id | id in joined' ensures Holds(table', conns, id) {
      assert Holds(table, conns, id);
      var l :| l in table && l < |conns| && conns[l].id == id;
      assert l in table';
    }
  }

  class KTcp {
    const tables: SocketTables
    var listeners: map<nat, Listener>
    var conns: seq<Conn>
    // The list node of each socket, and the socket each node belongs to.
    var node: seq<int>
    var number: map<int, nat>
    var replies: seq<Reply>
    // Bookkeeping: the entries made so far, in order.
    var openings: seq<Opening>
    ghost var table: seq<nat>

    ghost function T(): Tcp
      reads this
    {
      Tcp(listeners, conns, table, openings, replies)
    }

    ghost predicate Valid()
      reads this, tables, tables.mem, tables.listen, tables.connected
    {
      && tables.Valid() && Inv(T())
      && Stands(table, conns, node, number, tables.joined)
      && Ports(listeners, tables.bound)
    }

    constructor (tables: SocketTables)
      requires tables.Valid() && tables.bound == map[] && tables.joined == map[]
      ensures Valid() && T() == START && this.tables == tables
    {
      this.tables := tables;
      listeners, conns, node, number, replies, openings, table := map[], [], [], map[], [], [], [];
    }

    // bind and listen on a socket whose node is p.
    method Open(p: int, port: nat, size: nat) returns (ok: bool)
      requires Valid() && NewNode(tables.rings, p)
      modifies this, tables, tables.mem, tables.listen
      ensures Valid() && (ok <==> port !in old(listeners))
      ensures ok ==> Enabled(old(T()), TcpListen.Open(port, size)) && T() == Step(old(T()), TcpListen.Open(port, size))
      ensures ok ==> port in listeners && listeners[port].cache == map[] && |listeners[port].backlog.storage| == size
      ensures ok ==> listeners[port].backlog.written == [] && listeners[port].backlog.count == 0
      ensures !ok ==> T() == old(T())
    {
      hide Inv, Stands, NewNode, SocketTables.Valid;
      InvUsable(T());
      StepKeeps(T(), TcpListen.Open(port, size));
      ok := tables.Bind(p, port);
      if ok {
        listeners := listeners[port := Fresh(size)];
      }
    }

    // Destroying the listening socket of a port.
    method Close(port: nat)
      requires Valid() && port in listeners
      modifies this, tables, tables.mem, tables.listen, tables.connected
      ensures Valid() && Enabled(old(T()), TcpListen.Close(port)) && T() == Step(old(T()), TcpListen.Close(port))
    {
      hide Inv, Stands, SocketTables.Valid;
      InvUsable(T());
      StepKeeps(T(), TcpListen.Close(port));
      var p := tables.FindListen(ListenId(port));
      tables.KeyOfBound(ListenId(port));
      tables.Destroy(p);
      listeners := listeners - {port};
    }

    // Destroying a connected socket.
    method Destroy(k: nat)
      requires Valid() && k in table
      modifies this, tables, tables.mem, tables.listen, tables.connected
      ensures Valid() && Enabled(old(T()), TcpListen.Destroy(k)) && T() == Step(old(T()), TcpListen.Destroy(k))
    {
      hide Inv, Ports, SocketTables.Valid, TableOk, Unlisted;
      InvUsable(T());
      InvTable(T());
      StepKeeps(T(), TcpListen.Destroy(k));
      StandsRemoved(table, conns, node, number, tables.joined, k);
      assert Stored(k, conns[k].id, node[k], number, tables.joined);
      tables.KeyOfJoined(conns[k].id);
      tables.Destroy(node[k]);
      table := Unlisted(table, k);
    }

    lemma InvTable(t: Tcp)
      requires Inv(t)
      ensures TableOk(t.table, t.conns)
    {
    }

    // accept up to the point where it goes on or sleeps.
    method AcceptCall(port: nat, thread: int) returns (ready: bool)
      requires Valid() && port in listeners && Q.PcOf(listeners[port].backlog, thread).Outside?
      modifies this`listeners
      ensures Valid() && Enabled(old(T()), Call(port, thread)) && T() == Step(old(T()), Call(port, thread))
      ensures ready <==> Q.PcOf(listeners[port].backlog, thread).Token?
    {
      hide Inv, Stands, SocketTables.Valid, Usable;
      InvUsable(T());
      StepKeeps(T(), Call(port, thread));
      var l := listeners[port];
      ready := l.backlog.count != 0;
      listeners := listeners[port := l.(backlog := Q.Take(l.backlog, thread))];
    }

    // The rest of accept: it returns a socket that was put on this backlog.
    method AcceptReturn(port: nat, thread: int) returns (k: nat)
      requires Valid() && port in listeners && Q.PcOf(listeners[port].backlog, thread).Token?
      modifies this`listeners
      ensures Valid() && Enabled(old(T()), Return(port, thread)) && T() == Step(old(T()), Return(port, thread))
      ensures k < |conns| && k in old(listeners)[port].backlog.written
      ensures listeners[port].backlog.copied == old(listeners)[port].backlog.copied + [k]
    {
      hide Inv, Stands, SocketTables.Valid, Usable;
      InvUsable(T());
      HasSlots(T(), port, thread);
      StepKeeps(T(), Return(port, thread));
      var l := listeners[port];
      k := l.backlog.storage[l.backlog.readP];
      listeners := listeners[port := l.(backlog := Q.Copy(l.backlog, thread))];
    }

    lemma HasSlots(t: Tcp, port: nat, thread: int)
      requires Inv(t) && port in t.listeners && Q.PcOf(t.listeners[port].backlog, thread).Token?
      ensures var b := t.listeners[port].backlog;
              Q.Shape(b) && b.storage[b.readP] in b.written && b.storage[b.readP] < |t.conns|
    {
      hide TableOk, ConnsOk, RepliesOk, CacheOk;
      assert ListenerOk(port, t.listeners[port], t.conns, t.openings);
      BacklogReturns(t.listeners[port].backlog, |t.conns|, thread);
    }

    // process_packet; p is the node of the socket that accepting it would allocate.
    method ProcessPacket(q: Packet, isn: int, garbage: int, p: int)
      requires Valid() && NewNode(tables.rings, p)
      requires 0 <= isn < M32 && 0 <= q.seg.num < M32 && 0 <= q.ackNum < M32 && |q.seg.data.payload| < M32
      modifies this, tables, tables.mem, tables.connected
      ensures Valid() && AllUsable(old(T())) && T() == Process(old(T()), q, isn, garbage)
    {
      hide Inv, Accept, HandleSyn, Deliver, NewNode, Stands, Usable, SocketTables.Valid, TableOk, Ports, Lookup;
      InvUsable(T());
      InvTable(T());
      StepKeeps(T(), Receive(q, isn, garbage));
      if q.id in tables.joined {
        LookupFinds(T(), node, number, tables.joined, q.id);
      } else {
        LookupMisses(T(), node, number, tables.joined, q.id);
      }
      tables.StoredNotNull(q.id);
      tables.StoredNotNull(ListenId(q.id.hostPort));
      var hit := tables.FindConnected(q.id);
      if q.syn || hit == NULL {
        var listener := tables.FindListen(ListenId(q.id.hostPort));
        PortFound(q.id.hostPort);
        if listener != NULL {
          if q.syn {
            Syn(q, isn);
          } else if q.ack {
            AcceptConnection(q, garbage, p);
          } else {
            replies := replies + [Reset(q.id)];
          }
        } else {
          replies := replies + [Reset(q.id)];
        }
      } else {
        DeliverTo(number[hit], q);
      }
    }

    lemma PortFound(port: nat)
      requires Ports(listeners, tables.bound)
      ensures port in listeners <==> ListenId(port) in tables.bound
    {
    }

    // handle_syn
    method Syn(q: Packet, isn: int)
      requires q.id.hostPort in listeners && Ports(listeners, tables.bound)
      modifies this`listeners, this`openings, this`replies
      ensures T() == HandleSyn(old(T()), q, isn) && Ports(listeners, tables.bound)
    {
      var l := listeners[q.id.hostPort];
      if q.id in l.cache {
        var e := l.cache[q.id];
        if q.seg.num == e.remoteIsn {
          replies := replies + [AnswerSyn(q, e.isn)];
        } else {
          replies := replies + [Reset(q.id)];
        }
        return;
      }
      if |l.cache| == l.Size() {
        return;
      }
      listeners := listeners[q.id.hostPort := l.(cache := l.cache[q.id := Entry(isn, q.seg.num, |openings|)])];
      openings := openings + [Opening(q, isn)];
      replies := replies + [AnswerSyn(q, isn)];
    }

    // accept_connection
    method AcceptConnection(q: Packet, garbage: int, p: int)
      requires tables.Valid() && NewNode(tables.rings, p) && AllUsable(T())
      requires Stands(table, conns, node, number, tables.joined) && Ports(listeners, tables.bound)
      requires q.id.hostPort in listeners && q.id !in tables.joined
      modifies this, tables, tables.mem, tables.connected
      ensures tables.Valid() && T() == Accept(old(T()), q, garbage)
      ensures Stands(table, conns, node, number, tables.joined) && Ports(listeners, tables.bound)
    {
      hide Stands, NewNode, Usable, SocketTables.Valid;
      var l := listeners[q.id.hostPort];
      if q.id !in l.cache {
        replies := replies + [Reset(q.id)];
        return;
      }
      var e := l.cache[q.id];
      if q.seg.num != (e.remoteIsn + 1) % M32 || q.ackNum != (e.isn + 1) % M32 {
        replies := replies + [Reset(q.id)];
        return;
      }
      if l.backlog.count == l.Size() {
        return;
      }
      UsableWrites(l);
      Install(NewConn(q, e, garbage), p);
      l := l.(cache := l.cache - {q.id}, backlog := Q.Write(l.backlog, |conns| - 1));
      listeners := listeners[q.id.hostPort := l];
    }

    lemma UsableWrites(l: Listener)
      requires Usable(l) && !BacklogFull(l)
      ensures Q.Shape(l.backlog)
    {
    }

    // A new socket with node p enters the connected table, unless the listen table
    // holds its id.
    method Install(c: Conn, p: int)
      requires tables.Valid() && NewNode(tables.rings, p)
      requires Stands(table, conns, node, number, tables.joined) && Ports(listeners, tables.bound)
      requires c.id !in tables.joined
      modifies this`table, this`conns, this`node, this`number, tables, tables.mem, tables.connected
      ensures tables.Valid() && tables.bound == old(tables.bound)
      ensures Stands(table, conns, node, number, tables.joined) && conns == old(conns) + [c]
      ensures table == if InListenTable(old(T()), c.id) then old(table) else Pushed(old(table), |old(conns)|)
    {
      hide Stands, NewNode, SocketTables.Valid;
      var k := |conns|;
      tables.FreshNode(p);
      IdBound(c.id);
      StandsAdds(table, conns, node, number, tables.joined, c, p, c.id !in tables.bound);
      var added := tables.AddConnected(p, c.id);
      table := if added then Pushed(table, k) else table;
      conns, node, number := conns + [c], node + [p], number[p := k];
    }

    lemma IdBound(id: SocketId)
      requires Ports(listeners, tables.bound)
      ensures id in tables.bound <==> InListenTable(T(), id)
    {
    }

    // The state switch for connected sockets.
    method DeliverTo(k: nat, q: Packet)
      requires k < |conns| && Stands(table, conns, node, number, tables.joined)
      modifies this
      ensures T() == Deliver(old(T()), k, q)
      ensures Stands(table, conns, node, number, tables.joined) && listeners == old(listeners)
    {
      hide Stands, HandleSegment;
      var c := conns[k];
      if c.closed {
        return;
      }
      if !c.rcv.closeWait && !q.ack {
        replies := replies + [Reset(q.id)];
      } else {
        var d := if c.rcv.closeWait && q.rst then c.(closed := true) else c.(rcv := HandleSegment(c.rcv, q.seg));
        StandsUpdated(table, conns, node, number, tables.joined, k, d);
        conns := conns[k := d];
      }
    }
  }
}
