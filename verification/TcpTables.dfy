// The listen and connected tables of net/tcp.cpp in memory. A socket has a single
// list node, so it is in one bucket ring of one table; its destructor nevertheless
// removes the node from both tables.
module TcpTables {
  import opened Common
  import opened Memory
  import opened IntrusiveList
  import opened RingFamily
  import opened HashMap
  import opened TcpListen

  function PortHash(id: SocketId): nat { id.hostPort }

  function ListenId(port: nat): SocketId { SocketId(port, 0, 0) }

  // A node in no bucket may be given a key.
  lemma KeySet(hash: SocketId -> nat, n: int, rings: seq<seq<int>>, key: map<int, SocketId>, contents: map<SocketId, int>,
               p: int, id: SocketId)
    requires Agrees(hash, n, rings, key, contents) && forall i | 0 <= i < n :: p !in rings[i]
    ensures Agrees(hash, n, rings, key[p := id], contents)
  {
    hide Bucket;
  }

  lemma PushAgrees(hash: SocketId -> nat, n: int, rings: seq<seq<int>>, key: map<int, SocketId>, contents: map<SocketId, int>,
                   p: int, id: SocketId)
    requires Agrees(hash, n, rings, key, contents) && id !in contents && forall i | 0 <= i < n :: p !in rings[i]
    ensures var b := Bucket(hash, n, id);
            Agrees(hash, n, rings[b := Pushed(rings[b], p)], key[p := id], contents[id := p])
  {
    hide Agrees, Bucket;
    AgreesSize(hash, n, rings, key, contents);
    var b := Bucket(hash, n, id);
    InsertAgrees(hash, n, rings, rings[b := Pushed(rings[b], p)], key, contents, p, id);
  }

  lemma AgreesSize(hash: SocketId -> nat, n: int, rings: seq<seq<int>>, key: map<int, SocketId>, contents: map<SocketId, int>)
    requires Agrees(hash, n, rings, key, contents)
    ensures 0 < n <= |rings|
  {
  }

  lemma DropAgrees(hash: SocketId -> nat, n: int, rings: seq<seq<int>>, key: map<int, SocketId>, contents: map<SocketId, int>,
                   b: int, k: int)
    requires Agrees(hash, n, rings, key, contents) && 0 <= b < n && 0 <= k < |rings[b]| && Spaced(rings[b])
    ensures var p := rings[b][k];
            && p in key && b == Bucket(hash, n, key[p]) && key[p] in contents && contents[key[p]] == p
            && Agrees(hash, n, rings[b := RemovedAt(rings[b], k)], key, contents - {key[p]})
  {
    hide Bucket, RemovedAt;
    var p := rings[b][k];
    assert p in rings[b];
    RemovedMembers(rings[b], k);
    RemoveAgrees(hash, n, rings, rings[b := RemovedAt(rings[b], k)], key, contents, p);
  }

  lemma NotInRings(rings: seq<seq<int>>, p: int)
    requires NewNode(rings, p)
    ensures forall i | 0 <= i < |rings| :: p !in rings[i]
  {
    forall i | 0 <= i < |rings| ensures p !in rings[i] {
      assert ApartFrom(rings[i], p);
    }
  }

  // The position of a stored node.
  lemma Where(hash: SocketId -> nat, n: int, rings: seq<seq<int>>, key: map<int, SocketId>, contents: map<SocketId, int>, p: int)
    returns (b: int, k: int)
    requires Agrees(hash, n, rings, key, contents) && p in contents.Values
    ensures p in key && key[p] in contents && contents[key[p]] == p
    ensures b == Bucket(hash, n, key[p]) && 0 <= b < n && 0 <= k < |rings[b]| && rings[b][k] == p
  {
    var id :| id in contents && contents[id] == p;
    b := Bucket(hash, n, id);
    k := IndexOf(rings[b], p);
  }

  class SocketTables {
    const mem: NodeMemory
    const listen: array<int>
    const connected: array<int>
    const connHash: SocketId -> nat
    var key: map<int, SocketId>
    // The bucket rings of the listen table, then those of the connected table.
    ghost var rings: seq<seq<int>>
    // The node stored under each id.
    ghost var bound: map<SocketId, int>
    ghost var joined: map<SocketId, int>

    ghost predicate Valid()
      reads this, mem, listen, connected
    {
      && listen != connected && listen.Length > 0 && connected.Length > 0
      && Rings(mem.words, listen[..] + connected[..], rings)
      && |rings| == listen.Length + connected.Length
      && Agrees(PortHash, listen.Length, rings[..listen.Length], key, bound)
      && Agrees(connHash, connected.Length, rings[listen.Length..], key, joined)
    }

    constructor (mem: NodeMemory, listenSize: nat, connSize: nat, connHash: SocketId -> nat)
      requires listenSize > 0 && connSize > 0
      ensures Valid() && this.mem == mem && bound == map[] && joined == map[] && fresh(listen) && fresh(connected)
    {
      this.mem, this.connHash, key, bound, joined := mem, connHash, map[], map[], map[];
      listen := new int[listenSize](_ => NULL);
      connected := new int[connSize](_ => NULL);
      rings := seq(listenSize + connSize, _ => []);
    }

    method FindListen(id: SocketId) returns (p: int)
      requires Valid()
      ensures p == if id in bound then bound[id] else NULL
    {
      hide Rings, Bucket;
      var b := Bucket(PortHash, listen.Length, id);
      RingOf(mem.words, listen[..] + connected[..], rings, b);
      p := WalkBucket(mem, listen[b], key, id, rings[b]);
      Found(PortHash, listen.Length, rings[..listen.Length], key, bound, id, p);
    }

    method FindConnected(id: SocketId) returns (p: int)
      requires Valid()
      ensures p == if id in joined then joined[id] else NULL
    {
      hide Rings, Bucket;
      var b := Bucket(connHash, connected.Length, id);
      RingOf(mem.words, listen[..] + connected[..], rings, listen.Length + b);
      p := WalkBucket(mem, connected[b], key, id, rings[listen.Length + b]);
      Found(connHash, connected.Length, rings[listen.Length..], key, joined, id, p);
    }

    // A node that is in no ring is not stored anywhere.
    lemma FreshNode(p: int)
      requires Valid() && NewNode(rings, p)
      ensures p !in bound.Values && p !in joined.Values
    {
      hide NewNode, Rings, Bucket;
      NotInRings(rings, p);
      forall id | id in bound ensures bound[id] != p {
        assert bound[id] in rings[..listen.Length][Bucket(PortHash, listen.Length, id)];
      }
      forall id | id in joined ensures joined[id] != p {
        assert joined[id] in rings[listen.Length..][Bucket(connHash, connected.Length, id)];
      }
    }

    lemma KeyOfBound(id: SocketId)
      requires Valid() && id in bound
      ensures bound[id] in bound.Values && bound[id] in key && key[bound[id]] == id
    {
    }

    // A node is stored in one table only.
    lemma KeyOfJoined(id: SocketId)
      requires Valid() && id in joined
      ensures joined[id] in joined.Values && joined[id] !in bound.Values
      ensures joined[id] in key && key[joined[id]] == id
    {
      hide Bucket;
      var n := listen.Length;
      forall other | other in bound ensures bound[other] != joined[id] {
        var a, b := Bucket(PortHash, n, other), Bucket(connHash, connected.Length, id);
        assert bound[other] in rings[..n][a] && joined[id] in rings[n..][b];
        InOneRing(rings, bound[other], a, n + b);
      }
    }

    // bind_socket: refused exactly when the port is bound.
    method Bind(p: int, port: nat) returns (ok: bool)
      requires Valid() && NewNode(rings, p)
      modifies this, mem, listen
      ensures Valid() && (ok <==> ListenId(port) !in old(bound))
      ensures joined == old(joined)
      ensures bound == if ok then old(bound)[ListenId(port) := p] else old(bound)
    {
      hide Rings, NewNode, PushBackStores, Agrees, Bucket;
      var id := ListenId(port);
      var found := FindListen(id);
      StoredNotNull(id);
      if found != NULL {
        return false;
      }
      ghost var heads, n := listen[..] + connected[..], listen.Length;
      NotInRings(rings, p);
      KeySet(connHash, connected.Length, rings[n..], key, joined, p, id);
      PushAgrees(PortHash, n, rings[..n], key, bound, p, id);
      key := key[p := id];
      var b := Bucket(PortHash, listen.Length, id);
      FamilyPush(mem.words, heads, rings, b, p);
      listen[b] := mem.PushBack(listen[b], p);
      ghost var s := Pushed(rings[b], p);
      assert rings[b := s][..n] == rings[..n][b := s] && rings[b := s][n..] == rings[n..];
      rings := rings[b := s];
      bound := bound[id := p];
      assert listen[..] + connected[..] == heads[b := p];
      ok := true;
    }

    lemma StoredNotNull(id: SocketId)
      requires Valid()
      ensures id in bound ==> bound[id] != NULL
      ensures id in joined ==> joined[id] != NULL
    {
      hide Rings, Bucket;
      var heads := listen[..] + connected[..];
      RingOf(mem.words, heads, rings, Bucket(PortHash, listen.Length, id));
      RingOf(mem.words, heads, rings, listen.Length + Bucket(connHash, connected.Length, id));
    }

    // add_connected_socket: refused exactly when the listen table holds the id. The
    // connected table is not consulted; its caller has found the id missing there.
    method AddConnected(p: int, id: SocketId) returns (ok: bool)
      requires Valid() && NewNode(rings, p) && id !in joined
      modifies this, mem, connected
      ensures Valid() && (ok <==> id !in old(bound))
      ensures bound == old(bound)
      ensures joined == if ok then old(joined)[id := p] else old(joined)
    {
      hide Rings, NewNode, PushBackStores, Agrees, Bucket;
      var found := FindListen(id);
      StoredNotNull(id);
      if found != NULL {
        return false;
      }
      ghost var heads, n := listen[..] + connected[..], listen.Length;
      NotInRings(rings, p);
      KeySet(PortHash, n, rings[..n], key, bound, p, id);
      PushAgrees(connHash, connected.Length, rings[n..], key, joined, p, id);
      key := key[p := id];
      var b := Bucket(connHash, connected.Length, id);
      FamilyPush(mem.words, heads, rings, n + b, p);
      connected[b] := mem.PushBack(connected[b], p);
      ghost var s := Pushed(rings[n + b], p);
      assert rings[n + b := s][n..] == rings[n..][b := s] && rings[n + b := s][..n] == rings[..n];
      rings := rings[n + b := s];
      joined := joined[id := p];
      assert listen[..] + connected[..] == heads[n + b := p];
      ok := true;
    }

    // ~tcp_socket: unbind_socket, then remove_connected_socket. Whichever table holds
    // the node loses exactly its id; the other one is not changed.
    method Destroy(p: int)
      requires Valid() && (p in bound.Values || p in joined.Values)
      modifies this, mem, listen, connected
      ensures Valid() && p in old(key)
      ensures bound == if p in old(bound.Values) then old(bound) - {old(key)[p]} else old(bound)
      ensures joined == if p in old(bound.Values) then old(joined) else old(joined) - {old(key)[p]}
    {
      hide Rings, DeleteStores, CanUnlink, RemovedAt, Agrees, Bucket;
      ghost var n := listen.Length;
      ghost var inListen := p in bound.Values;
      ghost var j, k := Located(p);
      Unlink(p, j, k);
      if inListen {
        bound := bound - {key[p]};
      } else {
        joined := joined - {key[p]};
      }
    }

    lemma Located(p: int) returns (j: int, k: int)
      requires Valid() && (p in bound.Values || p in joined.Values)
      ensures p in key && 0 <= j < |rings| && 0 <= k < |rings[j]| && rings[j][k] == p
      ensures p in bound.Values ==> j == Bucket(PortHash, listen.Length, key[p])
      ensures p !in bound.Values ==> j == listen.Length + Bucket(connHash, connected.Length, key[p])
      ensures var r := rings[j := RemovedAt(rings[j], k)];
              && (p in bound.Values ==>
                    && Agrees(PortHash, listen.Length, r[..listen.Length], key, bound - {key[p]})
                    && r[listen.Length..] == rings[listen.Length..])
              && (p !in bound.Values ==>
                    && r[..listen.Length] == rings[..listen.Length]
                    && Agrees(connHash, connected.Length, r[listen.Length..], key, joined - {key[p]}))
    {
      hide Rings, Agrees, Bucket, RemovedAt;
      var n, heads := listen.Length, listen[..] + connected[..];
      if p in bound.Values {
        var b, i := Where(PortHash, n, rings[..n], key, bound, p);
        RingOf(mem.words, heads, rings, b);
        DropAgrees(PortHash, n, rings[..n], key, bound, b, i);
        j, k := b, i;
        assert rings[j := RemovedAt(rings[j], k)][..n] == rings[..n][b := RemovedAt(rings[..n][b], i)];
        assert rings[j := RemovedAt(rings[j], k)][n..] == rings[n..];
      } else {
        var b, i := Where(connHash, connected.Length, rings[n..], key, joined, p);
        RingOf(mem.words, heads, rings, n + b);
        DropAgrees(connHash, connected.Length, rings[n..], key, joined, b, i);
        j, k := n + b, i;
        assert rings[j := RemovedAt(rings[j], k)][n..] == rings[n..][b := RemovedAt(rings[n..][b], i)];
        assert rings[j := RemovedAt(rings[j], k)][..n] == rings[..n];
      }
    }

    // The two removals; exactly the ring the node is in loses it.
    method Unlink(p: int, ghost j: int, ghost k: int)
      requires listen != connected && listen.Length > 0 && connected.Length > 0
      requires Rings(mem.words, listen[..] + connected[..], rings)
      requires p in key && 0 <= j < |rings| && 0 <= k < |rings[j]| && rings[j][k] == p
      requires || j == Bucket(PortHash, listen.Length, key[p])
               || j == listen.Length + Bucket(connHash, connected.Length, key[p])
      modifies this`rings, mem, listen, connected
      ensures Rings(mem.words, listen[..] + connected[..], rings)
      ensures rings == old(rings)[j := RemovedAt(old(rings)[j], k)]
    {
      hide Rings, DeleteStores, CanUnlink, RemovedAt, Bucket;
      ghost var heads, n, w := listen[..] + connected[..], listen.Length, mem.words;
      var a := Bucket(PortHash, listen.Length, key[p]);
      var b := Bucket(connHash, connected.Length, key[p]);
      ghost var i := if j == a then n + b else a;
      RingCount(w, heads, rings);
      Unshared(w, heads, rings, i, j, k);
      DeleteAgain(w, heads, rings, i, j, k);
      DeleteThroughBoth(w, heads, rings, i, j, k);
      listen[a] := mem.Delete(listen[a], p);
      connected[b] := mem.Delete(connected[b], p);
      rings := rings[j := RemovedAt(rings[j], k)];
      assert listen[..] + connected[..] == heads[a := listen[a]][n + b := connected[b]];
      if j == a {
        assert heads[a := listen[a]][n + b := heads[n + b]] == heads[a := listen[a]];
      } else {
        assert heads[a := heads[a]][n + b := connected[b]] == heads[n + b := connected[b]];
      }
    }
  }
}
