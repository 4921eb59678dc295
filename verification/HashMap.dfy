// common/include/common/hash_map.hpp: a hash table of intrusive rings whose
// entries come from a fixed pool. Table and pool are rings in one memory.
module HashMap {
  import opened Common
  import opened Memory
  import opened IntrusiveList
  import opened RingFamily

  function Bucket<K>(hash: K -> nat, n: int, k: K): (i: int)
    requires n > 0
    ensures 0 <= i < n
  {
    hash(k) % n
  }

  // The first n rings are the buckets; contents maps each stored key to its node,
  // which lies in the key's bucket.
  ghost predicate Agrees<K(!new)>(hash: K -> nat, n: int, rings: seq<seq<int>>, key: map<int, K>, contents: map<K, int>) {
    && 0 < n <= |rings|
    && (forall i, x | 0 <= i < n && x in rings[i] ::
          x in key && Bucket(hash, n, key[x]) == i && key[x] in contents && contents[key[x]] == x)
    && (forall k | k in contents ::
          contents[k] in rings[Bucket(hash, n, k)] && contents[k] in key && key[contents[k]] == k)
  }

  predicate InSome(rings: seq<seq<int>>, x: int) {
    exists i | 0 <= i < |rings| :: x in rings[i]
  }

  // The bucket rings and the pool ring together hold exactly the pool's entries.
  ghost predicate Owned(rings: seq<seq<int>>, nodes: seq<int>) {
    Spaced(nodes) && NULL !in nodes && forall x :: InSome(rings, x) <==> x in nodes
  }

  lemma InOneRing(rings: seq<seq<int>>, x: int, i: int, j: int)
    requires AllSeparate(rings) && 0 <= i < |rings| && 0 <= j < |rings| && i != j
    ensures x !in rings[i] || x !in rings[j]
  {
    SeparateFrom(rings, i, j);
  }

  // Moving node x from ring i, where it is at k, to the front of ring j.
  function Moved(rings: seq<seq<int>>, i: int, k: int, j: int): seq<seq<int>>
    requires 0 <= i < |rings| && 0 <= j < |rings| && i != j && 0 <= k < |rings[i]|
  {
    rings[i := RemovedAt(rings[i], k)][j := Pushed(rings[j], rings[i][k])]
  }

  lemma MovedMembers(rings: seq<seq<int>>, i: int, k: int, j: int, heads: seq<int>, w: Words)
    requires Rings(w, heads, rings) && 0 <= i < |rings| && 0 <= j < |rings| && i != j && 0 <= k < |rings[i]|
    ensures var r, x := Moved(rings, i, k, j), rings[i][k];
            && (forall y :: y in r[i] <==> y in rings[i] && y != x)
            && (forall y :: y in r[j] <==> y in rings[j] || y == x)
            && (forall l | 0 <= l < |rings| && l != i && l != j :: r[l] == rings[l])
            && NewNode(rings[i := RemovedAt(rings[i], k)], x)
  {
    var s, x := rings[i], rings[i][k];
    var t := RemovedAt(s, k);
    assert IsList(w, heads[i], s);
    RemovedMembers(s, k);
    var r := rings[i := t];
    assert x in s;
    forall l | 0 <= l < |r| ensures ApartFrom(r[l], x) {
      if l != i { SeparateFrom(rings, l, i); }
    }
  }

  // Delete from ring i, push onto ring j, as two list operations.
  lemma FamilyMove(w: Words, heads: seq<int>, rings: seq<seq<int>>, i: int, k: int, j: int)
    requires Rings(w, heads, rings) && 0 <= i < |rings| && 0 <= j < |rings| && i != j && 0 <= k < |rings[i]|
    ensures CanUnlink(w, rings[i][k]) && rings[i][k] != NULL
    ensures var x := rings[i][k];
            var (w1, h1) := DeleteStores(w, heads[i], x);
            && (heads[j] == NULL || heads[j] + 8 in w1)
            && Rings(PushBackStores(w1, heads[j], x), heads[i := h1][j := x], Moved(rings, i, k, j))
  {
    hide IsList, AllSeparate, DeleteStores, PushBackStores, CanUnlink, NewNode, RemovedAt, Pushed;
    FamilyDelete(w, heads, rings, i, k);
    MovedMembers(rings, i, k, j, heads, w);
    var (w1, h1) := DeleteStores(w, heads[i], rings[i][k]);
    FamilyPush(w1, heads[i := h1], rings[i := RemovedAt(rings[i], k)], j, rings[i][k]);
    NewNodeNotNull(rings[i := RemovedAt(rings[i], k)], rings[i][k]);
  }

  lemma NewNodeNotNull(rings: seq<seq<int>>, p: int)
    requires NewNode(rings, p)
    ensures p != NULL
  {
  }

  lemma MovedOwned(rings: seq<seq<int>>, r: seq<seq<int>>, i: int, j: int, x: int, nodes: seq<int>)
    requires Owned(rings, nodes) && |r| == |rings| && 0 <= i < |r| && 0 <= j < |r| && i != j
    requires x in rings[i]
    requires forall y :: y in r[i] <==> y in rings[i] && y != x
    requires forall y :: y in r[j] <==> y in rings[j] || y == x
    requires forall l | 0 <= l < |rings| && l != i && l != j :: r[l] == rings[l]
    ensures Owned(r, nodes)
  {
    forall y ensures InSome(r, y) <==> InSome(rings, y) {
      if InSome(rings, y) {
        var l :| 0 <= l < |rings| && y in rings[l];
        assert y in r[if y == x then j else l];
      }
      if InSome(r, y) {
        var l :| 0 <= l < |r| && y in r[l];
        assert y in rings[if y == x then i else l];
      }
    }
  }

  lemma InsertAgrees<K(!new)>(hash: K -> nat, n: int, rings: seq<seq<int>>, r: seq<seq<int>>, key: map<int, K>,
                              contents: map<K, int>, x: int, k: K)
    requires Agrees(hash, n, rings, key, contents) && k !in contents && |r| == |rings|
    requires forall i | 0 <= i < n :: x !in rings[i]
    requires forall y :: y in r[Bucket(hash, n, k)] <==> y in rings[Bucket(hash, n, k)] || y == x
    requires forall l | 0 <= l < n && l != Bucket(hash, n, k) :: r[l] == rings[l]
    ensures Agrees(hash, n, r, key[x := k], contents[k := x])
  {
    var key', contents' := key[x := k], contents[k := x];
    forall i, y | 0 <= i < n && y in r[i]
      ensures y in key' && Bucket(hash, n, key'[y]) == i && key'[y] in contents' && contents'[key'[y]] == y
    {
      if y != x { assert y in rings[i]; }
    }
    forall l | l in contents'
      ensures contents'[l] in r[Bucket(hash, n, l)] && contents'[l] in key' && key'[contents'[l]] == l
    {
      if l != k { assert contents[l] in rings[Bucket(hash, n, l)] && contents[l] != x; }
    }
  }

  // Taking the head x of the pool for key k.
  lemma InsertState<K(!new)>(hash: K -> nat, n: int, rings: seq<seq<int>>, key: map<int, K>, contents: map<K, int>,
                             nodes: seq<int>, heads: seq<int>, w: Words, k: K)
    requires Agrees(hash, n, rings, key, contents) && Owned(rings, nodes) && Rings(w, heads, rings) && |rings| == n + 1
    requires k !in contents && |rings[n]| > 0
    ensures var x, r := rings[n][0], Moved(rings, n, 0, Bucket(hash, n, k));
            && x in nodes && Owned(r, nodes) && Agrees(hash, n, r, key[x := k], contents[k := x])
            && forall l | l in contents :: contents[l] != x
  {
    var x, b := rings[n][0], Bucket(hash, n, k);
    var r := Moved(rings, n, 0, b);
    assert x in rings[n] && InSome(rings, x);
    forall i | 0 <= i < n ensures x !in rings[i] { InOneRing(rings, x, i, n); }
    forall l | l in contents ensures contents[l] != x {
      assert contents[l] in rings[Bucket(hash, n, l)];
    }
    MovedMembers(rings, n, 0, b, heads, w);
    hide Rings, Owned, Agrees;
    MovedOwned(rings, r, n, b, x, nodes);
    InsertAgrees(hash, n, rings, r, key, contents, x, k);
  }

  // Returning node x, stored under its key, to the pool.
  lemma RemoveState<K(!new)>(hash: K -> nat, n: int, rings: seq<seq<int>>, key: map<int, K>, contents: map<K, int>,
                             nodes: seq<int>, heads: seq<int>, w: Words, b: int, i: int)
    requires Agrees(hash, n, rings, key, contents) && Owned(rings, nodes) && Rings(w, heads, rings) && |rings| == n + 1
    requires 0 <= b < n && 0 <= i < |rings[b]|
    ensures var x, r := rings[b][i], Moved(rings, b, i, n);
            && x in nodes && x in key && key[x] in contents && contents[key[x]] == x && Bucket(hash, n, key[x]) == b
            && Owned(r, nodes) && Agrees(hash, n, r, key, contents - {key[x]})
  {
    var x, r := rings[b][i], Moved(rings, b, i, n);
    assert x in rings[b] && InSome(rings, x);
    MovedMembers(rings, b, i, n, heads, w);
    MovedOwned(rings, r, b, n, x, nodes);
    RemoveAgrees(hash, n, rings, r, key, contents, x);
  }

  lemma RemoveAgrees<K(!new)>(hash: K -> nat, n: int, rings: seq<seq<int>>, r: seq<seq<int>>, key: map<int, K>,
                              contents: map<K, int>, x: int)
    requires Agrees(hash, n, rings, key, contents) && |r| == |rings|
    requires x in key && key[x] in contents && contents[key[x]] == x
    requires var b := Bucket(hash, n, key[x]);
             && (forall y :: y in r[b] <==> y in rings[b] && y != x)
             && forall l | 0 <= l < n && l != b :: r[l] == rings[l]
    ensures Agrees(hash, n, r, key, contents - {key[x]})
  {
    var contents' := contents - {key[x]};
    forall i, y | 0 <= i < n && y in r[i] ensures key[y] in contents' && contents'[key[y]] == y {
      assert y in rings[i] && y in key && contents[key[y]] == y;
    }
    forall k | k in contents' ensures contents'[k] in r[Bucket(hash, n, k)] {
      assert contents[k] in rings[Bucket(hash, n, k)] && contents[k] != x;
    }
  }

  function Elements(s: seq<int>): (r: set<int>)
    ensures forall x :: x in r <==> x in s
    ensures |r| <= |s|
  {
    if s == [] then {} else {s[0]} + Elements(s[1..])
  }

  lemma {:induction false} ElementsSize(s: seq<int>)
    requires Spaced(s)
    ensures |Elements(s)| == |s|
  {
    if s != [] {
      ElementsSize(s[1..]);
      forall i | 0 <= i < |s| - 1 ensures s[1..][i] != s[0] { assert Apart(s[0], s[i + 1]); }
    }
  }

  lemma {:induction false} ImageSize<K>(m: map<K, int>)
    requires forall k, l | k in m && l in m && k != l :: m[k] != m[l]
    ensures |m.Values| == |m|
    decreases |m|
  {
    if k :| k in m {
      var m' := m - {k};
      assert m'.Keys == m.Keys - {k};
      ImageSize(m');
      assert m.Values == m'.Values + {m[k]} by {
        forall l | l in m ensures m[l] in m'.Values + {m[k]} {
          if l != k { assert l in m' && m'[l] == m[l]; }
        }
      }
      assert m[k] !in m'.Values;
    } else {
      assert m == map[];
    }
  }

  // The nodes in use are exactly the pool entries that are not in the pool ring.
  lemma UsedNodes<K(!new)>(hash: K -> nat, n: int, rings: seq<seq<int>>, key: map<int, K>,
                           contents: map<K, int>, nodes: seq<int>)
    requires Agrees(hash, n, rings, key, contents) && Owned(rings, nodes) && AllSeparate(rings) && |rings| == n + 1
    ensures contents.Values == Elements(nodes) - Elements(rings[n])
    ensures Elements(rings[n]) <= Elements(nodes)
  {
    forall v | v in contents.Values ensures v in nodes && v !in rings[n] {
      var k :| k in contents && contents[k] == v;
      assert v in rings[Bucket(hash, n, k)] && InSome(rings, v);
      InOneRing(rings, v, n, Bucket(hash, n, k));
    }
    forall v | v in nodes && v !in rings[n] ensures v in contents.Values {
      assert InSome(rings, v);
      var i :| 0 <= i < |rings| && v in rings[i];
      assert key[v] in contents && contents[key[v]] == v;
    }
    forall v | v in rings[n] ensures v in nodes { assert InSome(rings, v); }
  }

  lemma ContentsSize<K(!new)>(hash: K -> nat, n: int, rings: seq<seq<int>>, key: map<int, K>, contents: map<K, int>)
    requires Agrees(hash, n, rings, key, contents)
    ensures |contents.Values| == |contents|
  {
    ImageSize(contents);
  }

  lemma SplitSize(all: set<int>, part: set<int>)
    requires part <= all
    ensures |all - part| + |part| == |all|
  {
    assert all == (all - part) + part;
  }

  lemma NoElements(s: seq<int>)
    ensures s == [] <==> |Elements(s)| == 0
  {
    if s != [] { assert s[0] in Elements(s); }
  }

  // The pool is empty exactly when every entry is in use.
  lemma PoolEmptyWhenFull<K(!new)>(hash: K -> nat, n: int, rings: seq<seq<int>>, key: map<int, K>,
                                   contents: map<K, int>, nodes: seq<int>)
    requires Agrees(hash, n, rings, key, contents) && Owned(rings, nodes) && AllSeparate(rings) && |rings| == n + 1
    ensures rings[n] == [] <==> |contents| == |nodes|
    ensures |contents| <= |nodes|
  {
    hide AllSeparate;
    UsedNodes(hash, n, rings, key, contents, nodes);
    ContentsSize(hash, n, rings, key, contents);
    ElementsSize(nodes);
    NoElements(rings[n]);
    SplitSize(Elements(nodes), Elements(rings[n]));
  }

  // Initialising a node that is in no ring yet disturbs none.
  lemma InitFresh(w: Words, heads: seq<int>, rings: seq<seq<int>>, nodes: seq<int>, i: int)
    requires Rings(w, heads, rings) && Spaced(nodes) && NULL !in nodes && 0 <= i < |nodes| && |rings| > 0
    requires forall j | 0 <= j < |rings| - 1 :: rings[j] == []
    requires forall x :: x in rings[|rings| - 1] <==> x in nodes[..i]
    ensures Rings(InitStores(w, nodes[i]), heads, rings) && NewNode(rings, nodes[i])
  {
    var p, l := nodes[i], |rings| - 1;
    InitRing(w, p);
    forall j | 0 <= j < |rings| ensures ApartFrom(rings[j], p) && IsList(InitStores(w, p), heads[j], rings[j]) {
      forall k | 0 <= k < |rings[j]| ensures Apart(rings[j][k], p) {
        assert rings[l][k] in nodes[..i];
      }
      assert IsList(w, heads[j], rings[j]);
      RingFrame(w, InitStores(w, p), [p], rings[j]);
    }
    assert nodes[i] in nodes;
  }

  // The walk of hash_map::find once round a bucket.
  method WalkBucket<K(==)>(mem: NodeMemory, head: int, key: map<int, K>, k: K, ghost s: seq<int>) returns (p: int)
    requires IsList(mem.words, head, s) && forall x | x in s :: x in key
    ensures p == NULL ==> forall x | x in s :: key[x] != k
    ensures p != NULL ==> p in s && key[p] == k
  {
    if head == NULL {
      return NULL;
    }
    p := head;
    ghost var i := 0;
    while true
      invariant 0 <= i < |s| && p == s[i]
      invariant forall j | 0 <= j < i :: s[j] in key && key[s[j]] != k
      decreases |s| - i
    {
      assert s[i] in s && LinkedAt(mem.words, s, i);
      if key[p] == k {
        return;
      }
      p := mem.words[p];
      i := i + 1;
      assert i < |s| ==> Apart(s[0], s[i]);
      if p == head {
        return NULL;
      }
    }
  }

  // What the walk of the key's bucket finds is what the table holds.
  lemma Found<K(!new)>(hash: K -> nat, n: int, rings: seq<seq<int>>, key: map<int, K>, contents: map<K, int>, k: K, p: int)
    requires Agrees(hash, n, rings, key, contents)
    requires var s := rings[Bucket(hash, n, k)];
             && NULL !in s
             && (p == NULL ==> forall x | x in s && x in key :: key[x] != k)
             && (p != NULL ==> p in s && p in key && key[p] == k)
    ensures p == if k in contents then contents[k] else NULL
  {
    hide Bucket;
  }

  // pooled_hash_map. The entries' list nodes lie at the addresses nodes, inside
  // the pool array [lo, hi); rings lists the bucket rings and, last, the pool ring.
  class PooledHashMap<K(!new, ==), V> {
    const mem: NodeMemory
    const hash: K -> nat
    const table: array<int>
    const nodes: seq<int>
    const lo: int
    const hi: int
    var poolHead: int
    var key: map<int, K>
    var value: map<int, V>
    ghost var rings: seq<seq<int>>
    ghost var contents: map<K, int>

    ghost predicate Valid()
      reads this, mem, table
    {
      && table.Length > 0
      && (forall x | x in nodes :: lo <= x < hi)
      && Rings(mem.words, table[..] + [poolHead], rings)
      && Agrees(hash, table.Length, rings, key, contents)
      && Owned(rings, nodes)
      && (forall k | k in contents :: contents[k] in value)
    }

    // The finite map the table stands for.
    ghost function View(): map<K, V>
      reads this, mem, table
      requires Valid()
    {
      map k | k in contents :: value[contents[k]]
    }

    constructor (mem: NodeMemory, hash: K -> nat, tableSize: int, nodes: seq<int>, lo: int, hi: int)
      requires tableSize > 0 && Spaced(nodes) && NULL !in nodes && forall x | x in nodes :: lo <= x < hi
      modifies mem
      ensures Valid() && View() == map[] && this.mem == mem && this.nodes == nodes && this.hash == hash
      ensures fresh(table)
    {
      this.mem, this.hash, this.nodes, this.lo, this.hi := mem, hash, nodes, lo, hi;
      table := new int[tableSize](_ => NULL);
      poolHead, key, value, contents := NULL, map[], map[], map[];
      rings := seq(tableSize + 1, _ => []);
      new;
      for i := 0 to |nodes|
        invariant key == map[] && contents == map[] && value == map[] && Unfilled(i)
      {
        AddToPool(i);
      }
      assert nodes[..|nodes|] == nodes;
      forall x ensures InSome(rings, x) <==> x in nodes {
        assert x in nodes ==> x in rings[tableSize];
      }
    }

    // The first i entries are in the pool ring and every bucket is empty.
    ghost predicate Unfilled(i: int)
      reads this, mem, table
    {
      && 0 <= i <= |nodes| && table.Length > 0 && |rings| == table.Length + 1
      && (forall j | 0 <= j < table.Length :: table[j] == NULL && rings[j] == [])
      && Rings(mem.words, table[..] + [poolHead], rings)
      && (forall x :: x in rings[table.Length] <==> x in nodes[..i])
    }

    method AddToPool(i: int)
      requires Unfilled(i) && i < |nodes| && Spaced(nodes) && NULL !in nodes
      modifies this`poolHead, this`rings, mem
      ensures Unfilled(i + 1)
    {
      hide Rings, NewNode, InitStores, PushBackStores;
      ghost var heads, n := table[..] + [poolHead], table.Length;
      InitFresh(mem.words, heads, rings, nodes, i);
      mem.Init(nodes[i]);
      FamilyPush(mem.words, heads, rings, n, nodes[i]);
      poolHead := mem.PushBack(poolHead, nodes[i]);
      rings := rings[n := Pushed(rings[n], nodes[i])];
      assert table[..] + [poolHead] == heads[n := poolHead];
      assert nodes[..i + 1] == nodes[..i] + [nodes[i]];
    }

    // hash_map::find walks the key's bucket once round.
    method Find(k: K) returns (p: int)
      requires Valid()
      ensures p == if k in contents then contents[k] else NULL
    {
      hide Owned, AllSeparate, Bucket;
      var b := Bucket(hash, table.Length, k);
      assert IsList(mem.words, (table[..] + [poolHead])[b], rings[b]);
      p := WalkBucket(mem, table[b], key, k, rings[b]);
      Found(hash, table.Length, rings, key, contents, k, p);
    }

    // insert: the caller has made sure by find that the key is absent.
    method Insert(k: K, v: V) returns (p: int)
      requires Valid() && k !in contents
      modifies this, mem, table
      ensures Valid()
      ensures p == NULL <==> |old(contents)| == |nodes|
      ensures p == NULL ==> View() == old(View()) && contents == old(contents)
      ensures p != NULL ==> View() == old(View())[k := v] && contents == old(contents)[k := p] && p in nodes
    {
      PoolEmptyWhenFull(hash, table.Length, rings, key, contents, nodes);
      assert IsList(mem.words, (table[..] + [poolHead])[table.Length], rings[table.Length]);
      if poolHead == NULL {
        return NULL;
      }
      p := poolHead;
      TakeFromPool(k, v);
    }

    // remove of a node that find returned: it goes back to the pool.
    method Remove(p: int)
      requires Valid() && p in contents.Values
      modifies this, mem, table
      ensures Valid() && p in old(key) && old(key)[p] in old(contents)
      ensures View() == old(View()) - {old(key)[p]} && contents == old(contents) - {old(key)[p]}
    {
      hide Rings, Agrees, Owned, DeleteStores, PushBackStores, CanUnlink, Moved;
      ghost var n, heads, r := table.Length, table[..] + [poolHead], rings;
      HeadOf(mem.words, heads, r, n);
      ghost var b, i := Located(p);
      RemoveState(hash, n, r, key, contents, nodes, heads, mem.words, b, i);
      FamilyMove(mem.words, heads, r, b, i, n);
      var idx := Bucket(hash, table.Length, key[p]);
      table[idx] := mem.Delete(table[idx], p);
      if lo <= p < hi {
        poolHead := mem.PushBack(poolHead, p);
      }
      assert table[..] + [poolHead] == heads[b := table[b]][n := p];
      rings := Moved(r, b, i, n);
      contents := contents - {key[p]};
    }

    lemma Located(p: int) returns (b: int, i: int)
      requires Valid() && p in contents.Values
      ensures p in key && 0 <= b < table.Length && b == Bucket(hash, table.Length, key[p])
      ensures 0 <= i < |rings[b]| && rings[b][i] == p
    {
      var k :| k in contents && contents[k] == p;
      b := Bucket(hash, table.Length, k);
      assert p in rings[b];
      i :| 0 <= i < |rings[b]| && rings[b][i] == p;
    }

    method RemoveKey(k: K)
      requires Valid()
      modifies this, mem, table
      ensures Valid() && View() == old(View()) - {k}
    {
      var p := Find(k);
      if k in contents { KeyOf(k); }
      if p != NULL {
        Remove(p);
      } else {
        assert View() - {k} == View();
      }
    }

    lemma KeyOf(k: K)
      requires Valid() && k in contents
      ensures contents[k] in contents.Values && contents[k] in key && key[contents[k]] == k && contents[k] != NULL
    {
      var b := Bucket(hash, table.Length, k);
      assert IsList(mem.words, (table[..] + [poolHead])[b], rings[b]);
    }

    method TakeFromPool(k: K, v: V)
      requires Valid() && k !in contents && poolHead != NULL
      modifies this, mem, table
      ensures Valid() && View() == old(View())[k := v] && contents == old(contents)[k := old(poolHead)]
      ensures old(poolHead) in nodes
    {
      hide Rings, Agrees, Owned, DeleteStores, PushBackStores, CanUnlink, Moved;
      ghost var n, b := table.Length, Bucket(hash, table.Length, k);
      ghost var heads, r := table[..] + [poolHead], rings;
      var p := poolHead;
      HeadOf(mem.words, heads, r, n);
      InsertState(hash, n, r, key, contents, nodes, heads, mem.words, k);
      FamilyMove(mem.words, heads, r, n, 0, b);
      value := value[p := v];
      key := key[p := k];
      poolHead := mem.Delete(poolHead, p);
      var idx := Bucket(hash, table.Length, k);
      table[idx] := mem.PushBack(table[idx], p);
      assert table[..] + [poolHead] == heads[n := poolHead][b := p];
      rings := Moved(r, n, 0, b);
      contents := contents[k := p];
    }
  }
}
