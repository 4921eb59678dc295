// The allocator of kernel/kmem.cpp as a transformer of interval collections:
// the address-ordered free list, the blocks handed out (by header address, with
// the size recorded in the header) and the slack left behind when a remainder is
// too small to become a free block.
module HeapModel {
  import opened Common

  const USED_HEADER: int := 16
  const FREE_HEADER: int := 32
  const MIN_FREE: int := 64

  datatype Block = Block(addr: int, size: int) {
    function End(): int { addr + size }
  }

  datatype Heap = Heap(start: int, size: int, free: seq<Block>, live: map<int, int>, slack: map<int, int>) {
    function End(): int { start + size }
  }

  function Min(a: int, b: int): int { if a < b then a else b }

  function AllocSize(request: int): int {
    if request + USED_HEADER > MIN_FREE then request + USED_HEADER else MIN_FREE
  }

  // ---- operations -----------------------------------------------------------

  function Init(start: int, size: int): Heap {
    Heap(start, size, [Block(start, size)], map[], map[])
  }

  function FirstFit(free: seq<Block>, n: int): (k: nat)
    ensures k <= |free|
    ensures forall i | 0 <= i < k :: free[i].size < n
    ensures k < |free| ==> free[k].size >= n
  {
    if free == [] then 0
    else if n <= free[0].size then 0
    else 1 + FirstFit(free[1..], n)
  }

  function Carve(h: Heap, k: int, n: int): Heap
    requires 0 <= k < |h.free|
  {
    var b := h.free[k];
    var rest := b.size - n;
    h.(free := if rest < MIN_FREE then RemovedAt(h.free, k) else h.free[k := Block(b.addr + n, rest)],
       live := h.live[b.addr := n],
       slack := if 0 < rest < MIN_FREE then h.slack[b.addr + n := rest] else h.slack)
  }

  function Alloc(h: Heap, request: int): (Heap, int) {
    var n := AllocSize(request);
    var k := FirstFit(h.free, n);
    if k == |h.free| then (h, 0)
    else (Carve(h, k, n), h.free[k].addr + USED_HEADER)
  }

  // The number of leading blocks that do not lie above ptr.
  function Position(free: seq<Block>, ptr: int): (k: nat)
    ensures k <= |free|
    ensures forall i | 0 <= i < k :: free[i].addr <= ptr
    ensures k < |free| ==> free[k].addr > ptr
  {
    if free == [] then 0
    else if free[0].addr > ptr then 0
    else 1 + Position(free[1..], ptr)
  }

  predicate Touching(f: seq<Block>, i: int) {
    0 <= i && i + 1 < |f| && f[i].End() == f[i + 1].addr
  }

  // Block i absorbs its successor when the two touch.
  function Joined(f: seq<Block>, i: int): seq<Block>
    requires 0 <= i < |f|
  {
    if Touching(f, i) then f[..i] + [Block(f[i].addr, f[i].size + f[i + 1].size)] + f[i + 2..] else f
  }

  function Merged(f: seq<Block>, k: int): seq<Block>
    requires 0 <= k < |f|
  {
    if Touching(f, k - 1) then Joined(Joined(f, k - 1), k - 1) else Joined(f, k)
  }

  // b enters before free[k], then merges with its predecessor and its successor.
  function Coalesce(free: seq<Block>, k: int, b: Block): seq<Block>
    requires 0 <= k <= |free|
  {
    Merged(free[..k] + [b] + free[k..], k)
  }

  function Free(h: Heap, ptr: int): Heap {
    var a := ptr - USED_HEADER;
    if a !in h.live then h
    else h.(free := Coalesce(h.free, Position(h.free, ptr), Block(a, h.live[a])), live := h.live - {a})
  }

  // ---- invariant ------------------------------------------------------------

  predicate Disjoint(a: int, n: int, b: int, m: int) {
    a + n <= b || b + m <= a
  }

  // Ascending addresses, with a gap between neighbours.
  predicate Ordered(free: seq<Block>) {
    forall i, j | 0 <= i < j < |free| :: free[i].End() < free[j].addr
  }

  predicate FreeByte(free: seq<Block>, x: int) {
    exists i | 0 <= i < |free| :: free[i].addr <= x < free[i].End()
  }

  predicate In(m: map<int, int>, x: int) {
    exists a | a in m :: a <= x < a + m[a]
  }

  predicate Separate(m: map<int, int>) {
    forall a, b | a in m && b in m && a != b :: Disjoint(a, m[a], b, m[b])
  }

  predicate SeparateFrom(m: map<int, int>, a: int, n: int) {
    forall b | b in m :: Disjoint(a, n, b, m[b])
  }

  ghost predicate Covered(h: Heap) {
    forall x :: h.start <= x < h.End() <==> FreeByte(h.free, x) || In(h.live, x) || In(h.slack, x)
  }

  predicate NoOverlap(h: Heap) {
    && Separate(h.live)
    && Separate(h.slack)
    && (forall a | a in h.live :: SeparateFrom(h.slack, a, h.live[a]))
    && (forall i | 0 <= i < |h.free| ::
          SeparateFrom(h.live, h.free[i].addr, h.free[i].size) && SeparateFrom(h.slack, h.free[i].addr, h.free[i].size))
  }

  predicate Sized(h: Heap) {
    && (forall i | 0 <= i < |h.free| :: h.free[i].size >= Min(MIN_FREE, h.size))
    && (forall a | a in h.live :: h.live[a] >= MIN_FREE)
    && (forall a | a in h.slack :: 0 < h.slack[a] < MIN_FREE)
  }

  // Free blocks, live blocks and slack are intervals that partition the heap.
  ghost predicate Inv(h: Heap) {
    && h.start > 0 && h.size >= FREE_HEADER
    && Ordered(h.free) && Sized(h) && NoOverlap(h) && Covered(h)
  }

  lemma InitInv(start: int, size: int)
    requires start > 0 && size >= FREE_HEADER
    ensures Inv(Init(start, size))
  {
    var h := Init(start, size);
    forall x ensures start <= x < h.End() <==> FreeByte(h.free, x) {
      assert start <= x < h.End() ==> h.free[0].addr <= x < h.free[0].End();
    }
  }

  // ---- allocation -------------------------------------------------------------

  lemma CarveOrder(h: Heap, k: int, n: int)
    requires Inv(h) && 0 <= k < |h.free| && MIN_FREE <= n <= h.free[k].size
    ensures Ordered(Carve(h, k, n).free) && Sized(Carve(h, k, n))
  {
    var f := Carve(h, k, n).free;
    var b := h.free[k];
    if b.size - n < MIN_FREE {
      forall i, j | 0 <= i < j < |f| ensures f[i].End() < f[j].addr {
        assert f[i] == h.free[if i < k then i else i + 1];
        assert f[j] == h.free[if j < k then j else j + 1];
      }
    }
  }

  lemma CarveNoOverlap(h: Heap, k: int, n: int)
    requires Inv(h) && 0 <= k < |h.free| && MIN_FREE <= n <= h.free[k].size
    ensures NoOverlap(Carve(h, k, n))
  {
    var h' := Carve(h, k, n);
    var b := h.free[k];
    assert SeparateFrom(h.live, b.addr, b.size) && SeparateFrom(h.slack, b.addr, b.size);
    forall i | 0 <= i < |h'.free|
      ensures SeparateFrom(h'.live, h'.free[i].addr, h'.free[i].size)
      ensures SeparateFrom(h'.slack, h'.free[i].addr, h'.free[i].size)
    {
      var j := if b.size - n < MIN_FREE && i >= k then i + 1 else i;
      assert SeparateFrom(h.live, h.free[j].addr, h.free[j].size);
      assert SeparateFrom(h.slack, h.free[j].addr, h.free[j].size);
    }
  }

  lemma CarveCovered(h: Heap, k: int, n: int)
    requires Inv(h) && 0 <= k < |h.free| && MIN_FREE <= n <= h.free[k].size
    ensures Covered(Carve(h, k, n))
  {
    var h' := Carve(h, k, n);
    var b := h.free[k];
    assert b.addr !in h.live by { assert SeparateFrom(h.live, b.addr, b.size); }
    forall x
      ensures h.start <= x < h.End() <==> FreeByte(h'.free, x) || In(h'.live, x) || In(h'.slack, x)
    {
      CarveByte(h, k, n, x);
      assert h.start <= x < h.End() <==> FreeByte(h.free, x) || In(h.live, x) || In(h.slack, x);
    }
  }

  lemma FreeByteConcat(f: seq<Block>, g: seq<Block>, x: int)
    ensures FreeByte(f + g, x) <==> FreeByte(f, x) || FreeByte(g, x)
  {
    assert forall i | 0 <= i < |f| :: (f + g)[i] == f[i];
    assert forall i | 0 <= i < |g| :: (f + g)[|f| + i] == g[i];
  }

  lemma FreeByteOne(b: Block, x: int)
    ensures FreeByte([b], x) <==> b.addr <= x < b.End()
  {
    assert [b][0] == b;
  }

  lemma FreeByteAround(f: seq<Block>, b: Block, g: seq<Block>, x: int)
    ensures FreeByte(f + [b] + g, x) <==> FreeByte(f, x) || b.addr <= x < b.End() || FreeByte(g, x)
  {
    FreeByteConcat(f, [b], x);
    FreeByteOne(b, x);
    FreeByteConcat(f + [b], g, x);
  }

  lemma InUpdated(m: map<int, int>, a: int, n: int, x: int)
    requires a !in m
    ensures In(m[a := n], x) <==> In(m, x) || a <= x < a + n
  {
    var m' := m[a := n];
    assert forall b | b in m :: b in m' && m'[b] == m[b];
    assert a in m';
  }

  lemma CarveByte(h: Heap, k: int, n: int, x: int)
    requires Inv(h) && 0 <= k < |h.free| && MIN_FREE <= n <= h.free[k].size && h.free[k].addr !in h.live
    ensures var h' := Carve(h, k, n);
            (FreeByte(h'.free, x) || In(h'.live, x) || In(h'.slack, x))
            <==> (FreeByte(h.free, x) || In(h.live, x) || In(h.slack, x))
  {
    hide Covered, Ordered, FreeByte, In;
    var b := h.free[k];
    var rest := b.size - n;
    InUpdated(h.live, b.addr, n, x);
    var f, g := h.free[..k], h.free[k + 1..];
    assert h.free == f + [b] + g;
    FreeByteAround(f, b, g, x);
    if rest < MIN_FREE {
      FreeByteConcat(f, g, x);
      if rest > 0 {
        assert b.addr + n !in h.slack by { assert SeparateFrom(h.slack, b.addr, b.size); }
        InUpdated(h.slack, b.addr + n, rest, x);
      }
    } else {
      var c := Block(b.addr + n, rest);
      assert h.free[k := c] == f + [c] + g;
      FreeByteAround(f, c, g, x);
    }
  }

  // Null exactly when no block has 64 bytes and room for the request and a header of 16;
  // otherwise the lowest fitting block is carved, and the block handed out overlaps no
  // free, live or slack interval.
  lemma AllocSound(h: Heap, request: int)
    requires Inv(h) && request >= 0
    ensures var (h', p) := Alloc(h, request);
            var n := if request <= 48 then 64 else request + 16;
            && Inv(h')
            && (p == 0 <==> forall i | 0 <= i < |h.free| :: h.free[i].size < 64 || h.free[i].size < request + 16)
            && (p == 0 ==> h' == h)
            && (p != 0 ==>
                  && (exists k | 0 <= k < |h.free| :: h.free[k].addr == p - 16 && h.free[k].size >= n
                       && forall i | 0 <= i < k :: h.free[i].size < n)
                  && h'.live == h.live[p - 16 := n] && p - 16 !in h.live
                  && h.start <= p - 16 && p + request <= p - 16 + n <= h.End()
                  && SeparateFrom(h.live, p - 16, n)
                  && SeparateFrom(h'.slack, p - 16, n)
                  && forall i | 0 <= i < |h'.free| :: Disjoint(p - 16, n, h'.free[i].addr, h'.free[i].size))
  {
    var n := AllocSize(request);
    var k := FirstFit(h.free, n);
    if k < |h.free| {
      var b := h.free[k];
      CarveOrder(h, k, n);
      CarveNoOverlap(h, k, n);
      CarveCovered(h, k, n);
      assert SeparateFrom(h.live, b.addr, b.size);
      FreeInside(h, k);
      var h' := Carve(h, k, n);
      assert b.addr in h'.live && h'.live[b.addr] == n;
      assert SeparateFrom(h'.slack, b.addr, n);
      forall i | 0 <= i < |h'.free| ensures Disjoint(b.addr, n, h'.free[i].addr, h'.free[i].size) {
        assert SeparateFrom(h'.live, h'.free[i].addr, h'.free[i].size);
      }
    }
  }

  // What an allocation leaves of the block at p - 16: a free block in its place if at
  // least 64 bytes remain, otherwise slack; every other free block stays.
  lemma AllocLeaves(h: Heap, request: int, k: int)
    requires Inv(h) && request >= 0 && 0 <= k < |h.free|
    requires Alloc(h, request).1 != 0 && h.free[k].addr == Alloc(h, request).1 - 16
    ensures var (h', p) := Alloc(h, request);
            var n := if request <= 48 then 64 else request + 16;
            var rest := h.free[k].size - n;
            && rest >= 0
            && h'.free == h.free[..k] + (if rest >= 64 then [Block(p - 16 + n, rest)] else []) + h.free[k + 1..]
            && h'.slack == if 0 < rest < 64 then h.slack[p - 16 + n := rest] else h.slack
  {
    hide Inv, FirstFit, RemovedAt;
    SameBlock(h, k, FirstFit(h.free, AllocSize(request)));
    CarvedList(h.free, k, Block(h.free[k].addr + AllocSize(request), h.free[k].size - AllocSize(request)));
  }

  // Free blocks at the same address are the same.
  lemma SameBlock(h: Heap, i: int, j: int)
    requires Inv(h) && 0 <= i < |h.free| && 0 <= j < |h.free|
    ensures h.free[i].addr == h.free[j].addr <==> i == j
  {
    hide Covered, NoOverlap;
    assert i < j ==> h.free[i].End() < h.free[j].addr;
    assert j < i ==> h.free[j].End() < h.free[i].addr;
  }

  lemma CarvedList(f: seq<Block>, k: int, c: Block)
    requires 0 <= k < |f|
    ensures f[k := c] == f[..k] + [c] + f[k + 1..]
    ensures RemovedAt(f, k) == f[..k] + [] + f[k + 1..]
  {
  }

  lemma FreeInside(h: Heap, k: int)
    requires Inv(h) && 0 <= k < |h.free|
    ensures h.start <= h.free[k].addr && h.free[k].End() <= h.End()
  {
    assert FreeByte(h.free, h.free[k].addr);
    assert FreeByte(h.free, h.free[k].End() - 1);
  }

  // ---- release ----------------------------------------------------------------

  // Where the block at a sits between its free neighbours.
  lemma PositionOf(h: Heap, a: int)
    requires Inv(h) && a in h.live
    ensures var k := Position(h.free, a + USED_HEADER);
            && (forall i | 0 <= i < k :: h.free[i].End() <= a)
            && (forall i | k <= i < |h.free| :: a + h.live[a] <= h.free[i].addr)
  {
    hide Covered, Separate;
    var k := Position(h.free, a + USED_HEADER);
    forall i | 0 <= i < |h.free| ensures if i < k then h.free[i].End() <= a else a + h.live[a] <= h.free[i].addr {
      assert SeparateFrom(h.live, h.free[i].addr, h.free[i].size);
      if i > k { assert h.free[k].End() < h.free[i].addr; }
    }
  }

  // b fits strictly inside the gap before free[k].
  predicate Fits(free: seq<Block>, k: int, b: Block)
    requires 0 <= k <= |free|
  {
    && b.size > 0
    && (forall i | 0 <= i < k :: free[i].End() <= b.addr)
    && (forall i | k <= i < |free| :: b.End() <= free[i].addr)
  }

  // Ascending, though neighbours may touch.
  predicate Ascending(f: seq<Block>) {
    && (forall i | 0 <= i < |f| :: f[i].size > 0)
    && (forall i, j | 0 <= i < j < |f| :: f[i].End() <= f[j].addr)
  }

  lemma NoTouchingIsOrdered(f: seq<Block>)
    requires Ascending(f) && forall i :: !Touching(f, i)
    ensures Ordered(f)
  {
    forall i, j | 0 <= i < j < |f| ensures f[i].End() < f[j].addr {
      assert !Touching(f, i);
      assert j > i + 1 ==> f[i + 1].End() <= f[j].addr;
    }
  }

  // g is f with block i + 1 absorbed into block i.
  predicate Absorbs(f: seq<Block>, g: seq<Block>, i: int) {
    && 0 <= i < |g| == |f| - 1
    && (forall j | 0 <= j < |g| :: g[j].addr == f[if j <= i then j else j + 1].addr)
    && (forall j | 0 <= j < |g| :: g[j].End() == f[if j < i then j else j + 1].End())
  }

  lemma JoinedAbsorbs(f: seq<Block>, i: int)
    requires Touching(f, i)
    ensures Absorbs(f, Joined(f, i), i)
  {
    var g := Joined(f, i);
    forall j | 0 <= j < |g|
      ensures g[j].addr == f[if j <= i then j else j + 1].addr
      ensures g[j].End() == f[if j < i then j else j + 1].End()
    {
      assert j != i ==> g[j] == f[if j < i then j else j + 1];
    }
  }

  lemma AbsorbsAscending(f: seq<Block>, g: seq<Block>, i: int)
    requires Ascending(f) && Absorbs(f, g, i)
    ensures Ascending(g)
  {
    forall j | 0 <= j < |g| ensures g[j].size > 0 {
      assert f[if j <= i then j else j + 1].size > 0;
      assert j == i ==> f[i].End() <= f[i + 1].addr;
    }
    forall j, l | 0 <= j < l < |g| ensures g[j].End() <= g[l].addr {
      assert f[if j < i then j else j + 1].End() <= f[if l <= i then l else l + 1].addr;
    }
  }

  lemma AbsorbsTouching(f: seq<Block>, g: seq<Block>, i: int, j: int)
    requires Absorbs(f, g, i) && Touching(g, j)
    ensures Touching(f, if j < i then j else j + 1)
  {
  }

  lemma JoinedByte(f: seq<Block>, i: int, x: int)
    requires 0 <= i < |f| && Ascending(f)
    ensures FreeByte(Joined(f, i), x) <==> FreeByte(f, x)
  {
    if Touching(f, i) {
      var p, q := f[..i], f[i + 2..];
      assert f == p + [f[i]] + ([f[i + 1]] + q);
      FreeByteAround(p, f[i], [f[i + 1]] + q, x);
      FreeByteConcat([f[i + 1]], q, x);
      FreeByteOne(f[i + 1], x);
      FreeByteAround(p, Block(f[i].addr, f[i].size + f[i + 1].size), q, x);
    }
  }

  lemma InsertedAscending(free: seq<Block>, k: int, b: Block)
    requires Ordered(free) && 0 <= k <= |free| && Fits(free, k, b)
    requires forall i | 0 <= i < |free| :: free[i].size > 0
    ensures var f := free[..k] + [b] + free[k..];
            Ascending(f) && forall i :: Touching(f, i) ==> i == k - 1 || i == k
  {
    var f := free[..k] + [b] + free[k..];
    assert forall i | 0 <= i < |f| :: f[i] == if i < k then free[i] else if i == k then b else free[i - 1];
  }

  // Merging at k - 1 first and then at the merged block, or at k only, removes
  // every touching pair and no byte.
  lemma MergeTwice(f: seq<Block>, k: int)
    requires Ascending(f) && 0 <= k < |f| && forall i | Touching(f, i) :: i == k - 1 || i == k
    ensures var g := Merged(f, k);
            && Ascending(g)
            && (forall i :: !Touching(g, i))
            && (forall x :: FreeByte(g, x) <==> FreeByte(f, x))
  {
    if Touching(f, k - 1) {
      var g := Joined(f, k - 1);
      JoinedAbsorbs(f, k - 1);
      AbsorbsAscending(f, g, k - 1);
      forall i | Touching(g, i) ensures i == k - 1 { AbsorbsTouching(f, g, k - 1, i); }
      forall x ensures FreeByte(g, x) <==> FreeByte(f, x) { JoinedByte(f, k - 1, x); }
      MergeOnce(g, k - 1);
    } else {
      MergeOnce(f, k);
    }
  }

  lemma MergeOnce(f: seq<Block>, k: int)
    requires Ascending(f) && 0 <= k < |f| && forall i | Touching(f, i) :: i == k
    ensures Ascending(Joined(f, k))
    ensures forall i :: !Touching(Joined(f, k), i)
    ensures forall x :: FreeByte(Joined(f, k), x) <==> FreeByte(f, x)
  {
    if Touching(f, k) {
      var g := Joined(f, k);
      JoinedAbsorbs(f, k);
      AbsorbsAscending(f, g, k);
      forall i ensures !Touching(g, i) {
        if Touching(g, i) { AbsorbsTouching(f, g, k, i); }
      }
    }
    forall x ensures FreeByte(Joined(f, k), x) <==> FreeByte(f, x) { JoinedByte(f, k, x); }
  }

  lemma CoalesceSound(free: seq<Block>, k: int, b: Block)
    requires Ordered(free) && 0 <= k <= |free| && Fits(free, k, b)
    requires forall i | 0 <= i < |free| :: free[i].size > 0
    ensures Ordered(Coalesce(free, k, b))
    ensures forall x :: FreeByte(Coalesce(free, k, b), x) <==> FreeByte(free, x) || b.addr <= x < b.End()
  {
    InsertedAscending(free, k, b);
    InsertedBytes(free, k, b);
    MergeTwice(free[..k] + [b] + free[k..], k);
    NoTouchingIsOrdered(Coalesce(free, k, b));
  }

  lemma InsertedBytes(free: seq<Block>, k: int, b: Block)
    requires 0 <= k <= |free|
    ensures forall x :: FreeByte(free[..k] + [b] + free[k..], x) <==> FreeByte(free, x) || b.addr <= x < b.End()
  {
    assert free == free[..k] + free[k..];
    forall x ensures FreeByte(free[..k] + [b] + free[k..], x) <==> FreeByte(free, x) || b.addr <= x < b.End() {
      FreeByteAround(free[..k], b, free[k..], x);
      FreeByteConcat(free[..k], free[k..], x);
    }
  }

  // Intervals that a disjoint family avoids stay avoided when they are joined.
  predicate Avoids(f: seq<Block>, m: map<int, int>) {
    forall i | 0 <= i < |f| :: SeparateFrom(m, f[i].addr, f[i].size)
  }

  predicate AtLeast(f: seq<Block>, n: int) {
    forall i | 0 <= i < |f| :: f[i].size >= n
  }

  lemma JoinedAvoids(f: seq<Block>, i: int, m: map<int, int>, n: int)
    requires 0 <= i < |f| && Avoids(f, m) && AtLeast(f, n) && n >= 0
    requires forall a | a in m :: m[a] > 0
    ensures Avoids(Joined(f, i), m) && AtLeast(Joined(f, i), n)
  {
    if Touching(f, i) {
      var g := Joined(f, i);
      forall j | 0 <= j < |g| ensures SeparateFrom(m, g[j].addr, g[j].size) && g[j].size >= n {
        if j != i {
          assert g[j] == f[if j < i then j else j + 1];
        } else {
          assert SeparateFrom(m, f[i].addr, f[i].size) && SeparateFrom(m, f[i + 1].addr, f[i + 1].size);
        }
      }
    }
  }

  lemma CoalesceAvoids(free: seq<Block>, k: int, b: Block, m: map<int, int>, n: int)
    requires 0 <= k <= |free| && Avoids(free, m) && AtLeast(free, n) && n >= 0
    requires SeparateFrom(m, b.addr, b.size) && b.size >= n
    requires forall a | a in m :: m[a] > 0
    ensures Avoids(Coalesce(free, k, b), m) && AtLeast(Coalesce(free, k, b), n)
  {
    var f := free[..k] + [b] + free[k..];
    assert forall i | 0 <= i < |f| :: f[i] == if i < k then free[i] else if i == k then b else free[i - 1];
    if Touching(f, k - 1) {
      JoinedAvoids(f, k - 1, m, n);
      JoinedAvoids(Joined(f, k - 1), k - 1, m, n);
    } else {
      JoinedAvoids(f, k, m, n);
    }
  }

  lemma InRemoved(m: map<int, int>, a: int, x: int)
    requires a in m && Separate(m)
    ensures In(m, x) <==> In(m - {a}, x) || a <= x < a + m[a]
  {
    var m' := m - {a};
    assert forall b | b in m' :: b in m && m'[b] == m[b];
    assert forall b | b in m && b != a :: b in m';
  }

  lemma FreeNoOverlap(h: Heap, ptr: int)
    requires Inv(h) && ptr - USED_HEADER in h.live
    ensures NoOverlap(Free(h, ptr)) && Sized(Free(h, ptr))
  {
    var a := ptr - USED_HEADER;
    var h' := Free(h, ptr);
    CoalesceAvoids(h.free, Position(h.free, ptr), Block(a, h.live[a]), h'.live, Min(MIN_FREE, h.size));
    CoalesceAvoids(h.free, Position(h.free, ptr), Block(a, h.live[a]), h.slack, Min(MIN_FREE, h.size));
  }

  lemma ReleasedCovered(h: Heap, f: seq<Block>, a: int)
    requires Covered(h) && Separate(h.live) && a in h.live
    requires forall x :: FreeByte(f, x) <==> FreeByte(h.free, x) || a <= x < a + h.live[a]
    ensures Covered(h.(free := f, live := h.live - {a}))
  {
    forall x ensures h.start <= x < h.End() <==> FreeByte(f, x) || In(h.live - {a}, x) || In(h.slack, x) {
      InRemoved(h.live, a, x);
      assert h.start <= x < h.End() <==> FreeByte(h.free, x) || In(h.live, x) || In(h.slack, x);
    }
  }

  // Freeing keeps the partition; exactly the block's recorded bytes become free.
  lemma FreeSound(h: Heap, ptr: int)
    requires Inv(h)
    ensures Inv(Free(h, ptr))
    ensures var a := ptr - 16;
            var h' := Free(h, ptr);
            && h'.slack == h.slack && h'.live == h.live - {a}
            && forall x :: FreeByte(h'.free, x) <==> FreeByte(h.free, x) || (a in h.live && a <= x < a + h.live[a])
  {
    hide Coalesce, Position, FreeByte, Covered;
    var a := ptr - USED_HEADER;
    if a in h.live {
      var h' := Free(h, ptr);
      FreeNoOverlap(h, ptr);
      PositionOf(h, a);
      CoalesceSound(h.free, Position(h.free, ptr), Block(a, h.live[a]));
      ReleasedCovered(h, h'.free, a);
    } else {
      assert h.live - {a} == h.live;
    }
  }
}
