// Whole runs of the allocator: byte accounting, slack growth and the return to
// a single free block.
module HeapRuns {
  import opened Common
  import opened HeapModel

  function Bytes(f: seq<Block>): int {
    if f == [] then 0 else f[0].size + Bytes(f[1..])
  }

  ghost function Sum(m: map<int, int>, keys: set<int>): int
    requires keys <= m.Keys
  {
    if a :| a in keys then m[a] + Sum(m, keys - {a}) else 0
  }

  ghost function Total(m: map<int, int>): int {
    Sum(m, m.Keys)
  }

  ghost predicate Accounted(h: Heap) {
    Bytes(h.free) + Total(h.live) + Total(h.slack) == h.size
  }

  lemma {:induction false} BytesConcat(f: seq<Block>, g: seq<Block>)
    ensures Bytes(f + g) == Bytes(f) + Bytes(g)
  {
    if f == [] {
      assert f + g == g;
    } else {
      assert (f + g)[1..] == f[1..] + g;
      BytesConcat(f[1..], g);
    }
  }

  lemma BytesCons(b: Block, g: seq<Block>)
    ensures Bytes([b] + g) == b.size + Bytes(g)
  {
    assert ([b] + g)[1..] == g;
  }

  lemma TwoTaken(f: seq<Block>, i: int)
    requires 0 <= i && i + 1 < |f|
    ensures f == f[..i] + [f[i]] + ([f[i + 1]] + f[i + 2..])
  {
  }

  lemma BytesAround(f: seq<Block>, b: Block, g: seq<Block>)
    ensures Bytes(f + [b] + g) == Bytes(f) + b.size + Bytes(g)
  {
    BytesConcat(f + [b], g);
    BytesConcat(f, [b]);
  }

  lemma {:induction false} SumPick(m: map<int, int>, keys: set<int>, a: int)
    requires keys <= m.Keys && a in keys
    ensures Sum(m, keys) == m[a] + Sum(m, keys - {a})
  {
    var b :| b in keys && Sum(m, keys) == m[b] + Sum(m, keys - {b});
    if a != b {
      SumPick(m, keys - {b}, a);
      SumPick(m, keys - {a}, b);
      assert keys - {b} - {a} == keys - {a} - {b};
    }
  }

  lemma {:induction false} SumSame(m: map<int, int>, m': map<int, int>, keys: set<int>)
    requires keys <= m.Keys && keys <= m'.Keys && forall a | a in keys :: m[a] == m'[a]
    ensures Sum(m, keys) == Sum(m', keys)
  {
    if a :| a in keys {
      SumPick(m, keys, a);
      SumPick(m', keys, a);
      SumSame(m, m', keys - {a});
    }
  }

  lemma TotalRemove(m: map<int, int>, a: int)
    requires a in m
    ensures Total(m) == m[a] + Total(m - {a})
  {
    SumPick(m, m.Keys, a);
    assert (m - {a}).Keys == m.Keys - {a};
    SumSame(m, m - {a}, m.Keys - {a});
  }

  lemma TotalAdd(m: map<int, int>, a: int, n: int)
    requires a !in m
    ensures Total(m[a := n]) == Total(m) + n
  {
    TotalRemove(m[a := n], a);
    assert m[a := n] - {a} == m;
  }

  lemma CarveBytes(f: seq<Block>, k: int, c: Block)
    requires 0 <= k < |f|
    ensures Bytes(RemovedAt(f, k)) == Bytes(f) - f[k].size
    ensures Bytes(f[k := c]) == Bytes(f) - f[k].size + c.size
  {
    var p, q := f[..k], f[k + 1..];
    assert f == p + [f[k]] + q;
    BytesAround(p, f[k], q);
    BytesConcat(p, q);
    assert f[k := c] == p + [c] + q;
    BytesAround(p, c, q);
  }

  lemma CarveAccounts(h: Heap, k: int, n: int)
    requires Inv(h) && 0 <= k < |h.free| && MIN_FREE <= n <= h.free[k].size
    ensures var h' := Carve(h, k, n);
            && Bytes(h'.free) + Total(h'.live) + Total(h'.slack) == Bytes(h.free) + Total(h.live) + Total(h.slack)
            && 0 <= Total(h'.slack) - Total(h.slack) < MIN_FREE
            && forall a | a in h.slack :: a in h'.slack && h'.slack[a] == h.slack[a]
  {
    var b := h.free[k];
    var rest := b.size - n;
    assert b.addr !in h.live by { assert SeparateFrom(h.live, b.addr, b.size); }
    TotalAdd(h.live, b.addr, n);
    CarveBytes(h.free, k, Block(b.addr + n, rest));
    if 0 < rest < MIN_FREE {
      assert b.addr + n !in h.slack by { assert SeparateFrom(h.slack, b.addr, b.size); }
      TotalAdd(h.slack, b.addr + n, rest);
    }
  }

  lemma JoinedAccounts(f: seq<Block>, i: int)
    requires 0 <= i < |f|
    ensures Bytes(Joined(f, i)) == Bytes(f)
  {
    hide Bytes;
    if Touching(f, i) {
      var p, q := f[..i], f[i + 2..];
      TwoTaken(f, i);
      BytesAround(p, f[i], [f[i + 1]] + q);
      BytesCons(f[i + 1], q);
      BytesAround(p, Block(f[i].addr, f[i].size + f[i + 1].size), q);
    }
  }

  lemma FreeAccounts(h: Heap, ptr: int)
    requires ptr - USED_HEADER in h.live
    ensures Bytes(Free(h, ptr).free) + Total(Free(h, ptr).live) == Bytes(h.free) + Total(h.live)
  {
    var a := ptr - USED_HEADER;
    TotalRemove(h.live, a);
    CoalesceAccounts(h.free, Position(h.free, ptr), Block(a, h.live[a]));
  }

  lemma CoalesceAccounts(free: seq<Block>, k: int, b: Block)
    requires 0 <= k <= |free|
    ensures Bytes(Coalesce(free, k, b)) == Bytes(free) + b.size
  {
    hide Bytes;
    var f := free[..k] + [b] + free[k..];
    InsertedAccounts(free, k, b);
    if Touching(f, k - 1) {
      JoinedAccounts(f, k - 1);
      JoinedAccounts(Joined(f, k - 1), k - 1);
    } else {
      JoinedAccounts(f, k);
    }
  }

  lemma InsertedAccounts(free: seq<Block>, k: int, b: Block)
    requires 0 <= k <= |free|
    ensures Bytes(free[..k] + [b] + free[k..]) == Bytes(free) + b.size
  {
    hide Bytes;
    BytesAround(free[..k], b, free[k..]);
    assert free == free[..k] + free[k..];
    BytesConcat(free[..k], free[k..]);
  }

  // ---- runs -------------------------------------------------------------------

  datatype Call = AllocCall(request: nat) | FreeCall(ptr: int)

  function Step(h: Heap, c: Call): Heap {
    match c
    case AllocCall(request) => Alloc(h, request).0
    case FreeCall(ptr) => Free(h, ptr)
  }

  function Run(h: Heap, calls: seq<Call>): Heap {
    if calls == [] then h else Step(Run(h, calls[..|calls| - 1]), calls[|calls| - 1])
  }

  function Allocs(calls: seq<Call>): nat {
    if calls == [] then 0
    else Allocs(calls[..|calls| - 1]) + if calls[|calls| - 1].AllocCall? then 1 else 0
  }

  lemma StepSound(h: Heap, c: Call)
    requires Inv(h) && Accounted(h)
    ensures Inv(Step(h, c)) && Accounted(Step(h, c))
    ensures Step(h, c).start == h.start && Step(h, c).size == h.size
    ensures forall a | a in h.slack :: a in Step(h, c).slack && Step(h, c).slack[a] == h.slack[a]
    ensures Total(h.slack) <= Total(Step(h, c).slack) <= Total(h.slack) + if c.AllocCall? then MIN_FREE - 1 else 0
  {
    match c
    case AllocCall(request) =>
      AllocSound(h, request);
      var n := AllocSize(request);
      var k := FirstFit(h.free, n);
      if k < |h.free| { CarveAccounts(h, k, n); }
    case FreeCall(ptr) =>
      FreeSound(h, ptr);
      if ptr - USED_HEADER in h.live { FreeAccounts(h, ptr); }
  }

  // Every run keeps the partition and the byte count; slack only grows, by less
  // than 64 bytes an allocation.
  lemma {:induction false} RunSound(start: int, size: int, calls: seq<Call>)
    requires start > 0 && size >= FREE_HEADER
    ensures var h := Run(Init(start, size), calls);
            && Inv(h) && Accounted(h) && h.start == start && h.size == size
            && 0 <= Total(h.slack) <= 63 * Allocs(calls)
  {
    if calls == [] {
      InitInv(start, size);
      assert Bytes([Block(start, size)]) == size;
    } else {
      var before := calls[..|calls| - 1];
      RunSound(start, size, before);
      StepSound(Run(Init(start, size), before), calls[|calls| - 1]);
    }
  }

  lemma {:induction false} SlackNeverShrinks(h: Heap, calls: seq<Call>, more: seq<Call>)
    requires Inv(Run(h, calls)) && Accounted(Run(h, calls))
    ensures var s, s' := Run(h, calls).slack, Run(h, calls + more).slack;
            && Inv(Run(h, calls + more)) && Accounted(Run(h, calls + more))
            && Total(s) <= Total(s')
            && forall a | a in s :: a in s' && s'[a] == s[a]
  {
    hide Inv, Accounted, Total, Step;
    if more == [] {
      assert calls + more == calls;
    } else {
      var init := more[..|more| - 1];
      SlackNeverShrinks(h, calls, init);
      var all := calls + more;
      assert all[..|all| - 1] == calls + init;
      StepSound(Run(h, calls + init), all[|all| - 1]);
    }
  }

  // With no slack, releasing everything leaves one free block, the whole heap.
  lemma EmptyHeapIsOneBlock(h: Heap)
    requires Inv(h)
    ensures h.live == map[] && h.slack == map[] <==> h.free == [Block(h.start, h.size)]
  {
    if h.live == map[] && h.slack == map[] {
      assert FreeByte(h.free, h.start);
      var i :| 0 <= i < |h.free| && h.free[i].addr <= h.start < h.free[i].End();
      FreeInside(h, i);
      FreeInside(h, 0);
      assert i == 0;
      assert !FreeByte(h.free, h.free[0].End());
      assert h.free[0].End() == h.End();
      assert |h.free| == 1 by {
        if |h.free| > 1 { FreeInside(h, 1); }
      }
    }
    if h.free == [Block(h.start, h.size)] {
      assert SeparateFrom(h.live, h.free[0].addr, h.free[0].size);
      assert SeparateFrom(h.slack, h.free[0].addr, h.free[0].size);
      forall a ensures a !in h.live && a !in h.slack {
        assert a in h.live ==> In(h.live, a);
        assert a in h.slack ==> In(h.slack, a);
      }
    }
  }

  // The call leaves no remainder too small to be a free block.
  predicate NoRemainder(h: Heap, c: Call) {
    c.AllocCall? ==>
      var n := if c.request <= 48 then 64 else c.request + 16;
      var k := FirstFit(h.free, n);
      k < |h.free| ==> h.free[k].size == n || h.free[k].size - n >= 64
  }

  predicate CleanRun(h: Heap, calls: seq<Call>) {
    calls != [] ==>
      && CleanRun(h, calls[..|calls| - 1])
      && NoRemainder(Run(h, calls[..|calls| - 1]), calls[|calls| - 1])
  }

  lemma StepSlack(h: Heap, c: Call)
    requires Inv(h)
    ensures Step(h, c).slack == map[] <==> h.slack == map[] && NoRemainder(h, c)
  {
    if c.AllocCall? {
      var n := AllocSize(c.request);
      var k := FirstFit(h.free, n);
      if k < |h.free| && 0 < h.free[k].size - n < MIN_FREE {
        assert h.free[k].addr + n in Step(h, c).slack;
      }
    }
  }

  // A run leaves no slack exactly when every allocation takes the first fitting block
  // whole or leaves at least 64 bytes of it.
  lemma {:induction false} NoSlackExactlyWhen(start: int, size: int, calls: seq<Call>)
    requires start > 0 && size >= FREE_HEADER
    ensures Run(Init(start, size), calls).slack == map[] <==> CleanRun(Init(start, size), calls)
  {
    hide Step, NoRemainder;
    if calls != [] {
      var before := calls[..|calls| - 1];
      NoSlackExactlyWhen(start, size, before);
      RunSound(start, size, before);
      StepSlack(Run(Init(start, size), before), calls[|calls| - 1]);
    }
  }

  // Once everything allocated is freed, the heap is the initial one exactly when the
  // run was clean.
  lemma RunFreedCompletely(start: int, size: int, calls: seq<Call>)
    requires start > 0 && size >= FREE_HEADER && Run(Init(start, size), calls).live == map[]
    ensures Run(Init(start, size), calls) == Init(start, size) <==> CleanRun(Init(start, size), calls)
  {
    hide Inv, Run, CleanRun;
    RunSound(start, size, calls);
    NoSlackExactlyWhen(start, size, calls);
    EmptyHeapIsOneBlock(Run(Init(start, size), calls));
  }

  // Allocating and freeing one block in a heap of 100 bytes loses 36 of them.
  lemma SlackExample()
    ensures var h := Init(16, 100);
            && Alloc(h, 0) == (Heap(16, 100, [], map[16 := 64], map[80 := 36]), 32)
            && Run(h, [AllocCall(0), FreeCall(32)]) == Heap(16, 100, [Block(16, 64)], map[], map[80 := 36])
  {
    var h := Init(16, 100);
    var h1 := Heap(16, 100, [], map[16 := 64], map[80 := 36]);
    assert Alloc(h, 0) == (h1, 32);
    var calls := [AllocCall(0), FreeCall(32)];
    assert calls[..1] == [AllocCall(0)] && calls[..1][..0] == [];
    assert Run(h, calls[..1]) == h1;
    assert h1.live - {16} == map[];
    assert Free(h1, 32).free == [Block(16, 64)];
  }
}
