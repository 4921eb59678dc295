// kernel/kmem.cpp in place: the allocator's loads and stores on heap memory,
// proved to act on the interval model of HeapModel.
module Kmem {
  import opened Common
  import opened Memory
  import opened IntrusiveList
  import opened HeapModel
  import opened KmemMemory

  class KmemHeap {
    const mem: NodeMemory
    var start: int
    var size: int
    var freeList: int
    ghost var h: Heap

    ghost predicate Valid()
      reads this, mem
    {
      && Inv(h) && h.start == start && h.size == size
      && Represents(mem.words, freeList, h.free, h.live)
    }

    // kmem_init
    constructor (mem: NodeMemory, start: int, size: int)
      requires start > 0 && size >= FREE_HEADER
      modifies mem
      ensures Valid() && h == HeapModel.Init(start, size) && this.mem == mem
      ensures OnlyWithin(old(mem.words), mem.words, start, start + size)
    {
      this.mem, this.start, this.size, freeList := mem, start, size, start + 8;
      h := HeapModel.Init(start, size);
      new;
      WriteFreeHeader(start, size);
      InitInv(start, size);
      LoneBlock(mem.words, Block(start, size), map[]);
    }

    method WriteFreeHeader(b: int, n: int)
      modifies mem
      ensures HeaderWritten(old(mem.words), mem.words, Block(b, n))
    {
      hide HeaderWritten;
      HeaderInitFirst(mem.words, Block(b, n));
      mem.Init(b + 8);
      mem.Write(b + 24, n);
      mem.Write(b, MAGIC);
    }

    // The first-fit scan: the ring is walked from the head until a block fits or
    // the head comes round again.
    method FindFit(n: int) returns (p: int, ghost k: int)
      requires Valid() && freeList != NULL
      ensures 0 <= k <= |h.free| && k == FirstFit(h.free, n)
      ensures p == if k < |h.free| then h.free[k].addr + 8 else freeList
    {
      ghost var s := Nodes(h.free);
      p, k := freeList, 0;
      while true
        invariant 0 <= k < |s| && p == s[k]
        invariant forall i | 0 <= i < k :: h.free[i].size < n
        decreases |s| - k
      {
        assert LinkedAt(mem.words, s, k) && FreeHeader(mem.words, h.free[k]);
        if n <= mem.words[p + 16] {
          return;
        }
        p, k := mem.words[p], k + 1;
        assert k < |s| ==> Apart(s[0], s[k]);
        if p == freeList {
          return;
        }
      }
    }

    // The head branch writes size and magic first, the other branch the links.
    method WriteRemainder(p: int, n: int, linksFirst: bool)
      requires n >= MIN_FREE && p + 16 in mem.words
      modifies mem
      ensures HeaderWritten(old(mem.words), mem.words, Block(p - 8 + n, old(mem.words)[p + 16] - n))
    {
      hide HeaderWritten, InitStores, Store;
      var newFree := p - 8 + n;
      ghost var c := Block(newFree, mem.words[p + 16] - n);
      if linksFirst {
        HeaderInitFirst(mem.words, c);
        InitKeeps(mem.words, newFree + 8, p + 16);
        mem.Init(newFree + 8);
        mem.Write(newFree + 24, mem.words[p + 16] - n);
        mem.Write(newFree, MAGIC);
      } else {
        HeaderInitLast(mem.words, c);
        mem.Write(newFree + 24, mem.words[p + 16] - n);
        mem.Write(newFree, MAGIC);
        mem.Init(newFree + 8);
      }
    }

    // The remainder of the head block becomes the new head.
    method SplitHead(p: int, n: int)
      requires Valid() && h.free != [] && p == freeList
      requires MIN_FREE <= n && h.free[0].size - n >= MIN_FREE
      modifies this`freeList, mem
      ensures Represents(mem.words, freeList, Carve(h, 0, n).free, h.live)
      ensures Untouched(old(mem.words), mem.words, h.free)
    {
      hide Represents, Inv, Carve, UnlinkStores, InsertStores, HeaderWritten, CanUnlink, Untouched;
      ghost var w := mem.words;
      BlockWords(w, freeList, h.free, h.live, 0);
      SplitPrev(w, freeList, h, 0, n);
      WriteRemainder(p, n, false);
      SplitHeader(w, mem.words, freeList, h, 0, n);
      var prev := mem.words[p + 8];
      if prev != p {
        SplitMany(w, mem.words, freeList, h, 0, n);
        mem.UnlinkNode(p);
        var _ := mem.Insert(prev, p + n);
      } else {
        SplitLone(w, mem.words, freeList, h, n);
      }
      freeList := p + n;
    }

    // The remainder of any other block takes its place in the ring.
    method SplitInner(p: int, n: int, ghost k: int)
      requires Valid() && 0 < k < |h.free| && p == h.free[k].addr + 8
      requires MIN_FREE <= n && h.free[k].size - n >= MIN_FREE
      modifies mem
      ensures Represents(mem.words, freeList, Carve(h, k, n).free, h.live)
      ensures Untouched(old(mem.words), mem.words, h.free)
    {
      hide Represents, Inv, Carve, UnlinkStores, InsertStores, HeaderWritten, CanUnlink, Untouched;
      ghost var w := mem.words;
      BlockWords(w, freeList, h.free, h.live, k);
      SplitPrev(w, freeList, h, k, n);
      var prev := mem.words[p + 8];
      WriteRemainder(p, n, true);
      SplitHeader(w, mem.words, freeList, h, k, n);
      SplitMany(w, mem.words, freeList, h, k, n);
      mem.UnlinkNode(p);
      var _ := mem.Insert(prev, p + n);
    }

    // kmem_alloc
    method Alloc(request: int) returns (ptr: int)
      requires Valid() && 0 <= request < M64 - USED_HEADER
      modifies this, mem
      ensures Valid() && (h, ptr) == HeapModel.Alloc(old(h), request)
      ensures ptr == 0 <==>
                forall i | 0 <= i < |old(h.free)| :: old(h.free)[i].size < 64 || old(h.free)[i].size < request + 16
      ensures ptr != 0 ==>
                && ptr - 16 in h.live && h.live[ptr - 16] == (if request <= 48 then 64 else request + 16)
                && ptr - 16 in mem.words && mem.words[ptr - 16] == 0xDEADBEEFABCDDCBA
                && ptr - 8 in mem.words && mem.words[ptr - 8] == h.live[ptr - 16]
      ensures Untouched(old(mem.words), mem.words, old(h.free))
    {
      hide Represents, Inv, Carve, Untouched, OnlyWithin;
      SameUntouched(mem.words, h.free);
      var n := AllocSize(request);
      AllocSound(h, request);
      EmptyList(mem.words, freeList, h.free, h.live);
      if freeList == NULL {
        return NULL;
      }
      var p, k := FindFit(n);
      BlockWords(mem.words, freeList, h.free, h.live, if k < |h.free| then k else 0);
      if mem.words[p + 16] < n {
        return NULL;
      }
      HandOut(p, n, k);
      return p + 8;
    }

    // Block k is carved and its used header written.
    method HandOut(p: int, n: int, ghost k: int)
      requires Valid() && 0 <= k < |h.free| && p == h.free[k].addr + 8 && MIN_FREE <= n <= h.free[k].size
      requires Inv(Carve(h, k, n))
      modifies this, mem
      ensures Valid() && h == Carve(old(h), k, n)
      ensures p - 8 in mem.words && mem.words[p - 8] == 0xDEADBEEFABCDDCBA
      ensures p in mem.words && mem.words[p] == n
      ensures Untouched(old(mem.words), mem.words, old(h.free))
    {
      hide Represents, Inv, Carve, Untouched, OnlyWithin;
      ghost var w := mem.words;
      LayoutCarved(h, k, n);
      CarveShape(h, k, n);
      Take(p, n, k);
      ghost var w1 := mem.words;
      WriteUsed(p - 8, n, Carve(h, k, n).free, h.live);
      UntouchedWithin(w1, mem.words, h.free, k, p - 8, p - 8 + USED_HEADER);
      UntouchedThen(w, w1, mem.words, h.free, h.free);
      h := Carve(h, k, n);
      UsedWords(mem.words, freeList, h.free, h.live, p - 8);
    }

    // Takes block k off the list or leaves its remainder there.
    method Take(p: int, n: int, ghost k: int)
      requires Valid() && 0 <= k < |h.free| && p == h.free[k].addr + 8 && MIN_FREE <= n <= h.free[k].size
      modifies this`freeList, mem
      ensures Represents(mem.words, freeList, Carve(h, k, n).free, h.live)
      ensures Untouched(old(mem.words), mem.words, h.free)
    {
      hide Represents, Inv, Carve, UnlinkStores, DeleteStores, CanUnlink, Untouched;
      FreeSizes(h, k);
      BlockWords(mem.words, freeList, h.free, h.live, k);
      InvLayout(h);
      LayoutDistinct(h.free, h.live, 0, k);
      CarveShape(h, k, n);
      if p == freeList {
        if mem.words[p + 16] - n < MIN_FREE {
          DeleteBlock(mem.words, freeList, h.free, h.live, k);
          freeList := mem.Delete(freeList, p);
        } else {
          SplitHead(p, n);
        }
      } else {
        if mem.words[p + 16] - n < MIN_FREE {
          DeleteBlock(mem.words, freeList, h.free, h.live, k);
          freeList := mem.Delete(freeList, p);
        } else {
          SplitInner(p, n, k);
        }
      }
    }

    method WriteUsed(a: int, n: int, ghost f: seq<Block>, ghost live: map<int, int>)
      requires Represents(mem.words, freeList, f, live) && HeadersAvoid(f, live, a, a + USED_HEADER)
      modifies mem
      ensures Represents(mem.words, freeList, f, live[a := n])
      ensures OnlyWithin(old(mem.words), mem.words, a, a + USED_HEADER)
    {
      hide Represents, HeadersAvoid;
      WriteUsedHeader(mem.words, freeList, f, live, a, n);
      mem.Write(a, MAGIC);
      mem.Write(a + 8, n);
    }

    // The scan of kmem_free: the last block not above ptr, if any.
    method FindPlace(ptr: int, ghost f: seq<Block>, ghost live: map<int, int>) returns (prev: int, ghost k: int)
      requires Represents(mem.words, freeList, f, live) && Layout(f, live) && freeList != NULL
      ensures 0 <= k <= |f| && k == Position(f, ptr)
      ensures prev == if k > 0 then f[k - 1].addr + 8 else NULL
    {
      hide Represents, Layout;
      EmptyList(mem.words, freeList, f, live);
      BlockWords(mem.words, freeList, f, live, 0);
      var p := freeList;
      prev, k := NULL, 0;
      while true
        invariant 0 <= k < |f| && p == f[k].addr + 8
        invariant prev == if k > 0 then f[k - 1].addr + 8 else NULL
        invariant forall i | 0 <= i < k :: f[i].addr <= ptr
        decreases |f| - k
      {
        BlockWords(mem.words, freeList, f, live, k);
        if p - 8 > ptr {
          return;
        }
        prev, p, k := p, mem.words[p], k + 1;
        if k < |f| { LayoutDistinct(f, live, 0, k); }
        if p == freeList {
          return;
        }
      }
    }

    // Links the block at b, whose header is written, into the free list by address.
    method LinkIn(b: int, ptr: int, ghost f: seq<Block>, ghost live: map<int, int>, ghost n: int)
      requires Represents(mem.words, freeList, f, live) && Layout(f, live)
      requires FreeHeader(mem.words, Block(b, n)) && Links(mem.words, b + 8, b + 8, b + 8)
      requires Layout(WithBlock(f, Position(f, ptr), Block(b, n)), live) && b > 0
      modifies this`freeList, mem
      ensures Represents(mem.words, freeList, WithBlock(f, Position(f, ptr), Block(b, n)), live)
      ensures OnlyNodes(old(mem.words), mem.words, Nodes(f) + [b + 8])
    {
      hide Represents, Layout, InsertStores, PushBackStores, Store, FreeHeader, Links, WithBlock, OnlyNodes, Position, Nodes;
      EmptyList(mem.words, freeList, f, live);
      if freeList != NULL {
        var prev, k := FindPlace(ptr, f, live);
        if prev == NULL {
          BlockWords(mem.words, freeList, f, live, 0);
          if k > 0 { BlockWords(mem.words, freeList, f, live, k - 1); }
          PushBlock(mem.words, freeList, f, live, Block(b, n));
          LinkFront(b + 8);
        } else {
          InsertBlock(mem.words, freeList, f, live, k, Block(b, n));
          PlaceApart(f, live, k, Block(b, n));
          var _ := mem.Insert(prev, b + 8);
        }
      } else {
        SameNodes(mem.words, Nodes(f) + [b + 8]);
        AloneInList(mem.words, freeList, f, live, Block(b, n));
        freeList := b + 8;
      }
    }

    // The head insertion kmem_free spells out itself.
    method LinkFront(p: int)
      requires freeList != NULL && freeList + 8 in mem.words
      modifies this`freeList, mem
      ensures mem.words == PushBackStores(old(mem.words), old(freeList), p) && freeList == p
    {
      var last := mem.words[freeList + 8];
      mem.Write(last, p);
      mem.Write(p + 8, last);
      mem.Write(p, freeList);
      mem.Write(freeList + 8, p);
      freeList := p;
    }

    // Merges block k with its predecessor if they touch; b is the merged block.
    method MergePrev(p: int, ghost g: seq<Block>, ghost live: map<int, int>, ghost k: int) returns (b: int, ghost i: int)
      requires Represents(mem.words, freeList, g, live) && Mergeable(g, live) && 0 <= k < |g| && g[k].addr == p
      modifies mem
      ensures if Touching(g, k - 1) then i == k - 1 && Represents(mem.words, freeList, Joined(g, i), live)
              else i == k && mem.words == old(mem.words)
      ensures b == g[i].addr
      ensures Untouched(old(mem.words), mem.words, g)
    {
      hide Represents, UnlinkStores, CanUnlink, Joined, Mergeable, Layout, Ascending, Untouched, AtLeast;
      SameUntouched(mem.words, g);
      MergeableLayout(g, live);
      TouchingTest(g, k);
      BlockWords(mem.words, freeList, g, live, k);
      BlockWords(mem.words, freeList, g, live, if k > 0 then k - 1 else |g| - 1);
      var prev := mem.words[p + 16] - 8;
      b, i := p, k;
      if prev + mem.words[prev + 24] == p {
        ghost var w := mem.words;
        mem.Write(prev + 24, mem.words[prev + 24] + mem.words[p + 24]);
        JoinBlocks(w, mem.words, freeList, g, live, k - 1);
        mem.UnlinkNode(p + 8);
        b, i := prev, k - 1;
      }
    }

    // Merges block i with its successor if they touch.
    method MergeNext(b: int, ghost g: seq<Block>, ghost live: map<int, int>, ghost i: int)
      requires Represents(mem.words, freeList, g, live) && Mergeable(g, live) && 0 <= i < |g| && g[i].addr == b
      modifies mem
      ensures Represents(mem.words, freeList, Joined(g, i), live)
      ensures Untouched(old(mem.words), mem.words, g)
    {
      hide Represents, UnlinkStores, CanUnlink, Mergeable, Layout, Ascending, Untouched, AtLeast;
      SameUntouched(mem.words, g);
      MergeableLayout(g, live);
      TouchingTest(g, i);
      BlockWords(mem.words, freeList, g, live, i);
      BlockWords(mem.words, freeList, g, live, if i + 1 < |g| then i + 1 else 0);
      var next := mem.words[b + 8] - 8;
      if b + mem.words[b + 24] == next {
        ghost var w := mem.words;
        mem.Write(b + 24, mem.words[b + 24] + mem.words[next + 24]);
        JoinBlocks(w, mem.words, freeList, g, live, i);
        mem.UnlinkNode(next + 8);
      }
    }

    // kmem_free. A pointer outside the heap, or one without the magic word in
    // front of it, is ignored.
    method Free(ptr: int)
      requires Valid()
      requires || ptr - USED_HEADER in h.live
               || ptr == NULL || ptr - USED_HEADER < start || ptr - USED_HEADER > start + size
               || (ptr - USED_HEADER in mem.words && mem.words[ptr - USED_HEADER] != MAGIC)
      modifies this, mem
      ensures Valid() && h == HeapModel.Free(old(h), ptr)
      ensures Untouched(old(mem.words), mem.words, h.free)
    {
      hide Represents, Inv, Coalesce, Mergeable, HeaderWritten, Untouched;
      SameUntouched(mem.words, h.free);
      var b := ptr - USED_HEADER;
      LiveWords(mem.words, freeList, h, b);
      if ptr == NULL {
        return;
      }
      if b < start || b > start + size {
        return;
      }
      if MAGIC != mem.words[b] {
        return;
      }
      var n := mem.words[b + 8];
      ghost var w := mem.words;
      WriteFreeHeader(b, n);
      ghost var w1 := mem.words;
      ReleasedHeader(w, w1, freeList, h, b);
      Release(b, ptr);
      FreeSound(h, ptr);
      HeaderUntouched(w, w1, h, b);
      UntouchedThen(w, w1, mem.words, HeapModel.Free(h, ptr).free, HeapModel.Free(h, ptr).free);
      h := HeapModel.Free(h, ptr);
    }

    method Release(b: int, ptr: int)
      requires Inv(h) && b in h.live && ptr == b + USED_HEADER
      requires Represents(mem.words, freeList, h.free, h.live - {b})
      requires FreeHeader(mem.words, Block(b, h.live[b])) && Links(mem.words, b + 8, b + 8, b + 8)
      modifies this`freeList, mem
      ensures Represents(mem.words, freeList, HeapModel.Free(h, ptr).free, h.live - {b})
      ensures Untouched(old(mem.words), mem.words, HeapModel.Free(h, ptr).free)
    {
      hide Represents, Inv, Mergeable, Layout, FreeHeader, Links, Joined, Untouched, OnlyNodes, Position, Nodes;
      ghost var w := mem.words;
      ghost var live := h.live - {b};
      ghost var k := Position(h.free, ptr);
      ghost var g := WithBlock(h.free, k, Block(b, h.live[b]));
      assert g[k] == Block(b, h.live[b]);
      MergeableInserted(h, b);
      MergeableLayout(g, live);
      LiveInside(h, b);
      InvLayout(h);
      LayoutFewer(h.free, h.live, b);
      LinkIn(b, ptr, h.free, live, h.live[b]);
      ghost var w1 := mem.words;
      InsertUntouched(w, w1, h.free, k, Block(b, h.live[b]));
      var p, i := MergePrev(b, g, live, k);
      ghost var w2 := mem.words;
      UntouchedThen(w, w1, w2, g, g);
      ghost var g' := if i < k then Joined(g, i) else g;
      MergeableJoined(g, live, i);
      JoinedAddr(g, i);
      MergeNext(p, g', live, i);
      JoinedBytes(g, live, i);
      UntouchedThen(w, w2, mem.words, g, g');
      ReleasedUntouched(w, mem.words, h, b);
    }

    // A client stores a word in the payload of a block it owns: no list link, size
    // or magic word changes.
    method ClientWrite(ptr: int, offset: int, v: int)
      requires Valid() && ptr - USED_HEADER in h.live
      requires 0 <= offset && offset + 8 <= h.live[ptr - USED_HEADER] - USED_HEADER
      modifies mem
      ensures Valid()
    {
      hide Represents, Inv;
      ghost var w := mem.words;
      PayloadApart(h, ptr - USED_HEADER, ptr + offset);
      mem.Write(ptr + offset, v);
      RegionFrame(w, mem.words, freeList, h.free, h.live, ptr + offset, ptr + offset + 8);
    }
  }
}
