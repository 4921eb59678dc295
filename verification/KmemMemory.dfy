// How the heap of HeapModel lies in memory: a free block at b has its magic word
// at b, its list node at b + 8 and its size at b + 24; a used block at a has its
// magic word at a and its size at a + 8, over the dead list node.
module KmemMemory {
  import opened Common
  import opened Memory
  import opened IntrusiveList
  import opened HeapModel

  const MAGIC: int := 0xDEADBEEFABCDDCBA

  function Nodes(f: seq<Block>): (s: seq<int>)
    ensures |s| == |f| && forall i | 0 <= i < |f| :: s[i] == f[i].addr + 8
  {
    seq(|f|, i requires 0 <= i < |f| => f[i].addr + 8)
  }

  predicate FreeHeader(w: Words, b: Block) {
    b.addr in w && w[b.addr] == MAGIC && b.addr + 24 in w && w[b.addr + 24] == b.size
  }

  predicate UsedHeader(w: Words, a: int, n: int) {
    a in w && w[a] == MAGIC && a + 8 in w && w[a + 8] == n
  }

  predicate Headers(w: Words, f: seq<Block>, live: map<int, int>) {
    && (forall i | 0 <= i < |f| :: FreeHeader(w, f[i]))
    && (forall a | a in live :: UsedHeader(w, a, live[a]))
  }

  predicate Represents(w: Words, head: int, f: seq<Block>, live: map<int, int>) {
    IsList(w, head, Nodes(f)) && Headers(w, f, live)
  }

  // Headers do not overlap.
  predicate Layout(f: seq<Block>, live: map<int, int>) {
    && (forall i | 0 <= i < |f| :: f[i].addr > 0)
    && (forall i, j | 0 <= i < j < |f| :: f[i].addr + FREE_HEADER <= f[j].addr)
    && (forall i, a | 0 <= i < |f| && a in live ::
          f[i].addr + FREE_HEADER <= a || a + USED_HEADER <= f[i].addr)
  }

  ghost predicate OnlyWithin(w: Words, w': Words, lo: int, hi: int) {
    forall a | a + 8 <= lo || hi <= a :: SameWord(w, w', a)
  }

  predicate HeadersAvoid(f: seq<Block>, live: map<int, int>, lo: int, hi: int) {
    && (forall i | 0 <= i < |f| :: f[i].addr + FREE_HEADER <= lo || hi <= f[i].addr)
    && (forall a | a in live :: a + USED_HEADER <= lo || hi <= a)
  }

  lemma RegionFrame(w: Words, w': Words, head: int, f: seq<Block>, live: map<int, int>, lo: int, hi: int)
    requires Represents(w, head, f, live) && OnlyWithin(w, w', lo, hi) && HeadersAvoid(f, live, lo, hi)
    ensures Represents(w', head, f, live)
  {
    var s := Nodes(f);
    forall i | 0 <= i < |s| ensures LinkedAt(w', s, i) && FreeHeader(w', f[i]) {
      assert LinkedAt(w, s, i) && FreeHeader(w, f[i]);
      var b := f[i].addr;
      assert SameWord(w, w', b) && SameWord(w, w', b + 8) && SameWord(w, w', b + 16) && SameWord(w, w', b + 24);
    }
    forall a | a in live ensures UsedHeader(w', a, live[a]) {
      assert UsedHeader(w, a, live[a]);
      assert SameWord(w, w', a) && SameWord(w, w', a + 8);
    }
  }

  // Relinking nodes of g leaves every magic and size word alone.
  lemma HeaderFrame(w: Words, w': Words, g: seq<Block>, f: seq<Block>, live: map<int, int>)
    requires OnlyNodes(w, w', Nodes(g)) && Headers(w, f, live) && Layout(g, live)
    requires forall i | 0 <= i < |f| :: f[i] in g
    ensures Headers(w', f, live)
  {
    var s := Nodes(g);
    forall i | 0 <= i < |f| ensures FreeHeader(w', f[i]) {
      var b := f[i];
      var k :| 0 <= k < |g| && g[k] == b;
      assert FreeHeader(w, b);
      forall j | 0 <= j < |s| ensures OffNode(s[j], b.addr) && OffNode(s[j], b.addr + 24) {
        assert j < k ==> g[j].addr + FREE_HEADER <= g[k].addr;
        assert k < j ==> g[k].addr + FREE_HEADER <= g[j].addr;
      }
      assert SameWord(w, w', b.addr) && SameWord(w, w', b.addr + 24);
    }
    forall a | a in live ensures UsedHeader(w', a, live[a]) {
      assert UsedHeader(w, a, live[a]);
      forall j | 0 <= j < |s| ensures OffNode(s[j], a) && OffNode(s[j], a + 8) {
        assert g[j].addr + FREE_HEADER <= a || a + USED_HEADER <= g[j].addr;
      }
      assert SameWord(w, w', a) && SameWord(w, w', a + 8);
    }
  }

  lemma InvLayout(h: Heap)
    requires Inv(h)
    ensures Layout(h.free, h.live)
  {
    forall i | 0 <= i < |h.free| ensures h.free[i].addr > 0 { FreeInside(h, i); }
    forall i, a | 0 <= i < |h.free| && a in h.live
      ensures h.free[i].addr + FREE_HEADER <= a || a + USED_HEADER <= h.free[i].addr
    {
      assert SeparateFrom(h.live, h.free[i].addr, h.free[i].size);
    }
  }

  // ---- writing headers --------------------------------------------------------

  // A free block's header has been written at b and nothing outside it touched.
  ghost predicate HeaderWritten(w: Words, w': Words, b: Block) {
    && OnlyWithin(w, w', b.addr, b.addr + FREE_HEADER)
    && FreeHeader(w', b)
    && Links(w', b.addr + 8, b.addr + 8, b.addr + 8)
  }

  lemma HeaderInitFirst(w: Words, b: Block)
    ensures HeaderWritten(w, Store(Store(InitStores(w, b.addr + 8), b.addr + 24, b.size), b.addr, MAGIC), b)
  {
  }

  lemma InitKeeps(w: Words, q: int, a: int)
    requires a in w && OffNode(q, a)
    ensures a in InitStores(w, q) && InitStores(w, q)[a] == w[a]
  {
  }

  lemma HeaderInitLast(w: Words, b: Block)
    ensures HeaderWritten(w, InitStores(Store(Store(w, b.addr + 24, b.size), b.addr, MAGIC), b.addr + 8), b)
  {
  }

  function UsedHeaderStores(w: Words, a: int, n: int): Words {
    Store(Store(w, a, MAGIC), a + 8, n)
  }

  lemma WriteUsedHeader(w: Words, head: int, f: seq<Block>, live: map<int, int>, a: int, n: int)
    requires Represents(w, head, f, live) && HeadersAvoid(f, live, a, a + USED_HEADER)
    ensures Represents(UsedHeaderStores(w, a, n), head, f, live[a := n])
  {
    RegionFrame(w, UsedHeaderStores(w, a, n), head, f, live, a, a + USED_HEADER);
  }

  // ---- relinking ----------------------------------------------------------------

  lemma OnlyNodesGrow(w: Words, w': Words, s: seq<int>, t: seq<int>)
    requires OnlyNodes(w, w', s) && forall i | 0 <= i < |s| :: s[i] in t
    ensures OnlyNodes(w, w', t)
  {
    forall a | (forall i | 0 <= i < |t| :: OffNode(t[i], a)) ensures SameWord(w, w', a) {
      forall i | 0 <= i < |s| ensures OffNode(s[i], a) {
        var j :| 0 <= j < |t| && t[j] == s[i];
      }
    }
  }

  lemma RemovedBlocks(f: seq<Block>, k: int)
    requires 0 <= k < |f|
    ensures Nodes(RemovedAt(f, k)) == RemovedAt(Nodes(f), k)
    ensures forall i | 0 <= i < |f| - 1 :: RemovedAt(f, k)[i] == f[if i < k then i else i + 1]
  {
  }

  lemma RemovedHeaders(w: Words, w': Words, f: seq<Block>, live: map<int, int>, k: int)
    requires OnlyNodes(w, w', Nodes(f)) && Headers(w, f, live) && Layout(f, live) && 0 <= k < |f|
    ensures Headers(w', RemovedAt(f, k), live)
  {
    RemovedBlocks(f, k);
    HeaderFrame(w, w', f, RemovedAt(f, k), live);
  }

  // Only words that meet bytes of the blocks f have changed.
  ghost predicate Untouched(w: Words, w': Words, f: seq<Block>) {
    forall a | (forall x | a <= x < a + 8 :: !FreeByte(f, x)) :: SameWord(w, w', a)
  }

  lemma UntouchedWithin(w: Words, w': Words, f: seq<Block>, i: int, lo: int, hi: int)
    requires OnlyWithin(w, w', lo, hi) && 0 <= i < |f| && f[i].addr <= lo < hi <= f[i].End()
    ensures Untouched(w, w', f)
  {
    forall a | (forall x | a <= x < a + 8 :: !FreeByte(f, x)) ensures SameWord(w, w', a) {
      var x := if a < lo then lo else a;
      assert lo <= x < hi ==> FreeByte(f, x);
    }
  }

  lemma UntouchedNodes(w: Words, w': Words, f: seq<Block>)
    requires OnlyNodes(w, w', Nodes(f)) && AtLeast(f, FREE_HEADER)
    ensures Untouched(w, w', f)
  {
    forall a | (forall x | a <= x < a + 8 :: !FreeByte(f, x)) ensures SameWord(w, w', a) {
      var s := Nodes(f);
      forall i | 0 <= i < |s| ensures OffNode(s[i], a) {
        var x := if a < s[i] then s[i] else a;
        assert s[i] <= x < s[i] + 16 ==> FreeByte(f, x);
      }
    }
  }

  lemma UntouchedThen(w: Words, w1: Words, w2: Words, f: seq<Block>, g: seq<Block>)
    requires Untouched(w, w1, f) && Untouched(w1, w2, g)
    requires forall x | FreeByte(g, x) :: FreeByte(f, x)
    ensures Untouched(w, w2, f)
  {
    forall a | (forall x | a <= x < a + 8 :: !FreeByte(f, x)) ensures SameWord(w, w2, a) {
      assert SameWord(w, w1, a);
      assert forall x | a <= x < a + 8 :: !FreeByte(g, x);
      assert SameWord(w1, w2, a);
    }
  }

  lemma UntouchedMore(w: Words, w': Words, f: seq<Block>, g: seq<Block>)
    requires Untouched(w, w', f) && forall x | FreeByte(f, x) :: FreeByte(g, x)
    ensures Untouched(w, w', g)
  {
    forall a | (forall x | a <= x < a + 8 :: !FreeByte(g, x)) ensures SameWord(w, w', a) {
      assert forall x | a <= x < a + 8 :: !FreeByte(f, x);
    }
  }

  // Deleting block k from the list.
  lemma DeleteBlock(w: Words, head: int, f: seq<Block>, live: map<int, int>, k: int)
    requires Represents(w, head, f, live) && Layout(f, live) && 0 <= k < |f|
    ensures CanUnlink(w, f[k].addr + 8)
    ensures var (w', head') := DeleteStores(w, head, f[k].addr + 8);
            Represents(w', head', RemovedAt(f, k), live) && (AtLeast(f, FREE_HEADER) ==> Untouched(w, w', f))
  {
    DeleteRing(w, head, Nodes(f), k);
    RemovedBlocks(f, k);
    var w' := DeleteStores(w, head, f[k].addr + 8).0;
    RemovedHeaders(w, w', f, live, k);
    if AtLeast(f, FREE_HEADER) { UntouchedNodes(w, w', f); }
  }

  // Unlinking a block that is not the head.
  lemma UnlinkBlock(w: Words, head: int, f: seq<Block>, live: map<int, int>, k: int)
    requires Represents(w, head, f, live) && Layout(f, live) && 0 < k < |f|
    ensures CanUnlink(w, f[k].addr + 8)
    ensures Represents(UnlinkStores(w, f[k].addr + 8), head, RemovedAt(f, k), live)
    ensures OnlyNodes(w, UnlinkStores(w, f[k].addr + 8), Nodes(f))
  {
    UnlinkRing(w, Nodes(f), k);
    RemovedBlocks(f, k);
    RemovedHeaders(w, UnlinkStores(w, f[k].addr + 8), f, live, k);
  }

  function WithBlock(f: seq<Block>, k: int, b: Block): seq<Block>
    requires 0 <= k <= |f|
  {
    f[..k] + [b] + f[k..]
  }

  lemma InsertedBlocks(f: seq<Block>, live: map<int, int>, k: int, b: Block)
    requires 0 <= k <= |f| && Layout(WithBlock(f, k, b), live)
    ensures ApartFrom(Nodes(f), b.addr + 8) && b.addr + 8 != NULL
    ensures k > 0 ==> Nodes(WithBlock(f, k, b)) == InsertedAfter(Nodes(f), k - 1, b.addr + 8)
    ensures k == 0 ==> Nodes(WithBlock(f, k, b)) == Pushed(Nodes(f), b.addr + 8)
  {
    var g := WithBlock(f, k, b);
    assert g[k] == b;
    forall i | 0 <= i < |f| ensures Apart(Nodes(f)[i], b.addr + 8) {
      assert f[i] == g[if i < k then i else i + 1];
    }
  }

  lemma InsertedHeaders(w: Words, w': Words, f: seq<Block>, live: map<int, int>, k: int, b: Block)
    requires 0 <= k <= |f| && Layout(WithBlock(f, k, b), live)
    requires Headers(w, f, live) && FreeHeader(w, b) && OnlyNodes(w, w', Nodes(f) + [b.addr + 8])
    ensures Headers(w', WithBlock(f, k, b), live)
  {
    var g := WithBlock(f, k, b);
    var s := Nodes(f) + [b.addr + 8];
    forall i | 0 <= i < |s| ensures s[i] in Nodes(g) {
      assert s[i] == Nodes(g)[if i == |f| then k else if i < k then i else i + 1];
    }
    OnlyNodesGrow(w, w', s, Nodes(g));
    forall i | 0 <= i < |g| ensures FreeHeader(w, g[i]) {
      assert i < k ==> FreeHeader(w, f[i]);
      assert i > k ==> FreeHeader(w, f[i - 1]);
    }
    HeaderFrame(w, w', g, g, live);
  }

  // Linking in a block whose header is already written, behind block k - 1.
  lemma InsertBlock(w: Words, head: int, f: seq<Block>, live: map<int, int>, k: int, b: Block)
    requires Represents(w, head, f, live) && 0 < k <= |f| && FreeHeader(w, b)
    requires Layout(WithBlock(f, k, b), live)
    ensures f[k - 1].addr + 8 in w
    ensures Represents(InsertStores(w, f[k - 1].addr + 8, b.addr + 8), head, WithBlock(f, k, b), live)
    ensures OnlyNodes(w, InsertStores(w, f[k - 1].addr + 8, b.addr + 8), Nodes(f) + [b.addr + 8])
  {
    hide InsertStores, Ring, OnlyNodes, Layout, Headers, FreeHeader, InsertedAfter;
    InsertedBlocks(f, live, k, b);
    InsertRing(w, Nodes(f), k - 1, b.addr + 8);
    InsertedHeaders(w, InsertStores(w, f[k - 1].addr + 8, b.addr + 8), f, live, k, b);
  }

  // Linking it in front of the head.
  lemma PushBlock(w: Words, head: int, f: seq<Block>, live: map<int, int>, b: Block)
    requires Represents(w, head, f, live) && FreeHeader(w, b)
    requires Layout(WithBlock(f, 0, b), live)
    ensures head == NULL || head + 8 in w
    ensures Represents(PushBackStores(w, head, b.addr + 8), b.addr + 8, WithBlock(f, 0, b), live)
    ensures OnlyNodes(w, PushBackStores(w, head, b.addr + 8), Nodes(f) + [b.addr + 8])
  {
    hide PushBackStores, Ring, OnlyNodes, Layout, Headers, FreeHeader;
    InsertedBlocks(f, live, 0, b);
    PushBackRing(w, head, Nodes(f), b.addr + 8);
    InsertedHeaders(w, PushBackStores(w, head, b.addr + 8), f, live, 0, b);
  }

  // Linking it behind the last block and taking it as the head.
  lemma WrapBlock(w: Words, head: int, f: seq<Block>, live: map<int, int>, b: Block)
    requires Represents(w, head, f, live) && FreeHeader(w, b) && f != []
    requires Layout(WithBlock(f, 0, b), live)
    ensures f[|f| - 1].addr + 8 in w
    ensures Represents(InsertStores(w, f[|f| - 1].addr + 8, b.addr + 8), b.addr + 8, WithBlock(f, 0, b), live)
    ensures OnlyNodes(w, InsertStores(w, f[|f| - 1].addr + 8, b.addr + 8), Nodes(f) + [b.addr + 8])
  {
    hide InsertStores, Ring, OnlyNodes, Layout, Headers, FreeHeader;
    var s, p, k := Nodes(f), b.addr + 8, |f| - 1;
    InsertedBlocks(f, live, 0, b);
    InsertRing(w, s, k, p);
    var w' := InsertStores(w, s[k], p);
    assert InsertedAfter(s, k, p) == s + [p];
    RotateBackRing(w', s, p);
    InsertedHeaders(w, w', f, live, 0, b);
  }

  lemma HeaderKept(w: Words, w': Words, f: seq<Block>, c: Block)
    requires OnlyNodes(w, w', Nodes(f)) && FreeHeader(w, c)
    requires forall i | 0 <= i < |f| :: f[i].addr + FREE_HEADER <= c.addr || c.addr + FREE_HEADER <= f[i].addr
    ensures FreeHeader(w', c)
  {
    var s := Nodes(f);
    forall i | 0 <= i < |s| ensures OffNode(s[i], c.addr) && OffNode(s[i], c.addr + 24) {
      assert f[i].addr + FREE_HEADER <= c.addr || c.addr + FREE_HEADER <= f[i].addr;
    }
    assert SameWord(w, w', c.addr) && SameWord(w, w', c.addr + 24);
  }

  // Block k is unlinked; the head moves on if it was the head.
  lemma UnlinkAny(w: Words, head: int, f: seq<Block>, live: map<int, int>, k: int)
    requires Represents(w, head, f, live) && Layout(f, live) && 0 <= k < |f| && |f| > 1
    ensures CanUnlink(w, f[k].addr + 8)
    ensures w[f[k].addr + 16] == f[if k > 0 then k - 1 else |f| - 1].addr + 8
    ensures OnlyNodes(w, UnlinkStores(w, f[k].addr + 8), Nodes(f))
    ensures Represents(UnlinkStores(w, f[k].addr + 8), if k == 0 then f[1].addr + 8 else head, RemovedAt(f, k), live)
  {
    hide UnlinkStores, CanUnlink, OnlyNodes, Layout, Headers, Spaced;
    var s := Nodes(f);
    assert LinkedAt(w, s, k);
    UnlinkRing(w, s, k);
    RemovedBlocks(f, k);
    RemovedHeaders(w, UnlinkStores(w, s[k]), f, live, k);
  }

  // Block k leaves the list and c, whose header is already written, takes its place.
  lemma ReplaceBlock(w: Words, head: int, f: seq<Block>, live: map<int, int>, k: int, c: Block)
    requires Represents(w, head, f, live) && Layout(f, live) && 0 <= k < |f| && |f| > 1
    requires FreeHeader(w, c) && Layout(f[k := c], live)
    requires forall i | 0 <= i < |f| :: f[i].addr + FREE_HEADER <= c.addr || c.addr + FREE_HEADER <= f[i].addr
    ensures CanUnlink(w, f[k].addr + 8)
    ensures var prev := w[f[k].addr + 16];
            var w1 := UnlinkStores(w, f[k].addr + 8);
            && prev in w1
            && Represents(InsertStores(w1, prev, c.addr + 8), if k == 0 then c.addr + 8 else head, f[k := c], live)
            && OnlyNodes(w, w1, Nodes(f))
            && OnlyNodes(w1, InsertStores(w1, prev, c.addr + 8), Nodes(RemovedAt(f, k)) + [c.addr + 8])
  {
    hide Represents, Layout, UnlinkStores, InsertStores, CanUnlink, OnlyNodes, RemovedAt, FreeHeader;
    UnlinkAny(w, head, f, live, k);
    var w1 := UnlinkStores(w, f[k].addr + 8);
    HeaderKept(w, w1, f, c);
    if k == 0 {
      RelinkHead(w1, f[1].addr + 8, f, live, c);
    } else {
      RelinkInner(w1, head, f, live, k, c);
    }
  }

  lemma ReplacedBlocks(f: seq<Block>, k: int, c: Block)
    requires 0 <= k < |f|
    ensures WithBlock(RemovedAt(f, k), k, c) == f[k := c]
    ensures k > 0 ==> RemovedAt(f, k)[k - 1] == f[k - 1]
    ensures k == 0 && |f| > 1 ==> RemovedAt(f, k)[|f| - 2] == f[|f| - 1]
  {
  }

  lemma RelinkHead(w: Words, head: int, f: seq<Block>, live: map<int, int>, c: Block)
    requires |f| > 1 && Represents(w, head, RemovedAt(f, 0), live) && FreeHeader(w, c) && Layout(f[0 := c], live)
    ensures f[|f| - 1].addr + 8 in w
    ensures Represents(InsertStores(w, f[|f| - 1].addr + 8, c.addr + 8), c.addr + 8, f[0 := c], live)
    ensures OnlyNodes(w, InsertStores(w, f[|f| - 1].addr + 8, c.addr + 8), Nodes(RemovedAt(f, 0)) + [c.addr + 8])
  {
    hide Represents, Layout, InsertStores, OnlyNodes, FreeHeader;
    ReplacedBlocks(f, 0, c);
    WrapBlock(w, head, RemovedAt(f, 0), live, c);
  }

  lemma RelinkInner(w: Words, head: int, f: seq<Block>, live: map<int, int>, k: int, c: Block)
    requires 0 < k < |f| && Represents(w, head, RemovedAt(f, k), live) && FreeHeader(w, c) && Layout(f[k := c], live)
    ensures f[k - 1].addr + 8 in w
    ensures Represents(InsertStores(w, f[k - 1].addr + 8, c.addr + 8), head, f[k := c], live)
    ensures OnlyNodes(w, InsertStores(w, f[k - 1].addr + 8, c.addr + 8), Nodes(RemovedAt(f, k)) + [c.addr + 8])
  {
    hide Represents, Layout, InsertStores, OnlyNodes, FreeHeader;
    ReplacedBlocks(f, k, c);
    InsertBlock(w, head, RemovedAt(f, k), live, k, c);
  }

  lemma LayoutReplaced(h: Heap, k: int, n: int)
    requires Inv(h) && 0 <= k < |h.free| && MIN_FREE <= n && h.free[k].size - n >= MIN_FREE
    ensures var b := h.free[k];
            var c := Block(b.addr + n, b.size - n);
            && Layout(h.free, h.live) && Layout(h.free[k := c], h.live)
            && HeadersAvoid(h.free, h.live, c.addr, c.addr + FREE_HEADER)
            && HeadersAvoid(h.free[k := c], h.live, b.addr, b.addr + USED_HEADER)
  {
    InvLayout(h);
    var b := h.free[k];
    assert SeparateFrom(h.live, b.addr, b.size);
  }

  lemma BlockWords(w: Words, head: int, f: seq<Block>, live: map<int, int>, k: int)
    requires Represents(w, head, f, live) && 0 <= k < |f|
    ensures var b := f[k].addr;
            && b in w && w[b] == MAGIC && b + 24 in w && w[b + 24] == f[k].size
            && Links(w, b + 8, f[if k > 0 then k - 1 else |f| - 1].addr + 8, f[if k + 1 < |f| then k + 1 else 0].addr + 8)
    ensures head == f[0].addr + 8 && f[k].addr + 8 != NULL
  {
    assert LinkedAt(w, Nodes(f), k) && FreeHeader(w, f[k]);
  }

  lemma UsedWords(w: Words, head: int, f: seq<Block>, live: map<int, int>, a: int)
    requires Represents(w, head, f, live) && a in live
    ensures a in w && w[a] == MAGIC && a + 8 in w && w[a + 8] == live[a]
  {
    assert UsedHeader(w, a, live[a]);
  }

  lemma LayoutDistinct(f: seq<Block>, live: map<int, int>, i: int, j: int)
    requires Layout(f, live) && 0 <= i < |f| && 0 <= j < |f|
    ensures f[i].addr == f[j].addr <==> i == j
  {
    assert i < j ==> f[i].addr + FREE_HEADER <= f[j].addr;
    assert j < i ==> f[j].addr + FREE_HEADER <= f[i].addr;
  }

  ghost predicate SplitStart(w: Words, w1: Words, head: int, h: Heap, k: int, n: int) {
    && Inv(h) && 0 <= k < |h.free| && Represents(w, head, h.free, h.live)
    && MIN_FREE <= n && h.free[k].size - n >= MIN_FREE
    && HeaderWritten(w, w1, Block(h.free[k].addr + n, h.free[k].size - n))
  }

  // Writing the remainder's header leaves the list as it was.
  lemma SplitHeader(w: Words, w1: Words, head: int, h: Heap, k: int, n: int)
    requires SplitStart(w, w1, head, h, k, n)
    ensures Represents(w1, head, h.free, h.live)
    ensures SameWord(w, w1, h.free[k].addr + 16)
  {
    var c := Block(h.free[k].addr + n, h.free[k].size - n);
    LayoutReplaced(h, k, n);
    RegionFrame(w, w1, head, h.free, h.live, c.addr, c.addr + FREE_HEADER);
  }

  // A lone block needs no relinking: its remainder is already a list.
  lemma SplitLone(w: Words, w1: Words, head: int, h: Heap, n: int)
    requires SplitStart(w, w1, head, h, 0, n) && |h.free| == 1
    ensures Represents(w1, h.free[0].addr + n + 8, Carve(h, 0, n).free, h.live)
    ensures Untouched(w, w1, h.free)
  {
    UntouchedWithin(w, w1, h.free, 0, h.free[0].addr + n, h.free[0].addr + n + FREE_HEADER);
    var c := Block(h.free[0].addr + n, h.free[0].size - n);
    SplitHeader(w, w1, head, h, 0, n);
    FreeInside(h, 0);
    LoneBlock(w1, c, h.live);
    assert h.free[0 := c] == [c];
  }

  // Otherwise unlinking block k and inserting the remainder behind its
  // predecessor puts the remainder in its place.
  lemma SplitMany(w: Words, w1: Words, head: int, h: Heap, k: int, n: int)
    requires SplitStart(w, w1, head, h, k, n) && |h.free| > 1
    ensures var p, q := h.free[k].addr + 8, h.free[k].addr + n + 8;
            && CanUnlink(w1, p)
            && w1[p + 8] in UnlinkStores(w1, p)
            && Represents(InsertStores(UnlinkStores(w1, p), w1[p + 8], q), if k == 0 then q else head, Carve(h, k, n).free, h.live)
            && Untouched(w, InsertStores(UnlinkStores(w1, p), w1[p + 8], q), h.free)
  {
    hide Represents, Layout, Inv, UnlinkStores, InsertStores, CanUnlink, OnlyNodes, Untouched, RemovedAt;
    var c := Block(h.free[k].addr + n, h.free[k].size - n);
    SplitHeader(w, w1, head, h, k, n);
    LayoutReplaced(h, k, n);
    ReplaceBlock(w1, head, h.free, h.live, k, c);
    BlockWords(w1, head, h.free, h.live, k);
    SplitUntouched(w, w1, UnlinkStores(w1, h.free[k].addr + 8),
                   InsertStores(UnlinkStores(w1, h.free[k].addr + 8), w1[h.free[k].addr + 16], c.addr + 8), h, k, n);
  }

  lemma SplitUntouched(w: Words, w1: Words, w2: Words, w3: Words, h: Heap, k: int, n: int)
    requires Inv(h) && 0 <= k < |h.free| && MIN_FREE <= n && h.free[k].size - n >= MIN_FREE
    requires HeaderWritten(w, w1, Block(h.free[k].addr + n, h.free[k].size - n))
    requires OnlyNodes(w1, w2, Nodes(h.free))
    requires OnlyNodes(w2, w3, Nodes(RemovedAt(h.free, k)) + [h.free[k].addr + n + 8])
    ensures Untouched(w, w3, h.free)
  {
    hide Untouched, OnlyNodes, Inv, OnlyWithin;
    var f, b := h.free, h.free[k];
    var c := Block(b.addr + n, b.size - n);
    var g := RemovedAt(f, k) + [c];
    FreeSizes(h, k);
    UntouchedWithin(w, w1, f, k, c.addr, c.addr + FREE_HEADER);
    UntouchedNodes(w1, w2, f);
    assert Nodes(g) == Nodes(RemovedAt(f, k)) + [c.addr + 8];
    UntouchedNodes(w2, w3, g);
    UntouchedThen(w, w1, w2, f, f);
    forall x | FreeByte(g, x) ensures FreeByte(f, x) {
      FreeByteConcat(RemovedAt(f, k), [c], x);
      FreeByteOne(c, x);
      FreeByteConcat(f[..k], f[k + 1..], x);
      assert f == f[..k] + [b] + f[k + 1..];
      FreeByteAround(f[..k], b, f[k + 1..], x);
    }
    UntouchedThen(w, w2, w3, f, g);
  }

  lemma FreeSizes(h: Heap, k: int)
    requires Inv(h) && 0 <= k < |h.free|
    ensures AtLeast(h.free, FREE_HEADER) && AtLeast(RemovedAt(h.free, k), FREE_HEADER)
  {
  }

  // The predecessor of block k is the block itself only if it is alone.
  lemma SplitPrev(w: Words, head: int, h: Heap, k: int, n: int)
    requires Inv(h) && 0 <= k < |h.free| && Represents(w, head, h.free, h.live)
    requires MIN_FREE <= n && h.free[k].size - n >= MIN_FREE
    ensures var p := h.free[k].addr + 8;
            p + 8 in w && (w[p + 8] == p <==> |h.free| == 1) && Apart(w[p + 8], p + n)
  {
    BlockWords(w, head, h.free, h.live, k);
    LayoutReplaced(h, k, n);
    LayoutDistinct(h.free, h.live, k, if k > 0 then k - 1 else |h.free| - 1);
  }

  lemma LoneBlock(w: Words, c: Block, live: map<int, int>)
    requires FreeHeader(w, c) && Links(w, c.addr + 8, c.addr + 8, c.addr + 8) && Headers(w, [], live) && c.addr > 0
    ensures Represents(w, c.addr + 8, [c], live)
  {
    assert LinkedAt(w, Nodes([c]), 0);
  }

  lemma LayoutRemoved(h: Heap, k: int)
    requires Inv(h) && 0 <= k < |h.free| && h.free[k].size >= MIN_FREE
    ensures var b := h.free[k];
            && Layout(h.free, h.live)
            && HeadersAvoid(RemovedAt(h.free, k), h.live, b.addr, b.addr + USED_HEADER)
  {
    InvLayout(h);
    RemovedBlocks(h.free, k);
    assert SeparateFrom(h.live, h.free[k].addr, h.free[k].size);
  }

  lemma CarveShape(h: Heap, k: int, n: int)
    requires 0 <= k < |h.free|
    ensures var h', b := Carve(h, k, n), h.free[k];
            && h'.start == h.start && h'.size == h.size && h'.live == h.live[b.addr := n]
            && (b.size - n < MIN_FREE ==> h'.free == RemovedAt(h.free, k))
  {
  }

  lemma LayoutCarved(h: Heap, k: int, n: int)
    requires Inv(h) && 0 <= k < |h.free| && MIN_FREE <= n <= h.free[k].size
    ensures Layout(h.free, h.live)
    ensures HeadersAvoid(Carve(h, k, n).free, h.live, h.free[k].addr, h.free[k].addr + USED_HEADER)
  {
    if h.free[k].size - n < MIN_FREE { LayoutRemoved(h, k); } else { LayoutReplaced(h, k, n); }
  }

  lemma EmptyList(w: Words, head: int, f: seq<Block>, live: map<int, int>)
    requires Represents(w, head, f, live)
    ensures head == NULL <==> f == []
  {
    if f != [] { BlockWords(w, head, f, live, 0); }
  }

  // ---- merging --------------------------------------------------------------------

  // Block i takes over the size of its successor, which is then unlinked.
  lemma JoinBlocks(w: Words, w1: Words, head: int, f: seq<Block>, live: map<int, int>, i: int)
    requires Represents(w, head, f, live) && Layout(f, live) && Touching(f, i)
    requires w1 == Store(w, f[i].addr + 24, f[i].size + f[i + 1].size)
    ensures CanUnlink(w1, f[i + 1].addr + 8)
    ensures Represents(UnlinkStores(w1, f[i + 1].addr + 8), head, Joined(f, i), live)
    ensures AtLeast(f, FREE_HEADER) ==> Untouched(w, UnlinkStores(w1, f[i + 1].addr + 8), f)
  {
    hide Represents, Layout, UnlinkStores, CanUnlink, Untouched, Joined, Store;
    var size := f[i].size + f[i + 1].size;
    SizeWritten(w, w1, head, f, live, i, size);
    JoinResized(w1, head, f, live, i);
    if AtLeast(f, FREE_HEADER) {
      UntouchedWithin(w, w1, f, i, f[i].addr + 24, f[i].addr + 32);
      UntouchedThen(w, w1, UnlinkStores(w1, f[i + 1].addr + 8), f, f);
    }
  }

  lemma JoinResized(w: Words, head: int, f: seq<Block>, live: map<int, int>, i: int)
    requires Touching(f, i) && Layout(f, live)
    requires Represents(w, head, f[i := Block(f[i].addr, f[i].size + f[i + 1].size)], live)
    ensures CanUnlink(w, f[i + 1].addr + 8)
    ensures Represents(UnlinkStores(w, f[i + 1].addr + 8), head, Joined(f, i), live)
    ensures AtLeast(f, FREE_HEADER) ==> Untouched(w, UnlinkStores(w, f[i + 1].addr + 8), f)
  {
    hide Represents, Layout, UnlinkStores, CanUnlink, OnlyNodes, Untouched, RemovedAt, Joined;
    var g := f[i := Block(f[i].addr, f[i].size + f[i + 1].size)];
    ResizedBlocks(f, live, i);
    UnlinkBlock(w, head, g, live, i + 1);
    assert Nodes(g) == Nodes(f);
    if AtLeast(f, FREE_HEADER) { UntouchedNodes(w, UnlinkStores(w, f[i + 1].addr + 8), f); }
  }

  lemma ResizedBlocks(f: seq<Block>, live: map<int, int>, i: int)
    requires Touching(f, i) && Layout(f, live)
    ensures var g := f[i := Block(f[i].addr, f[i].size + f[i + 1].size)];
            Layout(g, live) && g[i + 1] == f[i + 1] && RemovedAt(g, i + 1) == Joined(f, i)
  {
  }

  lemma SizeWritten(w: Words, w1: Words, head: int, f: seq<Block>, live: map<int, int>, i: int, size: int)
    requires Represents(w, head, f, live) && Layout(f, live) && 0 <= i < |f|
    requires w1 == Store(w, f[i].addr + 24, size)
    ensures Represents(w1, head, f[i := Block(f[i].addr, size)], live)
  {
    var a := f[i].addr + 24;
    var g := f[i := Block(f[i].addr, size)];
    assert Nodes(g) == Nodes(f);
    var s := Nodes(f);
    forall j | 0 <= j < |s| ensures LinkedAt(w1, s, j) && FreeHeader(w1, g[j]) {
      assert LinkedAt(w, s, j) && FreeHeader(w, f[j]);
      assert j < i ==> f[j].addr + FREE_HEADER <= f[i].addr;
      assert i < j ==> f[i].addr + FREE_HEADER <= f[j].addr;
    }
    forall x | x in live ensures UsedHeader(w1, x, live[x]) {
      assert f[i].addr + FREE_HEADER <= x || x + USED_HEADER <= f[i].addr;
      assert UsedHeader(w, x, live[x]);
    }
  }

  // ---- releasing --------------------------------------------------------------------

  // What the merging steps rely on: ascending free blocks of header size or more
  // that avoid the live blocks.
  predicate Mergeable(f: seq<Block>, live: map<int, int>) {
    && Ascending(f) && AtLeast(f, FREE_HEADER) && Avoids(f, live)
    && (forall i | 0 <= i < |f| :: f[i].addr > 0)
    && (forall a | a in live :: live[a] >= MIN_FREE)
  }

  lemma MergeableLayout(f: seq<Block>, live: map<int, int>)
    requires Mergeable(f, live)
    ensures Layout(f, live) && Ascending(f) && AtLeast(f, FREE_HEADER)
  {
    forall i, a | 0 <= i < |f| && a in live
      ensures f[i].addr + FREE_HEADER <= a || a + USED_HEADER <= f[i].addr
    {
      assert SeparateFrom(live, f[i].addr, f[i].size);
    }
  }

  lemma PlacedAscending(h: Heap, a: int)
    requires Inv(h) && a in h.live
    ensures Ascending(WithBlock(h.free, Position(h.free, a + USED_HEADER), Block(a, h.live[a])))
  {
    hide Covered, NoOverlap, Ascending, Touching;
    PositionOf(h, a);
    InsertedAscending(h.free, Position(h.free, a + USED_HEADER), Block(a, h.live[a]));
  }

  lemma MergeableInserted(h: Heap, a: int)
    requires Inv(h) && a in h.live
    ensures Mergeable(WithBlock(h.free, Position(h.free, a + USED_HEADER), Block(a, h.live[a])), h.live - {a})
  {
    PlacedAscending(h, a);
    forall x | x in h.live ensures h.live[x] >= MIN_FREE { LiveInside(h, x); }
    hide Inv, Ascending, SeparateFrom, WithBlock, Position;
    var k, b := Position(h.free, a + USED_HEADER), Block(a, h.live[a]);
    var g := WithBlock(h.free, k, b);
    forall i | 0 <= i < |g|
      ensures SeparateFrom(h.live - {a}, g[i].addr, g[i].size) && g[i].size >= FREE_HEADER && g[i].addr > 0
    {
      PlacedClear(h, a, i);
    }
  }

  lemma PlacedClear(h: Heap, a: int, i: int)
    requires Inv(h) && a in h.live
    requires 0 <= i < |WithBlock(h.free, Position(h.free, a + USED_HEADER), Block(a, h.live[a]))|
    ensures var g := WithBlock(h.free, Position(h.free, a + USED_HEADER), Block(a, h.live[a]));
            SeparateFrom(h.live - {a}, g[i].addr, g[i].size) && g[i].size >= FREE_HEADER && g[i].addr > 0
  {
    hide Inv, SeparateFrom, HeadersAvoid;
    var k, b := Position(h.free, a + USED_HEADER), Block(a, h.live[a]);
    var g := WithBlock(h.free, k, b);
    if i == k {
      LiveInside(h, a);
      assert g[i] == b;
    } else {
      var j := if i < k then i else i - 1;
      assert g[i] == h.free[j];
      FreeClear(h, j);
      SeparateFromFewer(h.live, a, g[i].addr, g[i].size);
    }
  }

  lemma SeparateFromFewer(live: map<int, int>, a: int, x: int, n: int)
    requires SeparateFrom(live, x, n)
    ensures SeparateFrom(live - {a}, x, n)
  {
  }

  lemma FreeClear(h: Heap, j: int)
    requires Inv(h) && 0 <= j < |h.free|
    ensures SeparateFrom(h.live, h.free[j].addr, h.free[j].size) && h.free[j].addr > 0
    ensures h.free[j].size >= FREE_HEADER
  {
    FreeInside(h, j);
  }

  lemma LiveInside(h: Heap, a: int)
    requires Inv(h) && a in h.live
    ensures 0 < h.start <= a < h.End() && h.live[a] >= MIN_FREE
    ensures SeparateFrom(h.live - {a}, a, h.live[a])
    ensures HeadersAvoid(h.free, h.live - {a}, a, a + FREE_HEADER)
  {
    assert In(h.live, a);
    forall i | 0 <= i < |h.free| ensures h.free[i].addr + FREE_HEADER <= a || a + FREE_HEADER <= h.free[i].addr {
      FreeClear(h, i);
    }
  }

  lemma MergeableJoined(f: seq<Block>, live: map<int, int>, i: int)
    requires Mergeable(f, live) && 0 <= i < |f|
    ensures Mergeable(Joined(f, i), live)
  {
    if Touching(f, i) {
      var g := Joined(f, i);
      JoinedAbsorbs(f, i);
      AbsorbsAscending(f, g, i);
      JoinedAvoids(f, i, live, FREE_HEADER);
      forall j | 0 <= j < |g| ensures g[j].addr > 0 {
        assert g[j].addr == f[if j <= i then j else j + 1].addr;
      }
    }
  }

  // The neighbour test of kmem_free is the touching test: around the ends of the
  // ring it always fails.
  lemma TouchingTest(f: seq<Block>, i: int)
    requires Ascending(f) && 0 <= i < |f|
    ensures f[i].End() == f[if i + 1 < |f| then i + 1 else 0].addr <==> Touching(f, i)
    ensures f[if i > 0 then i - 1 else |f| - 1].End() == f[i].addr <==> Touching(f, i - 1)
  {
    if i + 1 == |f| && i > 0 { assert f[0].End() <= f[i].addr; }
    if i == 0 && |f| > 1 { assert f[0].End() <= f[|f| - 1].addr; }
  }

  lemma InsertUntouched(w: Words, w': Words, f: seq<Block>, k: int, b: Block)
    requires 0 <= k <= |f| && OnlyNodes(w, w', Nodes(f) + [b.addr + 8])
    requires AtLeast(WithBlock(f, k, b), FREE_HEADER)
    ensures Untouched(w, w', WithBlock(f, k, b))
  {
    var g := WithBlock(f, k, b);
    var s := Nodes(f) + [b.addr + 8];
    forall i | 0 <= i < |s| ensures s[i] in Nodes(g) {
      assert s[i] == Nodes(g)[if i == |f| then k else if i < k then i else i + 1];
    }
    OnlyNodesGrow(w, w', s, Nodes(g));
    UntouchedNodes(w, w', g);
  }

  // The bytes of the free list after a release are those of the list before it
  // and of the released block.
  lemma ReleasedUntouched(w: Words, w': Words, h: Heap, a: int)
    requires Inv(h) && a in h.live
    requires Untouched(w, w', WithBlock(h.free, Position(h.free, a + USED_HEADER), Block(a, h.live[a])))
    ensures Untouched(w, w', HeapModel.Free(h, a + USED_HEADER).free)
  {
    var k, b := Position(h.free, a + USED_HEADER), Block(a, h.live[a]);
    FreeSound(h, a + USED_HEADER);
    InsertedBytes(h.free, k, b);
    UntouchedMore(w, w', WithBlock(h.free, k, b), HeapModel.Free(h, a + USED_HEADER).free);
  }

  lemma HeaderUntouched(w: Words, w': Words, h: Heap, a: int)
    requires Inv(h) && a in h.live && HeaderWritten(w, w', Block(a, h.live[a]))
    ensures Untouched(w, w', HeapModel.Free(h, a + USED_HEADER).free)
  {
    LiveInside(h, a);
    var k, b := Position(h.free, a + USED_HEADER), Block(a, h.live[a]);
    assert WithBlock(h.free, k, b)[k] == b;
    UntouchedWithin(w, w', WithBlock(h.free, k, b), k, a, a + FREE_HEADER);
    ReleasedUntouched(w, w', h, a);
  }

  lemma JoinedBytes(f: seq<Block>, live: map<int, int>, i: int)
    requires Mergeable(f, live) && 0 <= i < |f|
    ensures forall x :: FreeByte(Joined(f, i), x) <==> FreeByte(f, x)
  {
    forall x ensures FreeByte(Joined(f, i), x) <==> FreeByte(f, x) { JoinedByte(f, i, x); }
  }

  lemma SameUntouched(w: Words, f: seq<Block>)
    ensures Untouched(w, w, f)
  {
  }

  lemma SameNodes(w: Words, s: seq<int>)
    ensures OnlyNodes(w, w, s)
  {
  }

  lemma PlaceApart(f: seq<Block>, live: map<int, int>, k: int, b: Block)
    requires 0 < k <= |f| && Layout(WithBlock(f, k, b), live)
    ensures Apart(f[k - 1].addr + 8, b.addr + 8)
  {
    var g := WithBlock(f, k, b);
    assert g[k - 1] == f[k - 1] && g[k] == b;
  }

  lemma AloneInList(w: Words, head: int, f: seq<Block>, live: map<int, int>, b: Block)
    requires Represents(w, head, f, live) && f == [] && b.addr > 0
    requires FreeHeader(w, b) && Links(w, b.addr + 8, b.addr + 8, b.addr + 8)
    ensures Represents(w, b.addr + 8, WithBlock(f, 0, b), live)
  {
    LoneBlock(w, b, live);
    assert WithBlock(f, 0, b) == [b];
  }

  lemma LiveWords(w: Words, head: int, h: Heap, a: int)
    requires Inv(h) && Represents(w, head, h.free, h.live)
    ensures a in h.live ==>
              && UsedHeader(w, a, h.live[a])
              && 0 < h.start <= a < h.End()
  {
    if a in h.live { LiveInside(h, a); }
  }

  lemma ReleasedHeader(w: Words, w': Words, head: int, h: Heap, a: int)
    requires Inv(h) && Represents(w, head, h.free, h.live) && a in h.live
    requires HeaderWritten(w, w', Block(a, h.live[a]))
    ensures Represents(w', head, h.free, h.live - {a})
    ensures FreeHeader(w', Block(a, h.live[a])) && Links(w', a + 8, a + 8, a + 8)
  {
    LiveInside(h, a);
    assert Represents(w, head, h.free, h.live - {a});
    RegionFrame(w, w', head, h.free, h.live - {a}, a, a + FREE_HEADER);
  }

  lemma LayoutFewer(f: seq<Block>, live: map<int, int>, a: int)
    requires Layout(f, live)
    ensures Layout(f, live - {a})
  {
  }

  lemma JoinedAddr(f: seq<Block>, i: int)
    requires 0 <= i < |f|
    ensures i < |Joined(f, i)| && Joined(f, i)[i].addr == f[i].addr
  {
  }

  lemma PayloadApart(h: Heap, a: int, x: int)
    requires Inv(h) && a in h.live && a + USED_HEADER <= x && x + 8 <= a + h.live[a]
    ensures HeadersAvoid(h.free, h.live, x, x + 8)
  {
    forall i | 0 <= i < |h.free| ensures h.free[i].addr + FREE_HEADER <= x || x + 8 <= h.free[i].addr {
      FreeClear(h, i);
    }
  }
}
