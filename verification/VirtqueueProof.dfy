// What every run of the virtqueue protocol keeps, and what follows for the
// sender: each accepted buffer is answered at most once, with its own context,
// address and length.
module VirtqueueProof {
  import opened Common
  import opened Arithmetic
  import opened RingBuffer
  import opened VirtqueueModel

  // ---- invariant -------------------------------------------------------------

  predicate ChainLink(desc: seq<Desc>, chain: seq<int>, i: int)
    requires 0 <= i < |chain|
  {
    0 <= chain[i] < |desc| && desc[chain[i]].next == if i + 1 < |chain| then chain[i + 1] else NIL
  }

  // chain is the list of free descriptors threaded through their next fields.
  predicate ChainOk(desc: seq<Desc>, freeList: int, chain: seq<int>) {
    && freeList == (if chain == [] then NIL else chain[0])
    && forall i | 0 <= i < |chain| :: ChainLink(desc, chain, i)
  }

  function Mine(pc: Pc): seq<int> { if Owns(pc) then [pc.idx] else [] }

  function Staged(pc: Pc): seq<int> { if pc.Index? then [pc.idx] else [] }

  function Posted(d: DevPc): seq<int> { if d.Posting? then [d.id] else [] }

  function Parts(chain: seq<int>, mine: seq<int>, pending: seq<int>, held: seq<int>, posted: seq<int>, used: seq<int>): multiset<int> {
    multiset(chain) + multiset(mine) + multiset(pending) + multiset(held) + multiset(posted) + multiset(used)
  }

  // Each of the n descriptors occurs exactly once.
  ghost predicate Once(n: int, parts: multiset<int>) {
    forall x :: parts[x] == if 0 <= x < n then 1 else 0
  }

  // Every descriptor is in exactly one of: free chain, being prepared,
  // available, device-held, being posted, used but not reaped.
  ghost predicate Partition(s: State) {
    Once(s.q.size, Parts(s.chain, Mine(s.pc), s.pending, s.held, Posted(s.dev), s.used))
  }

  // The popped descriptor is still counted until Count has run.
  function Uncounted(pc: Pc): int { if pc.Context? || pc.Count? then 1 else 0 }

  ghost predicate RingOk(ring: seq<int>, writeIdx: int, readIdx: int, from: nat, items: seq<int>, staged: seq<int>) {
    && |ring| > 0
    && writeIdx == (from + |items|) % WRAP
    && readIdx == from % WRAP
    && RingHolds(ring, from, items + staged)
  }

  // What the sender has already written into its descriptor.
  predicate PreparedOk(desc: seq<Desc>, ctx: seq<int>, pc: Pc) {
    Owns(pc) ==>
      && 0 <= pc.idx < |desc| && pc.idx < |ctx|
      && var d, r := desc[pc.idx], pc.r;
         && (!pc.Context? ==> ctx[pc.idx] == r.ctx)
         && (pc.Len? || pc.Flag? || pc.Link? || pc.Slot? || pc.Index? ==> d.addr == r.addr)
         && (pc.Flag? || pc.Link? || pc.Slot? || pc.Index? ==> d.len == r.len)
         && (pc.Link? || pc.Slot? || pc.Index? ==> d.flags == if r.writable then 2 else 0)
         && (pc.Slot? || pc.Index? ==> d.next == 0)
  }

  predicate InFlight(x: int, pending: seq<int>, held: seq<int>, posted: seq<int>, used: seq<int>) {
    x in pending || x in held || x in posted || x in used
  }

  ghost predicate Tracked(flight: map<int, nat>, pending: seq<int>, held: seq<int>, posted: seq<int>, used: seq<int>) {
    forall x :: x in flight <==> InFlight(x, pending, held, posted, used)
  }

  predicate Carries(desc: seq<Desc>, ctx: seq<int>, i: int, r: Request) {
    && 0 <= i < |desc| && i < |ctx|
    && ctx[i] == r.ctx && desc[i] == Desc(r.addr, r.len, if r.writable then 2 else 0, 0)
  }

  // Every descriptor in flight still holds the request it was published with.
  ghost predicate FlightOk(desc: seq<Desc>, ctx: seq<int>, sends: seq<Request>, flight: map<int, nat>) {
    && (forall x | x in flight :: flight[x] < |sends| && Carries(desc, ctx, x, sends[flight[x]]))
    && (forall x, y | x in flight && y in flight && x != y :: flight[x] != flight[y])
  }

  predicate Flying(flight: map<int, nat>, k: int) {
    exists x | x in flight :: flight[x] == k
  }

  function Answer(r: Request): Completion { Completion(r.ctx, r.addr, r.len) }

  // The handler calls so far answer distinct requests, each with the values it
  // was sent with; a request not yet answered is still in flight.
  ghost predicate DoneOk(sends: seq<Request>, flight: map<int, nat>, calls: seq<Completion>, done: seq<nat>) {
    && |calls| == |done|
    && (forall j | 0 <= j < |done| :: done[j] < |sends| && calls[j] == Answer(sends[done[j]]))
    && (forall i, j | 0 <= i < j < |done| :: done[i] != done[j])
    && (forall x | x in flight :: flight[x] !in done)
    && (forall k | 0 <= k < |sends| :: k in done || Flying(flight, k))
  }

  ghost predicate Inv(s: State) {
    && Shape(s.q) && Partition(s)
    && ChainOk(s.q.desc, s.q.freeList, s.chain)
    && s.q.numFree == |s.chain| + Uncounted(s.pc)
    && (s.pc.Pop? ==> s.q.numFree > 0)
    && RingOk(s.q.avail, s.q.availIdx, s.lastAvail, s.fetched, s.pending, Staged(s.pc))
    && RingOk(s.q.used, s.q.usedHdrIdx, s.q.usedIdx, s.reaped, s.used, Posted(s.dev))
    && PreparedOk(s.q.desc, s.q.ctx, s.pc)
    && Tracked(s.flight, s.pending, s.held, Posted(s.dev), s.used)
    && FlightOk(s.q.desc, s.q.ctx, s.sends, s.flight)
    && DoneOk(s.sends, s.flight, s.calls, s.done)
  }

  // ---- counting --------------------------------------------------------------------

  function Range(n: nat): (r: set<int>)
    ensures |r| == n && forall x :: x in r <==> 0 <= x < n
  {
    if n == 0 then {} else Range(n - 1) + {n - 1}
  }

  // The six parts together hold exactly size descriptors.
  lemma PartSizes(s: State)
    requires Partition(s) && s.q.size >= 0
    ensures |s.chain| + |Mine(s.pc)| + |s.pending| + |s.held| + |Posted(s.dev)| + |s.used| == s.q.size
  {
    var parts := Parts(s.chain, Mine(s.pc), s.pending, s.held, Posted(s.dev), s.used);
    assert parts == multiset(Range(s.q.size));
  }

  lemma Exclusive(s: State, x: int)
    requires Partition(s)
    ensures x in s.chain ==> !InFlight(x, s.pending, s.held, Posted(s.dev), s.used) && x !in Mine(s.pc)
    ensures x in Mine(s.pc) ==> !InFlight(x, s.pending, s.held, Posted(s.dev), s.used) && x !in s.chain
    ensures x in s.chain || x in Mine(s.pc) || InFlight(x, s.pending, s.held, Posted(s.dev), s.used) <==> 0 <= x < s.q.size
  {
    var parts := Parts(s.chain, Mine(s.pc), s.pending, s.held, Posted(s.dev), s.used);
    assert parts[x] <= 1;
  }

  // ---- rings -----------------------------------------------------------------------

  // Storing behind the items of a ring that is not full keeps them all.
  lemma RingStage(ring: seq<int>, w: int, r: int, from: nat, items: seq<int>, x: int)
    requires RingOk(ring, w, r, from, items, []) && |items| < |ring| && WRAP % |ring| == 0
    ensures w % |ring| == (from + |items|) % |ring|
    ensures RingOk(ring[w % |ring| := x], w, r, from, items, [x])
  {
    hide RingHolds;
    ModMod(WRAP, |ring|, from + |items|);
    assert items + [] == items;
    RingAppend(ring, from, items, x);
  }

  lemma RingAdvance(ring: seq<int>, w: int, r: int, from: nat, items: seq<int>, x: int)
    requires RingOk(ring, w, r, from, items, [x])
    ensures RingOk(ring, (w + 1) % WRAP, r, from, items + [x], [])
  {
    assert items + [x] + [] == items + [x];
  }

  // Different indices mean there is something to read, and it is the first item.
  lemma RingTake(ring: seq<int>, w: int, r: int, from: nat, items: seq<int>, staged: seq<int>)
    requires RingOk(ring, w, r, from, items, staged) && w != r && WRAP % |ring| == 0
    ensures items != [] && ring[r % |ring|] == items[0]
    ensures RingOk(ring, w, (r + 1) % WRAP, from + 1, items[1..], staged)
  {
    hide RingHolds;
    IndicesMove(w, r, from, |items|);
    ModMod(WRAP, |ring|, from);
    RingDrop(ring, from, items + staged);
    assert items[1..] + staged == (items + staged)[1..];
  }

  lemma IndicesMove(w: int, r: int, from: nat, n: nat)
    requires w == (from + n) % WRAP && r == from % WRAP && w != r
    ensures n > 0 && (r + 1) % WRAP == (from + 1) % WRAP
  {
    AddModulo(WRAP, from, 1);
  }

  // ---- initial state -----------------------------------------------------------

  lemma {:induction false} IdentityOnce(n: nat, x: int)
    ensures multiset(seq(n, i => i))[x] == if 0 <= x < n then 1 else 0
  {
    var f := seq(n, i => i);
    if n > 0 {
      var g := seq(n - 1, i => i);
      IdentityOnce(n - 1, x);
      assert f == g + [n - 1];
    }
  }

  lemma StartInv(size: int)
    requires 0 < size <= 0x8000 && WRAP % size == 0
    ensures Inv(Start(size))
  {
    var s := Start(size);
    forall x ensures Parts(s.chain, [], [], [], [], [])[x] == if 0 <= x < size then 1 else 0 {
      IdentityOnce(size, x);
    }
  }

  // ---- the sender's steps ----------------------------------------------------------

  lemma PcOnly(s: State, pc': Pc)
    requires Inv(s) && !Owns(s.pc) && !Owns(pc') && (pc'.Pop? ==> s.q.numFree > 0)
    ensures Inv(s.(pc := pc'))
  {
    hide DoneOk, FlightOk, ChainOk, RingOk, Tracked, Once, Parts;
  }

  lemma CheckStep(s: State, a: Action)
    requires Inv(s) && Enabled(s, a)
    requires a.Call? || (a.Send? && (s.pc.CheckList? || s.pc.CheckCount?))
    ensures Inv(Step(s, a))
  {
    hide DoneOk, FlightOk, ChainOk, RingOk, Tracked, Once, Parts, PreparedOk;
    PcOnly(s, Step(s, a).pc);
  }

  // The zero guard is enough: a sender at Pop finds a real descriptor.
  lemma PopFindsFree(s: State)
    requires Inv(s) && s.pc.Pop?
    ensures s.chain != [] && s.q.freeList == s.chain[0] && 0 <= s.q.freeList < s.q.size
  {
    assert ChainLink(s.q.desc, s.chain, 0);
  }

  lemma ChainPop(desc: seq<Desc>, freeList: int, chain: seq<int>)
    requires ChainOk(desc, freeList, chain) && chain != []
    ensures 0 <= freeList < |desc| && ChainOk(desc, desc[freeList].next, chain[1..])
  {
    assert ChainLink(desc, chain, 0);
    forall k | 0 <= k < |chain| - 1 ensures ChainLink(desc, chain[1..], k) {
      assert ChainLink(desc, chain, k + 1);
    }
  }

  lemma PopStep(s: State)
    requires Inv(s) && Enabled(s, Send) && s.pc.Pop?
    ensures Inv(Step(s, Send))
  {
    hide DoneOk, FlightOk, RingOk, Tracked, ChainOk, Once, Parts;
    var s' := Step(s, Send);
    PopFindsFree(s);
    ChainPop(s.q.desc, s.q.freeList, s.chain);
    MoveHead(s.chain, s.pending, s.held, Posted(s.dev), s.used);
  }

  lemma MoveHead(chain: seq<int>, pending: seq<int>, held: seq<int>, posted: seq<int>, used: seq<int>)
    requires chain != []
    ensures Parts(chain[1..], [chain[0]], pending, held, posted, used) == Parts(chain, [], pending, held, posted, used)
  {
    assert chain == [chain[0]] + chain[1..];
  }

  // desc' and ctx' differ from desc and ctx only at i.
  predicate SameBut(desc: seq<Desc>, desc': seq<Desc>, ctx: seq<int>, ctx': seq<int>, i: int) {
    && |desc'| == |desc| && |ctx'| == |ctx|
    && (forall j | 0 <= j < |desc| && j != i :: desc'[j] == desc[j])
    && (forall j | 0 <= j < |ctx| && j != i :: ctx'[j] == ctx[j])
  }

  lemma ChainSame(desc: seq<Desc>, desc': seq<Desc>, freeList: int, chain: seq<int>, i: int)
    requires ChainOk(desc, freeList, chain) && i !in chain && |desc'| == |desc|
    requires forall j | 0 <= j < |desc| && j != i :: desc'[j] == desc[j]
    ensures ChainOk(desc', freeList, chain)
  {
    forall k | 0 <= k < |chain| ensures ChainLink(desc', chain, k) {
      assert ChainLink(desc, chain, k) && chain[k] in chain;
    }
  }

  // Work on the sender's own descriptor disturbs nobody.
  lemma FillStep(s: State)
    requires Inv(s) && Enabled(s, Send) && Owns(s.pc) && !s.pc.Slot? && !s.pc.Index?
    ensures Inv(Step(s, Send))
  {
    hide DoneOk, RingOk, ChainOk, Once, Tracked, Parts;
    var s', i := Step(s, Send), s.pc.idx;
    assert i in Mine(s.pc);
    Exclusive(s, i);
    assert SameBut(s.q.desc, s'.q.desc, s.q.ctx, s'.q.ctx, i);
    ChainSame(s.q.desc, s'.q.desc, s.q.freeList, s.chain, i);
    NotTracked(s, i);
    assert FlightOk(s'.q.desc, s'.q.ctx, s.sends, s.flight);
  }

  lemma NotTracked(s: State, i: int)
    requires Inv(s) && !InFlight(i, s.pending, s.held, Posted(s.dev), s.used)
    ensures i !in s.flight
  {
  }

  // The slot about to be written is none that the device has yet to read.
  lemma SlotIsFree(s: State, j: int)
    requires Inv(s) && s.pc.Slot? && 0 <= j < |s.pending|
    ensures (s.fetched + j) % s.q.size != s.q.availIdx % s.q.size
  {
    hide RingHolds, DoneOk, FlightOk, ChainOk, PreparedOk, Tracked, Once, Parts;
    PartSizes(s);
    ModMod(WRAP, s.q.size, s.fetched + |s.pending|);
    RemaindersDiffer(s.q.size, s.fetched + j, s.fetched + |s.pending|);
  }

  lemma SlotStep(s: State)
    requires Inv(s) && Enabled(s, Send) && s.pc.Slot?
    ensures Inv(Step(s, Send))
  {
    hide DoneOk, FlightOk, RingOk, Tracked, ChainOk, Once, Parts;
    PartSizes(s);
    RingStage(s.q.avail, s.q.availIdx, s.lastAvail, s.fetched, s.pending, s.pc.idx);
  }

  lemma IndexStep(s: State)
    requires Inv(s) && Enabled(s, Send) && s.pc.Index?
    ensures Inv(Step(s, Send))
  {
    hide DoneOk, FlightOk, RingOk, Tracked, ChainOk, Once, Parts;
    var s', i := Step(s, Send), s.pc.idx;
    RingAdvance(s.q.avail, s.q.availIdx, s.lastAvail, s.fetched, s.pending, i);
    MoveMine(s.chain, i, s.pending, s.held, Posted(s.dev), s.used);
    assert i in Mine(s.pc);
    Exclusive(s, i);
    NotTracked(s, i);
    FlightAdd(s);
  }

  lemma MoveMine(chain: seq<int>, i: int, pending: seq<int>, held: seq<int>, posted: seq<int>, used: seq<int>)
    ensures Parts(chain, [], pending + [i], held, posted, used) == Parts(chain, [i], pending, held, posted, used)
  {
  }

  lemma FlightAdd(s: State)
    requires Inv(s) && s.pc.Index? && s.pc.idx !in s.flight
    ensures var flight, sends := s.flight[s.pc.idx := |s.sends|], s.sends + [s.pc.r];
            && Tracked(flight, s.pending + [s.pc.idx], s.held, Posted(s.dev), s.used)
            && FlightOk(s.q.desc, s.q.ctx, sends, flight)
            && DoneOk(sends, flight, s.calls, s.done)
  {
    hide RingOk, ChainOk, Once, Parts;
    DoneAdd(s.sends, s.flight, s.calls, s.done, s.pc.idx, s.pc.r);
  }

  lemma DoneAdd(sends: seq<Request>, flight: map<int, nat>, calls: seq<Completion>, done: seq<nat>, i: int, r: Request)
    requires DoneOk(sends, flight, calls, done) && i !in flight
    ensures DoneOk(sends + [r], flight[i := |sends|], calls, done)
  {
    var flight' := flight[i := |sends|];
    assert i in flight' && flight'[i] == |sends|;
    forall k | 0 <= k < |sends| ensures k in done || Flying(flight', k) {
      if x :| x in flight && flight[x] == k {
        assert x in flight' && flight'[x] == k;
      }
    }
  }

  // ---- the device's steps ------------------------------------------------------------

  lemma FetchStep(s: State)
    requires Inv(s) && Enabled(s, Fetch)
    ensures Inv(Step(s, Fetch))
    ensures s.pending != [] && Step(s, Fetch).held == s.held + [s.pending[0]]
  {
    hide DoneOk, FlightOk, RingOk, ChainOk, Once, Parts, PreparedOk;
    RingTake(s.q.avail, s.q.availIdx, s.lastAvail, s.fetched, s.pending, Staged(s.pc));
    MovePending(s.chain, Mine(s.pc), s.pending, s.held, Posted(s.dev), s.used);
    assert s.pending == [s.pending[0]] + s.pending[1..];
  }

  lemma MovePending(chain: seq<int>, mine: seq<int>, pending: seq<int>, held: seq<int>, posted: seq<int>, used: seq<int>)
    requires pending != []
    ensures Parts(chain, mine, pending[1..], held + [pending[0]], posted, used) == Parts(chain, mine, pending, held, posted, used)
  {
    assert pending == [pending[0]] + pending[1..];
  }

  lemma PostStep(s: State, k: int)
    requires Inv(s) && Enabled(s, Post(k))
    ensures Inv(Step(s, Post(k)))
  {
    hide DoneOk, FlightOk, RingOk, ChainOk, Once, Parts, PreparedOk;
    PartSizes(s);
    RingStage(s.q.used, s.q.usedHdrIdx, s.q.usedIdx, s.reaped, s.used, s.held[k]);
    MoveHeld(s.chain, Mine(s.pc), s.pending, s.held, s.used, k);
  }

  lemma MoveHeld(chain: seq<int>, mine: seq<int>, pending: seq<int>, held: seq<int>, used: seq<int>, k: int)
    requires 0 <= k < |held|
    ensures Parts(chain, mine, pending, RemovedAt(held, k), [held[k]], used) == Parts(chain, mine, pending, held, [], used)
    ensures forall x :: x in held <==> x in RemovedAt(held, k) || x == held[k]
  {
    assert held == held[..k] + [held[k]] + held[k + 1..];
  }

  lemma AdvanceStep(s: State)
    requires Inv(s) && Enabled(s, Advance)
    ensures Inv(Step(s, Advance))
  {
    hide DoneOk, FlightOk, RingOk, ChainOk, Once, Parts, PreparedOk;
    RingAdvance(s.q.used, s.q.usedHdrIdx, s.q.usedIdx, s.reaped, s.used, s.dev.id);
    MovePosted(s.chain, Mine(s.pc), s.pending, s.held, s.dev.id, s.used);
  }

  lemma MovePosted(chain: seq<int>, mine: seq<int>, pending: seq<int>, held: seq<int>, i: int, used: seq<int>)
    ensures Parts(chain, mine, pending, held, [], used + [i]) == Parts(chain, mine, pending, held, [i], used)
  {
  }

  // ---- the interrupt handler ---------------------------------------------------------

  // The entry reaped is one the device returned, and the handler is called with
  // the values of the request that put its descriptor in flight.
  lemma ReapFindsUsed(s: State)
    requires Inv(s) && s.q.usedIdx != s.q.usedHdrIdx
    ensures s.used != [] && NextUsed(s.q) == s.used[0] && 0 <= s.used[0] < s.q.size && s.used[0] in s.flight
    ensures Reported(s.q) == Answer(s.sends[s.flight[s.used[0]]])
  {
    hide DoneOk, RingOk, ChainOk, Once, Parts, PreparedOk;
    RingTake(s.q.used, s.q.usedHdrIdx, s.q.usedIdx, s.reaped, s.used, Posted(s.dev));
    assert s.used[0] in s.used;
    assert InFlight(s.used[0], s.pending, s.held, Posted(s.dev), s.used);
    assert s.used[0] in s.flight;
    assert Carries(s.q.desc, s.q.ctx, s.used[0], s.sends[s.flight[s.used[0]]]);
  }

  lemma ReapStep(s: State)
    requires Inv(s) && Enabled(s, Reap)
    ensures Inv(Step(s, Reap))
    ensures Step(s, Reap).done == s.done + [s.flight[s.used[0]]]
  {
    hide DoneOk, FlightOk, RingOk, ChainOk, Once, Parts, PreparedOk, Tracked;
    ReapFindsUsed(s);
    var s', i := Step(s, Reap), s.used[0];
    RingTake(s.q.used, s.q.usedHdrIdx, s.q.usedIdx, s.reaped, s.used, Posted(s.dev));
    MoveUsed(s.chain, Mine(s.pc), s.pending, s.held, Posted(s.dev), s.used);
    ReapChain(s, i);
    ReapPrepared(s, i);
    ReapFlight(s, i);
    DoneReap(s.q.desc, s.q.ctx, s.sends, s.flight, s.calls, s.done, i);
  }

  lemma MoveUsed(chain: seq<int>, mine: seq<int>, pending: seq<int>, held: seq<int>, posted: seq<int>, used: seq<int>)
    requires used != []
    ensures Parts([used[0]] + chain, mine, pending, held, posted, used[1..]) == Parts(chain, mine, pending, held, posted, used)
  {
    assert used == [used[0]] + used[1..];
  }

  lemma ReapChain(s: State, i: int)
    requires Inv(s) && InFlight(i, s.pending, s.held, Posted(s.dev), s.used) && 0 <= i < s.q.size
    ensures s.q.freeList % WRAP == s.q.freeList
    ensures ChainOk(s.q.desc[i := s.q.desc[i].(next := s.q.freeList)], i, [i] + s.chain)
  {
    hide DoneOk, FlightOk, RingOk, Once, Parts, PreparedOk, Tracked;
    Exclusive(s, i);
    var desc' := s.q.desc[i := s.q.desc[i].(next := s.q.freeList)];
    if s.chain != [] { assert ChainLink(s.q.desc, s.chain, 0); }
    ChainSame(s.q.desc, desc', s.q.freeList, s.chain, i);
    forall k | 0 <= k < |s.chain| + 1 ensures ChainLink(desc', [i] + s.chain, k) {
      if k > 0 { assert ChainLink(desc', s.chain, k - 1); }
    }
  }

  lemma ReapPrepared(s: State, i: int)
    requires Inv(s) && InFlight(i, s.pending, s.held, Posted(s.dev), s.used) && 0 <= i < s.q.size
    ensures PreparedOk(s.q.desc[i := s.q.desc[i].(next := s.q.freeList)], s.q.ctx, s.pc)
  {
    hide DoneOk, FlightOk, RingOk, Once, Parts, Tracked, ChainOk;
    Exclusive(s, i);
  }

  lemma ReapFlight(s: State, i: int)
    requires Inv(s) && s.used != [] && i == s.used[0] && 0 <= i < s.q.size
    ensures Tracked(s.flight - {i}, s.pending, s.held, Posted(s.dev), s.used[1..])
    ensures FlightOk(s.q.desc[i := s.q.desc[i].(next := s.q.freeList)], s.q.ctx, s.sends, s.flight - {i})
  {
    hide DoneOk, RingOk, PreparedOk, ChainOk, Once, Parts, Carries;
    UsedOnce(s);
    assert s.used == [i] + s.used[1..];
    var desc' := s.q.desc[i := s.q.desc[i].(next := s.q.freeList)];
    forall x | x in s.flight && x != i ensures Carries(desc', s.q.ctx, x, s.sends[s.flight[x]]) {
      CarriesKept(s.q.desc, s.q.ctx, i, s.q.freeList, x, s.sends[s.flight[x]]);
    }
  }

  lemma UsedOnce(s: State)
    requires Partition(s) && s.used != []
    ensures !InFlight(s.used[0], s.pending, s.held, Posted(s.dev), s.used[1..])
  {
    var i := s.used[0];
    assert s.used == [i] + s.used[1..];
    var parts := Parts(s.chain, Mine(s.pc), s.pending, s.held, Posted(s.dev), s.used);
    assert parts[i] <= 1;
  }

  lemma CarriesKept(desc: seq<Desc>, ctx: seq<int>, i: int, next: int, x: int, r: Request)
    requires Carries(desc, ctx, x, r) && 0 <= i < |desc| && x != i
    ensures Carries(desc[i := desc[i].(next := next)], ctx, x, r)
  {
  }

  lemma DoneReap(desc: seq<Desc>, ctx: seq<int>, sends: seq<Request>, flight: map<int, nat>, calls: seq<Completion>, done: seq<nat>, i: int)
    requires DoneOk(sends, flight, calls, done) && i in flight && FlightOk(desc, ctx, sends, flight)
    ensures DoneOk(sends, flight - {i}, calls + [Answer(sends[flight[i]])], done + [flight[i]])
  {
    var flight', done' := flight - {i}, done + [flight[i]];
    forall k | 0 <= k < |sends| ensures k in done' || Flying(flight', k) {
      if k in done {
        assert k in done';
      } else if k != flight[i] {
        if x :| x in flight && flight[x] == k {
          assert x in flight' && flight'[x] == k;
        }
      } else {
        assert done'[|done|] == k;
      }
    }
  }

  // ---- runs ---------------------------------------------------------------------------

  lemma StepInv(s: State, a: Action)
    requires Inv(s) && Enabled(s, a)
    ensures Inv(Step(s, a))
  {
    match a
    case Call(_) => CheckStep(s, a);
    case Send =>
      match s.pc {
        case CheckList(_) => CheckStep(s, a);
        case CheckCount(_) => CheckStep(s, a);
        case Pop(_) => PopStep(s);
        case Slot(_, _) => SlotStep(s);
        case Index(_, _) => IndexStep(s);
        case _ => FillStep(s);
      }
    case Fetch => FetchStep(s);
    case Post(k) => PostStep(s, k);
    case Advance => AdvanceStep(s);
    case Reap => ReapStep(s);
  }

  // Outside virtq_send_buffer the counter is zero exactly when the chain is empty.
  lemma NoneFree(s: State)
    requires Inv(s) && !Owns(s.pc)
    ensures s.q.numFree == 0 <==> s.chain == []
    ensures s.q.freeList != -1
  {
    if s.chain != [] { assert ChainLink(s.q.desc, s.chain, 0); }
  }

  lemma NothingUsed(s: State)
    requires Inv(s) && s.q.usedIdx == s.q.usedHdrIdx
    ensures s.used == []
  {
    hide DoneOk, FlightOk, ChainOk, Once, RingHolds, Parts, PreparedOk, Tracked;
    PartSizes(s);
  }

  lemma {:induction false} RunInv(s: State, actions: seq<Action>)
    requires Inv(s) && IsRun(s, actions)
    ensures Inv(After(s, actions))
    decreases |actions|
  {
    if actions != [] {
      StepInv(s, actions[0]);
      RunInv(Step(s, actions[0]), actions[1..]);
    }
  }

  // No interleaving brings a party to a statement it cannot execute: the sender
  // never pops the terminator, the device reads and the handler reaps only real
  // descriptors. The comparison of the free list with -1 never succeeds, and a
  // send is refused exactly when no descriptor is free.
  lemma NoFault(size: int, actions: seq<Action>)
    requires 0 < size <= 0x8000 && WRAP % size == 0 && IsRun(Start(size), actions)
    ensures var s := After(Start(size), actions);
            && Partition(s) && s.q.numFree == |s.chain| + Uncounted(s.pc)
            && s.q.freeList != -1
            && (!s.pc.Idle? ==> Enabled(s, Send))
            && (s.pc.CheckCount? ==> (SendStep(s).pc.Idle? <==> s.chain == []))
            && (s.lastAvail != s.q.availIdx ==> Enabled(s, Fetch) && 0 <= s.q.avail[s.lastAvail % s.q.size] < s.q.size)
            && (IrqOn(s) && s.q.usedIdx != s.q.usedHdrIdx ==> Enabled(s, Reap))
  {
    StartInv(size);
    RunInv(Start(size), actions);
    NeverStuck(After(Start(size), actions));
  }

  lemma NeverStuck(s: State)
    requires Inv(s)
    ensures s.q.freeList != -1
    ensures !s.pc.Idle? ==> Enabled(s, Send)
    ensures s.pc.CheckCount? ==> (SendStep(s).pc.Idle? <==> s.chain == [])
    ensures s.lastAvail != s.q.availIdx ==> Enabled(s, Fetch) && 0 <= s.q.avail[s.lastAvail % s.q.size] < s.q.size
    ensures IrqOn(s) && s.q.usedIdx != s.q.usedHdrIdx ==> Enabled(s, Reap)
  {
    hide DoneOk, FlightOk, Tracked, Once, Parts, RingHolds;
    if s.chain != [] { assert ChainLink(s.q.desc, s.chain, 0); }
    if s.lastAvail != s.q.availIdx {
      RingTake(s.q.avail, s.q.availIdx, s.lastAvail, s.fetched, s.pending, Staged(s.pc));
      assert s.pending[0] in s.pending;
      Exclusive(s, s.pending[0]);
    }
    if s.q.usedIdx != s.q.usedHdrIdx { ReapFindsUsed(s); }
  }

  // In every run the handler calls answer distinct published requests, each with
  // that request's context, address and length; a request without an answer is
  // still in flight, in exactly one descriptor that holds it unchanged.
  lemma CompletionsMatchSends(size: int, actions: seq<Action>)
    requires 0 < size <= 0x8000 && WRAP % size == 0 && IsRun(Start(size), actions)
    ensures var s := After(Start(size), actions);
            && |s.calls| == |s.done|
            && (forall j | 0 <= j < |s.calls| ::
                  && s.done[j] < |s.sends|
                  && var r := s.sends[s.done[j]];
                     s.calls[j].ctx == r.ctx && s.calls[j].addr == r.addr && s.calls[j].len == r.len)
            && (forall i, j | 0 <= i < j < |s.calls| :: s.done[i] != s.done[j])
            && (forall k | 0 <= k < |s.sends| && k !in s.done ::
                  exists x | x in s.flight :: s.flight[x] == k && Carries(s.q.desc, s.q.ctx, x, s.sends[k]))
  {
    StartInv(size);
    RunInv(Start(size), actions);
    var s := After(Start(size), actions);
    forall k | 0 <= k < |s.sends| && k !in s.done
      ensures exists x | x in s.flight :: s.flight[x] == k && Carries(s.q.desc, s.q.ctx, x, s.sends[k])
    {
      assert Flying(s.flight, k);
    }
  }

  // In every run, whatever the device holds or reads next is a descriptor with the
  // address and length of the request that was published in it, not chained to another,
  // and marked as writable exactly when the request is.
  lemma DeviceSees(size: int, actions: seq<Action>, x: int)
    requires 0 < size <= 0x8000 && WRAP % size == 0 && IsRun(Start(size), actions)
    requires var s := After(Start(size), actions);
             x in s.held || (Enabled(s, Fetch) && x == s.q.avail[s.lastAvail % s.q.size])
    ensures var s := After(Start(size), actions);
            && 0 <= x < |s.q.desc| && x in s.flight && s.flight[x] < |s.sends| && s.flight[x] !in s.done
            && var d, r := s.q.desc[x], s.sends[s.flight[x]];
               d.addr == r.addr && d.len == r.len && d.next == 0 && d.flags == if r.writable then 2 else 0
  {
    StartInv(size);
    RunInv(Start(size), actions);
    var s := After(Start(size), actions);
    DeviceFlight(s, x);
    FlightCarries(s, x);
  }

  lemma DeviceFlight(s: State, x: int)
    requires Inv(s)
    requires x in s.held || (Enabled(s, Fetch) && x == s.q.avail[s.lastAvail % s.q.size])
    ensures x in s.flight
  {
    hide ChainOk, PreparedOk, Once, Parts, FlightOk, DoneOk;
    if x !in s.held {
      RingTake(s.q.avail, s.q.availIdx, s.lastAvail, s.fetched, s.pending, Staged(s.pc));
      assert s.pending[0] in s.pending;
    }
    assert InFlight(x, s.pending, s.held, Posted(s.dev), s.used);
  }

  lemma FlightCarries(s: State, x: int)
    requires Inv(s) && x in s.flight
    ensures 0 <= x < |s.q.desc| && s.flight[x] < |s.sends| && s.flight[x] !in s.done
    ensures Carries(s.q.desc, s.q.ctx, x, s.sends[s.flight[x]])
  {
    hide ChainOk, PreparedOk, Once, Parts, RingOk, Tracked, Carries;
    CarriesInRange(s.q.desc, s.q.ctx, x, s.sends[s.flight[x]]);
  }

  lemma CarriesInRange(desc: seq<Desc>, ctx: seq<int>, x: int, r: Request)
    requires Carries(desc, ctx, x, r)
    ensures 0 <= x < |desc|
  {
  }

  // Once the queue is quiet, every descriptor is free again and every request
  // has been answered.
  lemma QuietQueue(size: int, actions: seq<Action>)
    requires 0 < size <= 0x8000 && WRAP % size == 0 && IsRun(Start(size), actions)
    requires var s := After(Start(size), actions);
             s.pc.Idle? && s.lastAvail == s.q.availIdx && s.held == [] && s.dev.Ready? && s.q.usedIdx == s.q.usedHdrIdx
    ensures var s := After(Start(size), actions);
            s.q.numFree == size && forall k | 0 <= k < |s.sends| :: k in s.done
  {
    StartInv(size);
    RunInv(Start(size), actions);
    SizeKept(Start(size), actions);
    Quiet(After(Start(size), actions));
  }

  lemma Quiet(s: State)
    requires Inv(s) && s.pc.Idle? && s.lastAvail == s.q.availIdx && s.held == [] && s.dev.Ready?
    requires s.q.usedIdx == s.q.usedHdrIdx
    ensures s.q.numFree == s.q.size && forall k | 0 <= k < |s.sends| :: k in s.done
  {
    hide FlightOk, ChainOk, Once, RingHolds, Parts, PreparedOk;
    PartSizes(s);
    assert s.pending == [] && s.used == [];
    forall x ensures x !in s.flight {
      assert !InFlight(x, s.pending, s.held, Posted(s.dev), s.used);
    }
    assert forall k | 0 <= k < |s.sends| :: k in s.done || Flying(s.flight, k);
  }

  lemma {:induction false} SizeKept(s: State, actions: seq<Action>)
    requires IsRun(s, actions)
    ensures After(s, actions).q.size == s.q.size
    decreases |actions|
  {
    if actions != [] { SizeKept(Step(s, actions[0]), actions[1..]); }
  }
}
