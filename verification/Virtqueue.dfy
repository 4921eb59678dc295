// dev/virtio.cpp in place: virtq_create, virtq_send_buffer and handle_vq_irq on
// the queue's memory. The ghost state follows them statement by statement as a
// run of the protocol in VirtqueueModel.
module Virtqueue {
  import opened RingBuffer
  import opened VirtqueueModel
  import opened VirtqueueProof

  datatype Error = Ok | Invalid | NoMemory

  lemma Advanced(s: State)
    requires Inv(s) && !s.pc.Idle?
    ensures Enabled(s, Send) && Inv(SendStep(s))
  {
    NeverStuck(s);
    StepInv(s, Send);
  }

  // The two guards let a request through to the pop when a descriptor is free.
  lemma Admitted(s: State, r: Request)
    requires Inv(s) && s.pc.Idle? && s.chain != []
    ensures Enabled(s, Call(r)) && Enabled(Step(s, Call(r)), Send) && Enabled(SendStep(Step(s, Call(r))), Send)
    ensures SendStep(SendStep(Step(s, Call(r)))) == s.(pc := Pop(r))
    ensures Inv(s.(pc := Pop(r))) && s.q.freeList == s.chain[0]
  {
    hide Partition, ChainOk, PreparedOk, Tracked, FlightOk, DoneOk, RingHolds;
    NoneFree(s);
    PcOnly(s, Pop(r));
    PopFindsFree(s.(pc := Pop(r)));
  }

  lemma CountsChain(s: State)
    requires Inv(s) && s.pc.Idle?
    ensures s.q.numFree == |s.chain|
  {
  }

  lemma ReapedAnswer(s: State)
    requires Inv(s) && IrqOn(s) && s.q.usedIdx != s.q.usedHdrIdx
    ensures Enabled(s, Reap) && s.used != [] && s.used[0] in s.flight && s.flight[s.used[0]] < |s.sends|
    ensures Step(s, Reap) == s.(q := Reaped(s.q), chain := [s.used[0]] + s.chain, used := s.used[1..],
                                reaped := s.reaped + 1, flight := s.flight - {s.used[0]},
                                calls := s.calls + [Answer(s.sends[s.flight[s.used[0]]])],
                                done := s.done + [s.flight[s.used[0]]])
  {
    ReapFindsUsed(s);
  }

  class VirtQueue {
    const size: int
    const desc: array<Desc>
    const ctx: array<int>
    const avail: array<int>
    const used: array<int>
    var availIdx: int
    var usedHdrIdx: int
    var usedIdx: int
    var numFree: int
    var freeList: int
    ghost var s: State

    ghost function Q(): Queue
      reads this, desc, ctx, avail, used
    {
      Queue(size, desc[..], ctx[..], avail[..], availIdx, used[..], usedHdrIdx, usedIdx, numFree, freeList)
    }

    ghost predicate Follows()
      reads this, desc, ctx, avail, used
    {
      && ctx != avail && ctx != used && avail != used
      && Inv(s) && Q() == s.q
    }

    // virtq_create: memory is zeroed and the descriptors are chained.
    constructor (n: int)
      requires 0 < n <= 0x8000 && WRAP % n == 0
      ensures Follows() && s == Start(n)
      ensures fresh(desc) && fresh(ctx) && fresh(avail) && fresh(used)
    {
      size := n;
      desc := new Desc[n](_ => Desc(0, 0, 0, 0));
      ctx := new int[n](_ => 0);
      avail := new int[n](_ => 0);
      used := new int[n](_ => 0);
      availIdx, usedHdrIdx, usedIdx, freeList := 0, 0, 0, 0;
      numFree := n;
      s := Start(n);
      new;
      for i := 0 to n - 1
        invariant numFree == n && freeList == 0 && availIdx == 0 && usedHdrIdx == 0 && usedIdx == 0 && s == Start(n)
        invariant forall j | 0 <= j < n :: desc[j] == Desc(0, 0, 0, if j < i then j + 1 else 0)
        invariant forall j | 0 <= j < n :: ctx[j] == 0 && avail[j] == 0 && used[j] == 0
      {
        desc[i] := desc[i].(next := i + 1);
      }
      desc[n - 1] := desc[n - 1].(next := -1 % WRAP);
      StartInv(n);
      assert Q() == Created(n);
    }

    // virtq_send_buffer without interruptions. It is refused for a null buffer or
    // an empty one, and when no descriptor is free; otherwise the request is
    // published.
    method SendBuffer(buffer: int, len: int, writable: bool, bufCtx: int) returns (e: Error)
      requires Follows() && s.pc.Idle?
      modifies this, desc, ctx, avail
      ensures Follows() && s.pc.Idle?
      ensures e.Invalid? <==> buffer == 0 || len == 0
      ensures e.NoMemory? <==> buffer != 0 && len != 0 && old(s.chain) == []
      ensures !e.Ok? ==> s == old(s)
      ensures e.Ok? ==>
                && s.sends == old(s.sends) + [Request(buffer, len, writable, bufCtx)]
                && s.pending == old(s.pending) + [old(s.chain)[0]] && s.chain == old(s.chain)[1..]
                && s.flight == old(s.flight)[old(s.chain)[0] := |old(s.sends)|]
                && s.held == old(s.held) && s.used == old(s.used) && s.calls == old(s.calls)
      ensures e.Ok? ==>
                var x := old(s.chain)[0];
                && 0 <= x < desc.Length && x < ctx.Length
                && desc[x] == Desc(buffer, len, if writable then 2 else 0, 0) && ctx[x] == bufCtx
                && numFree == old(numFree) - 1
    {
      hide Inv;
      if buffer == 0 || len == 0 {
        return Invalid;
      }
      ghost var r := Request(buffer, len, writable, bufCtx);
      NoneFree(s);
      CountsChain(s);
      if freeList == -1 || numFree == 0 {
        return NoMemory;
      }
      Admitted(s, r);
      s := SendStep(SendStep(Step(s, Call(r))));
      var idx := Take();
      Fill(idx, buffer, len, writable, bufCtx);
      Publish(idx);
      FlightCarries(s, idx);
      CountsChain(s);
      e := Ok;
    }

    // The first interrupt-off region: a descriptor leaves the free chain.
    method Take() returns (idx: int)
      requires Follows() && s.pc.Pop?
      modifies this
      ensures Follows() && idx == old(freeList) && Enabled(old(s), Send) && s == SendStep(old(s))
    {
      hide Inv;
      PopFindsFree(s);
      Advanced(s);
      idx := freeList;
      freeList := desc[idx].next;
      s := SendStep(s);
    }

    // Context, counter and descriptor fields, one store at a time.
    method Fill(idx: int, buffer: int, len: int, writable: bool, bufCtx: int)
      requires Follows() && s.pc == Context(Request(buffer, len, writable, bufCtx), idx)
      modifies this, desc, ctx
      ensures Follows() && s.pc == Slot(Request(buffer, len, writable, bufCtx), idx)
      ensures s == old(s).(q := s.q, pc := s.pc)
    {
      hide Inv;
      Advanced(s);
      ctx[idx] := bufCtx;
      s := SendStep(s);
      Advanced(s);
      numFree := numFree - 1;
      s := SendStep(s);
      FillDesc(idx, buffer, len, writable);
    }

    method FillDesc(idx: int, buffer: int, len: int, writable: bool)
      requires Follows() && s.pc.Addr? && s.pc.idx == idx
      requires s.pc.r.addr == buffer && s.pc.r.len == len && s.pc.r.writable == writable
      modifies this`s, desc
      ensures Follows() && s.pc == Slot(old(s.pc.r), idx) && s == old(s).(q := s.q, pc := s.pc)
    {
      hide Inv;
      DescInRange();
      StoreDesc(idx, desc[idx].(addr := buffer));
      DescInRange();
      StoreDesc(idx, desc[idx].(len := len));
      DescInRange();
      StoreDesc(idx, desc[idx].(flags := if writable then 2 else 0));
      DescInRange();
      StoreDesc(idx, desc[idx].(next := 0));
    }

    lemma DescInRange()
      requires Follows() && Owns(s.pc)
      ensures Enabled(s, Send) && 0 <= s.pc.idx < desc.Length
    {
      Advanced(s);
    }

    method StoreDesc(idx: int, d: Desc)
      requires Follows() && (s.pc.Addr? || s.pc.Len? || s.pc.Flag? || s.pc.Link?) && s.pc.idx == idx
      requires Enabled(s, Send) && 0 <= idx < desc.Length && SendStep(s).q == DescSet(s.q, idx, d)
      modifies this`s, desc
      ensures Follows() && s == SendStep(old(s))
    {
      hide Inv;
      Advanced(s);
      desc[idx] := d;
      s := SendStep(s);
    }

    // The second interrupt-off region: ring slot, barrier, index.
    method Publish(idx: int)
      requires Follows() && s.pc.Slot? && s.pc.idx == idx
      modifies this, avail
      ensures Follows() && Enabled(old(s), Send) && Enabled(SendStep(old(s)), Send)
      ensures s == SendStep(SendStep(old(s)))
    {
      hide Inv;
      Advanced(s);
      avail[availIdx % size] := idx;
      s := SendStep(s);
      Advanced(s);
      availIdx := (availIdx + 1) % WRAP;
      s := SendStep(s);
    }

    // One iteration of handle_vq_irq.
    method ReapMemory() returns (c: Completion)
      requires Shape(Q()) && usedIdx >= 0 && 0 <= NextUsed(Q()) < size && ctx != used && avail != used && ctx != avail
      modifies this`freeList, this`usedIdx, this`numFree, desc
      ensures Q() == Reaped(old(Q())) && c == Reported(old(Q())) && numFree == old(numFree) + 1
    {
      var id := used[usedIdx % size];
      c := Completion(ctx[id], desc[id].addr, desc[id].len);
      desc[id] := desc[id].(next := freeList % WRAP);
      freeList := id;
      usedIdx := (usedIdx + 1) % WRAP;
      numFree := numFree + 1;
    }

    method ReapOne() returns (c: Completion)
      requires Follows() && IrqOn(s) && usedIdx != usedHdrIdx
      modifies this, desc
      ensures Follows() && Enabled(old(s), Reap) && s == Step(old(s), Reap)
      ensures old(s.used) != [] && s.used == old(s.used)[1..] && usedHdrIdx == old(usedHdrIdx)
      ensures numFree == old(numFree) + 1
      ensures old(s.used)[0] in old(s.flight) && old(s.flight)[old(s.used)[0]] < |s.sends|
      ensures c == Answer(s.sends[old(s.flight)[old(s.used)[0]]])
      ensures var r := s.sends[old(s.flight)[old(s.used)[0]]];
              c.ctx == r.ctx && c.addr == r.addr && c.len == r.len
    {
      hide Inv, Reaped, Reported, Step;
      ReapFindsUsed(s);
      ReapedAnswer(s);
      StepInv(s, Reap);
      c := ReapMemory();
      s := Step(s, Reap);
    }

    // handle_vq_irq: every returned entry is reaped, oldest first, and the handler
    // is called with the context, address and length of the request it answers.
    method HandleIrq() returns (calls: seq<Completion>)
      requires Follows() && IrqOn(s)
      modifies this, desc
      ensures Follows() && s.used == [] && s.pc == old(s.pc) && s.held == old(s.held) && s.pending == old(s.pending)
      ensures s.sends == old(s.sends) && s.calls == old(s.calls) + calls
      ensures |calls| == |old(s.used)|
      ensures forall j | 0 <= j < |calls| ::
                && old(s.used)[j] in old(s.flight) && old(s.flight)[old(s.used)[j]] < |s.sends|
                && calls[j] == Completion(s.sends[old(s.flight)[old(s.used)[j]]].ctx,
                                          s.sends[old(s.flight)[old(s.used)[j]]].addr,
                                          s.sends[old(s.flight)[old(s.used)[j]]].len)
      ensures numFree == old(numFree) + |calls|
    {
      hide Inv;
      calls := [];
      while usedIdx != usedHdrIdx
        invariant Follows() && s.pc == old(s.pc) && s.held == old(s.held) && s.pending == old(s.pending)
        invariant s.sends == old(s.sends) && s.calls == old(s.calls) + calls
        invariant |calls| <= |old(s.used)| && s.used == old(s.used)[|calls|..]
        invariant numFree == old(numFree) + |calls|
        invariant forall x | x in s.flight :: x in old(s.flight) && s.flight[x] == old(s.flight)[x]
        invariant forall j | 0 <= j < |calls| ::
                    && old(s.used)[j] in old(s.flight) && old(s.flight)[old(s.used)[j]] < |s.sends|
                    && calls[j] == Answer(s.sends[old(s.flight)[old(s.used)[j]]])
        decreases |s.used|
      {
        assert s.used != [] ==> s.used[0] == old(s.used)[|calls|];
        ghost var before := s;
        ReapedAnswer(s);
        var c := ReapOne();
        calls := calls + [c];
        assert s.calls == before.calls + [c];
      }
      NothingUsed(s);
    }
  }
}
