// The split virtqueue of dev/virtio.cpp as a protocol between one sender, the
// interrupt handler and a device. Every statement of virtq_send_buffer that
// touches shared memory is one step; the interrupt handler may run between any
// two of them except while interrupts are off, the device at any time.
module VirtqueueModel {
  import opened Common

  const WRAP: int := 0x1_0000
  const NIL: int := 0xFFFF

  datatype Desc = Desc(addr: int, len: int, flags: int, next: int)

  // The arguments of one virtq_send_buffer call.
  datatype Request = Request(addr: int, len: int, writable: bool, ctx: int)

  // One call of the completion handler.
  datatype Completion = Completion(ctx: int, addr: int, len: int)

  // The queue in memory, with the driver's own bookkeeping.
  datatype Queue = Queue(
    size: int, desc: seq<Desc>, ctx: seq<int>,
    avail: seq<int>, availIdx: int, used: seq<int>, usedHdrIdx: int,
    usedIdx: int, numFree: int, freeList: int)

  predicate Shape(q: Queue) {
    && 0 < q.size <= 0x8000 && WRAP % q.size == 0
    && |q.desc| == q.size && |q.ctx| == q.size && |q.avail| == q.size && |q.used| == q.size
  }

  // ---- statements of virtq_create, virtq_send_buffer and handle_vq_irq --------

  function Created(size: int): Queue
    requires size > 0
  {
    Queue(size,
          seq(size, i => Desc(0, 0, 0, if i + 1 < size then i + 1 else NIL)),
          seq(size, _ => 0), seq(size, _ => 0), 0, seq(size, _ => 0), 0, 0, size, 0)
  }

  function Popped(q: Queue): Queue
    requires 0 <= q.freeList < |q.desc|
  {
    q.(freeList := q.desc[q.freeList].next)
  }

  function CtxSet(q: Queue, i: int, c: int): Queue
    requires 0 <= i < |q.ctx|
  {
    q.(ctx := q.ctx[i := c])
  }

  function Counted(q: Queue): Queue {
    q.(numFree := q.numFree - 1)
  }

  function DescSet(q: Queue, i: int, d: Desc): Queue
    requires 0 <= i < |q.desc|
  {
    q.(desc := q.desc[i := d])
  }

  // VIRTQ_DESC_F_WRITE marks a buffer the device may write.
  const DESC_WRITE: int := 2

  function Flags(r: Request): int { if r.writable then DESC_WRITE else 0 }

  function SlotSet(q: Queue, i: int): Queue
    requires Shape(q) && 0 <= q.availIdx
  {
    q.(avail := q.avail[q.availIdx % q.size := i])
  }

  function Published(q: Queue): Queue {
    q.(availIdx := (q.availIdx + 1) % WRAP)
  }

  function NextUsed(q: Queue): int
    requires Shape(q) && 0 <= q.usedIdx
  {
    q.used[q.usedIdx % q.size]
  }

  function Reported(q: Queue): Completion
    requires Shape(q) && 0 <= q.usedIdx && 0 <= NextUsed(q) < q.size
  {
    var i := NextUsed(q);
    Completion(q.ctx[i], q.desc[i].addr, q.desc[i].len)
  }

  function Reaped(q: Queue): Queue
    requires Shape(q) && 0 <= q.usedIdx && 0 <= NextUsed(q) < q.size
  {
    var i := NextUsed(q);
    q.(desc := q.desc[i := q.desc[i].(next := q.freeList % WRAP)], freeList := i,
       usedIdx := (q.usedIdx + 1) % WRAP, numFree := q.numFree + 1)
  }

  // ---- the three parties ---------------------------------------------------------

  // Where the sender is inside virtq_send_buffer; from Context on it owns idx.
  datatype Pc =
    | Idle
    | CheckList(r: Request) | CheckCount(r: Request) | Pop(r: Request)
    | Context(r: Request, idx: int) | Count(r: Request, idx: int)
    | Addr(r: Request, idx: int) | Len(r: Request, idx: int) | Flag(r: Request, idx: int) | Link(r: Request, idx: int)
    | Slot(r: Request, idx: int) | Index(r: Request, idx: int)

  predicate Owns(pc: Pc) { !(pc.Idle? || pc.CheckList? || pc.CheckCount? || pc.Pop?) }

  // The device, between writing a used entry and advancing the used index.
  datatype DevPc = Ready | Posting(id: int)

  // The fields after dev are bookkeeping for the statements below; no step
  // consults them. chain is the free chain, pending the published entries the
  // device has not read, used the entries it has returned and the driver not yet
  // reaped; fetched and reaped count both without wrapping. sends lists the
  // requests published so far, flight maps a descriptor to the request it
  // carries, calls lists the handler calls and done the requests they answer.
  datatype State = State(
    q: Queue, pc: Pc, lastAvail: int, held: seq<int>, dev: DevPc,
    chain: seq<int>, pending: seq<int>, used: seq<int>, fetched: nat, reaped: nat,
    sends: seq<Request>, flight: map<int, nat>, calls: seq<Completion>, done: seq<nat>)

  function Start(size: int): State
    requires size > 0
  {
    State(Created(size), Idle, 0, [], Ready, seq(size, i => i), [], [], 0, 0, [], map[], [], [])
  }

  datatype Action =
    | Call(r: Request) | Send | Fetch | Post(k: int) | Advance | Reap

  predicate IrqOn(s: State) { !s.pc.Index? }

  // What each party may do, and that the memory it touches is there.
  predicate Enabled(s: State, a: Action) {
    var q := s.q;
    Shape(q) && 0 <= q.availIdx && 0 <= q.usedIdx && 0 <= q.usedHdrIdx && 0 <= s.lastAvail &&
    match a
    case Call(_) => s.pc.Idle?
    case Send =>
      && !s.pc.Idle?
      && (s.pc.Pop? ==> 0 <= q.freeList < q.size)
      && (Owns(s.pc) ==> 0 <= s.pc.idx < q.size)
    case Fetch => s.lastAvail != q.availIdx
    case Post(k) => s.dev.Ready? && 0 <= k < |s.held|
    case Advance => s.dev.Posting?
    case Reap => IrqOn(s) && q.usedIdx != q.usedHdrIdx && 0 <= NextUsed(q) < q.size
  }

  function SendStep(s: State): State
    requires Enabled(s, Send)
  {
    var q := s.q;
    match s.pc
    case CheckList(r) => s.(pc := if q.freeList == -1 then Idle else CheckCount(r))
    case CheckCount(r) => s.(pc := if q.numFree == 0 then Idle else Pop(r))
    case Pop(r) => s.(q := Popped(q), pc := Context(r, q.freeList), chain := if s.chain == [] then [] else s.chain[1..])
    case Context(r, i) => s.(q := CtxSet(q, i, r.ctx), pc := Count(r, i))
    case Count(r, i) => s.(q := Counted(q), pc := Addr(r, i))
    case Addr(r, i) => s.(q := DescSet(q, i, q.desc[i].(addr := r.addr)), pc := Len(r, i))
    case Len(r, i) => s.(q := DescSet(q, i, q.desc[i].(len := r.len)), pc := Flag(r, i))
    case Flag(r, i) => s.(q := DescSet(q, i, q.desc[i].(flags := Flags(r))), pc := Link(r, i))
    case Link(r, i) => s.(q := DescSet(q, i, q.desc[i].(next := 0)), pc := Slot(r, i))
    case Slot(r, i) => s.(q := SlotSet(q, i), pc := Index(r, i))
    case Index(r, i) =>
      s.(q := Published(q), pc := Idle, pending := s.pending + [i],
         sends := s.sends + [r], flight := s.flight[i := |s.sends|])
  }

  function Step(s: State, a: Action): State
    requires Enabled(s, a)
  {
    var q := s.q;
    match a
    case Call(r) => s.(pc := CheckList(r))
    case Send => SendStep(s)
    case Fetch =>
      s.(lastAvail := (s.lastAvail + 1) % WRAP, held := s.held + [q.avail[s.lastAvail % q.size]],
         fetched := s.fetched + 1, pending := if s.pending == [] then [] else s.pending[1..])
    case Post(k) =>
      s.(q := q.(used := q.used[q.usedHdrIdx % q.size := s.held[k]]), dev := Posting(s.held[k]), held := RemovedAt(s.held, k))
    case Advance =>
      s.(q := q.(usedHdrIdx := (q.usedHdrIdx + 1) % WRAP), dev := Ready, used := s.used + [s.dev.id])
    case Reap =>
      var i := NextUsed(q);
      s.(q := Reaped(q), chain := [i] + s.chain, used := if s.used == [] then [] else s.used[1..], reaped := s.reaped + 1,
         flight := s.flight - {i}, calls := s.calls + [Reported(q)],
         done := if i in s.flight then s.done + [s.flight[i]] else s.done)
  }

  // ---- runs ---------------------------------------------------------------------

  predicate IsRun(s: State, actions: seq<Action>)
    decreases |actions|
  {
    actions == [] || (Enabled(s, actions[0]) && IsRun(Step(s, actions[0]), actions[1..]))
  }

  function After(s: State, actions: seq<Action>): State
    requires IsRun(s, actions)
    decreases |actions|
  {
    if actions == [] then s else After(Step(s, actions[0]), actions[1..])
  }
}
