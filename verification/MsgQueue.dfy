// kernel/msgq.cpp over kernel/semaphore.cpp and kernel/waitq.cpp, for any number
// of readers and writers with infinite timeouts. Each interrupt-off region is one
// step: a reader first takes a token, then, in a second region, copies a message.
module MsgQueue {
  import opened Arithmetic
  import opened Common
  import opened IntrusiveList
  import opened Memory
  import opened RingBuffer
  import opened WaitQueue

  // A reader is outside, asleep in the semaphore's queue, or holds a token it has
  // not used yet.
  datatype Pc = Outside | Waiting | Token

  // The fields after pc are bookkeeping: the readers with a token, the messages
  // written and not yet copied, and everything accepted and copied so far.
  datatype State<M> = State(
    storage: seq<M>, readP: int, writeP: int, count: int, waiters: seq<int>, pc: map<int, Pc>,
    tokens: set<int>, queue: seq<M>, written: seq<M>, copied: seq<M>)

  function PcOf<M>(s: State<M>, t: int): Pc { if t in s.pc then s.pc[t] else Outside }

  function Size<M>(s: State<M>): int { |s.storage| }

  predicate Shape<M>(s: State<M>) {
    |s.storage| > 0 && 0 <= s.readP < |s.storage| && 0 <= s.writeP < |s.storage|
  }

  // ---- the atomic regions ----------------------------------------------------------

  // semaphore::take
  function Take<M>(s: State<M>, t: int): State<M> {
    if s.count == 0 then s.(waiters := Pushed(s.waiters, t), pc := s.pc[t := Waiting])
    else s.(count := s.count - 1, pc := s.pc[t := Token], tokens := s.tokens + {t})
  }

  // semaphore::give with max_count_ equal to the queue size: the newest waiter, if
  // any, gets the token directly.
  function Give<M>(s: State<M>): State<M> {
    if s.count == Size(s) then s
    else if s.count == 0 && s.waiters != [] then
      var w := s.waiters[0];
      s.(waiters := s.waiters[1..], pc := s.pc[w := Token], tokens := s.tokens + {w})
    else s.(count := s.count + 1)
  }

  // The second half of msgq::read.
  function Copy<M>(s: State<M>, t: int): State<M>
    requires Shape(s)
  {
    s.(readP := (s.readP + 1) % Size(s), pc := s.pc[t := Outside], tokens := s.tokens - {t},
       queue := if s.queue == [] then [] else s.queue[1..], copied := s.copied + [s.storage[s.readP]])
  }

  predicate Rejects<M>(s: State<M>) { s.writeP == s.readP && s.count != 0 }

  // msgq::write
  function Write<M>(s: State<M>, m: M): State<M>
    requires Shape(s)
  {
    if Rejects(s) then s
    else Give(s.(storage := s.storage[s.writeP := m], writeP := (s.writeP + 1) % Size(s),
                 queue := s.queue + [m], written := s.written + [m]))
  }

  datatype Action<M> = ATake(t: int) | ACopy(t: int) | AWrite(m: M)

  predicate Enabled<M>(s: State<M>, a: Action<M>) {
    Shape(s) &&
    match a
    case ATake(t) => PcOf(s, t).Outside?
    case ACopy(t) => PcOf(s, t).Token?
    case AWrite(_) => true
  }

  function Step<M>(s: State<M>, a: Action<M>): State<M>
    requires Enabled(s, a)
  {
    match a
    case ATake(t) => Take(s, t)
    case ACopy(t) => Copy(s, t)
    case AWrite(m) => Write(s, m)
  }

  // ---- refinement of a bounded queue -----------------------------------------------

  ghost predicate Threads(waiters: seq<int>, pc: map<int, Pc>, tokens: set<int>) {
    && (forall t :: t in tokens <==> t in pc && pc[t].Token?)
    && (forall t :: t in waiters <==> t in pc && pc[t].Waiting?)
    && (forall i, j | 0 <= i < j < |waiters| :: waiters[i] != waiters[j])
  }

  // The messages not yet copied are those between the two pointers; there is one
  // for every count and every outstanding token; readers wait only when the count
  // is zero; and what was accepted is what was read followed by what is queued.
  ghost predicate Inv<M>(s: State<M>) {
    && Shape(s) && s.count >= 0
    && |s.queue| == s.count + |s.tokens| <= Size(s)
    && s.writeP == (s.readP + |s.queue|) % Size(s)
    && RingHolds(s.storage, s.readP, s.queue)
    && (s.waiters != [] ==> s.count == 0)
    && Threads(s.waiters, s.pc, s.tokens)
    && s.written == s.copied + s.queue
  }

  function Start<M>(storage: seq<M>): State<M> {
    State(storage, 0, 0, 0, [], map[], {}, [], [], [])
  }

  lemma StartInv<M>(storage: seq<M>)
    requires |storage| > 0
    ensures Inv(Start(storage))
  {
  }

  // Positions from on, fewer than a full turn, are below n or wrapped once.
  lemma Wrap(n: int, from: int, j: int)
    requires 0 <= from < n && 0 <= j <= n
    ensures (from + j) % n == if from + j < n then from + j else from + j - n
  {
    if from + j < n { ModUnique(n, from + j, 0, from + j); } else { ModUnique(n, from + j, 1, from + j - n); }
  }

  // The reader moves on by one slot.
  lemma ReaderMoves<M>(ring: seq<M>, from: int, items: seq<M>)
    requires RingHolds(ring, from, items) && 0 <= from < |ring| && items != []
    ensures ring[from] == items[0] && RingHolds(ring, (from + 1) % |ring|, items[1..])
    ensures ((from + 1) % |ring| + (|items| - 1)) % |ring| == (from + |items|) % |ring|
  {
    Wrap(|ring|, from, 0);
    RingDrop(ring, from, items);
    RingWrapped(ring, from + 1, items[1..]);
    AddModulo(|ring|, from + 1, |items| - 1);
  }

  lemma TakeKeeps<M>(s: State<M>, t: int)
    requires Inv(s) && PcOf(s, t).Outside?
    ensures Inv(Take(s, t))
  {
    hide RingHolds;
    assert t !in s.waiters && t !in s.tokens;
  }

  // A reader with a token copies the oldest message not yet copied.
  lemma CopyKeeps<M>(s: State<M>, t: int)
    requires Inv(s) && PcOf(s, t).Token?
    ensures s.queue != [] && Inv(Copy(s, t))
    ensures Copy(s, t).copied == s.copied + [s.queue[0]] && Copy(s, t).queue == s.queue[1..]
  {
    hide RingHolds, Threads;
    TokenUsed(s.waiters, s.pc, s.tokens, t);
    ReaderMoves(s.storage, s.readP, s.queue);
    HeadMoves(s.copied, s.queue);
  }

  lemma TokenUsed(waiters: seq<int>, pc: map<int, Pc>, tokens: set<int>, t: int)
    requires Threads(waiters, pc, tokens) && t in pc && pc[t].Token?
    ensures Threads(waiters, pc[t := Outside], tokens - {t}) && |tokens - {t}| == |tokens| - 1
  {
    assert t in tokens;
  }

  lemma HeadMoves<M>(done: seq<M>, queue: seq<M>)
    requires queue != []
    ensures done + queue == (done + [queue[0]]) + queue[1..]
  {
  }

  // The source's full test, in terms of the queue.
  lemma RejectsWhenFull<M>(s: State<M>)
    requires Inv(s)
    ensures Rejects(s) <==> |s.queue| == Size(s) && s.count != 0
  {
    Wrap(Size(s), s.readP, |s.queue|);
  }

  lemma AcceptKeeps<M>(s: State<M>, m: M)
    requires Inv(s) && |s.queue| < Size(s)
    ensures Inv(Write(s, m)) && Write(s, m).queue == s.queue + [m]
  {
    RejectsWhenFull(s);
    var n := Size(s);
    RingAppend(s.storage, s.readP, s.queue, m);
    Wrap(n, s.readP, |s.queue|);
    Wrap(n, s.readP, |s.queue| + 1);
    hide RingHolds;
    assert (s.writeP + 1) % n == (s.readP + |s.queue| + 1) % n by { Wrap(n, s.writeP, 1); }
    GiveKeeps(s.(storage := s.storage[s.writeP := m], writeP := (s.writeP + 1) % n,
                 queue := s.queue + [m], written := s.written + [m]));
  }

  // A message is in the ring but not yet announced.
  lemma GiveKeeps<M>(s: State<M>)
    requires Shape(s) && s.count >= 0 && |s.queue| == s.count + |s.tokens| + 1 <= Size(s)
    requires s.writeP == (s.readP + |s.queue|) % Size(s) && RingHolds(s.storage, s.readP, s.queue)
    requires (s.waiters != [] ==> s.count == 0) && Threads(s.waiters, s.pc, s.tokens)
    requires s.written == s.copied + s.queue
    ensures Inv(Give(s))
  {
    hide RingHolds;
    if s.count == 0 && s.waiters != [] {
      var w := s.waiters[0];
      assert w in s.waiters && s.waiters == [w] + s.waiters[1..];
      assert w !in s.tokens;
    }
  }

  // A write overwrites a message nobody has read exactly when every slot is owed
  // to a reader that has been given a token and has not run yet: the source's
  // full test looks only at the count, which is then zero.
  lemma OverwritesExactlyWhen<M>(s: State<M>, m: M)
    requires Inv(s)
    ensures Inv(Write(s, m)) <==> |s.tokens| < Size(s)
    ensures Write(s, m).written != s.written && |s.queue| == Size(s) <==> |s.tokens| == Size(s)
  {
    RejectsWhenFull(s);
    if |s.queue| < Size(s) { AcceptKeeps(s, m); }
  }

  // take: with a count, the reader gets a token at once; without, it becomes the first
  // waiter.
  lemma TakeEffect<M>(s: State<M>, t: int)
    ensures s.count != 0 ==>
              PcOf(Take(s, t), t).Token? && Take(s, t).count == s.count - 1 && Take(s, t).waiters == s.waiters
    ensures s.count == 0 ==>
              PcOf(Take(s, t), t).Waiting? && Take(s, t).count == 0 && Take(s, t).waiters == [t] + s.waiters
    ensures forall u | u != t :: PcOf(Take(s, t), u) == PcOf(s, u)
    ensures Take(s, t).storage == s.storage && Take(s, t).readP == s.readP && Take(s, t).writeP == s.writeP
  {
  }

  // give, after a write that is not refused: the newest waiter gets the token, or else the
  // count goes up, unless it is at the size.
  lemma WriteEffect<M>(s: State<M>, m: M)
    requires Shape(s)
    ensures s.writeP == s.readP && s.count != 0 ==> Write(s, m) == s
    ensures !(s.writeP == s.readP && s.count != 0) ==>
              var s' := Write(s, m);
              && s'.storage == s.storage[s.writeP := m] && s'.readP == s.readP
              && s'.writeP == (if s.writeP + 1 == |s.storage| then 0 else s.writeP + 1)
              && s'.written == s.written + [m] && s'.copied == s.copied
              && (s.count == 0 && s.waiters != [] ==>
                    && PcOf(s', s.waiters[0]).Token? && s'.waiters == s.waiters[1..] && s'.count == 0
                    && forall u | u != s.waiters[0] :: PcOf(s', u) == PcOf(s, u))
              && (!(s.count == 0 && s.waiters != []) ==>
                    && s'.pc == s.pc && s'.waiters == s.waiters
                    && s'.count == if s.count == |s.storage| then s.count else s.count + 1)
  {
    Wrap(|s.storage|, s.writeP, 1);
  }

  // read, second half: the slot at the read pointer, which moves on by one.
  lemma CopyEffect<M>(s: State<M>, t: int)
    requires Shape(s)
    ensures var s' := Copy(s, t);
            && s'.copied == s.copied + [s.storage[s.readP]]
            && s'.readP == (if s.readP + 1 == |s.storage| then 0 else s.readP + 1)
            && PcOf(s', t).Outside? && (forall u | u != t :: PcOf(s', u) == PcOf(s, u))
            && s'.storage == s.storage && s'.writeP == s.writeP && s'.count == s.count && s'.waiters == s.waiters
  {
    Wrap(|s.storage|, s.readP, 1);
  }

  // ---- runs --------------------------------------------------------------------------

  // Each write happens while fewer than size readers hold an unused token.
  predicate IsRun<M>(s: State<M>, actions: seq<Action<M>>)
    decreases |actions|
  {
    actions != [] ==>
      && Enabled(s, actions[0])
      && (actions[0].AWrite? ==> |s.tokens| < Size(s))
      && IsRun(Step(s, actions[0]), actions[1..])
  }

  function After<M>(s: State<M>, actions: seq<Action<M>>): State<M>
    requires IsRun(s, actions)
    decreases |actions|
  {
    if actions == [] then s else After(Step(s, actions[0]), actions[1..])
  }

  lemma StepKeeps<M>(s: State<M>, a: Action<M>)
    requires Inv(s) && Enabled(s, a) && (a.AWrite? ==> |s.tokens| < Size(s))
    ensures Inv(Step(s, a))
  {
    match a
    case ATake(t) => TakeKeeps(s, t);
    case ACopy(t) => CopyKeeps(s, t);
    case AWrite(m) => OverwritesExactlyWhen(s, m);
  }

  lemma {:induction false} RunKeeps<M>(s: State<M>, actions: seq<Action<M>>)
    requires Inv(s) && IsRun(s, actions)
    ensures Inv(After(s, actions))
    decreases |actions|
  {
    if actions != [] {
      StepKeeps(s, actions[0]);
      RunKeeps(Step(s, actions[0]), actions[1..]);
    }
  }

  // The queue is a bounded FIFO: what has been read is a prefix of what has been
  // accepted, the rest is still stored in order, and a write is refused exactly
  // when size messages are.
  lemma Fifo<M>(storage: seq<M>, actions: seq<Action<M>>)
    requires |storage| > 0 && IsRun(Start(storage), actions)
    ensures var s := After(Start(storage), actions);
            && s.written == s.copied + s.queue
            && RingHolds(s.storage, s.readP, s.queue)
            && |s.queue| == s.count + |s.tokens| <= |s.storage|
            && (s.waiters != [] ==> s.count == 0)
            && (|s.tokens| < |s.storage| ==> (Rejects(s) <==> |s.queue| == |s.storage|))
  {
    StartInv(storage);
    RunKeeps(Start(storage), actions);
    RejectsWhenFull(After(Start(storage), actions));
  }

  // ---- every run at all ------------------------------------------------------------------

  // What holds even when messages are overwritten: the pointers count the accepted and
  // the copied messages, there are never more tokens and counts than messages not yet
  // copied, and every slot filled so far holds an accepted message.
  ghost predicate Sane<M>(s: State<M>) {
    && Shape(s) && s.count >= 0
    && s.readP == |s.copied| % Size(s) && s.writeP == |s.written| % Size(s)
    && |s.copied| + s.count + |s.tokens| <= |s.written|
    && FilledFrom(s.storage, s.written)
    && (forall m | m in s.copied :: m in s.written)
    && (s.waiters != [] ==> s.count == 0)
    && Threads(s.waiters, s.pc, s.tokens)
  }

  predicate FilledFrom<M(==)>(storage: seq<M>, written: seq<M>) {
    forall i | 0 <= i < |storage| && i < |written| :: storage[i] in written
  }

  lemma StartSane<M>(storage: seq<M>)
    requires |storage| > 0
    ensures Sane(Start(storage))
  {
  }

  lemma TakeSane<M>(s: State<M>, t: int)
    requires Sane(s) && PcOf(s, t).Outside?
    ensures Sane(Take(s, t))
  {
    hide FilledFrom;
    assert t !in s.waiters && t !in s.tokens;
  }

  // A reader gets a message that was accepted.
  lemma CopySane<M>(s: State<M>, t: int)
    requires Sane(s) && PcOf(s, t).Token?
    ensures Sane(Copy(s, t)) && s.storage[s.readP] in s.written
  {
    hide Threads, FilledFrom;
    TokenUsed(s.waiters, s.pc, s.tokens, t);
    AddModulo(Size(s), |s.copied|, 1);
    FilledSlot(s.storage, s.written, |s.copied|);
  }

  lemma FilledSlot<M>(storage: seq<M>, written: seq<M>, n: nat)
    requires |storage| > 0 && FilledFrom(storage, written) && n < |written|
    ensures storage[n % |storage|] in written
  {
    assert n % |storage| <= n;
  }

  lemma Filled<M>(storage: seq<M>, written: seq<M>, m: M)
    requires |storage| > 0 && FilledFrom(storage, written)
    ensures FilledFrom(storage[|written| % |storage| := m], written + [m])
  {
    var w := |written| % |storage|;
    var ring, all := storage[w := m], written + [m];
    forall i | 0 <= i < |ring| && i < |all| ensures ring[i] in all {
      if i != w {
        assert |written| < |storage| ==> w == |written|;
        assert storage[i] in written;
      }
    }
  }

  lemma WriteSane<M>(s: State<M>, m: M)
    requires Sane(s)
    ensures Sane(Write(s, m))
    ensures Write(s, m).written == if Rejects(s) then s.written else s.written + [m]
    ensures Write(s, m).copied == s.copied
  {
    if !Rejects(s) {
      hide FilledFrom;
      Filled(s.storage, s.written, m);
      AddModulo(Size(s), |s.written|, 1);
      if s.count == 0 && s.waiters != [] { TokenGiven(s.waiters, s.pc, s.tokens); }
    }
  }

  lemma TokenGiven(waiters: seq<int>, pc: map<int, Pc>, tokens: set<int>)
    requires Threads(waiters, pc, tokens) && waiters != []
    ensures Threads(waiters[1..], pc[waiters[0] := Token], tokens + {waiters[0]})
    ensures |tokens + {waiters[0]}| == |tokens| + 1
  {
    var w := waiters[0];
    assert w in waiters && waiters == [w] + waiters[1..] && w !in tokens;
  }

  predicate IsAnyRun<M>(s: State<M>, actions: seq<Action<M>>)
    decreases |actions|
  {
    actions != [] ==> Enabled(s, actions[0]) && IsAnyRun(Step(s, actions[0]), actions[1..])
  }

  function AfterAny<M>(s: State<M>, actions: seq<Action<M>>): State<M>
    requires IsAnyRun(s, actions)
    decreases |actions|
  {
    if actions == [] then s else AfterAny(Step(s, actions[0]), actions[1..])
  }

  lemma {:induction false} AnyRunSane<M>(s: State<M>, actions: seq<Action<M>>)
    requires Sane(s) && IsAnyRun(s, actions)
    ensures Sane(AfterAny(s, actions))
    decreases |actions|
  {
    hide Sane;
    if actions != [] {
      match actions[0] {
        case ATake(t) => TakeSane(s, t);
        case ACopy(t) => CopySane(s, t);
        case AWrite(m) => WriteSane(s, m);
      }
      AnyRunSane(Step(s, actions[0]), actions[1..]);
    }
  }

  // In every run, whatever the number of outstanding tokens, a read returns only an
  // accepted message, and there are no more reads than accepted writes.
  lemma ReadsWereWritten<M>(storage: seq<M>, actions: seq<Action<M>>)
    requires |storage| > 0 && IsAnyRun(Start(storage), actions)
    ensures var s := AfterAny(Start(storage), actions);
            && (forall m | m in s.copied :: m in s.written)
            && |s.copied| + |s.tokens| + s.count <= |s.written|
  {
    StartSane(storage);
    AnyRunSane(Start(storage), actions);
  }

  // With one slot: reader 7 waits and is given the token for message 1.
  const HANDED: State<int> := State([1], 0, 0, 0, [], map[7 := Token], {7}, [1], [1], [])

  lemma HandedOver()
    ensures Write(Take(Start([0]), 7), 1) == HANDED && Inv(HANDED)
  {
    var s := Take(Start([0]), 7);
    assert s.waiters == [7] && s.pc == map[7 := Waiting];
    TakeKeeps(Start([0]), 7);
    AcceptKeeps(s, 1);
    assert s.pc[7 := Token] == map[7 := Token];
  }

  // Before reader 7 runs, message 2 is written over message 1: it is read twice
  // and message 1 never.
  lemma OverwriteExample()
    ensures var s := Write(HANDED, 2);
            && s.written == [1, 2] && s.storage == [2]
            && Copy(s, 7).copied == [2] && Copy(s, 7).count == 1
            && Copy(Take(Copy(s, 7), 8), 8).copied == [2, 2]
  {
    var s := Write(HANDED, 2);
    assert s == State([2], 0, 0, 1, [], map[7 := Token], {7}, [1, 2], [1, 2], []);
  }

  // ---- the object -----------------------------------------------------------------------

  class KMsgQueue<M(0)> {
    const storage: array<M>
    var readP: int
    var writeP: int
    var count: int
    const waiting: KWaitQueue
    ghost var s: State<M>

    // s describes the object.
    ghost predicate Tracks()
      reads this, storage, waiting, waiting.mem
    {
      && waiting.Valid()
      && s.storage == storage[..] && s.readP == readP && s.writeP == writeP && s.count == count
      && s.waiters == waiting.Waiters()
    }

    ghost predicate Follows()
      reads this, storage, waiting, waiting.mem
    {
      Tracks() && Inv(s)
    }

    constructor (size: int, zero: M, mem: NodeMemory)
      requires size > 0
      ensures Follows() && s == Start(seq(size, _ => zero)) && fresh(storage) && fresh(waiting) && waiting.mem == mem
    {
      storage := new M[size](_ => zero);
      readP, writeP, count := 0, 0, 0;
      waiting := new KWaitQueue(mem);
      s := Start(seq(size, _ => zero));
      new;
      assert storage[..] == s.storage;
      StartInv(s.storage);
    }

    // The semaphore half of read, with a wait item on the caller's stack: true when the
    // caller goes on at once.
    method TakeToken(t: int, item: int) returns (ready: bool)
      requires Follows() && PcOf(s, t).Outside? && item != NULL && ApartFrom(waiting.items, item)
      modifies this, waiting, waiting.mem
      ensures Follows() && s == Take(old(s), t)
      ensures ready <==> PcOf(s, t).Token?
    {
      hide Inv, KWaitQueue.Valid, ApartFrom;
      TakeKeeps(s, t);
      ready := count != 0;
      if count == 0 {
        waiting.Wait(t, item);
      } else {
        count := count - 1;
      }
      s := Take(s, t);
    }

    method CopyOut(t: int) returns (m: M)
      requires Follows() && PcOf(s, t).Token?
      modifies this
      ensures Follows() && s == Copy(old(s), t)
      ensures old(s.queue) != [] && m == old(s.queue)[0]
    {
      hide KWaitQueue.Valid, Threads, RingHolds;
      CopyKeeps(s, t);
      ReaderMoves(s.storage, s.readP, s.queue);
      m := storage[readP];
      readP := (readP + 1) % storage.Length;
      s := Copy(s, t);
    }

    // Refused when the ring is full, unless every slot is owed to a reader that has
    // not run yet: then the oldest message is lost.
    method Write(m: M) returns (ok: bool)
      requires Follows()
      modifies this, storage, waiting, waiting.mem
      ensures Tracks() && s == Step(old(s), AWrite(m))
      ensures Follows() <==> |old(s.tokens)| < storage.Length
      ensures ok <==> |old(s.queue)| < storage.Length || |old(s.tokens)| == storage.Length
      ensures s.queue == if ok then old(s.queue) + [m] else old(s.queue)
    {
      hide KWaitQueue.Valid, Threads, RingHolds;
      OverwritesExactlyWhen(s, m);
      RejectsWhenFull(s);
      if writeP == readP && count != 0 {
        return false;
      }
      storage[writeP] := m;
      writeP := (writeP + 1) % storage.Length;
      GiveToken();
      s := Step(s, AWrite(m));
      ok := true;
    }

    // semaphore::give
    method GiveToken()
      requires waiting.Valid()
      modifies this`count, waiting, waiting.mem
      ensures waiting.Valid()
      ensures var handed := old(count) == 0 != storage.Length && old(waiting.Waiters()) != [];
              && count == (if handed || old(count) == storage.Length then old(count) else old(count) + 1)
              && waiting.Waiters() == if handed then old(waiting.Waiters())[1..] else old(waiting.Waiters())
    {
      hide KWaitQueue.Valid;
      if count == storage.Length {
        return;
      }
      waiting.EmptyExactlyWhen();
      if count == 0 && !waiting.Empty() {
        var _ := waiting.NotifyOne();
      } else {
        count := count + 1;
      }
    }
  }
}
