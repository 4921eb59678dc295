// kernel/mutex.cpp over kernel/waitq.cpp, for any number of threads using
// infinite timeouts. Each interrupt-off region is one step; between the failed
// test of the owner and the wait, interrupts are on and other threads may run.
module Mutex {
  import opened Common
  import opened IntrusiveList
  import opened Memory
  import opened WaitQueue

  // Where a thread is: not in lock, past the failed owner test, asleep in the
  // wait queue, woken with the mutex handed over but the owner not yet updated,
  // or holding it.
  datatype Pc = Outside | Refused | Waiting | Handed | Holding

  // waiters is the wait queue from its head; the newest waiter comes first.
  datatype State = State(owner: Option<int>, waiters: seq<int>, pc: map<int, Pc>)

  function PcOf(s: State, t: int): Pc { if t in s.pc then s.pc[t] else Outside }

  const START: State := State(None, [], map[])

  // ---- the atomic regions ---------------------------------------------------------

  function TryLock(s: State, t: int): State {
    if s.owner.None? then s.(owner := Some(t), pc := s.pc[t := Holding]) else s.(pc := s.pc[t := Refused])
  }

  function Enqueue(s: State, t: int): State {
    s.(waiters := Pushed(s.waiters, t), pc := s.pc[t := Waiting])
  }

  function Resume(s: State, t: int): State {
    s.(owner := Some(t), pc := s.pc[t := Holding])
  }

  // The body of unlock: the owner field is left alone when a waiter is woken.
  function Release(s: State, t: int): State {
    if s.owner != Some(t) then s
    else if s.waiters != [] then s.(waiters := s.waiters[1..], pc := s.pc[s.waiters[0] := Handed])
    else s.(owner := None)
  }

  function Unlock(s: State, t: int): State {
    Release(s.(pc := s.pc[t := Outside]), t)
  }

  datatype Action = ALock(t: int) | AWait(t: int) | AResume(t: int) | AUnlock(t: int)

  predicate Enabled(s: State, a: Action) {
    match a
    case ALock(t) => PcOf(s, t).Outside?
    case AWait(t) => PcOf(s, t).Refused?
    case AResume(t) => PcOf(s, t).Handed?
    case AUnlock(t) => PcOf(s, t).Holding?
  }

  function Step(s: State, a: Action): State {
    match a
    case ALock(t) => TryLock(s, t)
    case AWait(t) => Enqueue(s, t)
    case AResume(t) => Resume(s, t)
    case AUnlock(t) => Unlock(s, t)
  }

  predicate IsRun(s: State, actions: seq<Action>)
    decreases |actions|
  {
    actions == [] || (Enabled(s, actions[0]) && IsRun(Step(s, actions[0]), actions[1..]))
  }

  function After(s: State, actions: seq<Action>): State
    decreases |actions|
  {
    if actions == [] then s else After(Step(s, actions[0]), actions[1..])
  }

  // ---- mutual exclusion -------------------------------------------------------------

  predicate Critical(s: State, t: int) { PcOf(s, t).Holding? || PcOf(s, t).Handed? }

  predicate Queued(s: State, t: int) { PcOf(s, t).Waiting? }

  ghost predicate Inv(s: State) {
    && (forall t, u :: Critical(s, t) && Critical(s, u) ==> t == u)
    && (forall t :: Critical(s, t) ==> s.owner.Some? && (PcOf(s, t).Holding? ==> s.owner == Some(t)))
    && (forall t :: t in s.waiters <==> Queued(s, t))
    && (forall i, j | 0 <= i < j < |s.waiters| :: s.waiters[i] != s.waiters[j])
    && (s.owner.Some? ==> exists t :: Critical(s, t))
  }

  lemma UnlockKeeps(s: State, t: int)
    requires Inv(s) && PcOf(s, t).Holding?
    ensures Inv(Unlock(s, t))
  {
    var s' := Unlock(s, t);
    assert Critical(s, t);
    if s.waiters != [] {
      var w := s.waiters[0];
      assert w in s.waiters && Queued(s, w) && s.waiters == [w] + s.waiters[1..];
      forall u ensures Critical(s', u) <==> u == w {
        assert Critical(s', u) ==> u == w || (u != t && Critical(s, u));
      }
      forall u ensures u in s'.waiters <==> Queued(s', u) {
        assert u in s.waiters <==> Queued(s, u);
      }
      assert !PcOf(s', w).Holding? && Critical(s', w);
    } else {
      forall u ensures !Critical(s', u) && (u in s'.waiters <==> Queued(s', u)) {
        assert u in s.waiters <==> Queued(s, u);
        assert Critical(s', u) ==> u != t && Critical(s, u);
      }
    }
  }

  lemma LockKeeps(s: State, t: int)
    requires Inv(s) && PcOf(s, t).Outside?
    ensures Inv(TryLock(s, t))
  {
    var s' := TryLock(s, t);
    forall u ensures u in s'.waiters <==> Queued(s', u) {
      assert u in s.waiters <==> Queued(s, u);
    }
    if s.owner.None? {
      forall u ensures Critical(s', u) <==> u == t {
        assert !Critical(s, u);
      }
      assert Critical(s', t);
    } else {
      forall u ensures Critical(s', u) <==> Critical(s, u) { }
    }
  }

  lemma WaitKeeps(s: State, t: int)
    requires Inv(s) && PcOf(s, t).Refused?
    ensures Inv(Enqueue(s, t))
  {
    var s' := Enqueue(s, t);
    assert t !in s.waiters by { assert !Queued(s, t); }
    forall u ensures u in s'.waiters <==> Queued(s', u) {
      assert u in s.waiters <==> Queued(s, u);
    }
    forall u ensures Critical(s', u) <==> Critical(s, u) { }
  }

  lemma ResumeKeeps(s: State, t: int)
    requires Inv(s) && PcOf(s, t).Handed?
    ensures Inv(Resume(s, t))
  {
    var s' := Resume(s, t);
    assert Critical(s, t);
    forall u ensures u in s'.waiters <==> Queued(s', u) {
      assert u in s.waiters <==> Queued(s, u);
    }
    forall u ensures Critical(s', u) <==> u == t {
      assert Critical(s', u) ==> Critical(s, u);
    }
    assert Critical(s', t);
  }

  lemma StepKeeps(s: State, a: Action)
    requires Inv(s) && Enabled(s, a)
    ensures Inv(Step(s, a))
  {
    match a
    case ALock(t) => LockKeeps(s, t);
    case AWait(t) => WaitKeeps(s, t);
    case AResume(t) => ResumeKeeps(s, t);
    case AUnlock(t) => UnlockKeeps(s, t);
  }

  lemma {:induction false} RunKeeps(s: State, actions: seq<Action>)
    requires Inv(s) && IsRun(s, actions)
    ensures Inv(After(s, actions))
    decreases |actions|
  {
    if actions != [] {
      StepKeeps(s, actions[0]);
      RunKeeps(Step(s, actions[0]), actions[1..]);
    }
  }

  // In every run at most one thread holds the mutex or has been handed it, even
  // while the owner field still names the previous holder; and the mutex is
  // marked free exactly when nobody does.
  lemma MutualExclusion(actions: seq<Action>)
    requires IsRun(START, actions)
    ensures var s := After(START, actions);
            && (forall t, u :: Critical(s, t) && Critical(s, u) ==> t == u)
            && (s.owner.Some? <==> exists t :: Critical(s, t))
            && (forall t :: Critical(s, t) && PcOf(s, t).Holding? ==> s.owner == Some(t))
  {
    RunKeeps(START, actions);
  }

  // Only thread t, and the thread w if it is one, change their place.
  ghost predicate OthersStay(s: State, s': State, t: int, w: Option<int>) {
    forall u | u != t && Some(u) != w :: PcOf(s', u) == PcOf(s, u)
  }

  // lock takes the mutex exactly when there is no owner, and otherwise changes nothing;
  // a waiter becomes the first of the queue; a resumed thread is the holder and owner.
  lemma LockEffect(s: State, t: int)
    ensures s.owner.None? ==> TryLock(s, t).owner == Some(t) && PcOf(TryLock(s, t), t).Holding?
    ensures s.owner.Some? ==> TryLock(s, t).owner == s.owner && PcOf(TryLock(s, t), t).Refused?
    ensures TryLock(s, t).waiters == s.waiters && OthersStay(s, TryLock(s, t), t, None)
    ensures Enqueue(s, t).waiters == [t] + s.waiters && PcOf(Enqueue(s, t), t).Waiting?
    ensures Enqueue(s, t).owner == s.owner && OthersStay(s, Enqueue(s, t), t, None)
    ensures Resume(s, t).owner == Some(t) && PcOf(Resume(s, t), t).Holding?
    ensures Resume(s, t).waiters == s.waiters && OthersStay(s, Resume(s, t), t, None)
  {
  }

  // unlock by the holder hands the mutex to the newest waiter, the owner field still
  // naming the caller, or frees it if nobody waits.
  lemma UnlockEffect(s: State, t: int)
    requires Inv(s) && PcOf(s, t).Holding?
    ensures PcOf(Unlock(s, t), t).Outside?
    ensures s.waiters == [] ==>
              Unlock(s, t).owner == None && Unlock(s, t).waiters == [] && OthersStay(s, Unlock(s, t), t, None)
    ensures s.waiters != [] ==>
              && PcOf(s, s.waiters[0]).Waiting? && PcOf(Unlock(s, t), s.waiters[0]).Handed?
              && Unlock(s, t).waiters == s.waiters[1..] && Unlock(s, t).owner == Some(t)
              && OthersStay(s, Unlock(s, t), t, Some(s.waiters[0]))
  {
    HolderIsOwner(s, t);
    if s.waiters != [] { assert s.waiters[0] in s.waiters && Queued(s, s.waiters[0]); }
  }

  // A thread that does not hold the mutex may call unlock without harm exactly
  // when the owner field does not name it: right after handing the mutex over,
  // the previous holder is still named and a second unlock breaks exclusion.
  lemma UnlockByNonHolder(s: State, t: int)
    requires Inv(s) && !PcOf(s, t).Holding?
    ensures Inv(Release(s, t)) <==> s.owner != Some(t)
  {
    if s.owner == Some(t) {
      var c :| Critical(s, c);
      var s' := Release(s, t);
      if s.waiters != [] {
        var w := s.waiters[0];
        assert w in s.waiters && Queued(s, w);
        assert Critical(s', w) && Critical(s', c) && w != c;
      } else {
        assert Critical(s', c) && s'.owner.None?;
      }
    }
  }

  // The previous holder is still named after a handover, and its second unlock lets a
  // third thread in beside the second.
  lemma SecondUnlockExample()
    ensures var run := [ALock(1), ALock(2), AWait(2), AUnlock(1)];
            var s := After(START, run);
            && IsRun(START, run) && s == State(Some(1), [], map[1 := Outside, 2 := Handed])
            && Release(s, 1).owner == None && Critical(Release(s, 1), 2)
            && Critical(TryLock(Release(s, 1), 3), 2) && Critical(TryLock(Release(s, 1), 3), 3)
  {
    var s1 := Step(START, ALock(1));
    var s2 := Step(s1, ALock(2));
    var s3 := Step(s2, AWait(2));
    var s4 := Step(s3, AUnlock(1));
    assert s4.pc == map[1 := Outside, 2 := Handed];
    var run := [ALock(1), ALock(2), AWait(2), AUnlock(1)];
    assert run[1..] == [ALock(2), AWait(2), AUnlock(1)];
    assert run[1..][1..] == [AWait(2), AUnlock(1)];
    assert run[1..][1..][1..] == [AUnlock(1)];
    assert run[1..][1..][1..][1..] == [];
    assert After(s3, [AUnlock(1)]) == After(s4, []);
    assert IsRun(s3, [AUnlock(1)]) && IsRun(s2, [AWait(2), AUnlock(1)]);
  }

  // ---- the wait queue can be left behind ------------------------------------------------

  // A thread sleeps although the mutex is free; nobody is about to wake it.
  predicate Stranded(s: State) { s.waiters != [] && s.owner.None? }

  predicate EverStranded(s: State, actions: seq<Action>)
    decreases |actions|
  {
    Stranded(s) || (actions != [] && EverStranded(Step(s, actions[0]), actions[1..]))
  }

  // Some thread went to sleep after its owner test, with the mutex freed meanwhile.
  predicate WaitsWhenFree(s: State, actions: seq<Action>)
    decreases |actions|
  {
    actions != [] &&
    ((actions[0].AWait? && s.owner.None?) || WaitsWhenFree(Step(s, actions[0]), actions[1..]))
  }

  // The gap between the owner test and the wait is the only way to strand a
  // sleeper, and it always does.
  lemma {:induction false} StrandedExactlyByTheGap(s: State, actions: seq<Action>)
    requires IsRun(s, actions) && !Stranded(s)
    ensures EverStranded(s, actions) <==> WaitsWhenFree(s, actions)
    decreases |actions|
  {
    if actions != [] {
      var s' := Step(s, actions[0]);
      if actions[0].AWait? && s.owner.None? {
        assert Stranded(s');
      } else {
        assert !Stranded(s');
        StrandedExactlyByTheGap(s', actions[1..]);
      }
    }
  }

  lemma GapExample()
    ensures var run := [ALock(1), ALock(2), AUnlock(1), AWait(2)];
            IsRun(START, run) && After(START, run) == State(None, [2], map[1 := Outside, 2 := Waiting])
  {
    var s1 := Step(START, ALock(1));
    var s2 := Step(s1, ALock(2));
    var s3 := Step(s2, AUnlock(1));
    var s4 := Step(s3, AWait(2));
    assert s4.pc == map[1 := Outside, 2 := Waiting];
    var run := [ALock(1), ALock(2), AUnlock(1), AWait(2)];
    assert run[1..] == [ALock(2), AUnlock(1), AWait(2)];
    assert run[1..][1..] == [AUnlock(1), AWait(2)];
    assert run[1..][1..][1..] == [AWait(2)];
    assert run[1..][1..][1..][1..] == [];
    assert After(s3, [AWait(2)]) == After(s4, []);
    assert IsRun(s3, [AWait(2)]) && IsRun(s2, [AUnlock(1), AWait(2)]);
  }

  // ---- the object -------------------------------------------------------------------------

  // owner_ and waiting_queue_; pc records where each thread is.
  class KMutex {
    var owner: Option<int>
    const waiting: KWaitQueue
    ghost var pc: map<int, Pc>

    ghost function S(): State
      reads this, waiting, waiting.mem
      requires waiting.Valid()
    {
      State(owner, waiting.Waiters(), pc)
    }

    ghost predicate Valid()
      reads this, waiting, waiting.mem
    {
      waiting.Valid() && Inv(S())
    }

    constructor (mem: NodeMemory)
      ensures Valid() && S() == START && fresh(waiting) && waiting.mem == mem
    {
      owner, pc := None, map[];
      waiting := new KWaitQueue(mem);
    }

    // lock up to the first interrupt restore.
    method TryLock(t: int) returns (locked: bool)
      requires Valid() && PcOf(S(), t).Outside?
      modifies this
      ensures Valid() && S() == Step(old(S()), ALock(t))
      ensures locked <==> old(owner).None?
      ensures locked <==> PcOf(S(), t).Holding?
    {
      hide Inv, KWaitQueue.Valid;
      StepKeeps(S(), ALock(t));
      locked := owner.None?;
      if locked {
        owner := Some(t);
        pc := pc[t := Holding];
      } else {
        pc := pc[t := Refused];
      }
    }

    // waitq::wait up to the switch away, with the item on the caller's stack.
    method Wait(t: int, item: int)
      requires Valid() && PcOf(S(), t).Refused? && item != NULL && ApartFrom(waiting.items, item)
      modifies this, waiting, waiting.mem
      ensures Valid() && S() == Step(old(S()), AWait(t))
    {
      hide Inv, KWaitQueue.Valid, ApartFrom;
      StepKeeps(S(), AWait(t));
      waiting.Wait(t, item);
      pc := pc[t := Waiting];
    }

    // lock after a successful wait.
    method Resume(t: int)
      requires Valid() && PcOf(S(), t).Handed?
      modifies this
      ensures Valid() && S() == Step(old(S()), AResume(t))
    {
      hide Inv, KWaitQueue.Valid;
      StepKeeps(S(), AResume(t));
      owner := Some(t);
      pc := pc[t := Holding];
    }

    // unlock by any thread. A call by one that does not hold the mutex changes
    // nothing, unless the owner field still names it.
    method Unlock(t: int) returns (next: Option<int>)
      requires Valid()
      modifies this, waiting, waiting.mem
      ensures waiting.Valid()
      ensures old(PcOf(S(), t)).Holding? ==> S() == Step(old(S()), AUnlock(t))
      ensures !old(PcOf(S(), t)).Holding? ==> S() == Release(old(S()), t)
      ensures Valid() <==> old(PcOf(S(), t)).Holding? || old(owner) != Some(t)
      ensures next == if old(owner) == Some(t) && old(waiting.Waiters()) != [] then Some(old(waiting.Waiters())[0]) else None
    {
      hide Inv, KWaitQueue.Valid;
      ghost var s := S();
      if PcOf(s, t).Holding? {
        HolderIsOwner(s, t);
        StepKeeps(s, AUnlock(t));
        pc := pc[t := Outside];
      } else {
        UnlockByNonHolder(s, t);
      }
      next := None;
      waiting.EmptyExactlyWhen();
      if Some(t) == owner {
        if !waiting.Empty() {
          next := waiting.NotifyOne();
          pc := pc[next.value := Handed];
        } else {
          owner := None;
        }
      }
    }
  }

  lemma HolderIsOwner(s: State, t: int)
    requires Inv(s) && PcOf(s, t).Holding?
    ensures s.owner == Some(t)
  {
    assert Critical(s, t);
  }
}
