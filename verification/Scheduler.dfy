// kernel/kthread.cpp in place: the scheduler object on rings in memory. A thread is
// named by the address of its list node; its state and priority are fields of the
// thread.
module Scheduler {
  import opened Common
  import opened IntrusiveList
  import opened Memory
  import opened RingFamily
  import opened SchedulerModel

  datatype Error = Ok | Invalid

  // The threads' list nodes do not overlap.
  predicate NodesApart(prio: map<int, int>) {
    NULL !in prio && forall t, u | t in prio && u in prio && t != u :: Apart(t, u)
  }

  // A thread in no ring can be linked into one.
  lemma OffRings(s: Sched, t: int)
    requires Inv(s) && NodesApart(s.prio) && t in s.state && s.state[t].Zombie?
    ensures NewNode(s.runnable + s.blocked, t)
  {
    hide Owed;
    var rings := s.runnable + s.blocked;
    forall i | 0 <= i < |rings| ensures ApartFrom(rings[i], t) {
      forall j | 0 <= j < |rings[i]| ensures Apart(rings[i][j], t) {
        assert rings[i][j] in rings[i];
        if i < NUM_PRIORITIES {
          assert rings[i] == s.runnable[i];
        } else {
          assert rings[i] == s.blocked[i - NUM_PRIORITIES];
        }
      }
    }
  }

  lemma CurrentKnown(s: Sched)
    requires Inv(s)
    ensures Shape(s) && s.current in s.state
  {
  }

  lemma TopRing(s: Sched)
    requires Shape(s) && Top(s) >= 0
    ensures (s.runnable + s.blocked)[Top(s)] == s.runnable[Top(s)] != []
  {
  }

  lemma OnlyIdle(ready: seq<seq<int>>, prio: map<int, int>, idle: int)
    requires |ready| == NUM_PRIORITIES && ready[0] == Pushed([], idle) && idle in prio && prio[idle] == 0
    requires forall p | 0 < p < NUM_PRIORITIES :: ready[p] == []
    ensures ready == Start(prio, idle).runnable
  {
    var r := Start(prio, idle).runnable;
    assert ready[0] == [idle] == r[0];
    forall p | 0 <= p < NUM_PRIORITIES ensures ready[p] == r[p] { }
  }

  class KScheduler {
    const mem: NodeMemory
    const runnable: array<int>
    const blocked: array<int>
    var current: int
    var needResched: bool
    var preemptDisable: nat
    var state: map<int, ThreadState>
    const prio: map<int, int>
    // The rings behind the heads in runnable and blocked.
    ghost var ready: seq<seq<int>>
    ghost var asleep: seq<seq<int>>

    ghost function S(): Sched
      reads this
    {
      Sched(ready, asleep, current, needResched, preemptDisable, state, prio)
    }

    ghost predicate Linked()
      reads this, mem, runnable, blocked
    {
      && runnable != blocked && runnable.Length == blocked.Length == NUM_PRIORITIES
      && |ready| == |asleep| == NUM_PRIORITIES
      && Rings(mem.words, runnable[..] + blocked[..], ready + asleep)
    }

    ghost predicate Valid()
      reads this, mem, runnable, blocked
    {
      Linked() && NodesApart(prio) && Inv(S())
    }

    constructor (mem: NodeMemory, prio: map<int, int>, idle: int)
      requires idle in prio && prio[idle] == 0 && forall t | t in prio :: 0 <= prio[t] < NUM_PRIORITIES
      requires NodesApart(prio)
      modifies mem
      ensures Valid() && S() == Start(prio, idle) && this.mem == mem
    {
      this.mem, this.prio := mem, prio;
      runnable := new int[NUM_PRIORITIES](_ => NULL);
      blocked := new int[NUM_PRIORITIES](_ => NULL);
      current, needResched, preemptDisable := idle, false, 0;
      state := map t | t in prio :: if t == idle then Runnable else Zombie;
      ready := seq(NUM_PRIORITIES, _ => []);
      asleep := seq(NUM_PRIORITIES, _ => []);
      new;
      hide Placed, Owed, NodesApart;
      LinkReady(0, idle);
      OnlyIdle(ready, prio, idle);
      StartInv(prio, idle);
    }


    method LinkReady(p: int, t: int)
      requires Linked() && 0 <= p < NUM_PRIORITIES && NewNode(ready + asleep, t)
      modifies this`ready, mem, runnable
      ensures Linked() && ready == old(ready)[p := Pushed(old(ready)[p], t)]
    {
      hide Rings, NewNode, PushBackStores;
      ghost var heads, rings := runnable[..] + blocked[..], ready + asleep;
      RingCount(mem.words, heads, rings);
      FamilyPush(mem.words, heads, rings, p, t);
      runnable[p] := mem.PushBack(runnable[p], t);
      ready := ready[p := Pushed(ready[p], t)];
      assert runnable[..] + blocked[..] == heads[p := t];
      assert ready + asleep == rings[p := Pushed(rings[p], t)];
    }

    method LinkAsleep(p: int, t: int)
      requires Linked() && 0 <= p < NUM_PRIORITIES && NewNode(ready + asleep, t)
      modifies this`asleep, mem, blocked
      ensures Linked() && asleep == old(asleep)[p := Pushed(old(asleep)[p], t)]
    {
      hide Rings, NewNode, PushBackStores;
      ghost var heads, rings, n := runnable[..] + blocked[..], ready + asleep, NUM_PRIORITIES;
      RingCount(mem.words, heads, rings);
      FamilyPush(mem.words, heads, rings, n + p, t);
      blocked[p] := mem.PushBack(blocked[p], t);
      asleep := asleep[p := Pushed(asleep[p], t)];
      assert runnable[..] + blocked[..] == heads[n + p := t];
      assert ready + asleep == rings[n + p := Pushed(rings[n + p], t)];
    }

    method UnlinkReady(p: int, t: int)
      requires Linked() && 0 <= p < NUM_PRIORITIES && t in ready[p]
      modifies this`ready, mem, runnable
      ensures Linked() && ready == old(ready)[p := Deleted(old(ready)[p], t)]
    {
      hide Rings, DeleteStores, CanUnlink, RemovedAt;
      ghost var heads, rings := runnable[..] + blocked[..], ready + asleep;
      ghost var k := IndexOf(ready[p], t);
      RingCount(mem.words, heads, rings);
      RingOf(mem.words, heads, rings, p);
      FamilyDelete(mem.words, heads, rings, p, k);
      runnable[p] := mem.Delete(runnable[p], t);
      ready := ready[p := Deleted(ready[p], t)];
      assert runnable[..] + blocked[..] == heads[p := runnable[p]];
      assert ready + asleep == rings[p := RemovedAt(rings[p], k)];
    }

    method UnlinkAsleep(p: int, t: int)
      requires Linked() && 0 <= p < NUM_PRIORITIES && t in asleep[p]
      modifies this`asleep, mem, blocked
      ensures Linked() && asleep == old(asleep)[p := Deleted(old(asleep)[p], t)]
    {
      hide Rings, DeleteStores, CanUnlink, RemovedAt;
      ghost var heads, rings, n := runnable[..] + blocked[..], ready + asleep, NUM_PRIORITIES;
      ghost var k := IndexOf(asleep[p], t);
      RingCount(mem.words, heads, rings);
      RingOf(mem.words, heads, rings, n + p);
      FamilyDelete(mem.words, heads, rings, n + p, k);
      blocked[p] := mem.Delete(blocked[p], t);
      asleep := asleep[p := Deleted(asleep[p], t)];
      assert runnable[..] + blocked[..] == heads[n + p := blocked[p]];
      assert ready + asleep == rings[n + p := RemovedAt(rings[n + p], k)];
    }

    // add_thread for a thread that is in no ring.
    method Add(t: int) returns (e: Error)
      requires Valid() && (t == NULL || (t in state && state[t].Zombie?))
      modifies this, mem, runnable
      ensures Valid() && (e == Invalid <==> t == NULL)
      ensures t == NULL ==> S() == old(S())
      ensures t != NULL ==> Known(old(S()), t) && S() == AddThread(old(S()), t)
    {
      hide Rings, Inv, NewNode;
      if t == NULL {
        return Invalid;
      }
      CurrentKnown(S());
      AddKeeps(S(), t);
      OffRings(S(), t);
      var p := prio[t];
      state := state[t := Runnable];
      LinkReady(p, t);
      if prio[current] < p {
        needResched := true;
      }
      e := Ok;
    }

    // remove_thread for a queued thread.
    method Remove(t: int) returns (e: Error)
      requires Valid() && (t == NULL || (t in state && Ready(state[t])))
      modifies this, mem, runnable
      ensures Valid() && (e == Invalid <==> t == NULL)
      ensures t == NULL ==> S() == old(S())
      ensures t != NULL ==>
                Known(old(S()), t) && t in old(ready)[prio[t]] && S() == RemoveThread(old(S()), t)
    {
      hide Rings, Inv;
      if t == NULL {
        return Invalid;
      }
      RemoveKeeps(S(), t);
      var p := prio[t];
      state := state[t := Zombie];
      UnlinkReady(p, t);
      e := Ok;
    }

    // The head of the highest non-empty ring runs next; the scan goes down from
    // the top priority.
    method Schedule()
      requires Valid() && (preemptDisable == 0 ==> Top(S()) >= 0)
      modifies this, runnable
      ensures Valid() && S() == SchedulerModel.Schedule(old(S()))
      ensures old(preemptDisable) == 0 ==> CurrentIsTop(S())
    {
      hide Rings, Inv, TopFrom;
      CurrentKnown(S());
      ScheduleKeeps(S());
      if preemptDisable > 0 {
        return;
      }
      needResched := false;
      var p := FindTop();
      TopRing(S());
      ghost var heads, rings := runnable[..] + blocked[..], ready + asleep;
      RingCount(mem.words, heads, rings);
      FamilyRotate(mem.words, heads, rings, p);
      current := runnable[p];
      state := state[current := Active];
      runnable[p] := mem.words[runnable[p]];
      ready := ready[p := Rotated(ready[p])];
      assert runnable[..] + blocked[..] == heads[p := runnable[p]];
      assert ready + asleep == rings[p := Rotated(rings[p])];
    }

    method FindTop() returns (p: int)
      requires Linked() && Shape(S()) && Top(S()) >= 0
      ensures p == Top(S())
    {
      hide Rings;
      p := NUM_PRIORITIES - 1;
      while p >= 0
        invariant -1 <= p < NUM_PRIORITIES
        invariant TopFrom(ready, p) == TopFrom(ready, NUM_PRIORITIES - 1)
      {
        HeadOf(mem.words, runnable[..] + blocked[..], ready + asleep, p);
        if runnable[p] != NULL {
          break;
        }
        p := p - 1;
      }
    }

    // sleep_until with an infinite deadline.
    method Sleep()
      requires Valid() && Ready(state[current])
      requires current in ready[prio[current]] && (preemptDisable == 0 ==> Top(Parked(S())) >= 0)
      modifies this, mem, runnable, blocked
      ensures Valid() && S() == SchedulerModel.Sleep(old(S()))
      ensures old(preemptDisable) == 0 ==> CurrentIsTop(S())
    {
      hide Rings, Inv, NewNode, TopFrom, Deleted;
      CurrentKnown(S());
      ParkedKeeps(S());
      var t, p := current, prio[current];
      ghost var s := S();
      NotNullThread(t);
      var _ := Remove(t);
      OffRings(S(), t);
      state := state[t := Blocked];
      LinkAsleep(p, t);
      assert S() == Parked(s);
      Schedule();
    }

    lemma NotNullThread(t: int)
      requires Valid() && t in state
      ensures t != NULL
    {
    }

    method Wake(t: int) returns (e: Error)
      requires Valid() && t in state
      modifies this, mem, runnable, blocked
      ensures Valid() && Known(old(S()), t) && (old(state)[t].Blocked? ==> t in old(asleep)[prio[t]])
      ensures S() == SchedulerModel.Wake(old(S()), t)
      ensures e.Ok? <==> old(state)[t].Blocked?
    {
      hide Rings, Inv, NewNode, Deleted;
      CurrentKnown(S());
      WakeKeeps(S(), t);
      if !state[t].Blocked? {
        return Invalid;
      }
      Unblocked(S(), t);
      NotNullThread(t);
      var p := prio[t];
      ghost var s := S().(blocked := asleep[p := Deleted(asleep[p], t)], state := state[t := Zombie]);
      OffRings(s, t);
      UnlinkAsleep(p, t);
      state := state[t := Runnable];
      LinkReady(p, t);
      if prio[current] < p {
        needResched := true;
      }
      e := Ok;
    }

    method PreemptDisable()
      requires Valid()
      modifies this`preemptDisable
      ensures Valid() && S() == SchedulerModel.PreemptDisable(old(S()))
    {
      hide Rings;
      preemptDisable := preemptDisable + 1;
    }

    method PreemptEnable(reschedule: bool)
      requires Valid() && (preemptDisable == 1 && reschedule && needResched ==> Top(S()) >= 0)
      modifies this, runnable
      ensures Valid() && S() == SchedulerModel.PreemptEnable(old(S()), reschedule)
      ensures old(preemptDisable) == 1 && reschedule ==> CurrentIsTop(S())
    {
      hide Rings, TopFrom, Placed;
      EnableKeeps(S(), reschedule);
      if preemptDisable > 0 {
        preemptDisable := preemptDisable - 1;
        if preemptDisable == 0 && reschedule && needResched {
          Schedule();
        }
      }
    }
  }
}
