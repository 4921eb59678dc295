// The scheduler of kernel/kthread.cpp. Each ring is given by the sequence of its
// threads from the head; push_back, delete and following next act on it as proved
// in IntrusiveList: prepend, remove, rotate. Every operation runs with interrupts
// off and is one step; a context switch changes no scheduler data.
module SchedulerModel {
  import opened Common
  import opened IntrusiveList

  const NUM_PRIORITIES: int := 10

  datatype ThreadState = Zombie | Active | Runnable | Blocked

  datatype Sched = Sched(
    runnable: seq<seq<int>>, blocked: seq<seq<int>>, current: int, needResched: bool, preempt: nat,
    state: map<int, ThreadState>, prio: map<int, int>)

  predicate Known(s: Sched, t: int) {
    t in s.state && t in s.prio && 0 <= s.prio[t] < NUM_PRIORITIES
  }

  predicate Shape(s: Sched) {
    |s.runnable| == NUM_PRIORITIES && |s.blocked| == NUM_PRIORITIES && Known(s, s.current)
  }

  function Deleted(q: seq<int>, t: int): seq<int>
    requires t in q
  {
    RemovedAt(q, IndexOf(q, t))
  }

  // ---- operations ---------------------------------------------------------------

  function AddThread(s: Sched, t: int): Sched
    requires Shape(s) && Known(s, t)
  {
    var p := s.prio[t];
    s.(state := s.state[t := Runnable],
       runnable := s.runnable[p := Pushed(s.runnable[p], t)],
       needResched := s.needResched || s.prio[s.current] < p)
  }

  function RemoveThread(s: Sched, t: int): Sched
    requires Shape(s) && Known(s, t) && t in s.runnable[s.prio[t]]
  {
    var p := s.prio[t];
    s.(state := s.state[t := Zombie], runnable := s.runnable[p := Deleted(s.runnable[p], t)])
  }

  // The highest priority at or below p with a runnable thread, or -1.
  function TopFrom(runnable: seq<seq<int>>, p: int): (r: int)
    requires -1 <= p < |runnable|
    ensures -1 <= r <= p
    ensures r >= 0 ==> runnable[r] != []
    ensures forall i | r < i <= p :: runnable[i] == []
  {
    if p < 0 then -1 else if runnable[p] != [] then p else TopFrom(runnable, p - 1)
  }

  function Top(s: Sched): int
    requires Shape(s)
  {
    TopFrom(s.runnable, NUM_PRIORITIES - 1)
  }

  // The scheduler runs the head of the top ring and moves that ring's head on.
  // Nothing happens while preemption is disabled. The previous thread keeps its
  // state.
  function Schedule(s: Sched): Sched
    requires Shape(s) && (s.preempt == 0 ==> Top(s) >= 0)
  {
    if s.preempt > 0 then s else
      var p := Top(s);
      var t := s.runnable[p][0];
      s.(needResched := false, current := t, state := s.state[t := Active],
         runnable := s.runnable[p := Rotated(s.runnable[p])])
  }

  // The current thread moves to the blocked ring of its priority.
  function Parked(s: Sched): Sched
    requires Shape(s) && s.current in s.runnable[s.prio[s.current]]
  {
    var p := s.prio[s.current];
    var s1 := RemoveThread(s, s.current);
    s1.(state := s1.state[s.current := Blocked], blocked := s1.blocked[p := Pushed(s1.blocked[p], s.current)])
  }

  function Sleep(s: Sched): Sched
    requires Shape(s) && s.current in s.runnable[s.prio[s.current]]
    requires s.preempt == 0 ==> Top(Parked(s)) >= 0
  {
    Schedule(Parked(s))
  }

  function Wake(s: Sched, t: int): Sched
    requires Shape(s) && Known(s, t) && (s.state[t].Blocked? ==> t in s.blocked[s.prio[t]])
  {
    if !s.state[t].Blocked? then s
    else AddThread(s.(blocked := s.blocked[s.prio[t] := Deleted(s.blocked[s.prio[t]], t)]), t)
  }

  function PreemptDisable(s: Sched): Sched { s.(preempt := s.preempt + 1) }

  function PreemptEnable(s: Sched, reschedule: bool): Sched
    requires Shape(s) && (s.preempt == 1 && reschedule && s.needResched ==> Top(s) >= 0)
  {
    if s.preempt == 0 then s
    else
      var s1 := s.(preempt := s.preempt - 1);
      if s1.preempt == 0 && reschedule && s1.needResched then Schedule(s1) else s1
  }

  // ---- invariant -----------------------------------------------------------------

  predicate NoDup(q: seq<int>) {
    forall i, j | 0 <= i < j < |q| :: q[i] != q[j]
  }

  predicate Ready(st: ThreadState) { st.Runnable? || st.Active? }

  // Every known thread is in exactly the ring its state and priority name:
  // runnable or active threads in their runnable ring, blocked threads in their
  // blocked ring, zombies in none; and no ring holds a thread twice.
  ghost predicate Placed(runnable: seq<seq<int>>, blocked: seq<seq<int>>, state: map<int, ThreadState>, prio: map<int, int>) {
    && (forall p | 0 <= p < |runnable| :: NoDup(runnable[p]))
    && (forall p | 0 <= p < |blocked| :: NoDup(blocked[p]))
    && (forall p, t | 0 <= p < |runnable| ::
          t in runnable[p] <==> t in state && t in prio && prio[t] == p && Ready(state[t]))
    && (forall p, t | 0 <= p < |blocked| ::
          t in blocked[p] <==> t in state && t in prio && prio[t] == p && state[t].Blocked?)
  }

  predicate AllKnown(state: map<int, ThreadState>, prio: map<int, int>) {
    && state.Keys == prio.Keys
    && forall t | t in prio :: 0 <= prio[t] < NUM_PRIORITIES
  }

  // A runnable thread of higher priority than the current one is never
  // overlooked: a reschedule is owed.
  predicate Owed(s: Sched)
    requires Shape(s)
  {
    forall t | t in s.state && t in s.prio && Ready(s.state[t]) && s.prio[t] > s.prio[s.current] :: s.needResched
  }

  ghost predicate Inv(s: Sched) {
    && Shape(s) && AllKnown(s.state, s.prio)
    && Placed(s.runnable, s.blocked, s.state, s.prio)
    && Owed(s)
  }

  // No runnable thread outranks the current one.
  predicate CurrentIsTop(s: Sched) {
    Shape(s) && forall t | t in s.state && t in s.prio && Ready(s.state[t]) :: s.prio[t] <= s.prio[s.current]
  }

  // ---- each operation keeps it -----------------------------------------------------

  lemma DeletedNoDup(q: seq<int>, t: int)
    requires NoDup(q) && t in q
    ensures NoDup(Deleted(q, t))
    ensures forall x :: x in Deleted(q, t) <==> x in q && x != t
  {
    var k := IndexOf(q, t);
    var r := Deleted(q, t);
    forall x ensures x in r <==> x in q && x != t {
      if x in q && x != t {
        var i :| 0 <= i < |q| && q[i] == x;
        assert r[if i < k then i else i - 1] == x;
      }
    }
  }

  lemma AddKeeps(s: Sched, t: int)
    requires Inv(s) && t in s.state && s.state[t].Zombie?
    ensures Known(s, t) && Inv(AddThread(s, t))
  {
  }

  lemma RemoveKeeps(s: Sched, t: int)
    requires Inv(s) && t in s.state && Ready(s.state[t])
    ensures Known(s, t) && t in s.runnable[s.prio[t]] && Inv(RemoveThread(s, t))
  {
    DeletedNoDup(s.runnable[s.prio[t]], t);
  }

  lemma RotatedSame(q: seq<int>)
    requires q != [] && NoDup(q)
    ensures NoDup(Rotated(q)) && forall x :: x in Rotated(q) <==> x in q
  {
    assert q == [q[0]] + q[1..];
  }

  lemma ScheduleKeeps(s: Sched)
    requires Inv(s) && (s.preempt == 0 ==> Top(s) >= 0)
    ensures Inv(Schedule(s))
    ensures s.preempt == 0 ==> CurrentIsTop(Schedule(s))
  {
    if s.preempt == 0 {
      var p := Top(s);
      RotatedSame(s.runnable[p]);
      assert s.runnable[p][0] in s.runnable[p];
      forall t | t in s.state && t in s.prio && Ready(s.state[t]) ensures s.prio[t] <= p {
        assert t in s.runnable[s.prio[t]];
      }
    }
  }

  lemma ParkedKeeps(s: Sched)
    requires Inv(s) && Ready(s.state[s.current])
    ensures s.current in s.runnable[s.prio[s.current]] && Inv(Parked(s))
  {
    var t, p := s.current, s.prio[s.current];
    RemoveKeeps(s, t);
    BlockZombie(RemoveThread(s, t));
  }

  lemma BlockZombie(s: Sched)
    requires Inv(s) && s.state[s.current].Zombie?
    ensures var p := s.prio[s.current];
            Inv(s.(state := s.state[s.current := Blocked], blocked := s.blocked[p := Pushed(s.blocked[p], s.current)]))
  {
  }

  lemma WakeKeeps(s: Sched, t: int)
    requires Inv(s) && t in s.state
    ensures Known(s, t) && (s.state[t].Blocked? ==> t in s.blocked[s.prio[t]]) && Inv(Wake(s, t))
  {
    hide Placed, Owed;
    if s.state[t].Blocked? {
      var p := s.prio[t];
      Unblocked(s, t);
      AddKeeps(s.(blocked := s.blocked[p := Deleted(s.blocked[p], t)], state := s.state[t := Zombie]), t);
      assert s.state[t := Zombie][t := Runnable] == s.state[t := Runnable];
    }
  }

  lemma Unblocked(s: Sched, t: int)
    requires Inv(s) && t in s.state && s.state[t].Blocked?
    ensures var p := s.prio[t];
            t in s.blocked[p] && Inv(s.(blocked := s.blocked[p := Deleted(s.blocked[p], t)], state := s.state[t := Zombie]))
  {
    DeletedNoDup(s.blocked[s.prio[t]], t);
  }

  // Leaving the outermost interrupt: whatever the handlers did, no runnable
  // thread outranks the one that continues.
  lemma EnableKeeps(s: Sched, reschedule: bool)
    requires Inv(s) && (s.preempt == 1 && reschedule && s.needResched ==> Top(s) >= 0)
    ensures Inv(PreemptEnable(s, reschedule))
    ensures s.preempt == 1 && reschedule ==> CurrentIsTop(PreemptEnable(s, reschedule))
  {
    if s.preempt > 0 {
      var s1 := s.(preempt := s.preempt - 1);
      assert Inv(s1);
      if s1.preempt == 0 && reschedule && s1.needResched { ScheduleKeeps(s1); }
    }
  }

  // ---- what each operation does --------------------------------------------------------

  // Thread t may have moved; every other thread keeps its state and its ring, and the
  // other threads keep their order in every ring.
  ghost predicate OthersStay(s: Sched, s': Sched, t: int) {
    && s'.prio == s.prio && s'.state.Keys == s.state.Keys
    && (forall u | u in s.state && u != t :: s'.state[u] == s.state[u])
    && |s'.runnable| == |s.runnable| && |s'.blocked| == |s.blocked|
    && (forall p | 0 <= p < |s.runnable| :: Except(s'.runnable[p], t) == Except(s.runnable[p], t))
    && (forall p | 0 <= p < |s.blocked| :: Except(s'.blocked[p], t) == Except(s.blocked[p], t))
  }

  // The ring without t.
  function Except(q: seq<int>, t: int): seq<int> {
    if q == [] then [] else (if q[0] == t then [] else [q[0]]) + Except(q[1..], t)
  }

  lemma ExceptPushed(q: seq<int>, t: int)
    ensures Except([t] + q, t) == Except(q, t)
  {
    assert ([t] + q)[1..] == q;
  }

  lemma {:induction false} ExceptConcat(q: seq<int>, r: seq<int>, t: int)
    ensures Except(q + r, t) == Except(q, t) + Except(r, t)
  {
    if q == [] {
      assert q + r == r;
    } else {
      assert (q + r)[1..] == q[1..] + r;
      ExceptConcat(q[1..], r, t);
    }
  }

  lemma ExceptDeleted(q: seq<int>, t: int)
    requires t in q
    ensures Except(Deleted(q, t), t) == Except(q, t)
  {
    var k := IndexOf(q, t);
    assert q == q[..k] + ([t] + q[k + 1..]);
    ExceptConcat(q[..k], [t] + q[k + 1..], t);
    ExceptPushed(q[k + 1..], t);
    ExceptConcat(q[..k], q[k + 1..], t);
  }

  predicate InNone(rings: seq<seq<int>>, t: int) {
    forall p | 0 <= p < |rings| :: t !in rings[p]
  }

  // add_thread: the thread is runnable at the head of its ring, and a reschedule is owed
  // if it outranks the current thread.
  lemma AddEffect(s: Sched, t: int)
    requires Inv(s) && t in s.state && s.state[t].Zombie?
    ensures Known(s, t)
    ensures var s' := AddThread(s, t);
            && s'.state[t].Runnable? && s'.runnable[s.prio[t]] == [t] + s.runnable[s.prio[t]]
            && InNone(s'.blocked, t) && OthersStay(s, s', t)
            && (s'.needResched <==> s.needResched || s.prio[s.current] < s.prio[t])
            && s'.current == s.current && s'.preempt == s.preempt
  {
    hide Owed, Except;
    ExceptPushed(s.runnable[s.prio[t]], t);
  }

  // remove_thread: the thread is in no ring.
  lemma RemoveEffect(s: Sched, t: int)
    requires Inv(s) && t in s.state && Ready(s.state[t])
    ensures Known(s, t) && t in s.runnable[s.prio[t]]
    ensures var s' := RemoveThread(s, t);
            && s'.state[t].Zombie? && InNone(s'.runnable, t) && InNone(s'.blocked, t) && OthersStay(s, s', t)
            && s'.needResched == s.needResched && s'.current == s.current && s'.preempt == s.preempt
  {
    hide Owed, Except;
    RemoveKeeps(s, t);
    DeletedNoDup(s.runnable[s.prio[t]], t);
    ExceptDeleted(s.runnable[s.prio[t]], t);
    hide Deleted;
  }

  // The first half of sleep: the caller is blocked at the head of its blocked ring and
  // in no runnable ring.
  lemma ParkedEffect(s: Sched)
    requires Inv(s) && Ready(s.state[s.current])
    ensures s.current in s.runnable[s.prio[s.current]]
    ensures var s', t := Parked(s), s.current;
            && s'.state[t].Blocked? && s'.blocked[s.prio[t]] == [t] + s.blocked[s.prio[t]]
            && InNone(s'.runnable, t) && OthersStay(s, s', t)
            && s'.needResched == s.needResched && s'.current == t && s'.preempt == s.preempt
  {
    hide Owed, Except, Deleted;
    var t := s.current;
    RemoveEffect(s, t);
    ExceptPushed(s.blocked[s.prio[t]], t);
  }

  // wake: a blocked thread becomes runnable at the head of its ring and leaves its
  // blocked ring; a reschedule is owed if it outranks the current thread. Any other
  // thread is left alone.
  lemma WakeEffect(s: Sched, t: int)
    requires Inv(s) && t in s.state
    ensures Known(s, t) && (s.state[t].Blocked? ==> t in s.blocked[s.prio[t]])
    ensures !s.state[t].Blocked? ==> Wake(s, t) == s
    ensures s.state[t].Blocked? ==>
              var s' := Wake(s, t);
              && s'.state[t].Runnable? && s'.runnable[s.prio[t]] == [t] + s.runnable[s.prio[t]]
              && InNone(s'.blocked, t) && OthersStay(s, s', t)
              && (s'.needResched <==> s.needResched || s.prio[s.current] < s.prio[t])
              && s'.current == s.current && s'.preempt == s.preempt
  {
    hide Owed, Except;
    if s.state[t].Blocked? {
      var p := s.prio[t];
      DeletedNoDup(s.blocked[p], t);
      ExceptDeleted(s.blocked[p], t);
      ExceptPushed(s.runnable[p], t);
      hide Deleted;
    }
  }

  // p is the highest priority with a runnable thread.
  predicate Highest(runnable: seq<seq<int>>, p: int) {
    0 <= p < |runnable| && runnable[p] != [] && forall i | p < i < |runnable| :: runnable[i] == []
  }

  // schedule: nothing while preemption is off; otherwise the head of the highest ring
  // runs, that ring turns by one, the reschedule is settled, and nothing else changes.
  lemma ScheduleEffect(s: Sched)
    requires Inv(s) && (s.preempt == 0 ==> Top(s) >= 0)
    ensures s.preempt > 0 ==> Schedule(s) == s
    ensures s.preempt == 0 ==>
              var s', p := Schedule(s), Top(s);
              && Highest(s.runnable, p) && s'.current == s.runnable[p][0]
              && s'.state == s.state[s'.current := Active] && !s'.needResched
              && s'.runnable == s.runnable[p := s.runnable[p][1..] + [s'.current]]
              && s'.blocked == s.blocked && s'.preempt == 0 && s'.prio == s.prio
  {
    hide Placed, Owed;
  }

  // sleep with preemption on: the caller is blocked, and the head of the highest ring
  // that is left runs.
  lemma SleepEffect(s: Sched)
    requires Inv(s) && Ready(s.state[s.current]) && s.preempt == 0
    requires s.current in s.runnable[s.prio[s.current]] && Top(Parked(s)) >= 0
    ensures var s', t, p := Sleep(s), s.current, Top(Parked(s));
            && s'.state[t].Blocked? && s'.blocked[s.prio[t]] == [t] + s.blocked[s.prio[t]]
            && (forall q | 0 <= q < |s'.runnable| :: t !in s'.runnable[q])
            && s'.current != t && s'.current in s.state && Ready(s.state[s'.current]) && s'.state[s'.current].Active?
            && (forall u | u in s.state && u != t && u != s'.current :: s'.state[u] == s.state[u])
            && Highest(Parked(s).runnable, p) && s'.current == Parked(s).runnable[p][0]
            && !s'.needResched && s'.preempt == 0
  {
    hide Owed, TopFrom, OthersStay, Parked;
    ParkedKeeps(s);
    ParkedEffect(s);
    ScheduleEffect(Parked(s));
    ParkedOthers(s);
    var s1, p := Parked(s), Top(Parked(s));
    assert s1.runnable[p][0] in s1.runnable[p];
    assert s1.runnable[p] == [s1.runnable[p][0]] + s1.runnable[p][1..];
  }

  lemma ParkedOthers(s: Sched)
    requires Inv(s) && Ready(s.state[s.current]) && s.current in s.runnable[s.prio[s.current]]
    ensures Parked(s).state == s.state[s.current := Blocked] && Parked(s).prio == s.prio
  {
  }

  // preempt_enable: the outermost call that may reschedule does so exactly when it is
  // owed; every other call only counts.
  lemma EnableEffect(s: Sched, reschedule: bool)
    requires Inv(s) && (s.preempt == 1 && reschedule && s.needResched ==> Top(s) >= 0)
    ensures var s' := PreemptEnable(s, reschedule);
            if s.preempt == 1 && reschedule && s.needResched then s' == Schedule(s.(preempt := 0))
            else s' == s.(preempt := if s.preempt > 0 then s.preempt - 1 else 0)
  {
  }

  // ---- runs ------------------------------------------------------------------------

  datatype Action =
    | Add(t: int) | Remove(t: int) | Yield | Block | Notify(t: int) | Disable | Enable(reschedule: bool)

  // What the source demands of its callers: only an idle thread is added, only a
  // queued one removed or put to sleep, and something is left to run.
  ghost predicate Enabled(s: Sched, a: Action) {
    Shape(s) &&
    match a
    case Add(t) => Known(s, t) && s.state[t].Zombie?
    case Remove(t) => Known(s, t) && Ready(s.state[t]) && t in s.runnable[s.prio[t]]
    case Yield => s.preempt == 0 ==> Top(s) >= 0
    case Block =>
      && s.current in s.state && Ready(s.state[s.current]) && s.current in s.runnable[s.prio[s.current]]
      && (s.preempt == 0 ==> Top(Parked(s)) >= 0)
    case Notify(t) => Known(s, t) && (s.state[t].Blocked? ==> t in s.blocked[s.prio[t]])
    case Disable => true
    case Enable(r) => s.preempt == 1 && r && s.needResched ==> Top(s) >= 0
  }

  ghost function Step(s: Sched, a: Action): Sched
    requires Enabled(s, a)
  {
    match a
    case Add(t) => AddThread(s, t)
    case Remove(t) => RemoveThread(s, t)
    case Yield => Schedule(s)
    case Block => Sleep(s)
    case Notify(t) => Wake(s, t)
    case Disable => PreemptDisable(s)
    case Enable(r) => PreemptEnable(s, r)
  }

  ghost predicate IsRun(s: Sched, actions: seq<Action>)
    decreases |actions|
  {
    actions == [] || (Enabled(s, actions[0]) && IsRun(Step(s, actions[0]), actions[1..]))
  }

  ghost function After(s: Sched, actions: seq<Action>): Sched
    requires IsRun(s, actions)
    decreases |actions|
  {
    if actions == [] then s else After(Step(s, actions[0]), actions[1..])
  }

  // The constructor: the idle thread is queued and current, the other threads
  // exist but are in no ring.
  function Start(prio: map<int, int>, idle: int): Sched
    requires idle in prio && prio[idle] == 0
  {
    Sched(seq(NUM_PRIORITIES, p => if p == 0 then [idle] else []), seq(NUM_PRIORITIES, _ => []), idle, false, 0,
          map t | t in prio :: if t == idle then Runnable else Zombie, prio)
  }

  lemma StartInv(prio: map<int, int>, idle: int)
    requires idle in prio && prio[idle] == 0 && forall t | t in prio :: 0 <= prio[t] < NUM_PRIORITIES
    ensures Inv(Start(prio, idle))
  {
  }

  lemma StepKeeps(s: Sched, a: Action)
    requires Inv(s) && Enabled(s, a)
    ensures Inv(Step(s, a))
  {
    match a
    case Add(t) => AddKeeps(s, t);
    case Remove(t) => RemoveKeeps(s, t);
    case Yield => ScheduleKeeps(s);
    case Block => ParkedKeeps(s); ScheduleKeeps(Parked(s));
    case Notify(t) => WakeKeeps(s, t);
    case Disable =>
    case Enable(r) => EnableKeeps(s, r);
  }

  lemma {:induction false} RunKeeps(s: Sched, actions: seq<Action>)
    requires Inv(s) && IsRun(s, actions)
    ensures Inv(After(s, actions))
    decreases |actions|
  {
    if actions != [] {
      StepKeeps(s, actions[0]);
      RunKeeps(Step(s, actions[0]), actions[1..]);
    }
  }

  // In every run each thread is in the ring its state names, a higher-priority
  // runnable thread implies an owed reschedule, and any outermost interrupt exit
  // or effective schedule leaves a top-priority thread running.
  lemma EveryRun(prio: map<int, int>, idle: int, actions: seq<Action>)
    requires idle in prio && prio[idle] == 0 && forall t | t in prio :: 0 <= prio[t] < NUM_PRIORITIES
    requires IsRun(Start(prio, idle), actions)
    ensures var s := After(Start(prio, idle), actions);
            && Inv(s)
            && (s.preempt == 1 && Enabled(s, Enable(true)) ==> CurrentIsTop(Step(s, Enable(true))))
            && (s.preempt == 0 && Enabled(s, Yield) ==> CurrentIsTop(Step(s, Yield)))
            && (s.preempt == 0 && Enabled(s, Block) ==> CurrentIsTop(Step(s, Block)))
  {
    StartInv(prio, idle);
    RunKeeps(Start(prio, idle), actions);
    var s := After(Start(prio, idle), actions);
    hide Placed, Owed, AllKnown, TopFrom;
    if s.preempt == 1 && Enabled(s, Enable(true)) { EnableKeeps(s, true); }
    if s.preempt == 0 && Enabled(s, Yield) { ScheduleKeeps(s); }
    if s.preempt == 0 && Enabled(s, Block) { ParkedKeeps(s); ScheduleKeeps(Parked(s)); }
  }

  // While the idle thread is queued there is always something to schedule.
  lemma IdleSuffices(s: Sched, idle: int)
    requires Inv(s) && idle in s.state && Ready(s.state[idle])
    ensures Top(s) >= 0
  {
    assert idle in s.runnable[s.prio[idle]];
  }

  // ---- runs that leave the idle thread alone -----------------------------------------

  predicate IdleReady(s: Sched, idle: int) {
    idle in s.state && Ready(s.state[idle])
  }

  // Nobody removes the idle thread, and it does not go to sleep.
  ghost predicate KeepsIdle(s: Sched, actions: seq<Action>, idle: int)
    requires IsRun(s, actions)
    decreases |actions|
  {
    actions == [] ||
    (actions[0] != Remove(idle) && !(actions[0].Block? && s.current == idle)
     && KeepsIdle(Step(s, actions[0]), actions[1..], idle))
  }

  // What a caller has to see to, whatever is left to run: only an idle thread is added,
  // only a queued one removed or put to sleep.
  predicate Asked(s: Sched, a: Action, idle: int) {
    match a
    case Add(t) => t in s.state && s.state[t].Zombie?
    case Remove(t) => t in s.state && Ready(s.state[t])
    case Block => s.current in s.state && Ready(s.state[s.current]) && s.current != idle
    case Notify(t) => t in s.state
    case _ => true
  }

  lemma ParkedIdle(s: Sched, idle: int)
    requires Inv(s) && IdleReady(s, idle) && Ready(s.state[s.current]) && s.current != idle
    ensures s.current in s.runnable[s.prio[s.current]]
    ensures IdleReady(Parked(s), idle) && Top(Parked(s)) >= 0
  {
    hide Placed, Owed, TopFrom;
    ParkedKeeps(s);
    IdleSuffices(Parked(s), idle);
  }

  lemma InRing(s: Sched, t: int)
    requires Inv(s) && t in s.state
    ensures Known(s, t)
    ensures Ready(s.state[t]) ==> t in s.runnable[s.prio[t]]
    ensures s.state[t].Blocked? ==> t in s.blocked[s.prio[t]]
  {
  }

  lemma AskedEnabled(s: Sched, a: Action, idle: int)
    requires Inv(s) && IdleReady(s, idle) && Asked(s, a, idle)
    ensures Enabled(s, a)
  {
    hide Placed, Owed, TopFrom;
    IdleSuffices(s, idle);
    match a {
      case Add(t) => InRing(s, t);
      case Remove(t) => InRing(s, t);
      case Block => ParkedIdle(s, idle);
      case Notify(t) => InRing(s, t);
      case _ =>
    }
  }

  lemma IdleStep(s: Sched, a: Action, idle: int)
    requires Enabled(s, a) && IdleReady(s, idle) && a != Remove(idle) && !(a.Block? && s.current == idle)
    ensures IdleReady(Step(s, a), idle)
  {
    hide TopFrom, Deleted;
  }

  lemma {:induction false} IdleRun(s: Sched, actions: seq<Action>, idle: int)
    requires Inv(s) && IdleReady(s, idle) && IsRun(s, actions) && KeepsIdle(s, actions, idle)
    ensures Inv(After(s, actions)) && IdleReady(After(s, actions), idle)
    decreases |actions|
  {
    hide Inv, Step, Enabled;
    if actions != [] {
      StepKeeps(s, actions[0]);
      IdleStep(s, actions[0], idle);
      IdleRun(Step(s, actions[0]), actions[1..], idle);
    }
  }

  // In every run that leaves the idle thread alone, schedule, sleep and the outermost
  // interrupt exit always find a thread, and settle on one no runnable thread outranks.
  lemma AlwaysSomethingToRun(prio: map<int, int>, idle: int, actions: seq<Action>)
    requires idle in prio && prio[idle] == 0 && forall t | t in prio :: 0 <= prio[t] < NUM_PRIORITIES
    requires IsRun(Start(prio, idle), actions) && KeepsIdle(Start(prio, idle), actions, idle)
    ensures var s := After(Start(prio, idle), actions);
            && Inv(s) && Top(s) >= 0
            && (forall a | Asked(s, a, idle) :: Enabled(s, a))
            && (s.preempt == 1 ==> CurrentIsTop(Step(s, Enable(true))))
            && (s.preempt == 0 ==> CurrentIsTop(Step(s, Yield)))
            && (s.preempt == 0 && Asked(s, Block, idle) ==> CurrentIsTop(Step(s, Block)))
  {
    StartInv(prio, idle);
    IdleRun(Start(prio, idle), actions, idle);
    var s := After(Start(prio, idle), actions);
    IdleSuffices(s, idle);
    forall a | Asked(s, a, idle) ensures Enabled(s, a) { AskedEnabled(s, a, idle); }
    assert Enabled(s, Enable(true)) && Enabled(s, Yield);
    EveryRun(prio, idle, actions);
  }

  // ---- who sleeps -----------------------------------------------------------------------

  // Thread t has gone to sleep and not been woken since; was says whether it slept before.
  ghost predicate Sleeps(s: Sched, actions: seq<Action>, t: int, was: bool)
    requires IsRun(s, actions)
    decreases |actions|
  {
    if actions == [] then was else
      var a := actions[0];
      Sleeps(Step(s, a), actions[1..], t, if a.Block? && s.current == t then true else was && a != Notify(t))
  }

  lemma SleepStep(s: Sched, a: Action, t: int)
    requires Inv(s) && Enabled(s, a) && t in s.state
    ensures t in Step(s, a).state
    ensures Step(s, a).state[t].Blocked? <==> (a.Block? && s.current == t) || (s.state[t].Blocked? && a != Notify(t))
  {
    hide Placed, Owed, Deleted, Rotated, Schedule;
    match a {
      case Yield => ScheduleSleep(s, t);
      case Block =>
        ParkedKeeps(s);
        ParkedOthers(s);
        ScheduleSleep(Parked(s), t);
      case Enable(r) =>
        CountKeeps(s, 0);
        if s.preempt == 1 && r && s.needResched { ScheduleSleep(s.(preempt := 0), t); }
      case _ =>
    }
  }

  lemma CountKeeps(s: Sched, n: nat)
    requires Inv(s)
    ensures Inv(s.(preempt := n))
  {
    hide Placed;
  }

  // Scheduling blocks and wakes nobody.
  lemma ScheduleSleep(s: Sched, t: int)
    requires Inv(s) && (s.preempt == 0 ==> Top(s) >= 0) && t in s.state
    ensures t in Schedule(s).state && (Schedule(s).state[t].Blocked? <==> s.state[t].Blocked?)
  {
    hide Placed, Owed, TopFrom, Rotated;
    if s.preempt == 0 { PickedReady(s); }
  }

  lemma PickedReady(s: Sched)
    requires Inv(s) && Top(s) >= 0
    ensures s.runnable[Top(s)][0] in s.state && Ready(s.state[s.runnable[Top(s)][0]])
  {
    var p := Top(s);
    InState(s, p, s.runnable[p][0]);
  }

  lemma InState(s: Sched, p: int, t: int)
    requires Inv(s) && 0 <= p < NUM_PRIORITIES && t in s.runnable[p]
    ensures t in s.state && Ready(s.state[t])
  {
    hide Owed;
  }

  // In every run a thread is blocked exactly when it has gone to sleep and nobody has
  // woken it since.
  lemma {:induction false} BlockedExactlyWhen(s: Sched, actions: seq<Action>, t: int)
    requires Inv(s) && IsRun(s, actions) && t in s.state
    ensures t in After(s, actions).state
    ensures After(s, actions).state[t].Blocked? <==> Sleeps(s, actions, t, s.state[t].Blocked?)
    decreases |actions|
  {
    hide Inv, Step, Enabled;
    if actions != [] {
      StepKeeps(s, actions[0]);
      SleepStep(s, actions[0], t);
      BlockedExactlyWhen(Step(s, actions[0]), actions[1..], t);
    }
  }

  // ---- a current thread that is not runnable --------------------------------------------

  // The action leaves a fresh current thread: an effective schedule.
  predicate Switches(s: Sched, a: Action) {
    || (a.Yield? && s.preempt == 0)
    || (a.Block? && s.preempt == 0)
    || (a.Enable? && s.preempt == 1 && a.reschedule && s.needResched)
  }

  // The current thread goes to sleep while preemption is off, or is removed.
  predicate Halts(s: Sched, a: Action) {
    || (a.Block? && s.preempt > 0)
    || (a.Remove? && a.t == s.current)
  }

  // It is made runnable again while it is still current.
  predicate Revives(s: Sched, a: Action) {
    || (a.Add? && a.t == s.current)
    || (a.Notify? && a.t == s.current && s.current in s.state && s.state[s.current].Blocked?)
  }

  // Whether the last of these to happen was a halt.
  ghost predicate Halted(s: Sched, actions: seq<Action>, was: bool)
    requires IsRun(s, actions)
    decreases |actions|
  {
    if actions == [] then was else
      var a := actions[0];
      Halted(Step(s, a), actions[1..], Halts(s, a) || (was && !Switches(s, a) && !Revives(s, a)))
  }

  lemma CurrentStep(s: Sched, a: Action)
    requires Inv(s) && Enabled(s, a)
    ensures Step(s, a).current in Step(s, a).state
    ensures Ready(Step(s, a).state[Step(s, a).current])
       <==> !(Halts(s, a) || (!Ready(s.state[s.current]) && !Switches(s, a) && !Revives(s, a)))
  {
    hide Placed, Owed, Deleted, Rotated;
  }

  // The thread that runs is runnable exactly when it has not gone to sleep with
  // preemption off, or been removed, without an effective schedule or its own wakeup
  // since.
  lemma {:induction false} CurrentReadyExactlyWhen(s: Sched, actions: seq<Action>)
    requires Inv(s) && IsRun(s, actions)
    ensures var s' := After(s, actions);
            s'.current in s'.state
            && (Ready(s'.state[s'.current]) <==> !Halted(s, actions, !Ready(s.state[s.current])))
    decreases |actions|
  {
    hide Placed, Owed, Step, Enabled, Halts, Switches, Revives;
    if actions != [] {
      StepKeeps(s, actions[0]);
      CurrentStep(s, actions[0]);
      CurrentReadyExactlyWhen(Step(s, actions[0]), actions[1..]);
    }
  }

  // The idle thread, asleep and still running.
  lemma AsleepYetCurrent()
    ensures var prio := map[7 := 0];
            var s := Parked(PreemptDisable(Start(prio, 7)));
            && Enabled(Start(prio, 7), Disable) && Enabled(PreemptDisable(Start(prio, 7)), Block)
            && Step(PreemptDisable(Start(prio, 7)), Block) == s
            && s.current == 7 && s.state[7].Blocked? && CurrentIsTop(s)
  {
    var prio := map[7 := 0];
    StartInv(prio, 7);
    assert 7 in Start(prio, 7).runnable[0];
  }

  // ---- round robin -------------------------------------------------------------------

  ghost predicate CanRotate(s: Sched) {
    Inv(s) && s.preempt == 0 && Top(s) >= 0
  }

  function Turned(q: seq<int>, k: nat): seq<int>
    requires k <= |q|
  {
    q[k..] + q[..k]
  }

  // The state after k effective schedule calls.
  ghost function Scheduled(s: Sched, k: nat): (r: Sched)
    requires CanRotate(s)
    ensures CanRotate(r) && Top(r) == Top(s) && |r.runnable[Top(s)]| == |s.runnable[Top(s)]|
  {
    if k == 0 then s else
      var r := Scheduled(s, k - 1);
      ScheduleKeeps(r);
      SameTop(r.runnable, NUM_PRIORITIES - 1, Top(r));
      Schedule(r)
  }

  lemma {:induction false} SameTop(runnable: seq<seq<int>>, p: int, top: int)
    requires -1 <= p < |runnable| && top == TopFrom(runnable, p) && top >= 0
    ensures TopFrom(runnable[top := Rotated(runnable[top])], p) == top
  {
    if p != top { SameTop(runnable, p - 1, top); }
  }

  ghost function Picks(s: Sched, k: nat): (r: seq<int>)
    requires CanRotate(s)
    ensures |r| == k
  {
    if k == 0 then [] else Picks(s, k - 1) + [Scheduled(s, k).current]
  }

  lemma TurnOnce(q: seq<int>, k: nat)
    requires 0 < k <= |q|
    ensures Turned(q, k - 1)[0] == q[k - 1] && Rotated(Turned(q, k - 1)) == Turned(q, k)
    ensures q[..k] == q[..k - 1] + [q[k - 1]]
  {
  }

  lemma {:induction false} RoundRobinPrefix(s: Sched, k: nat)
    requires CanRotate(s) && k <= |s.runnable[Top(s)]|
    ensures var q := s.runnable[Top(s)];
            Picks(s, k) == q[..k] && Scheduled(s, k).runnable[Top(s)] == Turned(q, k)
  {
    hide Placed, Owed, AllKnown, TopFrom;
    if k > 0 {
      RoundRobinPrefix(s, k - 1);
      TurnOnce(s.runnable[Top(s)], k);
    }
  }

  // As many schedule calls as the top ring has threads pick each of them exactly
  // once and bring the ring back to where it was.
  lemma RoundRobin(s: Sched)
    requires CanRotate(s)
    ensures var q := s.runnable[Top(s)];
            && Picks(s, |q|) == q && NoDup(q)
            && Scheduled(s, |q|).runnable[Top(s)] == q
  {
    var q := s.runnable[Top(s)];
    RoundRobinPrefix(s, |q|);
    assert q[..|q|] == q && Turned(q, |q|) == q;
  }
}
