// How recv of net/tcp_socket.cpp waits for a segment: it tests the list with interrupts
// on, and waits if it saw it empty. Segments may arrive between the two. One thread
// receives at a time; the others are kept out by the mutex.
module TcpRecvWait {
  import opened TcpReceive

  // The reader is about to test the list, has seen it empty, sleeps in the wait queue,
  // or goes on to copy from the head buffer.
  datatype Phase = Testing | Going | Asleep | Copying

  datatype State = State(r: Receiver, phase: Phase)

  datatype Action = Test | Wait | Receive(s: Segment) | Copy(want: nat)

  predicate Enabled(s: State, a: Action) {
    match a
    case Test => s.phase.Testing?
    case Wait => s.phase.Going?
    case Receive(_) => true
    case Copy(_) => s.phase.Copying?
  }

  // What handle_segment notifies the reader of.
  predicate Notifies(r: Receiver, s: Segment) { Accepts(r, s) && Queues(s) }

  // Copying needs a buffer; a step without one would follow a null pointer.
  predicate Faults(s: State, a: Action) { a.Copy? && s.r.list == [] }

  function Step(s: State, a: Action): State
    requires Enabled(s, a) && !Faults(s, a)
  {
    match a
    case Test => s.(phase := if s.r.list == [] then Going else Copying)
    case Wait => s.(phase := Asleep)
    case Receive(seg) =>
      State(HandleSegment(s.r, seg), if s.phase.Asleep? && Notifies(s.r, seg) then Copying else s.phase)
    case Copy(want) => State(RecvStep(s.r, want), Testing)
  }

  predicate IsRun(s: State, actions: seq<Action>)
    decreases |actions|
  {
    actions != [] ==>
      && Enabled(s, actions[0])
      && (Faults(s, actions[0]) || IsRun(Step(s, actions[0]), actions[1..]))
  }

  predicate EverFaults(s: State, actions: seq<Action>)
    requires IsRun(s, actions)
    decreases |actions|
  {
    actions != [] && (Faults(s, actions[0]) || EverFaults(Step(s, actions[0]), actions[1..]))
  }

  predicate HasBuffer(s: State) { s.phase.Copying? ==> s.r.list != [] }

  // The single test of the source is enough: whoever goes on to copy finds a buffer,
  // also after a wait, though the list is not tested again.
  lemma {:induction false} NeverFaults(s: State, actions: seq<Action>)
    requires HasBuffer(s) && IsRun(s, actions)
    ensures !EverFaults(s, actions)
    decreases |actions|
  {
    hide HandleSegment, RecvStep, Accepts, Queues;
    if actions != [] {
      if actions[0].Receive? { QueuedOrSame(s.r, actions[0].s); }
      NeverFaults(Step(s, actions[0]), actions[1..]);
    }
  }

  lemma QueuedOrSame(r: Receiver, s: Segment)
    ensures Notifies(r, s) ==> HandleSegment(r, s).list != []
    ensures !Notifies(r, s) ==> HandleSegment(r, s).list == r.list
    ensures r.list != [] ==> HandleSegment(r, s).list != []
  {
  }

  // The reader sleeps although there is something to read.
  predicate Stranded(s: State) { s.phase.Asleep? && s.r.list != [] }

  predicate EverStranded(s: State, actions: seq<Action>)
    requires IsRun(s, actions)
    decreases |actions|
  {
    Stranded(s) || (actions != [] && !Faults(s, actions[0]) && EverStranded(Step(s, actions[0]), actions[1..]))
  }

  // It went to sleep after a segment was queued behind its test.
  predicate WaitsWithBuffer(s: State, actions: seq<Action>)
    requires IsRun(s, actions)
    decreases |actions|
  {
    actions != [] && !Faults(s, actions[0]) &&
    ((actions[0].Wait? && s.r.list != []) || WaitsWithBuffer(Step(s, actions[0]), actions[1..]))
  }

  // The gap between the test and the wait is the only way to strand the reader, and it
  // always does.
  lemma {:induction false} StrandedExactlyByTheGap(s: State, actions: seq<Action>)
    requires IsRun(s, actions) && !Stranded(s)
    ensures EverStranded(s, actions) <==> WaitsWithBuffer(s, actions)
    decreases |actions|
  {
    hide HandleSegment, RecvStep, Accepts, Queues;
    if actions != [] && !Faults(s, actions[0]) {
      var s' := Step(s, actions[0]);
      if actions[0].Wait? && s.r.list != [] {
        assert Stranded(s');
      } else {
        if actions[0].Receive? { QueuedOrSame(s.r, actions[0].s); }
        assert !Stranded(s');
        StrandedExactlyByTheGap(s', actions[1..]);
      }
    }
  }

  // Only another queued segment gets a stranded reader going.
  lemma StrandedUntil(s: State, a: Action)
    requires Stranded(s) && Enabled(s, a)
    ensures a.Receive? && (Stranded(Step(s, a)) <==> !Notifies(s.r, a.s))
  {
    hide HandleSegment, Accepts, Queues;
    QueuedOrSame(s.r, a.s);
  }

  lemma GapExample()
    ensures var s := State(Receiver(1, 100, 0, 0, false, [], 0), Testing);
            var seg := Segment(1, 0, Buffer([7], true, false));
            Stranded(Step(Step(Step(s, Test), Receive(seg)), Wait))
  {
  }
}
