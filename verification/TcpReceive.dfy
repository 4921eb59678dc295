// The receiving side of net/tcp_socket.cpp: acknowledgement number, receive
// window and the list of received buffers, with the source's 32-bit and 64-bit
// arithmetic written out.
module TcpReceive {
  import opened Arithmetic
  import opened Common
  import opened IntrusiveList

  const INITIAL_WINDOW: int := 29200

  datatype Buffer = Buffer(payload: seq<int>, psh: bool, fin: bool)

  // An arriving segment; sequence numbers are 32-bit values.
  datatype Segment = Segment(num: int, window: int, data: Buffer)

  // recv_skb_ from its head, and the offset into the head buffer.
  datatype Receiver = Receiver(
    ack: int, size: int, used: int, remoteWindow: int, closeWait: bool, list: seq<Buffer>, offset: int)

  // ---- operations ------------------------------------------------------------------

  predicate Old(r: Receiver, s: Segment) { s.num < r.ack }

  // The source subtracts unsigned 64-bit values.
  predicate WindowFull(r: Receiver, s: Segment) { (r.size - r.used) % M64 < |s.data.payload| }

  predicate Accepts(r: Receiver, s: Segment) { !Old(r, s) && !WindowFull(r, s) }

  predicate Queues(s: Segment) { |s.data.payload| > 0 || s.data.fin }

  // handle_segment. An old segment or one beyond the window only draws an ACK.
  function HandleSegment(r: Receiver, s: Segment): Receiver {
    if !Accepts(r, s) then r else
      var n := |s.data.payload|;
      r.(used := (r.used + n) % M64, ack := (r.ack + n) % M32,
         closeWait := r.closeWait || s.data.fin, remoteWindow := s.window,
         list := if Queues(s) then Pushed(r.list, s.data) else r.list)
  }

  function Min(a: int, b: int): int { if a < b then a else b }

  function ToCopy(r: Receiver, want: int): int
    requires r.list != []
  {
    Min(want, (|r.list[0].payload| - r.offset) % M64)
  }

  // One interrupt-off region of recv. A buffer read to its end is dropped.
  function RecvStep(r: Receiver, want: int): Receiver
    requires r.list != []
  {
    var n := ToCopy(r, want);
    var done := r.offset + n == |r.list[0].payload|;
    r.(used := (r.used - n) % M64,
       list := if done then r.list[1..] else r.list, offset := if done then 0 else r.offset + n)
  }

  // The bytes it copies out.
  function RecvBytes(r: Receiver, want: int): seq<int>
    requires r.list != []
  {
    if !Sound(r) || want < 0 then [] else
      r.list[0].payload[r.offset..r.offset + Min(want, |r.list[0].payload| - r.offset)]
  }

  // ---- what is unread ---------------------------------------------------------------

  function Total(list: seq<Buffer>): nat {
    if list == [] then 0 else |list[0].payload| + Total(list[1..])
  }

  function Flatten(list: seq<Buffer>): seq<int> {
    if list == [] then [] else list[0].payload + Flatten(list[1..])
  }

  predicate Sound(r: Receiver) {
    if r.list == [] then r.offset == 0 else 0 <= r.offset <= |r.list[0].payload|
  }

  function Unread(r: Receiver): int { Total(r.list) - r.offset }

  // The bytes recv will return next, in order.
  function Remaining(r: Receiver): seq<int> {
    if r.list == [] || !Sound(r) then [] else r.list[0].payload[r.offset..] + Flatten(r.list[1..])
  }

  lemma {:induction false} FlattenLength(list: seq<Buffer>)
    ensures |Flatten(list)| == Total(list)
  {
    if list != [] { FlattenLength(list[1..]); }
  }

  lemma RemainingLength(r: Receiver)
    requires Sound(r)
    ensures |Remaining(r)| == Unread(r)
  {
    if r.list != [] { FlattenLength(r.list[1..]); }
  }

  // ---- accounting --------------------------------------------------------------------

  // base is remote_isn + 1, handshake the payload size of the ACK that opened the
  // connection, accepted the number of payload bytes accepted so far.
  predicate Accounts(r: Receiver, base: int, handshake: int, accepted: nat) {
    && Sound(r)
    && r.ack == (base + accepted) % M32
    && r.used == handshake + Unread(r)
    && 0 <= r.used <= r.size < M64
  }

  function Taken(r: Receiver, s: Segment): nat { if Accepts(r, s) then |s.data.payload| else 0 }

  // The segment that a queued one would be read through: recv continues at the
  // same offset in whatever buffer is then at the head.
  predicate Fits(r: Receiver, s: Segment) {
    Accepts(r, s) && Queues(s) ==> r.offset <= |s.data.payload|
  }

  // Segments keep the accounts exactly when none shorter than the part already
  // read of the head buffer is put in front of it.
  lemma SegmentKeepsExactlyWhen(r: Receiver, base: int, handshake: int, accepted: nat, s: Segment)
    requires Accounts(r, base, handshake, accepted) && |s.data.payload| < M64 && handshake >= 0
    ensures Accounts(HandleSegment(r, s), base, handshake, accepted + Taken(r, s)) <==> Fits(r, s)
  {
    var n := |s.data.payload|;
    RemainingLength(r);
    assert (r.size - r.used) % M64 == r.size - r.used;
    if Accepts(r, s) {
      assert Pushed(r.list, s.data)[1..] == r.list;
      AddMod32(base + accepted, n);
    }
  }

  // handle_segment in full: a segment that starts before the acknowledgement number or
  // does not fit what is left of the window changes nothing; any other is counted in
  // both, its window taken over, and its payload or FIN queued in front.
  lemma SegmentEffect(r: Receiver, s: Segment)
    requires 0 <= r.used <= r.size < M64 && |s.data.payload| < M64
    ensures s.num < r.ack || |s.data.payload| > r.size - r.used ==> HandleSegment(r, s) == r
    ensures s.num >= r.ack && |s.data.payload| <= r.size - r.used ==>
              var r', n := HandleSegment(r, s), |s.data.payload|;
              && r'.ack == (r.ack + n) % 0x1_0000_0000 && r'.used == r.used + n
              && r'.remoteWindow == s.window && (r'.closeWait <==> r.closeWait || s.data.fin)
              && r'.list == (if n > 0 || s.data.fin then [s.data] + r.list else r.list)
              && r'.offset == r.offset && r'.size == r.size
  {
    assert (r.size - r.used) % M64 == r.size - r.used;
  }

  // A segment that was taken is not taken again exactly when it now starts before the
  // acknowledgement number, or the window has no room for it a second time.
  lemma TakenOnceExactlyWhen(r: Receiver, s: Segment)
    requires 0 <= r.used <= r.size < M64 && 0 < |s.data.payload| < M64
    requires s.num >= r.ack && |s.data.payload| <= r.size - r.used
    ensures var r1, n := HandleSegment(r, s), |s.data.payload|;
            HandleSegment(r1, s) == r1 <==> s.num < (r.ack + n) % 0x1_0000_0000 || 2 * n > r.size - r.used
  {
    hide HandleSegment;
    SegmentEffect(r, s);
    SegmentEffect(HandleSegment(r, s), s);
  }

  // A segment that starts at the acknowledgement number is taken once, unless it reaches
  // the wrap of the sequence numbers.
  lemma NextTakenOnce(r: Receiver, s: Segment)
    requires 0 <= r.used <= r.size < M64 && 0 < |s.data.payload| <= r.size - r.used
    requires 0 <= s.num == r.ack && r.ack + |s.data.payload| < M32
    ensures HandleSegment(HandleSegment(r, s), s) == HandleSegment(r, s)
  {
    hide HandleSegment;
    TakenOnceExactlyWhen(r, s);
  }

  // A segment from beyond the next expected byte, and one that ends at the wrap of the
  // sequence numbers, are taken twice.
  lemma TakenTwiceExample()
    ensures var r, b := Receiver(100, 29200, 0, 0, false, [], 0), Buffer([9], false, false);
            HandleSegment(HandleSegment(r, Segment(500, 0, b)), Segment(500, 0, b)).list == [b, b]
    ensures var r, b := Receiver(0xFFFF_FFFF, 29200, 0, 0, false, [], 0), Buffer([9], false, false);
            HandleSegment(HandleSegment(r, Segment(0xFFFF_FFFF, 0, b)), Segment(0xFFFF_FFFF, 0, b)).list == [b, b]
  {
  }

  lemma CopyFits(r: Receiver, base: int, handshake: int, accepted: nat, want: int)
    requires Accounts(r, base, handshake, accepted) && r.list != [] && want >= 0 && handshake >= 0
    ensures ToCopy(r, want) == |RecvBytes(r, want)| == Min(want, |r.list[0].payload| - r.offset)
    ensures r.offset + ToCopy(r, want) <= |r.list[0].payload| && ToCopy(r, want) <= r.used
  {
    assert |r.list[0].payload| <= Total(r.list);
  }

  // A read frees exactly as much window as it returns bytes, and returns the next
  // bytes of what remains.
  lemma RecvKeeps(r: Receiver, base: int, handshake: int, accepted: nat, want: int)
    requires Accounts(r, base, handshake, accepted) && r.list != [] && want >= 0 && handshake >= 0
    ensures Accounts(RecvStep(r, want), base, handshake, accepted)
    ensures |RecvBytes(r, want)| <= want && RecvStep(r, want).used == r.used - |RecvBytes(r, want)|
    ensures Remaining(r) == RecvBytes(r, want) + Remaining(RecvStep(r, want))
  {
    hide Total, Flatten, Remaining;
    CopyFits(r, base, handshake, accepted, want);
    RecvContent(r, want);
    RecvUnread(r, want);
  }

  lemma RecvUnread(r: Receiver, want: int)
    requires r.list != []
    ensures Unread(RecvStep(r, want)) == Unread(r) - ToCopy(r, want)
  {
    hide ToCopy;
  }

  lemma RecvContent(r: Receiver, want: int)
    requires Sound(r) && r.list != [] && want >= 0
    requires ToCopy(r, want) == Min(want, |r.list[0].payload| - r.offset)
    ensures Sound(RecvStep(r, want))
    ensures Remaining(r) == RecvBytes(r, want) + Remaining(RecvStep(r, want))
  {
    hide Flatten;
    var p, n, rest := r.list[0].payload, ToCopy(r, want), Flatten(r.list[1..]);
    var r' := RecvStep(r, want);
    CutAndJoin(p, r.offset, r.offset + n, rest);
    assert RecvBytes(r, want) == p[r.offset..r.offset + n];
    assert Remaining(r') == p[r.offset + n..] + rest by {
      if r.offset + n == |p| { NextHead(r.list[1..]); }
    }
  }

  lemma CutAndJoin(p: seq<int>, i: int, j: int, rest: seq<int>)
    requires 0 <= i <= j <= |p|
    ensures p[i..] + rest == p[i..j] + (p[j..] + rest)
  {
  }

  lemma NextHead(list: seq<Buffer>)
    ensures Flatten(list) == if list == [] then [] else list[0].payload[0..] + Flatten(list[1..])
  {
  }

  // A queued payload is read from the current offset on, and then everything that was
  // there from its start: as many bytes are skipped as had been read of the old head,
  // and those are read again.
  lemma QueueContent(r: Receiver, s: Segment)
    requires Sound(r) && Accepts(r, s) && Queues(s) && r.offset <= |s.data.payload|
    ensures Remaining(HandleSegment(r, s)) == s.data.payload[r.offset..] + Flatten(r.list)
    ensures Flatten(r.list) == (if r.list == [] then [] else r.list[0].payload[..r.offset]) + Remaining(r)
  {
    var r' := HandleSegment(r, s);
    assert r'.list[1..] == r.list;
    if r.list != [] { CutAndJoin(r.list[0].payload, 0, r.offset, Flatten(r.list[1..])); }
  }

  // With no buffer half read, queueing loses and repeats nothing: the new payload
  // is read in full before what was there.
  lemma QueueKeepsContent(r: Receiver, s: Segment)
    requires Sound(r) && r.offset == 0 && Accepts(r, s)
    ensures Sound(HandleSegment(r, s))
    ensures Remaining(HandleSegment(r, s)) == s.data.payload + Remaining(r)
  {
    var r' := HandleSegment(r, s);
    NextHead(r.list);
    if Queues(s) { assert r'.list[1..] == r.list; }
  }

  // With one half read it does not: the start of the new payload is skipped and
  // the start of the old one is read again.
  lemma HalfReadExample()
    ensures var r := Receiver(101, 100, 2, 0, false, [Buffer([1, 2, 3], false, false)], 1);
            var s := Segment(104, 0, Buffer([7, 8], false, false));
            && Accounts(r, 0, 0, 101)
            && Accounts(HandleSegment(r, s), 0, 0, 103)
            && Remaining(r) == [2, 3] && Remaining(HandleSegment(r, s)) == [8, 1, 2, 3]
  {
    var b, c := Buffer([1, 2, 3], false, false), Buffer([7, 8], false, false);
    assert Flatten([b]) == [1, 2, 3] && Total([b]) == 3;
    assert [c, b][1..] == [b];
    assert Pushed([b], c) == [c, b];
  }

  // A segment of one byte queued when two bytes of the head buffer have been read.
  lemma BrokenAccountsExample()
    ensures var r := Receiver(103, 100, 1, 0, false, [Buffer([1, 2, 3], false, false)], 2);
            var s := Segment(104, 0, Buffer([7], false, false));
            && Accounts(r, 0, 0, 103) && Accepts(r, s)
            && forall base, handshake, accepted :: !Accounts(HandleSegment(r, s), base, handshake, accepted)
  {
    var b := Buffer([1, 2, 3], false, false);
    assert Total([b]) == 3;
  }

  // ---- runs -----------------------------------------------------------------------------

  // The socket accept_connection creates: the handshake payload is counted as
  // used before handle_segment counts it again.
  function Accepted(ackNum: int, garbage: int, s: Segment): Receiver {
    var r := Receiver(ackNum, INITIAL_WINDOW, |s.data.payload|, garbage, false, [], 0);
    if |s.data.payload| > 0 then HandleSegment(r, s) else r
  }

  lemma AcceptedAccounts(ackNum: int, garbage: int, s: Segment)
    requires 0 <= ackNum < M32 && s.num == ackNum && |s.data.payload| <= INITIAL_WINDOW
    ensures var n := |s.data.payload|;
            Accounts(Accepted(ackNum, garbage, s), ackNum, n, if 2 * n <= INITIAL_WINDOW then n else 0)
  {
    var r := Receiver(ackNum, INITIAL_WINDOW, |s.data.payload|, garbage, false, [], 0);
    assert Accounts(r, ackNum, |s.data.payload|, 0);
    SegmentKeepsExactlyWhen(r, ackNum, |s.data.payload|, 0, s);
  }

  // How much of the handshake payload is accepted: nothing when it fits the
  // window once but not twice; beyond the window the unsigned subtraction wraps
  // and lets it in.
  function HandshakeTaken(n: nat): nat {
    if 2 * n <= INITIAL_WINDOW || n > INITIAL_WINDOW then n else 0
  }

  lemma AcceptedAck(ackNum: int, garbage: int, s: Segment)
    requires 0 <= ackNum < M32 && s.num == ackNum && |s.data.payload| < M32
    ensures Accepted(ackNum, garbage, s).ack == (ackNum + HandshakeTaken(|s.data.payload|)) % M32
  {
  }

  datatype Event = Arrive(s: Segment) | Read(want: nat)

  // Segments and reads in any order, as long as no segment is queued in front of
  // a buffer of which more has been read than the segment holds.
  predicate IsRun(r: Receiver, events: seq<Event>)
    decreases |events|
  {
    events != [] ==>
      match events[0]
      case Arrive(s) => |s.data.payload| < M64 && Fits(r, s) && IsRun(HandleSegment(r, s), events[1..])
      case Read(want) => r.list != [] && IsRun(RecvStep(r, want), events[1..])
  }

  function After(r: Receiver, events: seq<Event>): Receiver
    requires IsRun(r, events)
    decreases |events|
  {
    if events == [] then r else
      match events[0]
      case Arrive(s) => After(HandleSegment(r, s), events[1..])
      case Read(want) => After(RecvStep(r, want), events[1..])
  }

  function AllTaken(r: Receiver, events: seq<Event>): nat
    requires IsRun(r, events)
    decreases |events|
  {
    if events == [] then 0 else
      match events[0]
      case Arrive(s) => Taken(r, s) + AllTaken(HandleSegment(r, s), events[1..])
      case Read(want) => AllTaken(RecvStep(r, want), events[1..])
  }

  // Over every run the acknowledgement number is the first expected byte plus
  // everything accepted, and the window in use is the handshake payload plus
  // everything accepted and not yet read; it never exceeds the window.
  lemma {:induction false} RunAccounts(r: Receiver, base: int, handshake: nat, accepted: nat, events: seq<Event>)
    requires Accounts(r, base, handshake, accepted) && IsRun(r, events)
    ensures Accounts(After(r, events), base, handshake, accepted + AllTaken(r, events))
    decreases |events|
  {
    hide Accounts, Fits, HandleSegment, RecvStep, Taken;
    if events != [] {
      match events[0]
      case Arrive(s) =>
        SegmentKeepsExactlyWhen(r, base, handshake, accepted, s);
        RunAccounts(HandleSegment(r, s), base, handshake, accepted + Taken(r, s), events[1..]);
      case Read(want) =>
        RecvKeeps(r, base, handshake, accepted, want);
        RunAccounts(RecvStep(r, want), base, handshake, accepted, events[1..]);
    }
  }

  lemma AcceptedRun(ackNum: int, garbage: int, s: Segment, events: seq<Event>)
    requires 0 <= ackNum < M32 && s.num == ackNum && |s.data.payload| <= INITIAL_WINDOW
    requires IsRun(Accepted(ackNum, garbage, s), events)
    ensures var n, r := |s.data.payload|, After(Accepted(ackNum, garbage, s), events);
            var accepted := (if 2 * n <= INITIAL_WINDOW then n else 0) + AllTaken(Accepted(ackNum, garbage, s), events);
            && r.ack == (ackNum + accepted) % M32
            && r.used == n + Unread(r) && n <= r.used <= r.size
  {
    AcceptedAccounts(ackNum, garbage, s);
    var n := |s.data.payload|;
    RunAccounts(Accepted(ackNum, garbage, s), ackNum, n, if 2 * n <= INITIAL_WINDOW then n else 0, events);
    RemainingLength(After(Accepted(ackNum, garbage, s), events));
  }

  // ---- the object -------------------------------------------------------------------------

  predicate Ends(b: Buffer) { b.psh || b.fin }

  // None of the first k buffers carries PSH or FIN.
  predicate NoEnd(list: seq<Buffer>, k: int)
    requires k <= |list|
  {
    forall i | 0 <= i < k :: !Ends(list[i])
  }

  lemma Regroup(a: seq<int>, b: seq<int>, c: seq<int>)
    ensures a + (b + c) == (a + b) + c
  {
  }

  class KReceiver {
    var ack: int
    var size: int
    var used: int
    var remoteWindow: int
    var closeWait: bool
    var list: seq<Buffer>
    var offset: int
    var locked: bool

    function R(): Receiver
      reads this
    {
      Receiver(ack, size, used, remoteWindow, closeWait, list, offset)
    }

    constructor (ackNum: int, garbage: int, s: Segment)
      requires 0 <= ackNum < M32 && s.num == ackNum && |s.data.payload| < M64
      ensures R() == Accepted(ackNum, garbage, s) && !locked && size == 29200
    {
      locked := false;
      ack, size, used := ackNum, INITIAL_WINDOW, |s.data.payload|;
      remoteWindow, closeWait, list, offset := garbage, false, [], 0;
      new;
      if |s.data.payload| > 0 {
        var _, _ := Handle(s);
      }
    }

    // handle_segment: whether a sender is notified and whether an ACK is sent.
    method Handle(s: Segment) returns (notify: bool, reply: bool)
      requires |s.data.payload| < M64
      modifies this
      ensures R() == HandleSegment(old(R()), s) && locked == old(locked)
      ensures var taken := s.num >= old(ack) && |s.data.payload| <= (old(size) - old(used)) % 0x1_0000_0000_0000_0000;
              && (notify <==> taken && s.window > old(remoteWindow))
              && (reply <==> !taken || s.data.psh || old(size) == 0 || s.data.fin)
              && (!taken ==> R() == old(R()))
    {
      if s.num < ack {
        return false, true;
      }
      if (size - used) % M64 < |s.data.payload| {
        return false, true;
      }
      used := (used + |s.data.payload|) % M64;
      ack := (ack + |s.data.payload|) % M32;
      if s.data.fin {
        closeWait := true;
      }
      var oldWindow := remoteWindow;
      remoteWindow := s.window;
      notify := s.window > oldWindow;
      if |s.data.payload| > 0 || s.data.fin {
        list := Pushed(list, s.data);
      }
      reply := s.data.psh || size == 0 || s.data.fin;
    }

    // recv, up to the point where it would have to wait for a segment: it stops
    // when enough bytes are read, when no buffer is left, or right after the first
    // buffer that carried PSH or FIN; k buffers have been used up. Window updates go
    // out exactly when it starts on a full window. Past the peer's FIN it returns
    // nothing, whatever is unread, and keeps its mutex locked.
    method Recv(want: nat, ghost base: int, ghost handshake: nat, ghost accepted: nat)
      returns (data: seq<int>, pushed: bool, updates: nat, ghost k: nat)
      requires Accounts(R(), base, handshake, accepted) && !locked
      modifies this
      ensures locked <==> old(closeWait)
      ensures old(closeWait) ==> data == [] && R() == old(R())
      ensures Accounts(R(), base, handshake, accepted) && ack == old(ack)
      ensures old(Remaining(R())) == data + Remaining(R()) && |data| <= want
      ensures used == old(used) - |data|
      ensures k <= |old(list)| && list == old(list)[k..]
      ensures |data| == want || list == [] || pushed || old(closeWait)
      ensures pushed ==> k > 0 && Ends(old(list)[k - 1])
      ensures NoEnd(old(list), if pushed then k - 1 else k)
      ensures updates > 0 <==> old(used) == old(size) && want > 0 && old(list) != [] && !old(closeWait)
    {
      hide Accounts, Remaining, Ends;
      locked := true;
      if closeWait {
        data, pushed, updates, k := [], false, 0, 0;
        assert list == list[0..];
        return;
      }
      data, pushed, updates, k := ReadLoop(want, base, handshake, accepted);
      locked := false;
    }

    method ReadLoop(want: nat, ghost base: int, ghost handshake: nat, ghost accepted: nat)
      returns (data: seq<int>, pushed: bool, updates: nat, ghost k: nat)
      requires Accounts(R(), base, handshake, accepted)
      modifies this
      ensures Accounts(R(), base, handshake, accepted) && ack == old(ack) && size == old(size)
      ensures old(Remaining(R())) == data + Remaining(R()) && |data| <= want
      ensures used == old(used) - |data|
      ensures k <= |old(list)| && list == old(list)[k..]
      ensures |data| == want || list == [] || pushed
      ensures pushed ==> k > 0 && Ends(old(list)[k - 1])
      ensures NoEnd(old(list), if pushed then k - 1 else k)
      ensures updates > 0 <==> old(used) == old(size) && want > 0 && old(list) != []
    {
      hide Accounts, RecvStep, RecvBytes, Remaining, Ends;
      data, pushed, updates, k := [], false, 0, 0;
      UsedFits(R(), base, handshake, accepted);
      while |data| != want
        invariant Accounts(R(), base, handshake, accepted) && ack == old(ack) && size == old(size) && used <= size
        invariant old(Remaining(R())) == data + Remaining(R()) && |data| <= want
        invariant used == old(used) - |data|
        invariant k <= |old(list)| && list == old(list)[k..] && !pushed
        invariant NoEnd(old(list), k)
        invariant updates > 0 <==> old(used) == size && (|data| > 0 || k > 0)
        invariant |data| > 0 || k > 0 ==> old(list) != [] && want > 0
        decreases want - |data|, |list|
      {
        if list == [] {
          return;
        }
        var chunk, push, update, usedUp := RecvRegion(want - |data|, base, handshake, accepted);
        Regroup(data, chunk, Remaining(R()));
        data := data + chunk;
        k := if usedUp then k + 1 else k;
        assert list == old(list)[k..];
        if update {
          updates := updates + 1;
        }
        if push {
          pushed := true;
          return;
        }
      }
    }

    method RecvRegion(want: nat, ghost base: int, ghost handshake: nat, ghost accepted: nat)
      returns (chunk: seq<int>, push: bool, update: bool, ghost usedUp: bool)
      requires Accounts(R(), base, handshake, accepted) && list != []
      modifies this
      ensures R() == RecvStep(old(R()), want) && chunk == RecvBytes(old(R()), want)
      ensures Accounts(R(), base, handshake, accepted) && |chunk| <= want && used == old(used) - |chunk| <= size
      ensures old(Remaining(R())) == chunk + Remaining(R())
      ensures ack == old(ack) && size == old(size) && locked == old(locked)
      ensures want > 0 ==> usedUp || |chunk| > 0
      ensures list == if usedUp then old(list)[1..] else old(list)
      ensures push <==> usedUp && Ends(old(list)[0])
      ensures update <==> old(used) == size
    {
      hide Remaining, Flatten, Total;
      CopyFits(R(), base, handshake, accepted, want);
      RecvKeeps(R(), base, handshake, accepted, want);
      var buf := list[0];
      var toCopy := Min(want, (|buf.payload| - offset) % M64);
      chunk := buf.payload[offset..offset + toCopy];
      offset := offset + toCopy;
      update := used == size;
      used := (used - toCopy) % M64;
      push, usedUp := false, offset == |buf.payload|;
      if offset == |buf.payload| {
        push := buf.psh || buf.fin;
        list := list[1..];
        offset := 0;
      }
    }
  }

  lemma UsedFits(r: Receiver, base: int, handshake: int, accepted: nat)
    requires Accounts(r, base, handshake, accepted)
    ensures r.used <= r.size
  {
  }
}
