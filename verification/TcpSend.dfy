// The sending side of net/tcp_socket.cpp: segmentation, sequence numbers and the
// peer's window.
module TcpSend {
  import opened Arithmetic
  import opened Common

  const MSS: int := 1460

  datatype Seg = Seg(num: int, payload: seq<int>, psh: bool)

  // ---- segmentation -----------------------------------------------------------------

  // The segments for data when the first byte has sequence number num.
  function Expected(data: seq<int>, num: int): seq<Seg> {
    if |data| == 0 then []
    else if |data| <= MSS then [Seg(num, data, true)]
    else [Seg(num, data[..MSS], false)] + Expected(data[MSS..], (num + MSS) % M32)
  }

  function Joined(segs: seq<Seg>): seq<int> {
    if segs == [] then [] else segs[0].payload + Joined(segs[1..])
  }

  // The segments are consecutive slices of at most MSS bytes: each starts where
  // the ones before it end, in sequence numbers as in the data, and only the last
  // one has PSH.
  ghost predicate Tiles(data: seq<int>, num: int, segs: seq<Seg>) {
    && Joined(segs) == data
    && (forall i | 0 <= i < |segs| ::
          && 0 < |segs[i].payload| <= MSS
          && segs[i].num == (num + |Joined(segs[..i])|) % M32
          && (segs[i].psh <==> i == |segs| - 1))
  }

  // Putting one full slice in front of a tiling.
  lemma TilesCons(slice: seq<int>, data: seq<int>, num: int, rest: seq<Seg>)
    requires |slice| == MSS && 0 <= num < M32 && rest != [] && Tiles(data, (num + MSS) % M32, rest)
    ensures Tiles(slice + data, num, [Seg(num, slice, false)] + rest)
  {
    var segs := [Seg(num, slice, false)] + rest;
    assert segs[1..] == rest;
    forall i | 0 <= i < |segs|
      ensures 0 < |segs[i].payload| <= MSS && segs[i].num == (num + |Joined(segs[..i])|) % M32
      ensures segs[i].psh <==> i == |segs| - 1
    {
      if i > 0 {
        assert segs[i] == rest[i - 1];
        assert segs[..i][0] == segs[0] && segs[..i][1..] == rest[..i - 1];
        AddMod32(num + MSS, |Joined(rest[..i - 1])|);
      }
    }
  }

  lemma TilesSmall(data: seq<int>, num: int)
    requires 0 <= num < M32 && |data| <= MSS
    ensures Tiles(data, num, Expected(data, num))
  {
    var segs := Expected(data, num);
    if data != [] { assert segs[..0] == [] && segs[1..] == []; }
  }

  lemma {:induction false} ExpectedTiles(data: seq<int>, num: int)
    requires 0 <= num < M32
    ensures Tiles(data, num, Expected(data, num))
    decreases |data|
  {
    hide Tiles;
    if |data| <= MSS {
      TilesSmall(data, num);
    } else {
      var num', rest := (num + MSS) % M32, data[MSS..];
      ExpectedTiles(rest, num');
      assert data == data[..MSS] + rest;
      assert Expected(rest, num') != [];
      TilesCons(data[..MSS], rest, num, Expected(rest, num'));
    }
  }

  // How many segments there are, and what is in each: slice i of 1460 bytes.
  lemma {:induction false} ExpectedAt(data: seq<int>, num: int, i: nat)
    requires 0 <= num < M32 && 1460 * i < |data|
    ensures i < |Expected(data, num)| && |Expected(data, num)| == (|data| + 1459) / 1460
    ensures var last := 1460 * (i + 1) >= |data|;
            Expected(data, num)[i] ==
              Seg((num + 1460 * i) % 0x1_0000_0000, data[1460 * i..if last then |data| else 1460 * (i + 1)], last)
    decreases |data|
  {
    ExpectedCount(data, num);
    if |data| > MSS && i > 0 {
      var rest := data[MSS..];
      ExpectedAt(rest, (num + MSS) % M32, i - 1);
      AddMod32(num + MSS, MSS * (i - 1));
      SliceOfRest(data, 1460 * (i - 1), if 1460 * (i + 1) >= |data| then |rest| else 1460 * i);
    }
  }

  lemma SliceOfRest(data: seq<int>, a: nat, b: nat)
    requires MSS <= |data| && a <= b <= |data| - MSS
    ensures data[MSS..][a..b] == data[a + MSS..b + MSS]
  {
  }

  lemma {:induction false} ExpectedCount(data: seq<int>, num: int)
    ensures |Expected(data, num)| == (|data| + 1459) / 1460
    decreases |data|
  {
    if |data| > MSS { ExpectedCount(data[MSS..], (num + MSS) % M32); }
  }

  // ---- waiting for the window ---------------------------------------------------------

  // A sender outside send_segment, asleep until its n bytes fit, or woken and
  // about to test again. last is the window of the last accepted segment and
  // since the number of bytes sent after it.
  datatype Phase = Running | Blocked(n: nat) | Woken(n: nat)

  datatype Window = Window(remote: int, phase: Phase, closed: bool, last: int, since: nat)

  // The test, the wait and the subtraction are one interrupt-off region.
  function Test(s: Window, n: nat): Window {
    if s.remote < n then s.(phase := Blocked(n))
    else s.(phase := Running, remote := s.remote - n, since := s.since + n)
  }

  // handle_segment notifies only when the window grows.
  function Arrive(s: Window, w: nat): Window {
    s.(remote := w, last := w, since := 0,
       phase := if w > s.remote && s.phase.Blocked? then Woken(s.phase.n) else s.phase)
  }

  function Close(s: Window): Window {
    s.(closed := true, phase := if s.phase.Blocked? then Woken(s.phase.n) else s.phase)
  }

  function Retest(s: Window): Window
    requires s.phase.Woken?
  {
    if s.closed then s.(phase := Running) else Test(s, s.phase.n)
  }

  datatype Action = Want(n: nat) | Segment(w: nat) | Reset | Resume

  predicate Enabled(s: Window, a: Action) {
    match a
    case Want(_) => s.phase.Running?
    case Resume => s.phase.Woken?
    case _ => true
  }

  function Step(s: Window, a: Action): Window
    requires Enabled(s, a)
  {
    match a
    case Want(n) => Test(s, n)
    case Segment(w) => Arrive(s, w)
    case Reset => Close(s)
    case Resume => Retest(s)
  }

  predicate IsRun(s: Window, actions: seq<Action>)
    decreases |actions|
  {
    actions != [] ==> Enabled(s, actions[0]) && IsRun(Step(s, actions[0]), actions[1..])
  }

  function After(s: Window, actions: seq<Action>): Window
    requires IsRun(s, actions)
    decreases |actions|
  {
    if actions == [] then s else After(Step(s, actions[0]), actions[1..])
  }

  // A sleeping sender really lacks window, and what was sent since the last
  // window update plus what is left is that window.
  predicate Inv(s: Window) {
    && s.remote >= 0 && s.remote + s.since == s.last
    && (s.phase.Blocked? ==> s.remote < s.phase.n)
  }

  // A sender whose bytes fit sends them at once; otherwise it sleeps, until a segment
  // with a larger window or a reset wakes it.
  lemma WindowEffect(s: Window, n: nat, w: nat)
    ensures n <= s.remote ==> Test(s, n) == s.(phase := Running, remote := s.remote - n, since := s.since + n)
    ensures n > s.remote ==> Test(s, n) == s.(phase := Blocked(n))
    ensures Arrive(s, w).remote == w == Arrive(s, w).last && Arrive(s, w).since == 0 && Arrive(s, w).closed == s.closed
    ensures s.phase == Blocked(n) ==> Arrive(s, w).phase == if w > s.remote then Woken(n) else Blocked(n)
    ensures s.phase == Blocked(n) ==> Close(s).phase == Woken(n) && Close(s).closed
    ensures s.phase == Woken(n) ==> Retest(s).phase == if s.closed || n <= s.remote then Running else Blocked(n)
  {
  }

  lemma {:induction false} RunKeeps(s: Window, actions: seq<Action>)
    requires Inv(s) && IsRun(s, actions)
    ensures Inv(After(s, actions))
    decreases |actions|
  {
    if actions != [] { RunKeeps(Step(s, actions[0]), actions[1..]); }
  }

  // In every run the bytes sent after a window update stay within it, no sender
  // sleeps while its bytes fit, and the first accepted segment whose window covers
  // them wakes it.
  lemma NoLostWakeup(window: nat, actions: seq<Action>)
    requires IsRun(Window(window, Running, false, window, 0), actions)
    ensures var s := After(Window(window, Running, false, window, 0), actions);
            && s.since <= s.last
            && (s.phase.Blocked? ==> s.remote < s.phase.n)
            && (forall w: nat | s.phase.Blocked? && w >= s.phase.n :: Arrive(s, w).phase == Woken(s.phase.n))
  {
    RunKeeps(Window(window, Running, false, window, 0), actions);
  }

  // ---- the object -----------------------------------------------------------------------

  datatype Error = Ok | Pipe | Failed

  // What happens while a sender waits: a segment with a new window, or a reset.
  datatype Update = NewWindow(w: nat) | Closed

  datatype Outcome = Done | Stuck

  // How a wait ends: the window covers the payload, the socket was closed, or no more
  // updates come.
  datatype Ended = Covered | Hangup | Starved

  // The window after these updates.
  function WindowAfter(w: nat, updates: seq<Update>): nat {
    if updates == [] then w else
      match updates[|updates| - 1]
      case NewWindow(x) => x
      case Closed => WindowAfter(w, updates[..|updates| - 1])
  }

  // n bytes wait through all these updates: none of them gives the window, and none but
  // the last finds the socket closed.
  predicate Waits(w: nat, closed: bool, n: nat, updates: seq<Update>) {
    && (forall i | 0 <= i < |updates| :: WindowAfter(w, updates[..i]) < n)
    && (forall i | 0 < i < |updates| :: !closed && Closed !in updates[..i])
  }

  lemma OneMore(w: nat, closed: bool, n: nat, updates: seq<Update>, c: nat)
    requires c < |updates| && Waits(w, closed, n, updates[..c]) && WindowAfter(w, updates[..c]) < n
    requires c > 0 ==> !closed && Closed !in updates[..c]
    ensures Waits(w, closed, n, updates[..c + 1])
    ensures WindowAfter(w, updates[..c + 1]) == match updates[c] case NewWindow(x) => x case Closed => WindowAfter(w, updates[..c])
    ensures Closed in updates[..c + 1] <==> Closed in updates[..c] || updates[c].Closed?
  {
    var u := updates[..c + 1];
    assert u[..c] == updates[..c] && u == updates[..c] + [updates[c]];
    WaitsLonger(w, closed, n, updates[..c], updates[c]);
  }

  lemma WaitsLonger(w: nat, closed: bool, n: nat, past: seq<Update>, next: Update)
    requires Waits(w, closed, n, past) && WindowAfter(w, past) < n && (past != [] ==> !closed && Closed !in past)
    ensures Waits(w, closed, n, past + [next])
  {
    hide WindowAfter;
    var u := past + [next];
    forall i | 0 <= i < |u| ensures WindowAfter(w, u[..i]) < n && (i > 0 ==> !closed && Closed !in u[..i]) {
      assert u[..i] == past[..i];
      assert past[..|past|] == past;
    }
  }

  lemma Unwaited(w: nat, closed: bool, n: nat, updates: seq<Update>)
    ensures Waits(w, closed, n, updates[..0]) && WindowAfter(w, updates[..0]) == w && Closed !in updates[..0]
  {
  }

  lemma BackMod32(x: int, n: nat)
    requires 0 <= x < M32
    ensures ((x + n) % M32 - n) % M32 == x
  {
    AddMod32(x + n, 0 - n);
  }

  lemma Suffix(updates: seq<Update>, c: nat, d: nat)
    requires c + d <= |updates|
    ensures updates[c..][d..] == updates[c + d..]
    ensures Closed in updates[..c + d] <==> Closed in updates[..c] || Closed in updates[c..][..d]
  {
    assert updates[..c + d] == updates[..c] + updates[c..][..d];
  }

  class KSender {
    var num: int
    var remoteWindow: nat
    var closed: bool
    ghost var last: int
    ghost var since: nat

    ghost predicate Valid()
      reads this
    {
      0 <= num < M32 && remoteWindow + since == last
    }

    constructor (num: int, window: nat)
      requires 0 <= num < M32
      ensures Valid() && this.num == num && remoteWindow == window && !closed
    {
      this.num, remoteWindow, closed, last, since := num, window, false, window, 0;
    }

    // send_segment; updates are the events that end its waits, c of which it meets, and
    // it is stuck when there are no more. accepted says whether the lower layer takes
    // the segment. It goes on as soon as the window covers the payload, and gives up
    // exactly when it finds the socket closed after a wait.
    method SendSegment(payload: seq<int>, isLast: bool, updates: seq<Update>, accepted: bool)
      returns (e: Error, out: seq<Seg>, rest: seq<Update>, outcome: Outcome, ghost c: nat)
      requires Valid()
      modifies this
      ensures Valid() && c <= |updates| && rest == updates[c..]
      ensures Waits(old(remoteWindow), old(closed), |payload|, updates[..c])
      ensures closed <==> old(closed) || Closed in updates[..c]
      ensures outcome.Stuck? <==>
                rest == [] && WindowAfter(old(remoteWindow), updates) < |payload| && (c > 0 ==> !closed)
      ensures outcome.Done? && e.Pipe? <==> c > 0 && closed
      ensures outcome.Done? && !e.Pipe? ==>
                && WindowAfter(old(remoteWindow), updates[..c]) >= |payload|
                && remoteWindow == WindowAfter(old(remoteWindow), updates[..c]) - |payload|
                && out == [Seg(old(num), payload, isLast)] && num == (old(num) + |payload|) % 0x1_0000_0000
                && (e.Ok? <==> accepted) && since >= |payload|
      ensures outcome.Stuck? || e.Pipe? ==>
                out == [] && num == old(num) && remoteWindow == WindowAfter(old(remoteWindow), updates[..c])
      ensures outcome.Stuck? ==> remoteWindow < |payload|
    {
      hide Waits, WindowAfter;
      BackMod32(num, |payload|);
      var ended;
      ended, rest, c := AwaitWindow(|payload|, updates);
      match ended {
        case Starved => return Failed, [], rest, Stuck, c;
        case Hangup => return Pipe, [], rest, Done, c;
        case Covered =>
      }
      num := (num + |payload|) % M32;
      remoteWindow := remoteWindow - |payload|;
      since := since + |payload|;
      out := [Seg((num - |payload|) % M32, payload, isLast)];
      return if accepted then Ok else Failed, out, rest, Done, c;
    }

    // The loop of send_segment.
    method AwaitWindow(n: nat, updates: seq<Update>) returns (ended: Ended, rest: seq<Update>, ghost c: nat)
      requires Valid()
      modifies this`remoteWindow, this`closed, this`last, this`since
      ensures Valid() && c <= |updates| && rest == updates[c..]
      ensures Waits(old(remoteWindow), old(closed), n, updates[..c])
      ensures remoteWindow == WindowAfter(old(remoteWindow), updates[..c])
      ensures closed <==> old(closed) || Closed in updates[..c]
      ensures ended.Hangup? <==> c > 0 && closed
      ensures ended.Covered? <==> remoteWindow >= n && !(c > 0 && closed)
      ensures ended.Starved? ==> rest == [] && updates[..c] == updates
      ensures rest == [] ==> updates[..c] == updates
    {
      hide Waits, WindowAfter;
      c, rest := 0, updates;
      Unwaited(remoteWindow, closed, n, updates);
      while remoteWindow < n
        invariant Valid() && c <= |updates| && rest == updates[c..]
        invariant Waits(old(remoteWindow), old(closed), n, updates[..c])
        invariant remoteWindow == WindowAfter(old(remoteWindow), updates[..c])
        invariant closed <==> old(closed) || Closed in updates[..c]
        invariant c > 0 ==> !closed
        decreases |rest|
      {
        if rest == [] {
          assert updates[..c] == updates;
          return Starved, rest, c;
        }
        OneMore(old(remoteWindow), old(closed), n, updates, c);
        var u := rest[0];
        rest, c := rest[1..], c + 1;
        match u {
          case NewWindow(w) => remoteWindow, last, since := w, w, 0;
          case Closed => closed := true;
        }
        if closed {
          assert rest == [] ==> updates[..c] == updates;
          return Hangup, rest, c;
        }
      }
      assert rest == [] ==> updates[..c] == updates;
      ended := Covered;
    }

    // send; results says for each segment whether the lower layer takes it. With all
    // taken, everything goes out and the whole count is returned. If segment i is the
    // first not taken, it is the last to go out, and i slices are counted. If the socket
    // is found closed after a wait, nothing is counted. It is stuck when the updates run
    // out with the window below the next slice.
    method Send(data: seq<int>, updates: seq<Update>, results: nat -> bool)
      returns (sent: nat, out: seq<Seg>, rest: seq<Update>, outcome: Outcome)
      requires Valid()
      modifies this
      ensures Valid() && sent <= |data| && out <= Expected(data, old(num))
      ensures forall j | 0 <= j < |out| - 1 :: results(j)
      ensures outcome.Done? ==>
                || AllSent(data, sent, out, Expected(data, old(num)), results)
                || Refused(data, sent, out, results)
                || (HungUp(sent, out, Expected(data, old(num)), results) && closed && (old(closed) || Closed in updates))
      ensures outcome.Done? && sent == |data| && sent > 0 ==>
                out == Expected(data, old(num)) && num == (old(num) + |data|) % 0x1_0000_0000
      ensures outcome.Stuck? ==>
                && rest == [] && sent == 1460 * |out| < |data| && (out != [] ==> results(|out| - 1))
                && remoteWindow < (if |data| - sent < 1460 then |data| - sent else 1460)
    {
      hide Expected, Waits, WindowAfter, Progress, AllSent, Refused, HungUp;
      sent, out, outcome := 0, [], Done;
      rest := updates;
      ghost var c: nat := 0;
      Started(data, num, results);
      while sent != |data|
        invariant Valid() && sent <= |data| && outcome.Done?
        invariant Progress(data, old(num), num, sent, out, results)
        invariant c <= |updates| && rest == updates[c..] && (closed <==> old(closed) || Closed in updates[..c])
        decreases |data| - sent
      {
        var toSend := if |data| - sent < MSS then |data| - sent else MSS;
        var isLast := sent + toSend == |data|;
        Advanced(data, old(num), num, sent, out, results, toSend);
        var e, o, rest', outcome', d := SendSegment(data[sent..sent + toSend], isLast, rest, results(|out|));
        Suffix(updates, c, d);
        rest, c := rest', c + d;
        if outcome'.Stuck? {
          return sent, out, rest, Stuck;
        }
        if e.Pipe? {
          sent := 0;
          return;
        }
        out := out + o;
        if e != Ok {
          return;
        }
        sent := sent + toSend;
      }
      Finished(data, old(num), num, out, results);
    }
  }

  // sent bytes have gone out in the segments out, all of them taken.
  predicate Progress(data: seq<int>, start: int, num: int, sent: nat, out: seq<Seg>, results: nat -> bool) {
    && sent <= |data| && num == (start + sent) % M32
    && out + Expected(data[sent..], num) == Expected(data, start)
    && (sent < |data| ==> sent == 1460 * |out|)
    && forall j | 0 <= j < |out| :: results(j)
  }

  lemma Started(data: seq<int>, num: int, results: nat -> bool)
    requires 0 <= num < M32
    ensures Progress(data, num, num, 0, [], results)
  {
    assert data[0..] == data;
  }

  // What the next slice does to the count, or what is left if it goes wrong.
  lemma Advanced(data: seq<int>, start: int, num: int, sent: nat, out: seq<Seg>, results: nat -> bool, n: nat)
    requires Progress(data, start, num, sent, out, results) && sent < |data| && 0 <= num < M32
    requires n == if |data| - sent < MSS then |data| - sent else MSS
    ensures var seg := Seg(num, data[sent..sent + n], sent + n == |data|);
            && out + [seg] <= Expected(data, start) && |out| < |Expected(data, start)|
            && sent == 1460 * |out| && (forall j | 0 <= j < |out| :: results(j))
            && (results(|out|) ==> Progress(data, start, (num + n) % M32, sent + n, out + [seg], results))
            && (!results(|out|) ==> Refused(data, sent, out + [seg], results))
            && HungUp(0, out, Expected(data, start), results)
  {
    hide Expected;
    NextSlice(data, sent, n, num, out);
    AddMod32(start + sent, n);
  }

  lemma Finished(data: seq<int>, start: int, num: int, out: seq<Seg>, results: nat -> bool)
    requires Progress(data, start, num, |data|, out, results)
    ensures AllSent(data, |data|, out, Expected(data, start), results) && num == (start + |data|) % M32
  {
    assert data[|data|..] == [];
    ExpectedEmpty(num);
  }

  predicate AllSent(data: seq<int>, sent: nat, out: seq<Seg>, all: seq<Seg>, results: nat -> bool) {
    sent == |data| && out == all && forall j | 0 <= j < |out| :: results(j)
  }

  predicate Refused(data: seq<int>, sent: nat, out: seq<Seg>, results: nat -> bool) {
    out != [] && !results(|out| - 1) && sent == 1460 * (|out| - 1) < |data| && forall j | 0 <= j < |out| - 1 :: results(j)
  }

  predicate HungUp(sent: nat, out: seq<Seg>, all: seq<Seg>, results: nat -> bool) {
    sent == 0 && |out| < |all| && forall j | 0 <= j < |out| :: results(j)
  }

  // The segments so far, the next one and the rest.
  lemma NextSlice(data: seq<int>, sent: nat, n: int, num: int, out: seq<Seg>)
    requires sent < |data| && n == (if |data| - sent < MSS then |data| - sent else MSS) && 0 <= num < M32
    ensures out + Expected(data[sent..], num)
         == out + [Seg(num, data[sent..sent + n], sent + n == |data|)] + Expected(data[sent + n..], (num + n) % M32)
  {
    hide Expected;
    ExpectedStep(data[sent..], num, n);
    assert data[sent..][..n] == data[sent..sent + n];
    assert data[sent..][n..] == data[sent + n..];
  }

  lemma ExpectedEmpty(num: int)
    ensures Expected([], num) == []
  {
  }

  lemma ExpectedStep(data: seq<int>, num: int, n: int)
    requires |data| > 0 && n == (if |data| < MSS then |data| else MSS) && 0 <= num < M32
    ensures Expected(data, num) == [Seg(num, data[..n], n == |data|)] + Expected(data[n..], (num + n) % M32)
  {
    if n == |data| { assert data[..n] == data && data[n..] == []; }
  }
}
