// The circular intrusive doubly linked list of common/include/common/list.h.
// A node at address p holds its next pointer in the word at p and its prev
// pointer in the word at p + 8. A ring is described by the sequence of its
// nodes, starting from any chosen one.
module IntrusiveList {
  import opened Common
  import opened Memory

  predicate Apart(p: int, q: int) {
    p + 16 <= q || q + 16 <= p
  }

  predicate Spaced(s: seq<int>) {
    forall i, j | 0 <= i < j < |s| :: Apart(s[i], s[j])
  }

  predicate ApartFrom(s: seq<int>, p: int) {
    forall i | 0 <= i < |s| :: Apart(s[i], p)
  }

  function After(s: seq<int>, i: int): int
    requires 0 <= i < |s|
  {
    if i + 1 < |s| then s[i + 1] else s[0]
  }

  function Before(s: seq<int>, i: int): int
    requires 0 <= i < |s|
  {
    if i > 0 then s[i - 1] else s[|s| - 1]
  }

  predicate Links(m: Words, p: int, prev: int, next: int) {
    p in m && p + 8 in m && m[p] == next && m[p + 8] == prev
  }

  predicate LinkedAt(m: Words, s: seq<int>, i: int)
    requires 0 <= i < |s|
  {
    Links(m, s[i], Before(s, i), After(s, i))
  }

  predicate Ring(m: Words, s: seq<int>) {
    && Spaced(s)
    && forall i | 0 <= i < |s| :: LinkedAt(m, s, i)
  }

  predicate IsList(m: Words, head: int, s: seq<int>) {
    && Ring(m, s)
    && NULL !in s
    && head == if s == [] then NULL else s[0]
  }

  // The word at a lies outside the node at p.
  predicate OffNode(p: int, a: int) {
    a + 8 <= p || p + 16 <= a
  }

  predicate SameWord(m: Words, m': Words, a: int) {
    (a in m <==> a in m') && (a in m ==> m'[a] == m[a])
  }

  // m' differs from m at most inside the nodes of s.
  ghost predicate OnlyNodes(m: Words, m': Words, s: seq<int>) {
    forall a | (forall i | 0 <= i < |s| :: OffNode(s[i], a)) :: SameWord(m, m', a)
  }

  // ---- sequence views of the list operations -----------------------------

  // Storing the result of push_back as the head makes it a prepend.
  function Pushed<T>(s: seq<T>, x: T): seq<T> {
    [x] + s
  }

  function InsertedAfter<T>(s: seq<T>, k: int, x: T): seq<T>
    requires 0 <= k < |s|
  {
    s[..k + 1] + [x] + s[k + 1..]
  }

  function Rotated<T>(s: seq<T>): seq<T>
    requires s != []
  {
    s[1..] + [s[0]]
  }

  // ---- the stores each operation performs ---------------------------------

  function InitStores(m: Words, p: int): Words {
    Store(Store(m, p + 8, p), p, p)
  }

  function PushBackStores(m: Words, head: int, tail: int): Words
    requires head == NULL || head + 8 in m
  {
    if head == NULL then InitStores(m, tail) else
      var last := m[head + 8];
      Store(Store(Store(Store(m, last, tail), tail + 8, last), tail, head), head + 8, tail)
  }

  predicate Readable(m: Words, p: int) {
    p in m && p + 8 in m
  }

  predicate CanUnlink(m: Words, p: int) {
    && Readable(m, p)
    && Readable(Store(m, m[p + 8], m[p]), p)
  }

  function UnlinkStores(m: Words, p: int): Words
    requires CanUnlink(m, p)
  {
    var m1 := Store(m, m[p + 8], m[p]);
    Store(m1, m1[p] + 8, m1[p + 8])
  }

  function DeleteStores(m: Words, head: int, p: int): (Words, int)
    requires CanUnlink(m, p)
  {
    if p == head && m[p] == p then (m, NULL)
    else (UnlinkStores(m, p), if p == head then m[p] else head)
  }

  function InsertStores(m: Words, prev: int, p: int): Words
    requires prev in m
  {
    var next := m[prev];
    var m1 := Store(m, p, next);
    var m2 := if next != NULL then Store(m1, next + 8, p) else m1;
    Store(Store(m2, p + 8, prev), prev, p)
  }

  // ---- what they do to a ring ----------------------------------------------

  lemma RingFrame(m: Words, m': Words, t: seq<int>, s: seq<int>)
    requires OnlyNodes(m, m', t) && Ring(m, s)
    requires forall i | 0 <= i < |s| :: ApartFrom(t, s[i])
    ensures Ring(m', s)
  {
    forall i | 0 <= i < |s| ensures LinkedAt(m', s, i) {
      assert ApartFrom(t, s[i]);
      assert LinkedAt(m, s, i);
      assert SameWord(m, m', s[i]) && SameWord(m, m', s[i] + 8);
    }
  }

  lemma InitRing(m: Words, p: int)
    ensures Ring(InitStores(m, p), [p])
    ensures OnlyNodes(m, InitStores(m, p), [p])
  {
    var m' := InitStores(m, p);
    forall a | OffNode([p][0], a) ensures SameWord(m, m', a) {
      assert Clear(p, a) && Clear(p + 8, a);
    }
  }

  // The words insert leaves behind: p sits between prev and next, and nothing
  // else changes. prev and next coincide in a ring of one.
  ghost predicate Spliced(m: Words, m': Words, prev: int, p: int, next: int) {
    && Links(m', p, prev, next)
    && prev in m' && m'[prev] == p
    && next + 8 in m' && m'[next + 8] == p
    && forall a | OffNode(p, a) && Clear(prev, a) && Clear(next + 8, a) :: SameWord(m, m', a)
  }

  lemma InsertWords(m: Words, prev: int, p: int)
    requires prev in m && m[prev] != NULL
    requires Apart(prev, p) && Apart(m[prev], p)
    requires prev == m[prev] || Apart(prev, m[prev])
    ensures Spliced(m, InsertStores(m, prev, p), prev, p, m[prev])
  {
  }

  lemma SpacedInsert(s: seq<int>, k: int, p: int)
    requires Spaced(s) && 0 <= k < |s| && ApartFrom(s, p)
    ensures Spaced(InsertedAfter(s, k, p))
  {
    var t := InsertedAfter(s, k, p);
    forall i, j | 0 <= i < j < |t| ensures Apart(t[i], t[j]) {
      assert t[i] == if i <= k then s[i] else if i == k + 1 then p else s[i - 1];
      assert t[j] == if j <= k then s[j] else if j == k + 1 then p else s[j - 1];
    }
  }

  lemma SplicedNode(m: Words, m': Words, s: seq<int>, k: int, p: int, j: int)
    requires Ring(m, s) && 0 <= k < |s| && ApartFrom(s, p) && 0 <= j < |s|
    requires Spliced(m, m', s[k], p, After(s, k))
    ensures Links(m', s[j],
                  if j == k + 1 || (j == 0 && k == |s| - 1) then p else Before(s, j),
                  if j == k then p else After(s, j))
  {
    var kn := if k + 1 < |s| then k + 1 else 0;
    assert LinkedAt(m, s, j) && Apart(s[j], p);
    assert j == k || Apart(s[j], s[k]);
    assert j == kn || Apart(s[j], s[kn]);
    assert j != k ==> SameWord(m, m', s[j]);
    assert j != kn ==> SameWord(m, m', s[j] + 8);
  }

  lemma SplicedRing(m: Words, m': Words, s: seq<int>, k: int, p: int)
    requires Ring(m, s) && 0 <= k < |s| && ApartFrom(s, p)
    requires Spliced(m, m', s[k], p, After(s, k))
    ensures Ring(m', InsertedAfter(s, k, p))
  {
    var t := InsertedAfter(s, k, p);
    SpacedInsert(s, k, p);
    forall i | 0 <= i < |t| ensures LinkedAt(m', t, i) {
      if i != k + 1 {
        SplicedNode(m, m', s, k, p, if i <= k then i else i - 1);
      }
    }
  }

  lemma SplicedFrame(m: Words, m': Words, s: seq<int>, k: int, p: int)
    requires 0 <= k < |s| && Spliced(m, m', s[k], p, After(s, k))
    ensures OnlyNodes(m, m', s + [p])
  {
    var u := s + [p];
    forall a | (forall i | 0 <= i < |u| :: OffNode(u[i], a)) ensures SameWord(m, m', a) {
      assert OffNode(u[k], a) && OffNode(u[if k + 1 < |s| then k + 1 else 0], a) && OffNode(u[|s|], a);
    }
  }

  lemma InsertRing(m: Words, s: seq<int>, k: int, p: int)
    requires Ring(m, s) && 0 <= k < |s| && ApartFrom(s, p) && NULL !in s
    ensures s[k] in m
    ensures Ring(InsertStores(m, s[k], p), InsertedAfter(s, k, p))
    ensures OnlyNodes(m, InsertStores(m, s[k], p), s + [p])
  {
    assert LinkedAt(m, s, k);
    InsertWords(m, s[k], p);
    SplicedRing(m, InsertStores(m, s[k], p), s, k, p);
    SplicedFrame(m, InsertStores(m, s[k], p), s, k, p);
  }

  lemma RotateRing(m: Words, s: seq<int>)
    requires Ring(m, s) && s != []
    ensures s[0] in m && m[s[0]] == Rotated(s)[0]
    ensures Ring(m, Rotated(s))
  {
    var t := Rotated(s);
    assert LinkedAt(m, s, 0);
    forall i | 0 <= i < |t| ensures LinkedAt(m, t, i) {
      assert LinkedAt(m, s, if i + 1 < |s| then i + 1 else 0);
    }
  }

  lemma RotateBackRing(m: Words, s: seq<int>, x: int)
    requires Ring(m, s + [x])
    ensures Ring(m, [x] + s)
  {
    var t := [x] + s;
    forall i | 0 <= i < |t| ensures LinkedAt(m, t, i) {
      assert LinkedAt(m, s + [x], if i > 0 then i - 1 else |s|);
    }
    forall i, j | 0 <= i < j < |t| ensures Apart(t[i], t[j]) {
      assert i > 0 ==> Apart((s + [x])[i - 1], (s + [x])[j - 1]);
      assert i == 0 ==> Apart((s + [x])[j - 1], (s + [x])[|s|]);
    }
  }

  lemma PushBackWords(m: Words, head: int, tail: int)
    requires head != NULL && head + 8 in m
    requires Apart(head, tail) && Apart(m[head + 8], tail)
    requires head == m[head + 8] || Apart(head, m[head + 8])
    ensures Spliced(m, PushBackStores(m, head, tail), m[head + 8], tail, head)
  {
  }

  lemma AppendedRing(m: Words, m': Words, s: seq<int>, p: int)
    requires Ring(m, s) && s != [] && ApartFrom(s, p)
    requires Spliced(m, m', s[|s| - 1], p, s[0])
    ensures Ring(m', s + [p]) && Ring(m', [p] + s)
    ensures OnlyNodes(m, m', s + [p])
  {
    var k := |s| - 1;
    SplicedRing(m, m', s, k, p);
    SplicedFrame(m, m', s, k, p);
    assert InsertedAfter(s, k, p) == s + [p];
    RotateBackRing(m', s, p);
  }

  // Keeping the old head, tail is appended; taking the returned tail as the
  // head, as every caller does, it is prepended.
  lemma PushBackRing(m: Words, head: int, s: seq<int>, tail: int)
    requires IsList(m, head, s) && ApartFrom(s, tail) && tail != NULL
    ensures head != NULL ==> head + 8 in m
    ensures IsList(PushBackStores(m, head, tail), tail, Pushed(s, tail))
    ensures s != [] ==> IsList(PushBackStores(m, head, tail), head, s + [tail])
    ensures OnlyNodes(m, PushBackStores(m, head, tail), s + [tail])
  {
    if s == [] {
      InitRing(m, tail);
      assert s + [tail] == [tail] == Pushed(s, tail);
    } else {
      assert LinkedAt(m, s, 0);
      assert |s| == 1 || Apart(s[0], s[|s| - 1]);
      PushBackWords(m, head, tail);
      AppendedRing(m, PushBackStores(m, head, tail), s, tail);
    }
  }

  // The words unlink leaves behind: prev and next point at each other, and
  // nothing else changes; the unlinked node keeps its own stale links.
  ghost predicate Bridged(m: Words, m': Words, prev: int, next: int) {
    && prev in m' && m'[prev] == next
    && next + 8 in m' && m'[next + 8] == prev
    && (forall a | Clear(prev, a) && Clear(next + 8, a) :: SameWord(m, m', a))
    && (forall a | a in m' :: (a == prev || Clear(prev, a)) && (a == next + 8 || Clear(next + 8, a)))
  }

  lemma Neighbours(s: seq<int>, k: int)
    requires Spaced(s) && 0 <= k < |s|
    ensures var p, q := Before(s, k), After(s, k);
            && (p == s[k] || Apart(p, s[k])) && (q == s[k] || Apart(q, s[k]))
            && (p == q || Apart(p, q))
  {
    var kp := if k > 0 then k - 1 else |s| - 1;
    var kn := if k + 1 < |s| then k + 1 else 0;
    assert k == kp || Apart(s[k], s[kp]);
    assert k == kn || Apart(s[k], s[kn]);
    assert kp == kn || Apart(s[kp], s[kn]);
  }

  lemma StoreSame(m: Words, a: int)
    requires a in m && forall b | b in m :: b == a || Clear(a, b)
    ensures Store(m, a, m[a]) == m
  {
  }

  lemma UnlinkWords(m: Words, p: int, prev: int, next: int)
    requires Links(m, p, prev, next)
    requires prev == p || Apart(prev, p)
    requires next == p || Apart(next, p)
    requires prev == next || Apart(prev, next)
    ensures CanUnlink(m, p)
    ensures Bridged(m, UnlinkStores(m, p), prev, next)
    ensures Links(UnlinkStores(m, p), p, prev, next)
  {
  }

  lemma UnlinkAgain(m: Words, m': Words, p: int, prev: int, next: int)
    requires Bridged(m, m', prev, next) && Links(m', p, prev, next)
    ensures CanUnlink(m', p) && UnlinkStores(m', p) == m'
  {
    StoreSame(m', prev);
    StoreSame(m', next + 8);
  }

  lemma BridgedNode(m: Words, m': Words, s: seq<int>, k: int, j: int)
    requires Ring(m, s) && 0 <= k < |s| && 0 <= j < |s| && j != k
    requires Bridged(m, m', Before(s, k), After(s, k))
    ensures Links(m', s[j],
                  if j == k + 1 || (j == 0 && k == |s| - 1) then Before(s, k) else Before(s, j),
                  if j == k - 1 || (j == |s| - 1 && k == 0) then After(s, k) else After(s, j))
  {
    var kp := if k > 0 then k - 1 else |s| - 1;
    var kn := if k + 1 < |s| then k + 1 else 0;
    assert LinkedAt(m, s, j);
    assert j == kp || Apart(s[j], s[kp]);
    assert j == kn || Apart(s[j], s[kn]);
    assert j != kp ==> SameWord(m, m', s[j]);
    assert j != kn ==> SameWord(m, m', s[j] + 8);
  }

  lemma BridgedRing(m: Words, m': Words, s: seq<int>, k: int)
    requires Ring(m, s) && 0 <= k < |s|
    requires Bridged(m, m', Before(s, k), After(s, k))
    ensures Ring(m', RemovedAt(s, k))
    ensures OnlyNodes(m, m', s)
  {
    var t := RemovedAt(s, k);
    forall i | 0 <= i < |t| ensures LinkedAt(m', t, i) {
      BridgedNode(m, m', s, k, if i < k then i else i + 1);
    }
    forall a | (forall i | 0 <= i < |s| :: OffNode(s[i], a)) ensures SameWord(m, m', a) {
      assert OffNode(s[if k > 0 then k - 1 else |s| - 1], a);
      assert OffNode(s[if k + 1 < |s| then k + 1 else 0], a);
    }
  }

  // Unlinking removes the node from its ring; unlinking it again changes nothing.
  lemma UnlinkRing(m: Words, s: seq<int>, k: int)
    requires Ring(m, s) && 0 <= k < |s|
    ensures CanUnlink(m, s[k])
    ensures var m' := UnlinkStores(m, s[k]);
            && Ring(m', RemovedAt(s, k))
            && OnlyNodes(m, m', s)
            && CanUnlink(m', s[k])
            && UnlinkStores(m', s[k]) == m'
  {
    assert LinkedAt(m, s, k);
    Neighbours(s, k);
    UnlinkWords(m, s[k], Before(s, k), After(s, k));
    BridgedRing(m, UnlinkStores(m, s[k]), s, k);
    UnlinkAgain(m, UnlinkStores(m, s[k]), s[k], Before(s, k), After(s, k));
  }

  lemma DeleteRing(m: Words, head: int, s: seq<int>, k: int)
    requires IsList(m, head, s) && 0 <= k < |s|
    ensures CanUnlink(m, s[k])
    ensures var (m', head') := DeleteStores(m, head, s[k]);
            && IsList(m', head', RemovedAt(s, k))
            && OnlyNodes(m, m', s)
  {
    UnlinkRing(m, s, k);
    assert LinkedAt(m, s, k);
    assert k == 0 || Apart(s[0], s[k]);
    assert |s| > 1 ==> Apart(s[0], s[1]);
  }

  // ---- insert_sorted --------------------------------------------------------

  // Splices p in front of the node at s[k] without updating the next pointer of
  // the node before it, except when that node is s[k] itself.
  function SortedStores(m: Words, cur: int, p: int): Words
    requires Readable(m, cur)
  {
    var m1 := Store(Store(Store(m, p, cur), p + 8, m[cur + 8]), cur + 8, p);
    if cur in m1 && m1[cur] == cur then Store(m1, cur, p) else m1
  }

  lemma NotOnRing(m: Words, p: int)
    requires p + 8 in m && m[p + 8] in m && m[m[p + 8]] != p
    ensures forall t | p in t :: !Ring(m, t)
  {
    forall t | p in t ensures !Ring(m, t) {
      var i :| 0 <= i < |t| && t[i] == p;
      var j := if i > 0 then i - 1 else |t| - 1;
      assert Ring(m, t) ==> LinkedAt(m, t, i) && LinkedAt(m, t, j);
    }
  }

  lemma SortedWords(m: Words, cur: int, prev: int, next: int, p: int)
    requires Links(m, cur, prev, next) && Apart(cur, p) && Apart(prev, p) && prev in m
    requires prev == cur || Apart(prev, cur)
    requires (prev == cur) == (next == cur)
    ensures var m' := SortedStores(m, cur, p);
            if prev == cur then Links(m', cur, p, p) && Links(m', p, cur, cur)
            else p + 8 in m' && m'[p + 8] == prev && prev in m' && m'[prev] == m[prev]
  {
  }

  lemma SortedIntoOne(m: Words, q: int, p: int)
    requires Ring(m, [q]) && Apart(q, p)
    ensures Readable(m, q) && Ring(SortedStores(m, q, p), [q, p])
  {
    hide SortedStores;
    assert LinkedAt(m, [q], 0);
    SortedWords(m, q, q, q, p);
    var m', t := SortedStores(m, q, p), [q, p];
    assert LinkedAt(m', t, 0) && LinkedAt(m', t, 1);
  }

  lemma SortedIntoLonger(m: Words, s: seq<int>, k: int, p: int)
    requires Ring(m, s) && 0 <= k < |s| && |s| > 1 && ApartFrom(s, p)
    ensures Readable(m, s[k]) && forall t | p in t :: !Ring(SortedStores(m, s[k], p), t)
  {
    hide SortedStores;
    var kp := if k > 0 then k - 1 else |s| - 1;
    assert LinkedAt(m, s, k) && LinkedAt(m, s, kp) && Apart(s[kp], p) && s[kp] == Before(s, k);
    assert Apart(s[if k < kp then k else kp], s[if k < kp then kp else k]);
    Neighbours(s, k);
    SortedWords(m, s[k], Before(s, k), After(s, k), p);
    NotOnRing(SortedStores(m, s[k], p), p);
  }

  // In a ring of one the new node is linked in; in a longer ring it is not on
  // any ring afterwards, because its predecessor still points past it.
  lemma InsertSortedLinksOnlyIntoOne(m: Words, s: seq<int>, k: int, p: int)
    requires Ring(m, s) && 0 <= k < |s| && ApartFrom(s, p)
    ensures Readable(m, s[k])
    ensures (exists t :: p in t && Ring(SortedStores(m, s[k], p), t)) <==> |s| == 1
  {
    hide Ring, SortedStores, Readable;
    if |s| == 1 {
      assert s == [s[0]];
      SortedIntoOne(m, s[0], p);
      assert p in [s[0], p];
    } else {
      SortedIntoLonger(m, s, k, p);
    }
  }

  lemma StillReadable(m: Words, cur: int, p: int)
    requires Readable(m, cur) && Apart(cur, p)
    ensures var m1 := Store(m, p, cur);
            && cur + 8 in m1 && m1[cur + 8] == m[cur + 8]
            && cur in Store(Store(m1, p + 8, m[cur + 8]), cur + 8, p)
  {
  }

  // Into an empty list nothing is stored: the returned node is a list only if its links
  // happened to be set up before.
  lemma InsertSortedIntoNone(m: Words, p: int)
    requires p != NULL
    ensures IsList(m, p, [p]) <==> Links(m, p, p, p)
  {
    assert Ring(m, [p]) ==> LinkedAt(m, [p], 0);
  }

  // ---- the operations in place ----------------------------------------------

  // The memory the nodes live in; each assignment of the source is one store.
  class NodeMemory {
    var words: Words

    constructor (w: Words)
      ensures words == w
    {
      words := w;
    }

    method Write(a: int, v: int)
      modifies this
      ensures words == Store(old(words), a, v)
    {
      words := Store(words, a, v);
    }

    method Init(p: int)
      modifies this
      ensures words == InitStores(old(words), p)
    {
      Write(p + 8, p);
      Write(p, p);
    }

    method PushBack(head: int, tail: int) returns (r: int)
      requires head == NULL || head + 8 in words
      modifies this
      ensures words == PushBackStores(old(words), head, tail) && r == tail
    {
      if head == NULL {
        Init(tail);
        return tail;
      }
      var last := words[head + 8];
      Write(last, tail);
      Write(tail + 8, last);
      Write(tail, head);
      Write(head + 8, tail);
      return tail;
    }

    method UnlinkNode(p: int)
      requires p == NULL || CanUnlink(words, p)
      modifies this
      ensures words == if p == NULL then old(words) else UnlinkStores(old(words), p)
    {
      if p == NULL {
        return;
      }
      Write(words[p + 8], words[p]);
      Write(words[p] + 8, words[p + 8]);
    }

    method Delete(head: int, p: int) returns (r: int)
      requires p != NULL && CanUnlink(words, p)
      modifies this
      ensures (words, r) == DeleteStores(old(words), head, p)
    {
      r := head;
      if p == head {
        if p == words[p] {
          return NULL;
        }
        r := words[p];
      }
      UnlinkNode(p);
    }

    // insert_sorted: the new node goes in front of the first one it compares before,
    // or in front of the head if there is none.
    method InsertSorted(head: int, p: int, compare: (int, int) -> bool, ghost s: seq<int>) returns (r: int, ghost k: int)
      requires IsList(words, head, s) && ApartFrom(s, p)
      modifies this
      ensures head == NULL ==> words == old(words) && r == p
      ensures head != NULL ==>
                && 0 <= k < |s| && Readable(old(words), s[k]) && words == SortedStores(old(words), s[k], p)
                && (forall i | 0 <= i < k :: !compare(s[i], p))
                && (compare(s[k], p) || (k == 0 && forall i | 0 <= i < |s| :: !compare(s[i], p)))
                && r == if compare(head, p) then p else head
    {
      hide SortedStores;
      if head == NULL {
        return p, 0;
      }
      var current := head;
      current, k := FindBefore(head, p, compare, s);
      assert LinkedAt(words, s, k) && Apart(s[k], p);
      SpliceBefore(current, p);
      r := if compare(head, p) then p else head;
    }

    // The walk: the first node compare puts behind p, or the head again.
    method FindBefore(head: int, p: int, compare: (int, int) -> bool, ghost s: seq<int>) returns (current: int, ghost k: int)
      requires IsList(words, head, s) && head != NULL
      ensures 0 <= k < |s| && current == s[k]
      ensures forall i | 0 <= i < k :: !compare(s[i], p)
      ensures compare(s[k], p) || (k == 0 && forall i | 0 <= i < |s| :: !compare(s[i], p))
    {
      current, k := head, 0;
      if compare(head, p) {
        return;
      }
      assert LinkedAt(words, s, 0);
      current, k := words[head], 1;
      while current != head && !compare(current, p)
        invariant 0 < k <= |s| && current == if k < |s| then s[k] else head
        invariant forall i | 0 <= i < k :: !compare(s[i], p)
        decreases |s| - k
      {
        assert LinkedAt(words, s, k);
        current, k := words[current], k + 1;
      }
      assert 0 < k < |s| ==> Apart(s[0], s[k]);
      k := if k == |s| then 0 else k;
    }

    method SpliceBefore(current: int, p: int)
      requires Readable(words, current) && Apart(current, p)
      modifies this
      ensures words == SortedStores(old(words), current, p)
    {
      hide Store;
      StillReadable(words, current, p);
      Write(p, current);
      Write(p + 8, words[current + 8]);
      Write(current + 8, p);
      if words[current] == current {
        Write(current, p);
      }
    }

    method Insert(prev: int, p: int) returns (r: int)
      requires prev in words && Apart(prev, p)
      modifies this
      ensures words == InsertStores(old(words), prev, p) && r == p
    {
      Write(p, words[prev]);
      if words[p] != NULL {
        Write(words[p] + 8, p);
      }
      Write(p + 8, prev);
      Write(prev, p);
      return p;
    }
  }
}
