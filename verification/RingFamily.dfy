// Several rings sharing one memory, each with its head pointer. Nodes of
// different rings never overlap, so an operation on one ring leaves the others
// as they are.
module RingFamily {
  import opened Common
  import opened Memory
  import opened IntrusiveList

  predicate Separate(s: seq<int>, t: seq<int>) {
    forall i, j | 0 <= i < |s| && 0 <= j < |t| :: Apart(s[i], t[j])
  }

  predicate AllSeparate(rings: seq<seq<int>>) {
    forall i, j | 0 <= i < j < |rings| :: Separate(rings[i], rings[j])
  }

  predicate Rings(w: Words, heads: seq<int>, rings: seq<seq<int>>) {
    && |heads| == |rings|
    && (forall i | 0 <= i < |rings| :: IsList(w, heads[i], rings[i]))
    && AllSeparate(rings)
  }

  predicate NewNode(rings: seq<seq<int>>, p: int) {
    p != NULL && forall i | 0 <= i < |rings| :: ApartFrom(rings[i], p)
  }

  lemma RingOf(w: Words, heads: seq<int>, rings: seq<seq<int>>, i: int)
    requires Rings(w, heads, rings) && 0 <= i < |heads|
    ensures |rings| == |heads| && IsList(w, heads[i], rings[i]) && Spaced(rings[i]) && NULL !in rings[i]
  {
  }

  lemma RingCount(w: Words, heads: seq<int>, rings: seq<seq<int>>)
    requires Rings(w, heads, rings)
    ensures |rings| == |heads|
  {
  }

  lemma HeadOf(w: Words, heads: seq<int>, rings: seq<seq<int>>, i: int)
    requires Rings(w, heads, rings) && 0 <= i < |heads|
    ensures |rings| == |heads| && heads[i] == if rings[i] == [] then NULL else rings[i][0]
    ensures heads[i] == NULL <==> rings[i] == []
  {
    assert IsList(w, heads[i], rings[i]);
    assert rings[i] != [] ==> rings[i][0] in rings[i];
  }

  lemma SeparateFrom(rings: seq<seq<int>>, i: int, j: int)
    requires AllSeparate(rings) && 0 <= i < |rings| && 0 <= j < |rings| && i != j
    ensures Separate(rings[i], rings[j])
  {
    if j < i { assert Separate(rings[j], rings[i]); }
  }

  // Changing ring j only inside nodes t keeps every other ring.
  lemma OthersKept(w: Words, w': Words, heads: seq<int>, rings: seq<seq<int>>, j: int, t: seq<int>)
    requires Rings(w, heads, rings) && 0 <= j < |rings| && OnlyNodes(w, w', t)
    requires forall i | 0 <= i < |rings| && i != j :: Separate(rings[i], t)
    ensures forall i | 0 <= i < |rings| && i != j :: IsList(w', heads[i], rings[i])
  {
    forall i | 0 <= i < |rings| && i != j ensures IsList(w', heads[i], rings[i]) {
      assert IsList(w, heads[i], rings[i]) && Separate(rings[i], t);
      forall k | 0 <= k < |rings[i]| ensures ApartFrom(t, rings[i][k]) { }
      RingFrame(w, w', t, rings[i]);
    }
  }

  lemma SeparateSubset(rings: seq<seq<int>>, j: int, s: seq<int>)
    requires AllSeparate(rings) && 0 <= j < |rings| && forall k | 0 <= k < |s| :: s[k] in rings[j]
    ensures AllSeparate(rings[j := s])
  {
    var r := rings[j := s];
    forall i, l | 0 <= i < l < |rings| ensures Separate(r[i], r[l]) {
      assert Separate(rings[i], rings[l]);
    }
  }

  // intrusive_list_push_back onto ring j, the result stored as its head.
  lemma FamilyPush(w: Words, heads: seq<int>, rings: seq<seq<int>>, j: int, p: int)
    requires Rings(w, heads, rings) && 0 <= j < |rings| && NewNode(rings, p)
    ensures heads[j] == NULL || heads[j] + 8 in w
    ensures Rings(PushBackStores(w, heads[j], p), heads[j := p], rings[j := Pushed(rings[j], p)])
  {
    var s := rings[j];
    assert IsList(w, heads[j], s) && ApartFrom(s, p);
    PushBackRing(w, heads[j], s, p);
    var w' := PushBackStores(w, heads[j], p);
    forall i | 0 <= i < |rings| && i != j ensures Separate(rings[i], s + [p]) {
      SeparateFrom(rings, i, j);
      assert ApartFrom(rings[i], p);
    }
    OthersKept(w, w', heads, rings, j, s + [p]);
    PushedSeparate(rings, j, p);
  }

  lemma PushedSeparate(rings: seq<seq<int>>, j: int, p: int)
    requires AllSeparate(rings) && 0 <= j < |rings| && NewNode(rings, p)
    ensures AllSeparate(rings[j := Pushed(rings[j], p)])
  {
    var r := rings[j := Pushed(rings[j], p)];
    forall i, l | 0 <= i < l < |rings| ensures Separate(r[i], r[l]) {
      assert Separate(rings[i], rings[l]) && ApartFrom(rings[i], p) && ApartFrom(rings[l], p);
    }
  }

  lemma RemovedMembers(s: seq<int>, k: int)
    requires Spaced(s) && 0 <= k < |s|
    ensures forall y :: y in RemovedAt(s, k) <==> y in s && y != s[k]
  {
    var t := RemovedAt(s, k);
    forall y ensures y in t <==> y in s && y != s[k] {
      if y in t {
        var a :| 0 <= a < |t| && t[a] == y;
        assert t[a] == s[if a < k then a else a + 1];
      }
      if y in s && y != s[k] {
        var a :| 0 <= a < |s| && s[a] == y;
        assert t[if a < k then a else a - 1] == y;
      }
    }
  }

  lemma RemovedSeparate(rings: seq<seq<int>>, j: int, k: int)
    requires AllSeparate(rings) && 0 <= j < |rings| && 0 <= k < |rings[j]|
    ensures AllSeparate(rings[j := RemovedAt(rings[j], k)])
  {
    SeparateSubset(rings, j, RemovedAt(rings[j], k));
  }

  // Removing a node from ring j may change only that ring's nodes.
  lemma FamilyShrink(w: Words, w': Words, heads: seq<int>, rings: seq<seq<int>>, j: int, k: int, head': int)
    requires Rings(w, heads, rings) && 0 <= j < |rings| && 0 <= k < |rings[j]|
    requires OnlyNodes(w, w', rings[j]) && IsList(w', head', RemovedAt(rings[j], k))
    ensures Rings(w', heads[j := head'], rings[j := RemovedAt(rings[j], k)])
  {
    forall i | 0 <= i < |rings| && i != j ensures Separate(rings[i], rings[j]) { SeparateFrom(rings, i, j); }
    OthersKept(w, w', heads, rings, j, rings[j]);
    RemovedSeparate(rings, j, k);
  }

  // intrusive_list_delete of a node of ring j, the result stored as its head.
  lemma FamilyDelete(w: Words, heads: seq<int>, rings: seq<seq<int>>, j: int, k: int)
    requires Rings(w, heads, rings) && 0 <= j < |rings| && 0 <= k < |rings[j]|
    ensures CanUnlink(w, rings[j][k])
    ensures var (w', head') := DeleteStores(w, heads[j], rings[j][k]);
            Rings(w', heads[j := head'], rings[j := RemovedAt(rings[j], k)])
  {
    assert IsList(w, heads[j], rings[j]);
    DeleteRing(w, heads[j], rings[j], k);
    var (w', head') := DeleteStores(w, heads[j], rings[j][k]);
    FamilyShrink(w, w', heads, rings, j, k, head');
  }

  // Following next from the head of ring j and taking that as the head.
  lemma FamilyRotate(w: Words, heads: seq<int>, rings: seq<seq<int>>, j: int)
    requires Rings(w, heads, rings) && 0 <= j < |rings| && rings[j] != []
    ensures heads[j] == rings[j][0] && heads[j] in w
    ensures Rings(w, heads[j := w[heads[j]]], rings[j := Rotated(rings[j])])
  {
    assert IsList(w, heads[j], rings[j]);
    RotateRing(w, rings[j]);
    RotatedMembers(rings[j]);
    SeparateSubset(rings, j, Rotated(rings[j]));
  }

  lemma RotatedMembers(s: seq<int>)
    requires s != []
    ensures forall x :: x in Rotated(s) <==> x in s
  {
    assert s == [s[0]] + s[1..];
  }

  lemma Unshared(w: Words, heads: seq<int>, rings: seq<seq<int>>, i: int, j: int, k: int)
    requires Rings(w, heads, rings) && 0 <= i < |rings| && 0 <= j < |rings| && i != j && 0 <= k < |rings[j]|
    ensures rings[j][k] != heads[i] && rings[j][k] != NULL
  {
    SeparateFrom(rings, i, j);
    assert IsList(w, heads[i], rings[i]) && IsList(w, heads[j], rings[j]);
    assert rings[j][k] in rings[j];
    if rings[i] != [] { assert Apart(rings[i][0], rings[j][k]); }
  }

  // Deleting a node of ring j first through the head of another ring i and then
  // through its own head has the effect of the second deletion alone: the first
  // one unlinks the node, the second finds nothing left to unlink and only moves
  // the head on.
  lemma DeleteThroughBoth(w: Words, heads: seq<int>, rings: seq<seq<int>>, i: int, j: int, k: int)
    requires Rings(w, heads, rings) && 0 <= i < |rings| && 0 <= j < |rings| && i != j && 0 <= k < |rings[j]|
    ensures CanUnlink(w, rings[j][k])
    ensures var (w1, h1) := DeleteStores(w, heads[i], rings[j][k]);
            && h1 == heads[i] && CanUnlink(w1, rings[j][k])
            && var (w2, h2) := DeleteStores(w1, heads[j], rings[j][k]);
               Rings(w2, heads[j := h2], rings[j := RemovedAt(rings[j], k)])
  {
    Unshared(w, heads, rings, i, j, k);
    var s, p := rings[j], rings[j][k];
    assert IsList(w, heads[j], s);
    UnlinkRing(w, s, k);
    DeleteRing(w, heads[j], s, k);
    assert LinkedAt(w, s, k);
    Neighbours(s, k);
    UnlinkWords(w, p, Before(s, k), After(s, k));
    var w1 := UnlinkStores(w, p);
    assert w1[p] == w[p];
    UnlinkAlone(w, s, k);
    FamilyShrink(w, w1, heads, rings, j, k, DeleteStores(w, heads[j], p).1);
  }

  // In a ring of one, unlinking the node rewrites its own links unchanged.
  lemma UnlinkAlone(w: Words, s: seq<int>, k: int)
    requires Ring(w, s) && 0 <= k < |s|
    ensures CanUnlink(w, s[k])
    ensures IsList(w, s[0], s) ==>
              IsList(UnlinkStores(w, s[k]), DeleteStores(w, s[0], s[k]).1, RemovedAt(s, k))
  {
    UnlinkRing(w, s, k);
    if IsList(w, s[0], s) { DeleteRing(w, s[0], s, k); }
  }

  // The other way round: once deleted through its own head, the node is deleted
  // through another head without effect.
  lemma DeleteAgain(w: Words, heads: seq<int>, rings: seq<seq<int>>, i: int, j: int, k: int)
    requires Rings(w, heads, rings) && 0 <= i < |rings| && 0 <= j < |rings| && i != j && 0 <= k < |rings[j]|
    ensures CanUnlink(w, rings[j][k])
    ensures var (w1, h1) := DeleteStores(w, heads[j], rings[j][k]);
            && CanUnlink(w1, rings[j][k])
            && Rings(w1, heads[j := h1], rings[j := RemovedAt(rings[j], k)])
            && var (w2, h2) := DeleteStores(w1, heads[i], rings[j][k]);
               h2 == heads[i] && Rings(w2, heads[j := h1], rings[j := RemovedAt(rings[j], k)])
  {
    FamilyDelete(w, heads, rings, j, k);
    Unshared(w, heads, rings, i, j, k);
    var s, p := rings[j], rings[j][k];
    assert IsList(w, heads[j], s);
    UnlinkRing(w, s, k);
    UnlinkAlone(w, s, k);
    FamilyShrink(w, UnlinkStores(w, p), heads, rings, j, k, DeleteStores(w, heads[j], p).1);
  }
}
