// kernel/waitq.cpp: threads waiting in a ring of items that live on their stacks.
// Waits have no time limit.
module WaitQueue {
  import opened Common
  import opened IntrusiveList
  import opened Memory

  function ThreadsOf(items: seq<int>, thread: map<int, int>): (r: seq<int>)
    requires forall i | 0 <= i < |items| :: items[i] in thread
    ensures |r| == |items| && forall i | 0 <= i < |items| :: r[i] == thread[items[i]]
  {
    seq(|items|, i requires 0 <= i < |items| => thread[items[i]])
  }

  class KWaitQueue {
    const mem: NodeMemory
    // The head item, and the thread and wakeup_successful fields of the items.
    var wq: int
    var thread: map<int, int>
    var woken: set<int>
    ghost var items: seq<int>

    ghost predicate Valid()
      reads this, mem
    {
      && IsList(mem.words, wq, items)
      && (forall i | 0 <= i < |items| :: items[i] in thread && items[i] !in woken)
    }

    // The waiting threads from the head on.
    ghost function Waiters(): seq<int>
      reads this, mem
      requires Valid()
    {
      ThreadsOf(items, thread)
    }

    constructor (mem: NodeMemory)
      ensures Valid() && Waiters() == [] && this.mem == mem
    {
      this.mem, wq, thread, woken, items := mem, NULL, map[], {}, [];
    }

    predicate Empty()
      reads this
    {
      wq == NULL
    }

    lemma EmptyExactlyWhen()
      requires Valid()
      ensures Empty() <==> Waiters() == []
    {
      assert items != [] ==> items[0] in items;
    }

    // wait up to the switch away: the caller's item becomes the head.
    method Wait(t: int, item: int)
      requires Valid() && item != NULL && ApartFrom(items, item)
      modifies this, mem
      ensures Valid() && Waiters() == Pushed(old(Waiters()), t) && items == Pushed(old(items), item)
    {
      hide Ring, InitStores, PushBackStores;
      Initialised(mem.words, wq, items, item);
      mem.Init(item);
      woken := woken - {item};
      thread := thread[item := t];
      PushBackRing(mem.words, wq, items, item);
      wq := mem.PushBack(wq, item);
      assert item !in items;
      items := Pushed(items, item);
      assert Waiters() == Pushed(old(Waiters()), t);
    }

    // notify_one: the newest waiter leaves and is marked as woken.
    method NotifyOne() returns (t: Option<int>)
      requires Valid()
      modifies this, mem
      ensures Valid()
      ensures old(Waiters()) == [] ==> t == None && Waiters() == []
      ensures old(Waiters()) != [] ==>
                && t == Some(old(Waiters())[0]) && Waiters() == old(Waiters())[1..]
                && items == old(items)[1..] && woken == old(woken) + {old(items)[0]}
    {
      hide Ring, DeleteStores, CanUnlink;
      EmptyExactlyWhen();
      if wq == NULL {
        return None;
      }
      var item := wq;
      assert item == items[0] && item in items;
      t := Some(thread[item]);
      DeleteRing(mem.words, wq, items, 0);
      Distinct(mem.words, items);
      wq := mem.Delete(wq, item);
      woken := woken + {item};
      assert RemovedAt(items, 0) == items[1..];
      items := items[1..];
    }
  }

  lemma Initialised(w: Words, head: int, items: seq<int>, item: int)
    requires IsList(w, head, items) && ApartFrom(items, item)
    ensures IsList(InitStores(w, item), head, items) && item !in items
  {
    InitRing(w, item);
    forall i | 0 <= i < |items| ensures ApartFrom([item], items[i]) { }
    RingFrame(w, InitStores(w, item), [item], items);
  }

  lemma Distinct(w: Words, items: seq<int>)
    requires Ring(w, items) && items != []
    ensures items[0] !in items[1..]
  {
    forall i | 1 <= i < |items| ensures items[i] != items[0] { assert Apart(items[0], items[i]); }
  }
}
