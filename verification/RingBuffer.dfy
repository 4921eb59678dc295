// A fixed array of slots used round and round: position p, counted without
// wrapping, is slot p modulo the number of slots.
module RingBuffer {
  import opened Arithmetic

  // From position from on, the slots hold the given items.
  ghost predicate RingHolds<T>(ring: seq<T>, from: int, items: seq<T>) {
    && |ring| > 0 && from >= 0
    && forall j {:trigger items[j]} | 0 <= j < |items| :: ring[(from + j) % |ring|] == items[j]
  }

  // Storing behind the items of a ring that is not full keeps them all.
  lemma RingAppend<T>(ring: seq<T>, from: int, items: seq<T>, x: T)
    requires RingHolds(ring, from, items) && |items| < |ring|
    ensures RingHolds(ring[(from + |items|) % |ring| := x], from, items + [x])
  {
    var n := |ring|;
    var ring' := ring[(from + |items|) % n := x];
    forall j | 0 <= j < |items| + 1 ensures ring'[(from + j) % n] == (items + [x])[j] {
      if j < |items| {
        assert ring[(from + j) % n] == items[j];
        RemaindersDiffer(n, from + j, from + |items|);
      }
    }
  }

  lemma RingDrop<T>(ring: seq<T>, from: int, items: seq<T>)
    requires RingHolds(ring, from, items) && items != []
    ensures ring[from % |ring|] == items[0] && RingHolds(ring, from + 1, items[1..])
  {
    var n := |ring|;
    assert ring[(from + 0) % n] == items[0];
    forall j | 0 <= j < |items| - 1 ensures ring[(from + 1 + j) % n] == items[1..][j] {
      assert ring[(from + (j + 1)) % n] == items[j + 1];
      assert from + 1 + j == from + (j + 1);
    }
  }

  // A position may be reduced to its slot.
  lemma RingWrapped<T>(ring: seq<T>, from: int, items: seq<T>)
    requires RingHolds(ring, from, items)
    ensures RingHolds(ring, from % |ring|, items)
  {
    forall j | 0 <= j < |items| ensures ring[(from % |ring| + j) % |ring|] == items[j] {
      AddModulo(|ring|, from, j);
    }
  }
}
