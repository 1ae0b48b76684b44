/** The slot iterator of the hash table. It holds the slot array, the capacity
    and a cursor index; constructing it or advancing it moves the cursor to
    the next live slot, or to the capacity (the end position). The const
    iterator of the source has exactly the same cursor logic and is
    represented by the same class. */
module HashIterator {
  import opened HashNode

  /** The cursor that `find_occupied` leaves when started at `i`: the first
      live index at or after `i`, or `i` itself once it is at or past the end. */
  function NextLive<K, V>(s: seq<Slot<K, V>>, i: nat): (r: nat)
    ensures i <= r
    ensures i <= |s| ==> r <= |s|
    ensures i >= |s| ==> r == i
    ensures r < |s| ==> Live(s[r])
    ensures forall j :: i <= j < r ==> j < |s| && !Live(s[j])
    decreases |s| - i
  {
    if i >= |s| then i
    else if Live(s[i]) then i
    else NextLive(s, i + 1)
  }

  /** The indices of the live slots at or after `i`, in increasing order. */
  ghost function LiveIndices<K, V>(s: seq<Slot<K, V>>, i: nat): seq<nat>
    decreases |s| - i
  {
    if i >= |s| then []
    else (if Live(s[i]) then [i] else []) + LiveIndices(s, i + 1)
  }

  /** The cursors an iterator produces when started at `c` and advanced with
      `++` until it reaches the end. */
  ghost function Walk<K, V>(s: seq<Slot<K, V>>, c: nat): seq<nat>
    decreases |s| - c
  {
    if c >= |s| then [] else [c] + Walk(s, NextLive(s, c + 1))
  }

  /** Walking from `begin()` (an iterator built at index 0) up to `end()`
      visits exactly the live slots, each once, in increasing index order. */
  lemma {:induction false} WalkFromBeginVisitsLiveSlots<K, V>(s: seq<Slot<K, V>>)
    ensures Walk(s, NextLive(s, 0)) == LiveIndices(s, 0)
    ensures forall x: nat :: x in LiveIndices(s, 0) <==> x < |s| && Live(s[x])
    ensures forall a, b :: 0 <= a < b < |LiveIndices(s, 0)| ==> LiveIndices(s, 0)[a] < LiveIndices(s, 0)[b]
  {
    WalkMatches(s, 0);
    LiveIndicesMembers(s, 0);
    LiveIndicesIncreasing(s, 0);
  }

  lemma {:induction false} WalkMatches<K, V>(s: seq<Slot<K, V>>, i: nat)
    ensures Walk(s, NextLive(s, i)) == LiveIndices(s, i)
    decreases |s| - i
  {
    if i < |s| {
      WalkMatches(s, i + 1);
      if !Live(s[i]) {
        assert NextLive(s, i) == NextLive(s, i + 1);
      }
    }
  }

  /** The live indices at or after `i` are exactly the live slots there. */
  lemma {:induction false} LiveIndicesMembers<K, V>(s: seq<Slot<K, V>>, i: nat)
    ensures forall x: nat :: x in LiveIndices(s, i) <==> i <= x < |s| && Live(s[x])
    decreases |s| - i
  {
    if i < |s| {
      LiveIndicesMembers(s, i + 1);
    }
  }

  /** Each live index at or after `i` is at least `i`. */
  lemma {:induction false} LiveIndicesFrom<K, V>(s: seq<Slot<K, V>>, i: nat)
    ensures forall a :: 0 <= a < |LiveIndices(s, i)| ==> i <= LiveIndices(s, i)[a]
    decreases |s| - i
  {
    if i < |s| {
      LiveIndicesFrom(s, i + 1);
    }
  }

  /** The live indices come in strictly increasing order. */
  lemma {:induction false} LiveIndicesIncreasing<K, V>(s: seq<Slot<K, V>>, i: nat)
    ensures forall a, b :: 0 <= a < b < |LiveIndices(s, i)| ==> LiveIndices(s, i)[a] < LiveIndices(s, i)[b]
    decreases |s| - i
  {
    if i < |s| {
      LiveIndicesIncreasing(s, i + 1);
      LiveIndicesFrom(s, i + 1);
      var li, rest := LiveIndices(s, i), LiveIndices(s, i + 1);
      if Live(s[i]) {
        assert li == [i] + rest;
        forall a, b | 0 <= a < b < |li|
          ensures li[a] < li[b]
        {
          assert li[b] == rest[b - 1];
          if a > 0 {
            assert li[a] == rest[a - 1];
          }
        }
      } else {
        assert li == rest;
      }
    }
  }

  class Iterator<K, V> {
    const slots: array<Slot<K, V>>
    const capacity: nat
    var current: nat

    /** The source builds every iterator with the table's own slot array and
        capacity, and moves the cursor to the first live slot at or after the
        requested index. */
    constructor (slots: array<Slot<K, V>>, capacity: nat, current: nat)
      requires capacity == slots.Length
      ensures this.slots == slots && this.capacity == capacity
      ensures this.current == NextLive(slots[..], current)
    {
      this.slots := slots;
      this.capacity := capacity;
      this.current := current;
      new;
      FindOccupied();
    }

    /** find_occupied: skip every slot that is not live, stopping at the end. */
    method FindOccupied()
      requires capacity == slots.Length
      modifies this
      ensures current == NextLive(slots[..], old(current))
    {
      while current < capacity && (!slots[current].occupied || slots[current].deleted)
        invariant NextLive(slots[..], current) == NextLive(slots[..], old(current))
        decreases capacity - current
      {
        current := current + 1;
      }
    }

    /** Pre-increment: step past the current slot, then skip to the next live
        one. From a position before the end it lands strictly later, on a live
        slot or on the end; from the end itself the cursor moves one past it. */
    method Increment()
      requires capacity == slots.Length
      modifies this
      ensures current == NextLive(slots[..], old(current) + 1)
      ensures old(current) < capacity ==> old(current) < current <= capacity
      ensures current < capacity ==> Live(slots[current])
    {
      current := current + 1;
      FindOccupied();
    }

    /** Post-increment: a copy at the old position is returned and this
        iterator advances. */
    method PostIncrement() returns (previous: Iterator<K, V>)
      requires capacity == slots.Length
      modifies this
      ensures fresh(previous)
      ensures previous.slots == slots && previous.capacity == capacity
      ensures previous.current == old(current)
      ensures current == NextLive(slots[..], old(current) + 1)
    {
      previous := new Iterator.Copy(this);
      Increment();
    }

    constructor Copy(other: Iterator<K, V>)
      ensures slots == other.slots && capacity == other.capacity && current == other.current
    {
      slots := other.slots;
      capacity := other.capacity;
      current := other.current;
    }

    /** Dereference: the source asserts that the cursor is on a live slot. */
    function Get(): (entry: (K, V))
      reads this, slots
      requires current < capacity == slots.Length && Live(slots[current])
      ensures entry.0 == slots[current].key && entry.1 == slots[current].value
    {
      (slots[current].key, slots[current].value)
    }

    /** Two iterators are equal when their cursors are equal. */
    predicate Equals(other: Iterator<K, V>)
      reads this, other
    {
      current == other.current
    }
  }
}
