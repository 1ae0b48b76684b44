/** The open-addressing hash table with linear probing and tombstones.

    The slot array is an `array<Slot>` whose length is the capacity. A lookup
    (`find_position`) probes from `hash(key) % capacity`, stops at a live slot
    holding the key or at an empty slot, and walks over everything else. A
    placement (`get_insert_position`) stops at the first slot that is not
    `occupied`, or at a live slot holding the key. Reusing a tombstone sets
    `occupied` and leaves `deleted` set, so the entry placed there is hidden
    from lookups and iterators although it is counted in `size`.

    The functions below describe the probe and the effect of each operation on
    the slot sequence; the class `Table` carries out the operations in place
    and is proved against them. */
module HashTable {
  import opened Wrappers
  import opened HashNode
  import opened HashIterator

  /* ---------------- probing ---------------- */

  /** The slot visited at step `e` of a linear probe that starts at `home`,
      that is `(home + e) % n` for the indices that occur. */
  function Probe(home: nat, e: nat, n: nat): (p: nat)
    requires home < n && e < n
    ensures p < n
  {
    if home + e < n then home + e else home + e - n
  }

  /** The number of probe steps from `home` that reach slot `q`. */
  function Offset(home: nat, q: nat, n: nat): (e: nat)
    requires home < n && q < n
    ensures e < n && Probe(home, e, n) == q
  {
    if home <= q then q - home else q + n - home
  }

  lemma ProbeInjective(home: nat, e1: nat, e2: nat, n: nat)
    requires home < n && e1 < n && e2 < n
    requires Probe(home, e1, n) == Probe(home, e2, n)
    ensures e1 == e2
  {
  }

  /** The home slot of a key. */
  function Home<K>(hash: K -> nat, key: K, n: nat): (h: nat)
    requires n > 0
    ensures h < n
  {
    hash(key) % n
  }

  /** The two probe loops of the source: the lookup of `find_position` and
      the placement of `get_insert_position`. */
  datatype Mode = Lookup | Placement

  /** Where a probe in mode `m` for `key` stops. */
  predicate Stops<K(==), V>(m: Mode, s: Slot<K, V>, key: K)
  {
    match m
    case Lookup => (Live(s) && s.key == key) || Empty(s)
    case Placement => !s.occupied || (Live(s) && s.key == key)
  }

  /** The number of steps before the first stopping slot, counting from step
      `j`; it is `|s|` when no slot of the remaining steps stops the probe. */
  function Steps<K(==), V>(m: Mode, s: seq<Slot<K, V>>, home: nat, key: K, j: nat): (d: nat)
    requires home < |s| && j <= |s|
    ensures j <= d <= |s|
    ensures forall e :: j <= e < d ==> !Stops(m, s[Probe(home, e, |s|)], key)
    ensures d < |s| ==> Stops(m, s[Probe(home, d, |s|)], key)
    decreases |s| - j
  {
    if j == |s| then |s|
    else if Stops(m, s[Probe(home, j, |s|)], key) then j
    else Steps(m, s, home, key, j + 1)
  }

  /** The source's probe loops have no step bound: they end exactly when some
      slot on the probe path stops them, and run forever otherwise. */
  predicate ProbeEnds<K(==), V>(m: Mode, s: seq<Slot<K, V>>, home: nat, key: K)
    requires home < |s|
  {
    exists e :: 0 <= e < |s| && Stops(m, s[Probe(home, e, |s|)], key)
  }

  lemma ProbeEndsWithin<K, V>(m: Mode, s: seq<Slot<K, V>>, home: nat, key: K)
    requires home < |s| && ProbeEnds(m, s, home, key)
    ensures Steps(m, s, home, key, 0) < |s|
  {
    var e :| 0 <= e < |s| && Stops(m, s[Probe(home, e, |s|)], key);
  }

  /** find_position: the live slot holding `key` where the lookup stops, or
      `|s|` when the lookup stops at an empty slot. */
  function FindPos<K(==), V>(s: seq<Slot<K, V>>, hash: K -> nat, key: K): (r: nat)
    requires |s| > 0
    ensures r <= |s|
    ensures r < |s| ==> Live(s[r]) && s[r].key == key
  {
    var home := Home(hash, key, |s|);
    var d := Steps(Lookup, s, home, key, 0);
    if d < |s| && Live(s[Probe(home, d, |s|)]) then Probe(home, d, |s|) else |s|
  }

  /** get_insert_position: the first slot on the probe path that is not
      occupied, or the live slot holding `key` if that comes first (`|s|`
      stands for the case where the source loops forever). */
  function InsertPos<K(==), V>(s: seq<Slot<K, V>>, hash: K -> nat, key: K): (r: nat)
    requires |s| > 0
    ensures r <= |s|
    ensures r < |s| ==> Stops(Placement, s[r], key)
  {
    var home := Home(hash, key, |s|);
    var d := Steps(Placement, s, home, key, 0);
    if d < |s| then Probe(home, d, |s|) else |s|
  }

  /* ---------------- counting ---------------- */

  /** The number of occupied slots (live or hidden): what `size_` counts. */
  function Occupied<K, V>(s: seq<Slot<K, V>>): nat
  {
    if s == [] then 0 else Occupied(s[..|s| - 1]) + (if s[|s| - 1].occupied then 1 else 0)
  }

  /** The number of live slots. */
  function LiveCount<K, V>(s: seq<Slot<K, V>>): nat
  {
    if s == [] then 0 else LiveCount(s[..|s| - 1]) + (if Live(s[|s| - 1]) then 1 else 0)
  }

  lemma {:induction false} CountsBounded<K, V>(s: seq<Slot<K, V>>)
    ensures LiveCount(s) <= Occupied(s) <= |s|
  {
    if s != [] {
      CountsBounded(s[..|s| - 1]);
    }
  }

  lemma {:induction false} OccupiedUpdate<K, V>(s: seq<Slot<K, V>>, p: nat, x: Slot<K, V>)
    requires p < |s|
    ensures Occupied(s[p := x]) == Occupied(s) - (if s[p].occupied then 1 else 0) + (if x.occupied then 1 else 0)
  {
    var t := s[p := x];
    if p < |s| - 1 {
      assert t[..|t| - 1] == s[..|s| - 1][p := x];
      OccupiedUpdate(s[..|s| - 1], p, x);
    } else {
      assert t[..|t| - 1] == s[..|s| - 1];
    }
  }

  lemma {:induction false} LiveCountPrefix<K, V>(s: seq<Slot<K, V>>, i: nat)
    requires i < |s|
    ensures LiveCount(s[..i + 1]) == LiveCount(s[..i]) + (if Live(s[i]) then 1 else 0)
  {
    assert s[..i + 1][..i] == s[..i];
  }

  lemma {:induction false} LiveCountMonotone<K, V>(s: seq<Slot<K, V>>, i: nat)
    requires i <= |s|
    ensures LiveCount(s[..i]) <= LiveCount(s)
    decreases |s| - i
  {
    if i < |s| {
      LiveCountPrefix(s, i);
      LiveCountMonotone(s, i + 1);
    } else {
      assert s[..i] == s;
    }
  }

  /** When fewer slots are occupied than exist, some slot is not occupied. */
  lemma {:induction false} SomeSlotFree<K, V>(s: seq<Slot<K, V>>) returns (q: nat)
    requires Occupied(s) < |s|
    ensures q < |s| && !s[q].occupied
  {
    if s[|s| - 1].occupied {
      CountsBounded(s[..|s| - 1]);
      q := SomeSlotFree(s[..|s| - 1]);
    } else {
      q := |s| - 1;
    }
  }

  /** A placement probe always ends while some slot is not occupied: linear
      probing visits every slot within `|s|` steps. */
  lemma RoomMeansPlacementEnds<K, V>(s: seq<Slot<K, V>>, home: nat, key: K)
    requires home < |s| && Occupied(s) < |s|
    ensures ProbeEnds(Placement, s, home, key)
  {
    var q := SomeSlotFree(s);
    var e := Offset(home, q, |s|);
    assert Stops(Placement, s[Probe(home, e, |s|)], key);
  }

  /** One more probe step is the source's `(pos + 1) % capacity`. */
  lemma NextProbe(home: nat, j: nat, n: nat)
    requires home < n && j + 1 < n
    ensures Probe(home, j + 1, n) == (Probe(home, j, n) + 1) % n
  {
  }

  /** A probe that has passed `j + 1` slots without stopping, and that
      stops at step `w`, goes on to the next slot. */
  lemma ProbeGoesOn<K, V>(m: Mode, s: seq<Slot<K, V>>, home: nat, key: K, j: nat, w: nat)
    requires home < |s| && j <= w < |s|
    requires Stops(m, s[Probe(home, w, |s|)], key)
    requires forall e :: 0 <= e < j ==> !Stops(m, s[Probe(home, e, |s|)], key)
    requires !Stops(m, s[Probe(home, j, |s|)], key)
    ensures j + 1 <= w
    ensures Probe(home, j + 1, |s|) == (Probe(home, j, |s|) + 1) % |s|
    ensures forall e :: 0 <= e < j + 1 ==> !Stops(m, s[Probe(home, e, |s|)], key)
  {
    NextProbe(home, j, |s|);
  }

  /** A probe that has passed `j` slots without stopping and stops at step
      `j` has taken exactly `Steps` steps. */
  lemma StepsIsFirst<K, V>(m: Mode, s: seq<Slot<K, V>>, home: nat, key: K, j: nat)
    requires home < |s| && j < |s|
    requires forall e :: 0 <= e < j ==> !Stops(m, s[Probe(home, e, |s|)], key)
    requires Stops(m, s[Probe(home, j, |s|)], key)
    ensures Steps(m, s, home, key, 0) == j
  {
  }

  /* ---------------- the abstract content ---------------- */

  /** No two live slots hold the same key. */
  ghost predicate DistinctKeys<K, V>(s: seq<Slot<K, V>>)
  {
    forall p, q :: 0 <= p < |s| && 0 <= q < |s| && p != q && Live(s[p]) && Live(s[q]) ==> s[p].key != s[q].key
  }

  /** The map the live slots hold. */
  ghost function Entries<K, V>(s: seq<Slot<K, V>>): map<K, V>
    requires DistinctKeys(s)
  {
    map q | 0 <= q < |s| && Live(s[q]) :: s[q].key := s[q].value
  }

  /** The map the live slots below index `i` hold. */
  ghost function EntriesBelow<K, V>(s: seq<Slot<K, V>>, i: nat): map<K, V>
    requires DistinctKeys(s)
  {
    map q | 0 <= q < i && q < |s| && Live(s[q]) :: s[q].key := s[q].value
  }

  /** The probe path from the home of a live slot's key to that slot crosses
      no empty slot, so a lookup of the key cannot stop before reaching it. */
  ghost predicate Reachable<K, V>(s: seq<Slot<K, V>>, hash: K -> nat, q: nat)
    requires q < |s|
  {
    var home := Home(hash, s[q].key, |s|);
    forall e :: 0 <= e < Offset(home, q, |s|) ==> !Empty(s[Probe(home, e, |s|)])
  }

  /** The invariant the operations keep on the slot sequence. */
  ghost predicate Coherent<K, V>(s: seq<Slot<K, V>>, hash: K -> nat)
  {
    && |s| > 0
    && DistinctKeys(s)
    && (forall q :: 0 <= q < |s| && Live(s[q]) ==> Reachable(s, hash, q))
  }

  lemma EntriesHas<K, V>(s: seq<Slot<K, V>>, q: nat)
    requires DistinctKeys(s) && q < |s| && Live(s[q])
    ensures s[q].key in Entries(s) && Entries(s)[s[q].key] == s[q].value
  {
  }

  lemma EntriesFrom<K, V>(s: seq<Slot<K, V>>, k: K) returns (q: nat)
    requires DistinctKeys(s) && k in Entries(s)
    ensures q < |s| && Live(s[q]) && s[q].key == k && Entries(s)[k] == s[q].value
  {
    q :| 0 <= q < |s| && Live(s[q]) && s[q].key == k;
  }

  /** Every live key is in the map. */
  lemma EntriesHasAll<K, V>(s: seq<Slot<K, V>>)
    requires DistinctKeys(s)
    ensures forall q :: 0 <= q < |s| && Live(s[q]) ==> s[q].key in Entries(s) && Entries(s)[s[q].key] == s[q].value
  {
    forall q | 0 <= q < |s| && Live(s[q])
      ensures s[q].key in Entries(s) && Entries(s)[s[q].key] == s[q].value
    {
      EntriesHas(s, q);
    }
  }

  /** Making a non-live slot live with a new key adds exactly that entry. */
  lemma EntriesGain<K, V>(s: seq<Slot<K, V>>, p: nat, x: Slot<K, V>)
    requires DistinctKeys(s) && p < |s| && !Live(s[p]) && Live(x) && x.key !in Entries(s)
    ensures DistinctKeys(s[p := x])
    ensures Entries(s[p := x]) == Entries(s)[x.key := x.value]
  {
    var t := s[p := x];
    EntriesHasAll(s);
    assert DistinctKeys(t);
    EntriesHas(t, p);
    forall k | k != x.key
      ensures k in Entries(t) <==> k in Entries(s)
      ensures k in Entries(t) ==> Entries(t)[k] == Entries(s)[k]
    {
      if k in Entries(t) {
        var q := EntriesFrom(t, k);
        EntriesHas(s, q);
      }
      if k in Entries(s) {
        var q := EntriesFrom(s, k);
        EntriesHas(t, q);
      }
    }
  }

  /** Making a live slot non-live removes exactly its key. */
  lemma EntriesLose<K, V>(s: seq<Slot<K, V>>, p: nat, x: Slot<K, V>)
    requires DistinctKeys(s) && p < |s| && Live(s[p]) && !Live(x)
    ensures DistinctKeys(s[p := x])
    ensures Entries(s[p := x]) == Entries(s) - {s[p].key}
  {
    var t := s[p := x];
    assert DistinctKeys(t);
    forall k
      ensures k in Entries(t) <==> k in Entries(s) && k != s[p].key
      ensures k in Entries(t) ==> Entries(t)[k] == Entries(s)[k]
    {
      if k in Entries(t) {
        var q := EntriesFrom(t, k);
        EntriesHas(s, q);
      }
      if k in Entries(s) && k != s[p].key {
        var q := EntriesFrom(s, k);
        EntriesHas(t, q);
      }
    }
  }

  /** Rewriting a non-live slot as a non-live slot changes nothing. */
  lemma EntriesKeep<K, V>(s: seq<Slot<K, V>>, p: nat, x: Slot<K, V>)
    requires DistinctKeys(s) && p < |s| && !Live(s[p]) && !Live(x)
    ensures DistinctKeys(s[p := x])
    ensures Entries(s[p := x]) == Entries(s)
  {
    var t := s[p := x];
    assert DistinctKeys(t);
    forall k
      ensures k in Entries(t) <==> k in Entries(s)
      ensures k in Entries(t) ==> Entries(t)[k] == Entries(s)[k]
    {
      if k in Entries(t) {
        var q := EntriesFrom(t, k);
        EntriesHas(s, q);
      }
      if k in Entries(s) {
        var q := EntriesFrom(s, k);
        EntriesHas(t, q);
      }
    }
  }

  /** Writing a slot that is not empty keeps every other live slot reachable:
      it can only remove an empty slot from a probe path. */
  lemma NonEmptyWriteKeepsReachable<K, V>(s: seq<Slot<K, V>>, hash: K -> nat, p: nat, x: Slot<K, V>)
    requires Coherent(s, hash) && p < |s| && !Empty(x)
    ensures forall q :: 0 <= q < |s| && q != p && Live(s[q]) ==> Reachable(s[p := x], hash, q)
  {
    var t := s[p := x];
    forall q | 0 <= q < |s| && q != p && Live(s[q])
      ensures Reachable(t, hash, q)
    {
      assert Reachable(s, hash, q);
      var hq := Home(hash, s[q].key, |s|);
      forall e | 0 <= e < Offset(hq, q, |s|)
        ensures !Empty(t[Probe(hq, e, |s|)])
      {
      }
    }
  }

  /** The slot a placement stops at is reachable for the key placed there:
      every slot the placement passed is occupied. */
  lemma ReachableAtPlacement<K, V>(s: seq<Slot<K, V>>, hash: K -> nat, x: Slot<K, V>)
    requires |s| > 0 && InsertPos(s, hash, x.key) < |s| && x.occupied
    ensures Reachable(s[InsertPos(s, hash, x.key) := x], hash, InsertPos(s, hash, x.key))
  {
    var n := |s|;
    var home := Home(hash, x.key, n);
    var d := Steps(Placement, s, home, x.key, 0);
    var p := InsertPos(s, hash, x.key);
    var t := s[p := x];
    ProbeInjective(home, Offset(home, p, n), d, n);
    forall e | 0 <= e < d
      ensures !Empty(t[Probe(home, e, n)])
    {
      assert !Stops(Placement, s[Probe(home, e, n)], x.key);
    }
  }

  /** The lookup for a live slot's key stops exactly at that slot. */
  lemma LookupReachesLive<K, V>(s: seq<Slot<K, V>>, hash: K -> nat, q: nat)
    requires Coherent(s, hash) && q < |s| && Live(s[q])
    ensures Steps(Lookup, s, Home(hash, s[q].key, |s|), s[q].key, 0) == Offset(Home(hash, s[q].key, |s|), q, |s|)
  {
    var n := |s|;
    var key := s[q].key;
    var home := Home(hash, key, n);
    var d := Steps(Lookup, s, home, key, 0);
    var dq := Offset(home, q, n);
    assert Reachable(s, hash, q);
    assert Stops(Lookup, s[Probe(home, dq, n)], key);
    if Probe(home, d, n) == q {
      ProbeInjective(home, d, dq, n);
    }
  }

  /** The placement for a present key stops at its live slot or at a tombstone
      before it on the probe path. */
  lemma PlacementBeforeKey<K, V>(s: seq<Slot<K, V>>, hash: K -> nat, key: K)
    requires Coherent(s, hash)
    ensures key in Entries(s) ==>
              var p := InsertPos(s, hash, key);
              p < |s| && ((Live(s[p]) && s[p].key == key) || (!s[p].occupied && s[p].deleted))
  {
    if key in Entries(s) {
      var n := |s|;
      var home := Home(hash, key, n);
      var d := Steps(Placement, s, home, key, 0);
      var q := EntriesFrom(s, key);
      var dq := Offset(home, q, n);
      assert Reachable(s, hash, q);
      assert Stops(Placement, s[Probe(home, dq, n)], key);
      if Probe(home, d, n) == q {
        ProbeInjective(home, d, dq, n);
      }
    }
  }

  /** A lookup returns the slot of `key` exactly when `key` is in the table's
      map, and then that slot holds the mapped value; a present key also makes
      the lookup loop end. */
  lemma FindPosMatchesEntries<K, V>(s: seq<Slot<K, V>>, hash: K -> nat, key: K)
    requires Coherent(s, hash)
    ensures FindPos(s, hash, key) < |s| <==> key in Entries(s)
    ensures key in Entries(s) ==> Entries(s)[key] == s[FindPos(s, hash, key)].value
    ensures key in Entries(s) ==> ProbeEnds(Lookup, s, Home(hash, key, |s|), key)
  {
    EntriesHasAll(s);
    if key in Entries(s) {
      var q := EntriesFrom(s, key);
      LookupReachesLive(s, hash, q);
      var home := Home(hash, key, |s|);
      assert Stops(Lookup, s[Probe(home, Offset(home, q, |s|), |s|)], key);
    }
  }

  /* ---------------- placement ---------------- */

  /** What `insert` and `operator[]` write into a slot that is not occupied:
      the entry, `occupied` set, and `deleted` left as it was. */
  function Place<K, V>(s: seq<Slot<K, V>>, p: nat, key: K, value: V): (r: seq<Slot<K, V>>)
    requires p < |s|
    ensures |r| == |s|
  {
    s[p := Slot(key, value, true, s[p].deleted)]
  }

  /** Writing an absent key as a live entry into the slot its placement stops
      at keeps the invariant and adds the entry. */
  lemma PlaceLive<K, V>(s: seq<Slot<K, V>>, hash: K -> nat, key: K, value: V)
    requires Coherent(s, hash) && key !in Entries(s)
    requires InsertPos(s, hash, key) < |s| && !s[InsertPos(s, hash, key)].occupied
    ensures Coherent(s[InsertPos(s, hash, key) := Slot(key, value, true, false)], hash)
    ensures Entries(s[InsertPos(s, hash, key) := Slot(key, value, true, false)]) == Entries(s)[key := value]
  {
    var p := InsertPos(s, hash, key);
    var x := Slot(key, value, true, false);
    var t := s[p := x];
    EntriesGain(s, p, x);
    NonEmptyWriteKeepsReachable(s, hash, p, x);
    ReachableAtPlacement(s, hash, x);
    assert forall q :: 0 <= q < |t| && q != p && Live(t[q]) ==> Live(s[q]);
  }

  /** The placement of a key that lands on an empty slot: the key was absent
      and the map gains the entry. */
  lemma PlaceOnEmpty<K, V>(s: seq<Slot<K, V>>, hash: K -> nat, key: K, value: V)
    requires Coherent(s, hash)
    requires InsertPos(s, hash, key) < |s| && Empty(s[InsertPos(s, hash, key)])
    ensures key !in Entries(s)
    ensures Coherent(Place(s, InsertPos(s, hash, key), key, value), hash)
    ensures Entries(Place(s, InsertPos(s, hash, key), key, value)) == Entries(s)[key := value]
  {
    PlacementBeforeKey(s, hash, key);
    PlaceLive(s, hash, key, value);
  }

  /** The placement of a key that lands on a tombstone: the slot written is
      hidden, and the invariant and the map are unchanged. */
  lemma PlaceOnTombstone<K, V>(s: seq<Slot<K, V>>, hash: K -> nat, key: K, value: V)
    requires Coherent(s, hash)
    requires InsertPos(s, hash, key) < |s|
    requires !s[InsertPos(s, hash, key)].occupied && s[InsertPos(s, hash, key)].deleted
    ensures Hidden(Place(s, InsertPos(s, hash, key), key, value)[InsertPos(s, hash, key)])
    ensures Coherent(Place(s, InsertPos(s, hash, key), key, value), hash)
    ensures Entries(Place(s, InsertPos(s, hash, key), key, value)) == Entries(s)
  {
    var p := InsertPos(s, hash, key);
    var x := Slot(key, value, true, true);
    var t := s[p := x];
    EntriesKeep(s, p, x);
    NonEmptyWriteKeepsReachable(s, hash, p, x);
    assert forall q :: 0 <= q < |t| && Live(t[q]) ==> q != p && Live(s[q]);
  }

  /** Both placements together, as `insert` and `operator[]` perform them. */
  lemma PlaceKeepsCoherent<K, V>(s: seq<Slot<K, V>>, hash: K -> nat, key: K, value: V)
    requires Coherent(s, hash)
    requires InsertPos(s, hash, key) < |s| && !s[InsertPos(s, hash, key)].occupied
    ensures Coherent(Place(s, InsertPos(s, hash, key), key, value), hash)
    ensures !s[InsertPos(s, hash, key)].deleted ==> key !in Entries(s)
    ensures Entries(Place(s, InsertPos(s, hash, key), key, value)) ==
            if s[InsertPos(s, hash, key)].deleted then Entries(s) else Entries(s)[key := value]
  {
    if s[InsertPos(s, hash, key)].deleted {
      PlaceOnTombstone(s, hash, key, value);
    } else {
      PlaceOnEmpty(s, hash, key, value);
    }
  }

  /** Round trip: when the placement of a new key lands on a never-used slot,
      the lookup of that key afterwards stops on the slot it was written to. */
  lemma InsertedOnEmptyIsFound<K, V>(s: seq<Slot<K, V>>, hash: K -> nat, key: K, value: V)
    requires Coherent(s, hash)
    requires InsertPos(s, hash, key) < |s| && Empty(s[InsertPos(s, hash, key)])
    ensures FindPos(Place(s, InsertPos(s, hash, key), key, value), hash, key) == InsertPos(s, hash, key)
  {
    var p := InsertPos(s, hash, key);
    var t := Place(s, p, key, value);
    PlaceOnEmpty(s, hash, key, value);
    FindPosMatchesEntries(t, hash, key);
    EntriesHasAll(t);
    assert DistinctKeys(t);
  }

  /** The fault of tombstone reuse: when the placement of an absent key lands
      on a tombstone, the slot written is hidden and the lookup of the key
      afterwards does not find it, although the insertion reported success
      and the size grew. */
  lemma ReusedTombstoneHidesKey<K, V>(s: seq<Slot<K, V>>, hash: K -> nat, key: K, value: V)
    requires Coherent(s, hash) && key !in Entries(s)
    requires InsertPos(s, hash, key) < |s| && !s[InsertPos(s, hash, key)].occupied
    requires s[InsertPos(s, hash, key)].deleted
    ensures FindPos(Place(s, InsertPos(s, hash, key), key, value), hash, key) == |s|
    ensures Occupied(Place(s, InsertPos(s, hash, key), key, value)) == Occupied(s) + 1
  {
    var p := InsertPos(s, hash, key);
    PlaceOnTombstone(s, hash, key, value);
    FindPosMatchesEntries(Place(s, p, key, value), hash, key);
    OccupiedUpdate(s, p, Slot(key, value, true, true));
  }

  /** A concrete run of the fault: two slots, every key hashing to 0. Insert
      key 1, erase it, insert key 2: the placement reuses slot 0, which ends up
      occupied and deleted, and the lookup of key 2 runs past it to the empty
      slot 1 and reports absence, with the size at 1. */
  lemma TombstoneReuseExample()
    ensures var hash := (k: int) => 0;
            var s0 := [Slot(0, 0, false, false), Slot(0, 0, false, false)];
            var s1 := Place(s0, InsertPos(s0, hash, 1), 1, 10);
            var s2 := Tombstone(s1, FindPos(s1, hash, 1));
            var s3 := Place(s2, InsertPos(s2, hash, 2), 2, 20);
            InsertPos(s2, hash, 2) == 0 && Hidden(s3[0]) && FindPos(s3, hash, 2) == 2 && Occupied(s3) == 1
  {
    var hash := (k: int) => 0;
    var s0 := [Slot(0, 0, false, false), Slot(0, 0, false, false)];
    assert Steps(Placement, s0, 0, 1, 0) == 0;
    var s1 := Place(s0, InsertPos(s0, hash, 1), 1, 10);
    assert s1 == [Slot(1, 10, true, false), Slot(0, 0, false, false)];
    assert Steps(Lookup, s1, 0, 1, 0) == 0;
    var s2 := Tombstone(s1, FindPos(s1, hash, 1));
    assert s2 == [Slot(1, 10, false, true), Slot(0, 0, false, false)];
    assert Steps(Placement, s2, 0, 2, 0) == 0;
    var s3 := Place(s2, InsertPos(s2, hash, 2), 2, 20);
    assert s3 == [Slot(2, 20, true, true), Slot(0, 0, false, false)];
    assert Steps(Lookup, s3, 0, 2, 1) == 1;
    assert Steps(Lookup, s3, 0, 2, 0) == 1;
    assert s3[..1][..0] == [];
    assert Occupied(s3[..1]) == 1;
  }

  /** The evidently intended insertion: look the key up first and do nothing
      if it is present; otherwise write it to the first slot that is not
      occupied, clearing `deleted` so that a reused tombstone becomes live. */
  function InsertFixed<K(==), V>(s: seq<Slot<K, V>>, hash: K -> nat, key: K, value: V): (r: seq<Slot<K, V>>)
    requires |s| > 0
    ensures |r| == |s|
  {
    if FindPos(s, hash, key) < |s| then s
    else
      var p := InsertPos(s, hash, key);
      if p < |s| then s[p := Slot(key, value, true, false)] else s
  }

  /** The corrected insertion keeps the invariant and adds the entry whenever
      there is room, so a new key is always found afterwards; a present key
      leaves the slots unchanged. */
  lemma InsertFixedAdds<K, V>(s: seq<Slot<K, V>>, hash: K -> nat, key: K, value: V)
    requires Coherent(s, hash) && Occupied(s) < |s|
    ensures key in Entries(s) ==> InsertFixed(s, hash, key, value) == s
    ensures Coherent(InsertFixed(s, hash, key, value), hash)
    ensures key !in Entries(s) ==> Entries(InsertFixed(s, hash, key, value)) == Entries(s)[key := value]
    ensures FindPos(InsertFixed(s, hash, key, value), hash, key) < |s|
  {
    var home := Home(hash, key, |s|);
    FindPosMatchesEntries(s, hash, key);
    if key !in Entries(s) {
      RoomMeansPlacementEnds(s, home, key);
      ProbeEndsWithin(Placement, s, home, key);
      EntriesHasAll(s);
      PlaceLive(s, hash, key, value);
      FindPosMatchesEntries(InsertFixed(s, hash, key, value), hash, key);
    }
  }

  /* ---------------- erasure ---------------- */

  /** What both erase operations write into a live slot. */
  function Tombstone<K, V>(s: seq<Slot<K, V>>, p: nat): (r: seq<Slot<K, V>>)
    requires p < |s|
    ensures |r| == |s|
  {
    s[p := s[p].(occupied := false, deleted := true)]
  }

  /** Turning a live slot into a tombstone removes exactly its key from the
      map and keeps every other key reachable. */
  lemma TombstoneKeepsCoherent<K, V>(s: seq<Slot<K, V>>, hash: K -> nat, p: nat)
    requires Coherent(s, hash) && p < |s| && Live(s[p])
    ensures Coherent(Tombstone(s, p), hash)
    ensures Entries(Tombstone(s, p)) == Entries(s) - {s[p].key}
    ensures Occupied(Tombstone(s, p)) == Occupied(s) - 1
  {
    var x := s[p].(occupied := false, deleted := true);
    OccupiedUpdate(s, p, x);
    EntriesLose(s, p, x);
    NonEmptyWriteKeepsReachable(s, hash, p, x);
  }

  /** Erasing the slot a lookup found and then looking the key up again
      reports absence. */
  lemma EraseThenFindFails<K, V>(s: seq<Slot<K, V>>, hash: K -> nat, key: K)
    requires Coherent(s, hash) && FindPos(s, hash, key) < |s|
    ensures FindPos(Tombstone(s, FindPos(s, hash, key)), hash, key) == |s|
  {
    var p := FindPos(s, hash, key);
    TombstoneKeepsCoherent(s, hash, p);
    FindPosMatchesEntries(Tombstone(s, p), hash, key);
  }

  /* ---------------- rehash ---------------- */

  /** A fresh slot array: every slot has both flags clear. */
  function Blank<K, V>(n: nat, blankKey: K, blankValue: V): (r: seq<Slot<K, V>>)
    ensures |r| == n
  {
    seq(n, _ => Slot(blankKey, blankValue, false, false))
  }

  lemma {:induction false} ClearedIsEmpty<K, V>(s: seq<Slot<K, V>>)
    requires |s| > 0 && forall i :: 0 <= i < |s| ==> Empty(s[i])
    ensures Occupied(s) == 0 && DistinctKeys(s) && Entries(s) == map[]
    ensures NoDeleted(s)
    ensures forall hash: K -> nat :: Coherent(s, hash)
  {
    if |s| > 1 {
      ClearedIsEmpty(s[..|s| - 1]);
    }
  }

  lemma BlankIsEmpty<K, V>(n: nat, blankKey: K, blankValue: V)
    requires n > 0
    ensures Occupied(Blank(n, blankKey, blankValue)) == 0
    ensures NoDeleted(Blank(n, blankKey, blankValue))
    ensures forall hash: K -> nat :: Coherent(Blank(n, blankKey, blankValue), hash)
    ensures Entries(Blank(n, blankKey, blankValue)) == map[]
  {
    ClearedIsEmpty(Blank(n, blankKey, blankValue));
  }

  /** The re-insertion step of `rehash`: `operator[](key) = value` on the new
      slot array (without its growth check). */
  function Reinsert<K(==), V>(acc: seq<Slot<K, V>>, hash: K -> nat, key: K, value: V): (r: seq<Slot<K, V>>)
    requires |acc| > 0
    ensures |r| == |acc|
  {
    var p := InsertPos(acc, hash, key);
    if p == |acc| then acc
    else if acc[p].occupied then acc[p := acc[p].(value := value)]
    else Place(acc, p, key, value)
  }

  /** The new slot array after `rehash` has gone over the first `i` old slots,
      re-inserting each live one. */
  function Rebuild<K(==), V>(src: seq<Slot<K, V>>, hash: K -> nat, n: nat, blankKey: K, blankValue: V, i: nat): (r: seq<Slot<K, V>>)
    requires n > 0 && i <= |src|
    ensures |r| == n
  {
    if i == 0 then Blank(n, blankKey, blankValue)
    else
      var acc := Rebuild(src, hash, n, blankKey, blankValue, i - 1);
      if Live(src[i - 1]) then Reinsert(acc, hash, src[i - 1].key, src[i - 1].value) else acc
  }

  /** Each re-insertion occupies at most one more slot. */
  lemma {:induction false} RebuildRoom<K, V>(src: seq<Slot<K, V>>, hash: K -> nat, n: nat, blankKey: K, blankValue: V, i: nat)
    requires n > 0 && i <= |src|
    ensures Occupied(Rebuild(src, hash, n, blankKey, blankValue, i)) <= LiveCount(src[..i])
  {
    if i == 0 {
      BlankIsEmpty(n, blankKey, blankValue);
    } else {
      RebuildRoom(src, hash, n, blankKey, blankValue, i - 1);
      LiveCountPrefix(src, i - 1);
      var acc := Rebuild(src, hash, n, blankKey, blankValue, i - 1);
      if Live(src[i - 1]) {
        var p := InsertPos(acc, hash, src[i - 1].key);
        if p < n {
          if acc[p].occupied {
            OccupiedUpdate(acc, p, acc[p].(value := src[i - 1].value));
          } else {
            OccupiedUpdate(acc, p, Slot(src[i - 1].key, src[i - 1].value, true, acc[p].deleted));
          }
        }
      }
    }
  }

  /** No slot carries the `deleted` flag. */
  ghost predicate NoDeleted<K, V>(s: seq<Slot<K, V>>)
  {
    forall q :: 0 <= q < |s| ==> !s[q].deleted
  }

  /** Without tombstones every slot that is not occupied is empty, so while
      some slot is not occupied a lookup probe ends as well. */
  lemma RoomMeansLookupEnds<K, V>(s: seq<Slot<K, V>>, home: nat, key: K)
    requires home < |s| && Occupied(s) < |s| && NoDeleted(s)
    ensures ProbeEnds(Lookup, s, home, key)
  {
    var q := SomeSlotFree(s);
    var e := Offset(home, q, |s|);
    assert Stops(Lookup, s[Probe(home, e, |s|)], key);
  }

  /** Without tombstones, and with room, the placement of an absent key lands
      on an empty slot, so insertion adds the entry. */
  lemma AbsentKeyLandsOnEmpty<K, V>(s: seq<Slot<K, V>>, hash: K -> nat, key: K)
    requires Coherent(s, hash) && NoDeleted(s) && Occupied(s) < |s| && key !in Entries(s)
    ensures InsertPos(s, hash, key) < |s| && Empty(s[InsertPos(s, hash, key)])
  {
    var home := Home(hash, key, |s|);
    RoomMeansPlacementEnds(s, home, key);
    ProbeEndsWithin(Placement, s, home, key);
    var p := InsertPos(s, hash, key);
    if s[p].occupied {
      EntriesHas(s, p);
    }
  }

  /** Placement never sets `deleted`. */
  lemma PlaceKeepsNoDeleted<K, V>(s: seq<Slot<K, V>>, p: nat, key: K, value: V)
    requires p < |s| && NoDeleted(s)
    ensures NoDeleted(Place(s, p, key, value))
  {
  }

  /** One step of the rebuild map. */
  lemma EntriesBelowStep<K, V>(src: seq<Slot<K, V>>, i: nat)
    requires DistinctKeys(src) && 0 < i <= |src|
    ensures Live(src[i - 1]) ==> src[i - 1].key !in EntriesBelow(src, i - 1)
    ensures EntriesBelow(src, i) ==
            if Live(src[i - 1]) then EntriesBelow(src, i - 1)[src[i - 1].key := src[i - 1].value]
            else EntriesBelow(src, i - 1)
  {
    var a, b := EntriesBelow(src, i - 1), EntriesBelow(src, i);
    forall k
      ensures k in b <==> k in a || (Live(src[i - 1]) && k == src[i - 1].key)
      ensures k in a ==> b[k] == a[k]
      ensures Live(src[i - 1]) ==> k != src[i - 1].key || k !in a
    {
    }
    if Live(src[i - 1]) {
      assert b == a[src[i - 1].key := src[i - 1].value];
    } else {
      assert b == a;
    }
  }

  /** Re-inserting an absent key into an array without tombstones places it
      in an empty slot as a live entry. */
  lemma ReinsertFresh<K, V>(acc: seq<Slot<K, V>>, hash: K -> nat, key: K, value: V)
    requires Coherent(acc, hash) && NoDeleted(acc) && key !in Entries(acc) && Occupied(acc) < |acc|
    ensures Coherent(Reinsert(acc, hash, key, value), hash)
    ensures NoDeleted(Reinsert(acc, hash, key, value))
    ensures Occupied(Reinsert(acc, hash, key, value)) == Occupied(acc) + 1
    ensures Entries(Reinsert(acc, hash, key, value)) == Entries(acc)[key := value]
  {
    var home := Home(hash, key, |acc|);
    RoomMeansPlacementEnds(acc, home, key);
    ProbeEndsWithin(Placement, acc, home, key);
    EntriesHasAll(acc);
    var p := InsertPos(acc, hash, key);
    PlaceLive(acc, hash, key, value);
    OccupiedUpdate(acc, p, Slot(key, value, true, false));
    assert Reinsert(acc, hash, key, value) == acc[p := Slot(key, value, true, false)];
  }

  /** Rehash re-inserts exactly the live entries of the old array, each into
      an empty slot: the new array keeps the invariant, has no tombstones and
      no hidden slots, holds the same map, and occupies one slot per live old
      slot. */
  lemma {:induction false} RebuildFacts<K, V>(src: seq<Slot<K, V>>, hash: K -> nat, n: nat, blankKey: K, blankValue: V, i: nat)
    requires n > 0 && i <= |src| && DistinctKeys(src) && LiveCount(src) <= n
    ensures Coherent(Rebuild(src, hash, n, blankKey, blankValue, i), hash)
    ensures NoDeleted(Rebuild(src, hash, n, blankKey, blankValue, i))
    ensures Occupied(Rebuild(src, hash, n, blankKey, blankValue, i)) == LiveCount(src[..i])
    ensures Entries(Rebuild(src, hash, n, blankKey, blankValue, i)) == EntriesBelow(src, i)
  {
    if i == 0 {
      BlankIsEmpty(n, blankKey, blankValue);
      assert EntriesBelow(src, 0) == map[];
    } else {
      RebuildFacts(src, hash, n, blankKey, blankValue, i - 1);
      LiveCountPrefix(src, i - 1);
      EntriesBelowStep(src, i);
      var acc := Rebuild(src, hash, n, blankKey, blankValue, i - 1);
      if Live(src[i - 1]) {
        LiveCountMonotone(src, i);
        ReinsertFresh(acc, hash, src[i - 1].key, src[i - 1].value);
      }
    }
  }

  /** The whole rebuild: a coherent array without tombstones that holds the
      same map and occupies one slot per live old slot. */
  lemma RehashKeepsEntries<K, V>(src: seq<Slot<K, V>>, hash: K -> nat, n: nat, blankKey: K, blankValue: V)
    requires n > 0 && DistinctKeys(src) && LiveCount(src) <= n
    ensures Coherent(Rebuild(src, hash, n, blankKey, blankValue, |src|), hash)
    ensures NoDeleted(Rebuild(src, hash, n, blankKey, blankValue, |src|))
    ensures Occupied(Rebuild(src, hash, n, blankKey, blankValue, |src|)) == LiveCount(src)
    ensures Entries(Rebuild(src, hash, n, blankKey, blankValue, |src|)) == Entries(src)
  {
    RebuildFacts(src, hash, n, blankKey, blankValue, |src|);
    assert src[..|src|] == src;
    assert EntriesBelow(src, |src|) == Entries(src);
  }

  /** Doubling the capacity of a table whose maximum load factor is at least
      one half brings it within that factor. */
  lemma DoublingRestoresLoad(count: nat, capacity: nat, num: nat, den: nat)
    requires count <= capacity && den <= 2 * num
    ensures count * den <= num * (2 * capacity)
  {
    assert count * den <= capacity * den;
    assert capacity * den <= capacity * (2 * num);
  }

  /* ---------------- the table ---------------- */

  class Table<K(==), V> {
    var slots: array<Slot<K, V>>
    var size: nat
    /** max_load_factor_ as the fraction loadNum / loadDen. */
    var loadNum: nat
    var loadDen: nat
    const hash: K -> nat
    /** The value-initialised key and value that fresh slots hold (`Key{}`,
        `T{}` in the source). */
    const blankKey: K
    const blankValue: V

    ghost predicate Valid()
      reads this, slots
    {
      && slots.Length > 0
      && 0 < loadNum <= loadDen
      && size == Occupied(slots[..])
      && Coherent(slots[..], hash)
    }

    /** The map the table holds: the key/value pairs of its live slots. */
    ghost function Contents(): map<K, V>
      reads this, slots
      requires Valid()
    {
      Entries(slots[..])
    }

    /** HashTable(capacity): all slots empty, size 0, max load factor 0.75. */
    constructor (capacity: nat, hash: K -> nat, blankKey: K, blankValue: V)
      requires capacity > 0
      ensures Valid() && fresh(slots)
      ensures slots[..] == Blank(capacity, blankKey, blankValue)
      ensures size == 0 && loadNum == 3 && loadDen == 4
      ensures this.hash == hash && this.blankKey == blankKey && this.blankValue == blankValue
      ensures Contents() == map[]
    {
      this.hash := hash;
      this.blankKey := blankKey;
      this.blankValue := blankValue;
      slots := new Slot<K, V>[capacity](_ => Slot(blankKey, blankValue, false, false));
      size := 0;
      loadNum, loadDen := 3, 4;
      new;
      assert slots[..] == Blank(capacity, blankKey, blankValue);
      BlankIsEmpty(capacity, blankKey, blankValue);
    }

    /** HashTable(): capacity 16, max load factor 0.75. */
    constructor Default(hash: K -> nat, blankKey: K, blankValue: V)
      ensures Valid() && fresh(slots)
      ensures slots[..] == Blank(16, blankKey, blankValue)
      ensures size == 0 && loadNum == 3 && loadDen == 4
      ensures this.hash == hash && this.blankKey == blankKey && this.blankValue == blankValue
      ensures Contents() == map[]
    {
      this.hash := hash;
      this.blankKey := blankKey;
      this.blankValue := blankValue;
      slots := new Slot<K, V>[16](_ => Slot(blankKey, blankValue, false, false));
      size := 0;
      loadNum, loadDen := 3, 4;
      new;
      assert slots[..] == Blank(16, blankKey, blankValue);
      BlankIsEmpty(16, blankKey, blankValue);
    }

    /** find_position: the slot of `key`, or the capacity when absent. The
        loop ends only when it meets a stopping slot, which the precondition
        states. */
    method FindPosition(key: K) returns (pos: nat)
      requires Valid()
      requires ProbeEnds(Lookup, slots[..], Home(hash, key, slots.Length), key)
      ensures pos == FindPos(slots[..], hash, key)
      ensures pos < slots.Length <==> key in Contents()
      ensures pos < slots.Length ==> slots[pos].key == key && Contents()[key] == slots[pos].value
    {
      var n := slots.Length;
      pos := hash(key) % n;
      ghost var s := slots[..];
      ghost var home := pos;
      ghost var j := 0;
      ghost var w :| 0 <= w < n && Stops(Lookup, s[Probe(home, w, n)], key);
      while true
        invariant j <= w && pos == Probe(home, j, n)
        invariant forall e :: 0 <= e < j ==> !Stops(Lookup, s[Probe(home, e, n)], key)
        decreases n - j
      {
        if slots[pos].occupied && !slots[pos].deleted && slots[pos].key == key {
          StepsIsFirst(Lookup, s, home, key, j);
          FindPosMatchesEntries(s, hash, key);
          return;
        }
        if !slots[pos].occupied && !slots[pos].deleted {
          StepsIsFirst(Lookup, s, home, key, j);
          FindPosMatchesEntries(s, hash, key);
          pos := n;
          return;
        }
        ProbeGoesOn(Lookup, s, home, key, j, w);
        pos := (pos + 1) % n;
        j := j + 1;
      }
    }

    /** get_insert_position: the first slot on the probe path that is not
        occupied, or the live slot already holding `key`. */
    method InsertPosition(key: K) returns (pos: nat)
      requires slots.Length > 0
      requires ProbeEnds(Placement, slots[..], Home(hash, key, slots.Length), key)
      ensures pos == InsertPos(slots[..], hash, key) && pos < slots.Length
    {
      var n := slots.Length;
      pos := hash(key) % n;
      ghost var s := slots[..];
      ghost var home := pos;
      ghost var j := 0;
      ghost var w :| 0 <= w < n && Stops(Placement, s[Probe(home, w, n)], key);
      while slots[pos].occupied
        invariant j <= w && pos == Probe(home, j, n)
        invariant forall e :: 0 <= e < j ==> !Stops(Placement, s[Probe(home, e, n)], key)
        decreases n - j
      {
        if !slots[pos].deleted && slots[pos].key == key {
          StepsIsFirst(Placement, s, home, key, j);
          return;
        }
        ProbeGoesOn(Placement, s, home, key, j, w);
        pos := (pos + 1) % n;
        j := j + 1;
      }
      StepsIsFirst(Placement, s, home, key, j);
    }

    /** at: the mapped value, or out_of_range when the lookup fails. */
    method At(key: K) returns (r: Result<V>)
      requires Valid()
      requires ProbeEnds(Lookup, slots[..], Home(hash, key, slots.Length), key)
      ensures r.Ok? <==> key in Contents()
      ensures r.Ok? ==> r.value == Contents()[key]
      ensures r.Throws? ==> r.exception == OutOfRange
    {
      var pos := FindPosition(key);
      if pos != slots.Length {
        return Ok(slots[pos].value);
      }
      return Throws(OutOfRange);
    }

    /** find: an iterator on the key's slot, or end(). */
    method Find(key: K) returns (it: Iterator<K, V>)
      requires Valid()
      requires ProbeEnds(Lookup, slots[..], Home(hash, key, slots.Length), key)
      ensures fresh(it) && it.slots == slots && it.capacity == slots.Length
      ensures it.current < slots.Length <==> key in Contents()
      ensures it.current < slots.Length ==> it.current == FindPos(slots[..], hash, key)
      ensures it.current < slots.Length ==> slots[it.current].key == key && slots[it.current].value == Contents()[key]
      ensures key !in Contents() ==> it.current == slots.Length
    {
      var pos := FindPosition(key);
      if pos != slots.Length {
        it := new Iterator(slots, slots.Length, pos);
      } else {
        it := new Iterator(slots, slots.Length, slots.Length);
      }
    }

    /** begin(): an iterator on the first live slot, or on the end. */
    method Begin() returns (it: Iterator<K, V>)
      requires Valid()
      ensures fresh(it) && it.slots == slots && it.capacity == slots.Length
      ensures it.current == NextLive(slots[..], 0)
    {
      it := new Iterator(slots, slots.Length, 0);
    }

    /** end(): an iterator whose cursor is the capacity. */
    method End() returns (it: Iterator<K, V>)
      requires Valid()
      ensures fresh(it) && it.slots == slots && it.current == it.capacity == slots.Length
    {
      it := new Iterator(slots, slots.Length, slots.Length);
    }

    /** rehash(newCapacity): a new array of the requested capacity (0 is
        taken as 1), all slots empty, into which each live old slot is
        re-inserted in index order; tombstones and hidden slots are dropped
        and `size` is recounted. */
    method Rehash(newCapacity: nat)
      requires Valid()
      requires LiveCount(slots[..]) <= if newCapacity == 0 then 1 else newCapacity
      modifies this
      ensures Valid() && fresh(slots)
      ensures slots.Length == if newCapacity == 0 then 1 else newCapacity
      ensures slots[..] == Rebuild(old(slots[..]), hash, slots.Length, blankKey, blankValue, old(slots.Length))
      ensures Contents() == old(Contents())
      ensures size == LiveCount(old(slots[..]))
      ensures NoDeleted(slots[..])
      ensures loadNum == old(loadNum) && loadDen == old(loadDen)
    {
      var n := if newCapacity == 0 then 1 else newCapacity;
      var oldSlots := slots;
      ghost var src := oldSlots[..];
      slots := new Slot<K, V>[n](_ => Slot(blankKey, blankValue, false, false));
      size := 0;
      assert slots[..] == Blank(n, blankKey, blankValue);
      BlankIsEmpty(n, blankKey, blankValue);
      ReinsertAll(oldSlots);
      RehashKeepsEntries(src, hash, n, blankKey, blankValue);
    }

    /** The loop of `rehash`: every live slot of the old array, in index
        order, is assigned into the new one. */
    method ReinsertAll(from: array<Slot<K, V>>)
      requires from != slots && slots.Length > 0 && LiveCount(from[..]) <= slots.Length
      requires slots[..] == Blank(slots.Length, blankKey, blankValue) && size == 0
      modifies slots, this`size
      ensures slots[..] == Rebuild(from[..], hash, slots.Length, blankKey, blankValue, from.Length)
      ensures size == Occupied(slots[..])
    {
      ghost var src := from[..];
      ghost var n := slots.Length;
      BlankIsEmpty(n, blankKey, blankValue);
      for i := 0 to from.Length
        invariant slots[..] == Rebuild(src, hash, n, blankKey, blankValue, i)
        invariant size == Occupied(slots[..])
      {
        if from[i].occupied && !from[i].deleted {
          RebuildRoom(src, hash, n, blankKey, blankValue, i);
          LiveCountPrefix(src, i);
          LiveCountMonotone(src, i + 1);
          Assign(from[i].key, from[i].value);
        }
      }
      assert src[..|src|] == src;
    }

    /** `(*this)[key] = value` as rehash performs it: the key's placement slot
        receives the value, and a slot that was not occupied becomes occupied
        by the key; there is no growth check. */
    method Assign(key: K, value: V)
      requires slots.Length > 0 && size == Occupied(slots[..]) < slots.Length
      modifies slots, this`size
      ensures slots[..] == Reinsert(old(slots[..]), hash, key, value)
      ensures size == Occupied(slots[..])
    {
      ghost var acc := slots[..];
      RoomMeansPlacementEnds(acc, Home(hash, key, slots.Length), key);
      var pos := InsertPosition(key);
      if slots[pos].occupied {
        OccupiedUpdate(acc, pos, acc[pos].(value := value));
        slots[pos] := slots[pos].(value := value);
      } else {
        OccupiedUpdate(acc, pos, Slot(key, value, true, acc[pos].deleted));
        slots[pos] := Slot(key, value, true, slots[pos].deleted);
        size := size + 1;
      }
    }

    /** The slot the placement probe for `key` stops at. */
    ghost function Landing(key: K): nat
      reads this, slots
      requires slots.Length > 0
    {
      InsertPos(slots[..], hash, key)
    }

    /** The table is over its maximum load factor: size / capacity > ml. */
    ghost predicate Overloaded()
      reads this, slots
    {
      size * loadDen > loadNum * slots.Length
    }

    /** The tail shared by insert and operator[] for a key whose placement
        slot is not occupied: the slot receives the entry, `size` grows, and
        the table doubles when it is now overloaded. */
    method PlaceAndGrow(pos: nat, key: K, value: V) returns (grew: bool)
      requires Valid() && pos == Landing(key) && pos < slots.Length && !slots[pos].occupied
      modifies this, slots
      ensures Valid() && loadNum == old(loadNum) && loadDen == old(loadDen)
      ensures Contents() == if old(slots[pos].deleted) then old(Contents()) else old(Contents())[key := value]
      ensures !old(slots[pos].deleted) ==> key !in old(Contents())
      ensures grew == ((old(size) + 1) * loadDen > loadNum * old(slots.Length))
      ensures !grew ==> slots == old(slots) && slots[..] == Place(old(slots[..]), pos, key, value) && size == old(size) + 1
      ensures grew ==> fresh(slots) && slots.Length == 2 * old(slots.Length)
                       && slots[..] == Rebuild(Place(old(slots[..]), pos, key, value), hash, slots.Length,
                                               blankKey, blankValue, old(slots.Length))
                       && size == LiveCount(Place(old(slots[..]), pos, key, value))
      ensures 2 * loadNum >= loadDen ==> !Overloaded()
    {
      ghost var before := slots[..];
      PlaceKeepsCoherent(before, hash, key, value);
      OccupiedUpdate(before, pos, Slot(key, value, true, slots[pos].deleted));
      slots[pos] := Slot(key, value, true, slots[pos].deleted);
      size := size + 1;
      assert slots[..] == Place(before, pos, key, value);
      CountsBounded(slots[..]);
      grew := size * loadDen > loadNum * slots.Length;
      if grew {
        if 2 * loadNum >= loadDen {
          DoublingRestoresLoad(LiveCount(slots[..]), slots.Length, loadNum, loadDen);
        }
        Rehash(slots.Length * 2);
      }
    }

    /** insert(key, value): a key already live on its probe path is left
        untouched (no overwrite) and `false` is returned; otherwise the entry
        is written into the first slot that is not occupied, `size` grows, and
        the table doubles if it is now overloaded. The returned iterator is
        built from the position found before any growth. */
    method Insert(key: K, value: V) returns (it: Iterator<K, V>, inserted: bool)
      requires Valid()
      requires ProbeEnds(Placement, slots[..], Home(hash, key, slots.Length), key)
      modifies this, slots
      ensures Valid() && fresh(it) && it.slots == slots && it.capacity == slots.Length
      ensures loadNum == old(loadNum) && loadDen == old(loadDen)
      ensures old(Landing(key)) < old(slots.Length)
      ensures inserted == !old(slots[Landing(key)].occupied)
      ensures it.current == NextLive(slots[..], old(Landing(key)))
      ensures !inserted ==> slots == old(slots) && slots[..] == old(slots[..]) && size == old(size)
                            && it.current == old(Landing(key)) && slots[it.current].key == key
      ensures inserted ==> Contents() == if old(slots[Landing(key)].deleted) then old(Contents())
                                         else old(Contents())[key := value]
      ensures inserted && !old(slots[Landing(key)].deleted) ==> key !in old(Contents())
      ensures inserted && !((old(size) + 1) * loadDen > loadNum * old(slots.Length)) ==>
                slots == old(slots) && slots[..] == Place(old(slots[..]), old(Landing(key)), key, value)
                && size == old(size) + 1
      ensures inserted && (old(size) + 1) * loadDen > loadNum * old(slots.Length) ==>
                fresh(slots) && slots.Length == 2 * old(slots.Length)
                && slots[..] == Rebuild(Place(old(slots[..]), old(Landing(key)), key, value), hash, slots.Length,
                                        blankKey, blankValue, old(slots.Length))
      ensures inserted && 2 * loadNum >= loadDen ==> !Overloaded()
    {
      var pos := InsertPosition(key);
      if slots[pos].occupied {
        it := new Iterator(slots, slots.Length, pos);
        return it, false;
      }
      var grew := PlaceAndGrow(pos, key, value);
      it := new Iterator(slots, slots.Length, pos);
      inserted := true;
    }

    /** operator[](key): the position whose value the returned reference
        denotes. A live key already on the probe path is returned as it is;
        otherwise the key is placed with the blank value, and the table may
        double, in which case the position returned was computed in the old
        array and no longer denotes the key's slot. */
    method Index(key: K) returns (pos: nat, grew: bool)
      requires Valid()
      requires ProbeEnds(Placement, slots[..], Home(hash, key, slots.Length), key)
      modifies this, slots
      ensures Valid() && loadNum == old(loadNum) && loadDen == old(loadDen)
      ensures pos == old(Landing(key)) && pos < old(slots.Length)
      ensures old(slots[pos].occupied) ==> !grew && slots == old(slots) && slots[..] == old(slots[..])
                                            && size == old(size) && Live(slots[pos]) && slots[pos].key == key
      ensures !old(slots[pos].occupied) ==>
                Contents() == (if old(slots[pos].deleted) then old(Contents()) else old(Contents())[key := blankValue])
      ensures !old(slots[pos].occupied) && !grew ==>
                slots == old(slots) && slots[..] == Place(old(slots[..]), pos, key, blankValue) && size == old(size) + 1
      ensures grew <==> !old(slots[pos].occupied) && (old(size) + 1) * loadDen > loadNum * old(slots.Length)
      ensures grew ==> fresh(slots) && slots.Length == 2 * old(slots.Length)
                       && slots[..] == Rebuild(Place(old(slots[..]), pos, key, blankValue), hash, slots.Length,
                                               blankKey, blankValue, old(slots.Length))
      ensures !grew ==> pos < slots.Length && slots[pos].occupied && slots[pos].key == key
    {
      pos := InsertPosition(key);
      if slots[pos].occupied {
        return pos, false;
      }
      grew := PlaceAndGrow(pos, key, blankValue);
    }

    /** erase(key): a live slot holding the key becomes a tombstone and 1 is
        returned; for an absent key nothing changes and 0 is returned. */
    method EraseKey(key: K) returns (count: nat)
      requires Valid()
      requires ProbeEnds(Lookup, slots[..], Home(hash, key, slots.Length), key)
      modifies slots, this`size
      ensures Valid()
      ensures count == if key in old(Contents()) then 1 else 0
      ensures Contents() == old(Contents()) - {key}
      ensures size == old(size) - count
      ensures var p := FindPos(old(slots[..]), hash, key);
              slots[..] == if p < slots.Length then Tombstone(old(slots[..]), p) else old(slots[..])
    {
      var pos := FindPosition(key);
      if pos != slots.Length {
        TombstoneKeepsCoherent(slots[..], hash, pos);
        slots[pos] := slots[pos].(occupied := false, deleted := true);
        size := size - 1;
        return 1;
      }
      assert Contents() == old(Contents()) - {key};
      return 0;
    }

    /** erase(iterator): the slot at the cursor changes only when the cursor
        is before the end and the slot is live; the iterator returned is
        rebuilt at the same index and so moves on to the next live slot. */
    method EraseAt(index: nat) returns (it: Iterator<K, V>)
      requires Valid()
      modifies slots, this`size
      ensures Valid() && fresh(it) && it.slots == slots && it.capacity == slots.Length
      ensures it.current == NextLive(slots[..], index)
      ensures index < slots.Length && old(Live(slots[index])) ==>
                slots[..] == Tombstone(old(slots[..]), index) && size == old(size) - 1
                && Contents() == old(Contents()) - {old(slots[index].key)}
      ensures !(index < slots.Length && old(Live(slots[index]))) ==>
                slots[..] == old(slots[..]) && size == old(size)
    {
      if index < slots.Length && slots[index].occupied && !slots[index].deleted {
        TombstoneKeepsCoherent(slots[..], hash, index);
        slots[index] := slots[index].(occupied := false, deleted := true);
        size := size - 1;
      }
      it := new Iterator(slots, slots.Length, index);
    }

    /** clear(): both flags cleared in every slot, size 0, capacity kept. */
    method Clear()
      requires Valid()
      modifies slots, this`size
      ensures Valid() && size == 0 && Contents() == map[]
      ensures forall i :: 0 <= i < slots.Length ==> slots[i] == old(slots[i]).(occupied := false, deleted := false)
    {
      for i := 0 to slots.Length
        invariant forall j :: 0 <= j < i ==> slots[j] == old(slots[j]).(occupied := false, deleted := false)
        invariant forall j :: i <= j < slots.Length ==> slots[j] == old(slots[j])
      {
        slots[i] := slots[i].(occupied := false, deleted := false);
      }
      size := 0;
      ClearedIsEmpty(slots[..]);
    }

    /** max_load_factor(ml) with ml = num / den: invalid_argument unless
        0 < ml <= 1; otherwise the factor is set and the table doubles if it
        is now overloaded. */
    method SetMaxLoadFactor(num: int, den: nat) returns (r: Outcome)
      requires Valid() && den > 0
      modifies this
      ensures Valid()
      ensures r == if num <= 0 || num > den then Failed(InvalidArgument) else Done
      ensures r.Failed? ==> slots == old(slots) && size == old(size)
                            && loadNum == old(loadNum) && loadDen == old(loadDen)
      ensures r.Done? ==> loadNum == num && loadDen == den && Contents() == old(Contents())
      ensures r.Done? && old(size) * den > num * old(slots.Length) ==>
                fresh(slots) && slots.Length == 2 * old(slots.Length)
                && slots[..] == Rebuild(old(slots[..]), hash, slots.Length, blankKey, blankValue, old(slots.Length))
      ensures r.Done? && !(old(size) * den > num * old(slots.Length)) ==> slots == old(slots) && size == old(size)
    {
      if num <= 0 || num > den {
        return Failed(InvalidArgument);
      }
      loadNum, loadDen := num, den;
      if size * loadDen > loadNum * slots.Length {
        CountsBounded(slots[..]);
        Rehash(slots.Length * 2);
      }
      return Done;
    }
  }

}
