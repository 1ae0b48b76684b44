/** The slot record of the open-addressing table: a key, a value and the two
    flags `occupied` and `deleted`, kept as two independent booleans. The four
    combinations are all reachable:
      - empty      (!occupied && !deleted): never used, or reset by clear;
      - live       ( occupied && !deleted): holds an entry;
      - tombstone  (!occupied &&  deleted): left behind by erase;
      - hidden     ( occupied &&  deleted): a tombstone reused by an insertion,
        which sets `occupied` but leaves `deleted` set. */
module HashNode {

  datatype Slot<K, V> = Slot(key: K, value: V, occupied: bool, deleted: bool)

  /** A slot that lookups, erasure and iterators treat as holding an entry. */
  predicate Live<K, V>(s: Slot<K, V>)
  {
    s.occupied && !s.deleted
  }

  /** A slot with both flags clear: the only kind that ends a lookup's probe. */
  predicate Empty<K, V>(s: Slot<K, V>)
  {
    !s.occupied && !s.deleted
  }

  /** A reused tombstone: counted in the table's size, invisible to lookups. */
  predicate Hidden<K, V>(s: Slot<K, V>)
  {
    s.occupied && s.deleted
  }
}
