/** `UBstTree`: an unbalanced binary search tree mapping keys to values,
    with insert-or-assign, erase, lookups and three traversals. The nodes
    and their child links are the value `Tree`; the tree object holds the
    root and the size. Keys are integers and `comp_` is `std::less`. */
module SearchTree {
  import opened Wrappers
  import opened Ordering

  datatype Tree<V> = Leaf | Node(left: Tree<V>, key: int, value: V, right: Tree<V>)

  function Count<V>(t: Tree<V>): nat
  {
    match t
    case Leaf => 0
    case Node(l, _, _, r) => Count(l) + 1 + Count(r)
  }

  function Keys<V>(t: Tree<V>): set<int>
  {
    match t
    case Leaf => {}
    case Node(l, k, _, r) => Keys(l) + {k} + Keys(r)
  }

  /** The entries the tree stores: each node's key with its value. */
  function Entries<V>(t: Tree<V>): map<int, V>
  {
    match t
    case Leaf => map[]
    case Node(l, k, v, r) => (Entries(l) + Entries(r))[k := v]
  }

  /** The search-tree order: every key in a left subtree is below its
      node's key, every key in a right subtree above it. */
  ghost predicate Ordered<V>(t: Tree<V>)
  {
    match t
    case Leaf => true
    case Node(l, k, _, r) =>
      && (forall x :: x in Keys(l) ==> x < k)
      && (forall x :: x in Keys(r) ==> k < x)
      && Ordered(l) && Ordered(r)
  }

  lemma {:induction false} EntriesHaveKeys<V>(t: Tree<V>)
    ensures Entries(t).Keys == Keys(t)
  {
    if t.Node? {
      EntriesHaveKeys(t.left);
      EntriesHaveKeys(t.right);
    }
  }

  /** In an ordered tree the keys of the two subtrees are apart, so the
      entries of a node are those of its subtrees and its own, none
      overwritten. */
  lemma EntriesOfNode<V>(t: Tree<V>, x: int)
    requires Ordered(t) && t.Node?
    ensures x in Entries(t.left) ==> x in Entries(t) && Entries(t)[x] == Entries(t.left)[x]
    ensures x in Entries(t.right) ==> x in Entries(t) && Entries(t)[x] == Entries(t.right)[x]
  {
    EntriesHaveKeys(t.left);
    EntriesHaveKeys(t.right);
    if x in Entries(t.left) {
      assert x < t.key;
      assert x !in Keys(t.right);
    }
    if x in Entries(t.right) {
      assert t.key < x;
    }
  }

  /** Removing a key of the left part from a node's entries. */
  lemma MinusLeft<V>(a: map<int, V>, b: map<int, V>, k: int, v: V, m: int)
    requires m !in b && m != k
    ensures ((a - {m}) + b)[k := v] == (a + b)[k := v] - {m}
  {
    var p, q := ((a - {m}) + b)[k := v], (a + b)[k := v] - {m};
    assert p.Keys == q.Keys;
    forall x | x in p
      ensures p[x] == q[x]
    {
    }
  }

  /** Removing a key of the right part from a node's entries. */
  lemma MinusRight<V>(a: map<int, V>, b: map<int, V>, k: int, v: V, m: int)
    requires m !in a && m != k
    ensures (a + (b - {m}))[k := v] == (a + b)[k := v] - {m}
  {
    var p, q := (a + (b - {m}))[k := v], (a + b)[k := v] - {m};
    assert p.Keys == q.Keys;
    forall x | x in p
      ensures p[x] == q[x]
    {
    }
  }

  /** Removing a node's own key from its entries. */
  lemma MinusOwn<V>(a: map<int, V>, b: map<int, V>, k: int, v: V)
    requires k !in a && k !in b
    ensures (a + b)[k := v] - {k} == a + b
  {
    var p := (a + b)[k := v] - {k};
    assert p.Keys == (a + b).Keys;
  }

  /** Removing a node's own key while a key `m` of the right part, with its
      value, takes the node's place. */
  lemma MinusReplaced<V>(a: map<int, V>, b: map<int, V>, k: int, v: V, m: int)
    requires k !in a && k !in b && m !in a && m in b
    ensures (a + (b - {m}))[m := b[m]] == (a + b)[k := v] - {k}
  {
    var p, q := (a + (b - {m}))[m := b[m]], (a + b)[k := v] - {k};
    assert p.Keys == q.Keys;
    forall x | x in p
      ensures p[x] == q[x]
    {
    }
  }

  // ---------------------------------------------------------------------
  // findNode

  /** `findNode`: go left below the node's key, right above it, and stop at
      the node whose key is neither. */
  function FindNode<V>(t: Tree<V>, key: int): Tree<V>
  {
    match t
    case Leaf => Leaf
    case Node(l, k, _, r) =>
      if key < k then FindNode(l, key)
      else if k < key then FindNode(r, key)
      else t
  }

  /** The search stops, if at all, at a node of the tree holding the key. */
  lemma {:induction false} FindNodeWithin<V>(t: Tree<V>, key: int)
    ensures FindNode(t, key).Node? ==> FindNode(t, key).key == key && Keys(FindNode(t, key)) <= Keys(t)
  {
    if t.Node? {
      FindNodeWithin(t.left, key);
      FindNodeWithin(t.right, key);
    }
  }

  /** In an ordered tree the search stops at a node exactly when the key is
      stored, and that node holds the key and its value. */
  lemma {:induction false} FindNodeFacts<V>(t: Tree<V>, key: int)
    requires Ordered(t)
    ensures FindNode(t, key).Node? <==> key in Entries(t)
    ensures FindNode(t, key).Node? ==>
              FindNode(t, key).key == key && FindNode(t, key).value == Entries(t)[key]
  {
    EntriesHaveKeys(t);
    if t.Node? {
      EntriesHaveKeys(t.left);
      EntriesHaveKeys(t.right);
      EntriesOfNode(t, key);
      if key < t.key {
        FindNodeFacts(t.left, key);
        assert key !in Keys(t.right);
      } else if t.key < key {
        FindNodeFacts(t.right, key);
        assert key !in Keys(t.left);
      }
    }
  }

  // ---------------------------------------------------------------------
  // insertNode

  /** `insertNode`: a new leaf node where the search ends, or the new value
      in the node that holds the key; the flag says whether a node was
      made (and `size_` grew). */
  function InsertNode<V>(t: Tree<V>, key: int, value: V): (Tree<V>, bool)
  {
    match t
    case Leaf => (Node(Leaf, key, value, Leaf), true)
    case Node(l, k, v, r) =>
      if key < k then
        var (l', made) := InsertNode(l, key, value);
        (Node(l', k, v, r), made)
      else if k < key then
        var (r', made) := InsertNode(r, key, value);
        (Node(l, k, v, r'), made)
      else (Node(l, k, value, r), false)
  }

  /** Insertion adds the key to the keys. */
  lemma {:induction false} InsertNodeKeys<V>(t: Tree<V>, key: int, value: V)
    ensures Keys(InsertNode(t, key, value).0) == Keys(t) + {key}
  {
    if t.Node? {
      InsertNodeKeys(t.left, key, value);
      InsertNodeKeys(t.right, key, value);
    }
  }

  /** Insertion keeps the order. */
  lemma {:induction false} InsertNodeOrdered<V>(t: Tree<V>, key: int, value: V)
    requires Ordered(t)
    ensures Ordered(InsertNode(t, key, value).0)
  {
    if t.Node? {
      InsertNodeKeys(t.left, key, value);
      InsertNodeKeys(t.right, key, value);
      if key < t.key {
        InsertNodeOrdered(t.left, key, value);
      } else if t.key < key {
        InsertNodeOrdered(t.right, key, value);
      }
    }
  }

  /** In an ordered tree a node is made exactly when the key is new, and
      the count grows by one just then. */
  lemma {:induction false} InsertNodeMade<V>(t: Tree<V>, key: int, value: V)
    requires Ordered(t)
    ensures InsertNode(t, key, value).1 <==> key !in Keys(t)
    ensures Count(InsertNode(t, key, value).0) == Count(t) + if key in Keys(t) then 0 else 1
  {
    if t.Node? {
      if key < t.key {
        InsertNodeMade(t.left, key, value);
        assert key !in Keys(t.right);
      } else if t.key < key {
        InsertNodeMade(t.right, key, value);
        assert key !in Keys(t.left);
      }
    }
  }

  /** In an ordered tree insertion stores the value under the key, over an
      old value, and leaves the other entries alone. */
  lemma {:induction false} InsertNodeEntries<V>(t: Tree<V>, key: int, value: V)
    requires Ordered(t)
    ensures Entries(InsertNode(t, key, value).0) == Entries(t)[key := value]
  {
    if t.Node? {
      var l, k, v, r := t.left, t.key, t.value, t.right;
      if key < k {
        InsertNodeEntries(l, key, value);
        EntriesHaveKeys(r);
        assert key !in Keys(r);
      } else if k < key {
        InsertNodeEntries(r, key, value);
        EntriesHaveKeys(l);
        assert key !in Keys(l);
      }
    }
  }

  /** Insertion keeps the order, stores the value under the key (over an
      old value), and makes a node exactly when the key is new. */
  lemma InsertNodeFacts<V>(t: Tree<V>, key: int, value: V)
    requires Ordered(t)
    ensures Ordered(InsertNode(t, key, value).0)
    ensures Keys(InsertNode(t, key, value).0) == Keys(t) + {key}
    ensures Entries(InsertNode(t, key, value).0) == Entries(t)[key := value]
    ensures InsertNode(t, key, value).1 <==> key !in Keys(t)
    ensures Count(InsertNode(t, key, value).0) == Count(t) + if key in Keys(t) then 0 else 1
  {
    InsertNodeKeys(t, key, value);
    InsertNodeOrdered(t, key, value);
    InsertNodeMade(t, key, value);
    InsertNodeEntries(t, key, value);
  }

  // ---------------------------------------------------------------------
  // deleteNode and erase

  /** `minNode`: the leftmost node, whose key is the least. */
  function Least<V>(t: Tree<V>): (int, V)
    requires t.Node?
  {
    if t.left == Leaf then (t.key, t.value) else Least(t.left)
  }

  /** The subtree with its leftmost node unlinked, as `transplant(minRight,
      minRight->right)` leaves it. */
  function RemoveLeast<V>(t: Tree<V>): Tree<V>
    requires t.Node?
  {
    if t.left == Leaf then t.right else Node(RemoveLeast(t.left), t.key, t.value, t.right)
  }

  /** The leftmost key is one of the keys. */
  lemma {:induction false} LeastWithin<V>(t: Tree<V>)
    requires t.Node?
    ensures Least(t).0 in Keys(t)
  {
    if t.left != Leaf {
      LeastWithin(t.left);
    }
  }

  /** In an ordered tree the leftmost key is below every other key. */
  lemma {:induction false} LeastBelow<V>(t: Tree<V>)
    requires Ordered(t) && t.Node?
    ensures forall x :: x in Keys(t) && x != Least(t).0 ==> Least(t).0 < x
  {
    if t.left != Leaf {
      LeastBelow(t.left);
      LeastWithin(t.left);
      assert Least(t).0 < t.key;
    }
  }

  /** In an ordered tree the leftmost entry is stored under its key. */
  lemma {:induction false} LeastEntry<V>(t: Tree<V>)
    requires Ordered(t) && t.Node?
    ensures Least(t).0 in Entries(t) && Entries(t)[Least(t).0] == Least(t).1
  {
    EntriesHaveKeys(t);
    if t.left != Leaf {
      LeastEntry(t.left);
      EntriesOfNode(t, Least(t).0);
    }
  }

  /** Unlinking the leftmost node removes its key. */
  lemma {:induction false} RemoveLeastKeys<V>(t: Tree<V>)
    requires Ordered(t) && t.Node?
    ensures Keys(RemoveLeast(t)) == Keys(t) - {Least(t).0}
  {
    if t.left == Leaf {
      assert t.key !in Keys(t.right);
    } else {
      RemoveLeastKeys(t.left);
      LeastWithin(t.left);
      assert Least(t).0 < t.key;
    }
  }

  lemma {:induction false} RemoveLeastOrdered<V>(t: Tree<V>)
    requires Ordered(t) && t.Node?
    ensures Ordered(RemoveLeast(t))
  {
    if t.left != Leaf {
      RemoveLeastOrdered(t.left);
      RemoveLeastKeys(t.left);
    }
  }

  lemma {:induction false} RemoveLeastCount<V>(t: Tree<V>)
    requires t.Node?
    ensures Count(RemoveLeast(t)) + 1 == Count(t)
  {
    if t.left != Leaf {
      RemoveLeastCount(t.left);
    }
  }

  /** Unlinking the leftmost node removes its entry and no other. */
  lemma {:induction false} RemoveLeastEntries<V>(t: Tree<V>)
    requires Ordered(t) && t.Node?
    ensures Entries(RemoveLeast(t)) == Entries(t) - {Least(t).0}
  {
    EntriesHaveKeys(t.left);
    EntriesHaveKeys(t.right);
    var l, k, v, r := t.left, t.key, t.value, t.right;
    if l == Leaf {
      MinusOwn(Entries(l), Entries(r), k, v);
      assert Entries(l) + Entries(r) == Entries(r);
    } else {
      RemoveLeastEntries(l);
      LeastWithin(l);
      var m := Least(t).0;
      assert m < k;
      MinusLeft(Entries(l), Entries(r), k, v, m);
    }
  }

  /** The leftmost entry is stored and its key is below every other key;
      unlinking it keeps the order and removes just that entry. */
  lemma RemoveLeastFacts<V>(t: Tree<V>)
    requires Ordered(t) && t.Node?
    ensures Least(t).0 in Entries(t) && Entries(t)[Least(t).0] == Least(t).1
    ensures forall x :: x in Keys(t) && x != Least(t).0 ==> Least(t).0 < x
    ensures Ordered(RemoveLeast(t))
    ensures Keys(RemoveLeast(t)) == Keys(t) - {Least(t).0}
    ensures Entries(RemoveLeast(t)) == Entries(t) - {Least(t).0}
    ensures Count(RemoveLeast(t)) + 1 == Count(t)
  {
    LeastEntry(t);
    LeastBelow(t);
    RemoveLeastOrdered(t);
    RemoveLeastKeys(t);
    RemoveLeastEntries(t);
    RemoveLeastCount(t);
  }

  /** `deleteNode` on the node `t` as intended: a missing child lets the
      other child take the node's place; with two children the least node
      of the right subtree is unlinked and takes the node's place with its
      own entry. */
  function DeleteNode<V>(t: Tree<V>): Tree<V>
    requires t.Node?
  {
    if t.left == Leaf then t.right
    else if t.right == Leaf then t.left
    else
      var (m, mv) := Least(t.right);
      Node(t.left, m, mv, RemoveLeast(t.right))
  }

  /** `deleteNode` as written: with two children, `minRight->data =
      std::move(node->data)` gives the node that takes the place the
      entry being deleted, so the successor's entry is the one lost. */
  function DeleteNodeAsWritten<V>(t: Tree<V>): Tree<V>
    requires t.Node?
  {
    if t.left == Leaf then t.right
    else if t.right == Leaf then t.left
    else Node(t.left, t.key, t.value, RemoveLeast(t.right))
  }

  /** `erase` as intended: find the node holding the key and delete it. */
  function EraseIn<V>(t: Tree<V>, key: int): Tree<V>
  {
    match t
    case Leaf => Leaf
    case Node(l, k, v, r) =>
      if key < k then Node(EraseIn(l, key), k, v, r)
      else if k < key then Node(l, k, v, EraseIn(r, key))
      else DeleteNode(t)
  }

  /** `erase` as written, deleting the found node with `DeleteNodeAsWritten`. */
  function EraseInAsWritten<V>(t: Tree<V>, key: int): Tree<V>
  {
    match t
    case Leaf => Leaf
    case Node(l, k, v, r) =>
      if key < k then Node(EraseInAsWritten(l, key), k, v, r)
      else if k < key then Node(l, k, v, EraseInAsWritten(r, key))
      else DeleteNodeAsWritten(t)
  }

  /** The key whose entry `erase` as written removes: the key itself,
      unless its node has two children, when it is the successor's. */
  function Victim<V>(t: Tree<V>, key: int): int
  {
    var n := FindNode(t, key);
    if n.Node? && n.left.Node? && n.right.Node? then Least(n.right).0 else key
  }

  /** Deleting a node as intended removes exactly its key and one node. */
  lemma DeleteNodeKeys<V>(t: Tree<V>)
    requires Ordered(t) && t.Node?
    ensures Keys(DeleteNode(t)) == Keys(t) - {t.key}
    ensures Count(DeleteNode(t)) + 1 == Count(t)
  {
    assert t.key !in Keys(t.left) && t.key !in Keys(t.right);
    if t.left != Leaf && t.right != Leaf {
      var r := t.right;
      RemoveLeastKeys(r);
      RemoveLeastCount(r);
      LeastWithin(r);
      assert t.key < Least(r).0;
    }
  }

  /** Deleting a node as intended keeps the order. */
  lemma DeleteNodeOrdered<V>(t: Tree<V>)
    requires Ordered(t) && t.Node?
    ensures Ordered(DeleteNode(t))
  {
    if t.left != Leaf && t.right != Leaf {
      var r := t.right;
      RemoveLeastOrdered(r);
      RemoveLeastKeys(r);
      LeastWithin(r);
      LeastBelow(r);
      var m := Least(r).0;
      assert forall x :: x in Keys(t.left) ==> x < m by {
        assert t.key < m;
      }
    }
  }

  /** Deleting a node as intended removes exactly its entry. */
  lemma DeleteNodeEntries<V>(t: Tree<V>)
    requires Ordered(t) && t.Node?
    ensures Entries(DeleteNode(t)) == Entries(t) - {t.key}
  {
    EntriesHaveKeys(t.left);
    EntriesHaveKeys(t.right);
    var l, k, v, r := t.left, t.key, t.value, t.right;
    assert k !in Keys(l) && k !in Keys(r);
    if l == Leaf {
      MinusOwn(Entries(l), Entries(r), k, v);
      assert Entries(l) + Entries(r) == Entries(r);
    } else if r == Leaf {
      MinusOwn(Entries(l), Entries(r), k, v);
      assert Entries(l) + Entries(r) == Entries(l);
    } else {
      RemoveLeastEntries(r);
      LeastEntry(r);
      LeastWithin(r);
      var m := Least(r).0;
      assert m !in Keys(l) by {
        assert k < m;
      }
      MinusReplaced(Entries(l), Entries(r), k, v, m);
    }
  }

  /** Deleting a node as intended keeps the order and removes exactly its
      entry. */
  lemma DeleteNodeFacts<V>(t: Tree<V>)
    requires Ordered(t) && t.Node?
    ensures Ordered(DeleteNode(t))
    ensures Keys(DeleteNode(t)) == Keys(t) - {t.key}
    ensures Entries(DeleteNode(t)) == Entries(t) - {t.key}
    ensures Count(DeleteNode(t)) + 1 == Count(t)
  {
    DeleteNodeKeys(t);
    DeleteNodeOrdered(t);
    DeleteNodeEntries(t);
  }

  /** Erasing as intended keeps the order, removes exactly the key, and
      shrinks the count by one exactly when the key was there. */
  lemma {:induction false} EraseInKeys<V>(t: Tree<V>, key: int)
    requires Ordered(t)
    ensures Ordered(EraseIn(t, key))
    ensures Keys(EraseIn(t, key)) == Keys(t) - {key}
    ensures Count(EraseIn(t, key)) == Count(t) - if key in Keys(t) then 1 else 0
  {
    match t
    case Leaf =>
    case Node(l, k, v, r) =>
      if key < k {
        EraseInKeys(l, key);
        assert key !in Keys(r);
      } else if k < key {
        EraseInKeys(r, key);
        assert key !in Keys(l);
      } else {
        DeleteNodeKeys(t);
        DeleteNodeOrdered(t);
      }
  }

  /** Erasing as intended removes the key's entry and no other. */
  lemma {:induction false} EraseInEntries<V>(t: Tree<V>, key: int)
    requires Ordered(t)
    ensures Entries(EraseIn(t, key)) == Entries(t) - {key}
  {
    match t
    case Leaf =>
    case Node(l, k, v, r) =>
      EntriesHaveKeys(l);
      EntriesHaveKeys(r);
      if key < k {
        EraseInEntries(l, key);
        assert key !in Keys(r);
        MinusLeft(Entries(l), Entries(r), k, v, key);
      } else if k < key {
        EraseInEntries(r, key);
        assert key !in Keys(l);
        MinusRight(Entries(l), Entries(r), k, v, key);
      } else {
        DeleteNodeEntries(t);
      }
  }

  /** Erasing as intended keeps the order, removes the key's entry and no
      other, and shrinks the size by one exactly when the key was there. */
  lemma EraseInFacts<V>(t: Tree<V>, key: int)
    requires Ordered(t)
    ensures Ordered(EraseIn(t, key))
    ensures Keys(EraseIn(t, key)) == Keys(t) - {key}
    ensures Entries(EraseIn(t, key)) == Entries(t) - {key}
    ensures Count(EraseIn(t, key)) == Count(t) - if key in Keys(t) then 1 else 0
  {
    EraseInKeys(t, key);
    EraseInEntries(t, key);
  }

  /** The victim is the key, or, when the key's node has two children, a key
      of the tree. */
  lemma VictimWithin<V>(t: Tree<V>, key: int)
    ensures Victim(t, key) == key || Victim(t, key) in Keys(t)
    ensures key in Keys(t) ==> Victim(t, key) in Keys(t)
  {
    FindNodeWithin(t, key);
    var n := FindNode(t, key);
    if n.Node? && n.left.Node? && n.right.Node? {
      LeastWithin(n.right);
    }
  }

  /** Erasing as written removes the victim's key. */
  lemma {:induction false} EraseInAsWrittenKeys<V>(t: Tree<V>, key: int)
    requires Ordered(t)
    ensures Keys(EraseInAsWritten(t, key)) == Keys(t) - {Victim(t, key)}
  {
    match t
    case Leaf =>
    case Node(l, k, v, r) =>
      if key < k {
        EraseInAsWrittenKeys(l, key);
        VictimWithin(l, key);
        assert Victim(t, key) == Victim(l, key) < k;
      } else if k < key {
        EraseInAsWrittenKeys(r, key);
        VictimWithin(r, key);
        assert k < Victim(t, key) == Victim(r, key);
      } else if l != Leaf && r != Leaf {
        RemoveLeastKeys(r);
        LeastWithin(r);
        assert k < Victim(t, key) == Least(r).0;
      } else {
        assert k !in Keys(l) && k !in Keys(r);
      }
  }

  /** Erasing as written keeps the order. */
  lemma {:induction false} EraseInAsWrittenOrdered<V>(t: Tree<V>, key: int)
    requires Ordered(t)
    ensures Ordered(EraseInAsWritten(t, key))
  {
    match t
    case Leaf =>
    case Node(l, k, v, r) =>
      if key < k {
        EraseInAsWrittenOrdered(l, key);
        EraseInAsWrittenKeys(l, key);
      } else if k < key {
        EraseInAsWrittenOrdered(r, key);
        EraseInAsWrittenKeys(r, key);
      } else if l != Leaf && r != Leaf {
        RemoveLeastOrdered(r);
        RemoveLeastKeys(r);
      }
  }

  /** Erasing as written unlinks one node exactly when the key is there. */
  lemma {:induction false} EraseInAsWrittenCount<V>(t: Tree<V>, key: int)
    requires Ordered(t)
    ensures Count(EraseInAsWritten(t, key)) == Count(t) - if key in Keys(t) then 1 else 0
  {
    match t
    case Leaf =>
    case Node(l, k, v, r) =>
      if key < k {
        EraseInAsWrittenCount(l, key);
        assert key !in Keys(r);
      } else if k < key {
        EraseInAsWrittenCount(r, key);
        assert key !in Keys(l);
      } else if l != Leaf && r != Leaf {
        RemoveLeastCount(r);
      }
  }

  /** Erasing as written removes the victim's entry and no other. */
  lemma {:induction false} EraseInAsWrittenEntries<V>(t: Tree<V>, key: int)
    requires Ordered(t)
    ensures Entries(EraseInAsWritten(t, key)) == Entries(t) - {Victim(t, key)}
  {
    match t
    case Leaf =>
    case Node(l, k, v, r) =>
      EntriesHaveKeys(l);
      EntriesHaveKeys(r);
      if key < k {
        EraseInAsWrittenEntries(l, key);
        VictimWithin(l, key);
        var x := Victim(l, key);
        assert Victim(t, key) == x && x < k;
        MinusLeft(Entries(l), Entries(r), k, v, x);
      } else if k < key {
        EraseInAsWrittenEntries(r, key);
        VictimWithin(r, key);
        var x := Victim(r, key);
        assert Victim(t, key) == x && k < x;
        MinusRight(Entries(l), Entries(r), k, v, x);
      } else if l != Leaf && r != Leaf {
        RemoveLeastEntries(r);
        LeastWithin(r);
        var m := Least(r).0;
        assert Victim(t, key) == m && k < m;
        MinusRight(Entries(l), Entries(r), k, v, m);
      } else {
        assert Victim(t, key) == k;
        assert k !in Keys(l) && k !in Keys(r);
        MinusOwn(Entries(l), Entries(r), k, v);
        assert l == Leaf ==> Entries(l) + Entries(r) == Entries(r);
        assert r == Leaf ==> Entries(l) + Entries(r) == Entries(l);
      }
  }

  /** Erasing as written keeps the order and the size bookkeeping, but the
      entry it removes is the victim's: for a key whose node has two
      children, the key stays and its successor goes. */
  lemma EraseInAsWrittenFacts<V>(t: Tree<V>, key: int)
    requires Ordered(t)
    ensures Ordered(EraseInAsWritten(t, key))
    ensures key in Keys(t) ==> Victim(t, key) in Keys(t)
    ensures Entries(EraseInAsWritten(t, key)) == Entries(t) - {Victim(t, key)}
    ensures Count(EraseInAsWritten(t, key)) == Count(t) - if key in Keys(t) then 1 else 0
  {
    EraseInAsWrittenOrdered(t, key);
    EraseInAsWrittenCount(t, key);
    EraseInAsWrittenEntries(t, key);
    VictimWithin(t, key);
  }

  /** The fault on the smallest tree that shows it: erasing 2 from the tree
      with 1 on the left and 3 on the right keeps 2 and loses 3. */
  lemma EraseInAsWrittenLosesSuccessor()
    ensures var t := Node(Node(Leaf, 1, 10, Leaf), 2, 20, Node(Leaf, 3, 30, Leaf));
            var e := EraseInAsWritten(t, 2);
            Entries(e) == map[1 := 10, 2 := 20] && Entries(EraseIn(t, 2)) == map[1 := 10, 3 := 30]
  {
    var t := Node(Node(Leaf, 1, 10, Leaf), 2, 20, Node(Leaf, 3, 30, Leaf));
    assert EraseInAsWritten(t, 2) == Node(Node(Leaf, 1, 10, Leaf), 2, 20, Leaf);
    assert EraseIn(t, 2) == Node(Node(Leaf, 1, 10, Leaf), 3, 30, Leaf);
  }

  // ---------------------------------------------------------------------
  // copyTree

  /** `copyTree`: a new node for each node, with copies of its subtrees. */
  function CopyTree<V>(t: Tree<V>): Tree<V>
  {
    match t
    case Leaf => Leaf
    case Node(l, k, v, r) => Node(CopyTree(l), k, v, CopyTree(r))
  }

  /** The copy has the same shape and the same entries. */
  lemma {:induction false} CopyTreeSame<V>(t: Tree<V>)
    ensures CopyTree(t) == t
  {
    if t.Node? {
      CopyTreeSame(t.left);
      CopyTreeSame(t.right);
    }
  }

  // ---------------------------------------------------------------------
  // Traversals

  /** Left subtree, node, right subtree. */
  function InOrder<V>(t: Tree<V>): seq<(int, V)>
  {
    match t
    case Leaf => []
    case Node(l, k, v, r) => InOrder(l) + [(k, v)] + InOrder(r)
  }

  /** Right subtree, node, left subtree. */
  function RevOrder<V>(t: Tree<V>): seq<(int, V)>
  {
    match t
    case Leaf => []
    case Node(l, k, v, r) => RevOrder(r) + [(k, v)] + RevOrder(l)
  }

  function Reversed<T>(s: seq<T>): (r: seq<T>)
    ensures |r| == |s| && forall i :: 0 <= i < |s| ==> r[i] == s[|s| - 1 - i]
  {
    if s == [] then [] else Reversed(s[1..]) + [s[0]]
  }

  lemma {:induction false} InOrderLength<V>(t: Tree<V>)
    ensures |InOrder(t)| == Count(t)
  {
    if t.Node? {
      InOrderLength(t.left);
      InOrderLength(t.right);
    }
  }

  /** In an ordered tree no two nodes share a key, so the nodes are as many
      as the keys. */
  lemma {:induction false} CountKeys<V>(t: Tree<V>)
    requires Ordered(t)
    ensures Count(t) == |Keys(t)|
  {
    if t.Node? {
      var l, k, r := t.left, t.key, t.right;
      CountKeys(l);
      CountKeys(r);
      assert Keys(l) !! Keys(r) by {
        forall x | x in Keys(l)
          ensures x !in Keys(r)
        {
          assert x < k;
        }
      }
      assert k !in Keys(l) + Keys(r);
      assert |Keys(l) + Keys(r)| == |Keys(l)| + |Keys(r)|;
    }
  }

  /** Every key the in-order walk lists is a key of the tree. */
  lemma {:induction false} InOrderKeys<V>(t: Tree<V>)
    ensures forall i :: 0 <= i < |InOrder(t)| ==> InOrder(t)[i].0 in Keys(t)
  {
    if t.Node? {
      InOrderKeys(t.left);
      InOrderKeys(t.right);
      var a, b := InOrder(t.left), InOrder(t.right);
      var s := InOrder(t);
      forall i | 0 <= i < |s|
        ensures s[i].0 in Keys(t)
      {
        if i < |a| {
          assert s[i] == a[i];
        } else if i > |a| {
          assert s[i] == b[i - |a| - 1];
        }
      }
    }
  }

  /** Some pair of the walk has the key. */
  predicate Listed<V>(s: seq<(int, V)>, x: int)
  {
    exists j :: 0 <= j < |s| && s[j].0 == x
  }

  /** Every key of the tree is listed by the in-order walk. */
  lemma {:induction false} InOrderCovers<V>(t: Tree<V>)
    ensures forall x :: x in Keys(t) ==> Listed(InOrder(t), x)
  {
    if t.Node? {
      InOrderCovers(t.left);
      InOrderCovers(t.right);
      var a, b := InOrder(t.left), InOrder(t.right);
      var s := InOrder(t);
      assert s == a + [(t.key, t.value)] + b;
      forall x | x in Keys(t)
        ensures Listed(s, x)
      {
        if x in Keys(t.left) {
          var i :| 0 <= i < |a| && a[i].0 == x;
          assert s[i] == a[i];
        } else if x in Keys(t.right) {
          var i :| 0 <= i < |b| && b[i].0 == x;
          assert s[|a| + 1 + i] == b[i];
        } else {
          assert s[|a|].0 == x;
        }
      }
    }
  }

  /** In an ordered tree each pair the in-order walk lists is an entry. */
  lemma {:induction false} InOrderEntries<V>(t: Tree<V>)
    requires Ordered(t)
    ensures forall i :: 0 <= i < |InOrder(t)| ==>
              InOrder(t)[i].0 in Entries(t) && Entries(t)[InOrder(t)[i].0] == InOrder(t)[i].1
  {
    if t.Node? {
      InOrderEntries(t.left);
      InOrderEntries(t.right);
      var a, b := InOrder(t.left), InOrder(t.right);
      var s := InOrder(t);
      forall i | 0 <= i < |s|
        ensures s[i].0 in Entries(t) && Entries(t)[s[i].0] == s[i].1
      {
        if i < |a| {
          assert s[i] == a[i];
          EntriesOfNode(t, a[i].0);
        } else if i > |a| {
          assert s[i] == b[i - |a| - 1];
          EntriesOfNode(t, b[i - |a| - 1].0);
        }
      }
    }
  }

  /** In an ordered tree the in-order walk is by strictly ascending key. */
  lemma {:induction false} InOrderAscending<V>(t: Tree<V>)
    requires Ordered(t)
    ensures forall i, j :: 0 <= i < j < |InOrder(t)| ==> InOrder(t)[i].0 < InOrder(t)[j].0
  {
    if t.Node? {
      var l, k, r := t.left, t.key, t.right;
      InOrderAscending(l);
      InOrderAscending(r);
      InOrderKeys(l);
      InOrderKeys(r);
      var a, b := InOrder(l), InOrder(r);
      var s := InOrder(t);
      forall i, j | 0 <= i < j < |s|
        ensures s[i].0 < s[j].0
      {
        if j < |a| {
          assert s[i] == a[i] && s[j] == a[j];
        } else if i > |a| {
          assert s[i] == b[i - |a| - 1] && s[j] == b[j - |a| - 1];
        } else {
          assert i < |a| ==> s[i] == a[i] && s[i].0 < k;
          assert j > |a| ==> s[j] == b[j - |a| - 1] && k < s[j].0;
        }
      }
    }
  }

  /** The in-order walk of an ordered tree lists every entry once, by
      strictly ascending key. */
  lemma InOrderFacts<V>(t: Tree<V>)
    requires Ordered(t)
    ensures |InOrder(t)| == Count(t) == |Entries(t)|
    ensures forall i :: 0 <= i < |InOrder(t)| ==>
              InOrder(t)[i].0 in Entries(t) && Entries(t)[InOrder(t)[i].0] == InOrder(t)[i].1
    ensures forall i, j :: 0 <= i < j < |InOrder(t)| ==> InOrder(t)[i].0 < InOrder(t)[j].0
  {
    InOrderLength(t);
    CountKeys(t);
    EntriesHaveKeys(t);
    InOrderEntries(t);
    InOrderAscending(t);
  }

  lemma {:induction false} ReversedAppend<T>(a: seq<T>, b: seq<T>)
    ensures Reversed(a + b) == Reversed(b) + Reversed(a)
  {
    assert |Reversed(a + b)| == |Reversed(b) + Reversed(a)|;
  }

  /** The reverse walk lists the in-order walk backwards, so by strictly
      descending key. */
  lemma {:induction false} RevOrderFacts<V>(t: Tree<V>)
    requires Ordered(t)
    ensures RevOrder(t) == Reversed(InOrder(t))
    ensures forall i, j :: 0 <= i < j < |RevOrder(t)| ==> RevOrder(t)[j].0 < RevOrder(t)[i].0
  {
    RevIsReversed(t);
    InOrderAscending(t);
    var s, q := InOrder(t), RevOrder(t);
    assert |q| == |s|;
    forall i, j | 0 <= i < j < |q|
      ensures q[j].0 < q[i].0
    {
      var i', j' := |s| - 1 - i, |s| - 1 - j;
      assert q[j] == s[j'] && q[i] == s[i'];
      assert j' < i';
    }
  }

  lemma {:induction false} RevIsReversed<V>(t: Tree<V>)
    ensures RevOrder(t) == Reversed(InOrder(t))
  {
    if t.Node? {
      RevIsReversed(t.left);
      RevIsReversed(t.right);
      var e := [(t.key, t.value)];
      ReversedAppend(InOrder(t.left) + e, InOrder(t.right));
      ReversedAppend(InOrder(t.left), e);
      assert Reversed(e) == e;
    }
  }

  // ---------------------------------------------------------------------
  // The tree object

  class UBstTree<V> {
    var root: Tree<V>
    var size: nat

    /** The nodes are in search-tree order and `size_` counts them. */
    ghost predicate Valid()
      reads this
    {
      Ordered(root) && size == Count(root)
    }

    /** The key-value map the tree represents. */
    ghost function Contents(): map<int, V>
      reads this
    {
      Entries(root)
    }

    /** The empty tree. */
    constructor ()
      ensures Valid() && Contents() == map[] && size == 0
    {
      root, size := Leaf, 0;
    }

    /** The copy constructor: `copyTree` of the other root, and its size. */
    constructor Copy(other: UBstTree<V>)
      requires other.Valid()
      ensures Valid() && root == other.root && size == other.size
    {
      CopyTreeSame(other.root);
      root, size := CopyTree(other.root), other.size;
    }

    /** `insert`: a new key gets a new node and grows the size; a key that is
        there gets the new value. */
    method Insert(key: int, value: V)
      requires Valid()
      modifies this
      ensures Valid()
      ensures Contents() == old(Contents())[key := value]
      ensures size == old(size) + if key in old(Contents()) then 0 else 1
    {
      InsertNodeFacts(root, key, value);
      EntriesHaveKeys(root);
      var (r, made) := InsertNode(root, key, value);
      root := r;
      if made {
        size := size + 1;
      }
    }

    /** `operator[]`: the value stored for the key, after inserting the
        key with the default value `blank` (`Value{}`) when it is absent. */
    method Index(key: int, blank: V) returns (v: V)
      requires Valid()
      modifies this
      ensures Valid()
      ensures key in old(Contents()) ==> Contents() == old(Contents()) && size == old(size)
      ensures key !in old(Contents()) ==> Contents() == old(Contents())[key := blank] && size == old(size) + 1
      ensures key in Contents() && v == Contents()[key]
    {
      FindNodeFacts(root, key);
      var n := FindNode(root, key);
      if n == Leaf {
        Insert(key, blank);
        FindNodeFacts(root, key);
        n := FindNode(root, key);
      }
      v := n.value;
    }

    /** `at`: the value stored for the key, or `out_of_range`. */
    function At(key: int): (r: Result<V>)
      reads this
      requires Valid()
      ensures r.Ok? <==> key in Contents()
      ensures r.Ok? ==> r.value == Contents()[key]
      ensures r.Throws? ==> r.exception == OutOfRange
    {
      FindNodeFacts(root, key);
      var n := FindNode(root, key);
      if n == Leaf then Throws(OutOfRange) else Ok(n.value)
    }

    /** `erase`: delete the node holding the key, if any. The model deletes
        as intended (`EraseIn`); `EraseInAsWritten` is the code's version. */
    method Erase(key: int)
      requires Valid()
      modifies this
      ensures Valid()
      ensures Contents() == old(Contents()) - {key}
      ensures size == old(size) - if key in old(Contents()) then 1 else 0
    {
      FindNodeFacts(root, key);
      EraseInFacts(root, key);
      EntriesHaveKeys(root);
      var n := FindNode(root, key);
      if n != Leaf {
        root := EraseIn(root, key);
        size := size - 1;
      }
    }

    /** `contains`: whether the search finds a node. */
    function Contains(key: int): (b: bool)
      reads this
      requires Valid()
      ensures b <==> key in Contents()
    {
      FindNodeFacts(root, key);
      FindNode(root, key) != Leaf
    }

    function GetSize(): (n: nat)
      reads this
      requires Valid()
      ensures n == |Contents()|
    {
      InOrderFacts(root);
      size
    }

    /** `empty`: the size is 0 exactly when nothing is stored. */
    function Empty(): (b: bool)
      reads this
      requires Valid()
      ensures b <==> Contents() == map[]
    {
      InOrderFacts(root);
      size == 0
    }

    /** `clear`: no nodes and size 0. */
    method Clear()
      requires Valid()
      modifies this
      ensures Valid() && Contents() == map[] && size == 0
    {
      root := Leaf;
      size := 0;
    }

    /** `traverse_lnr`: the entries handed to `f`, in order. The stack holds
        the nodes whose left subtree is being walked; a node is visited when
        it is popped, and then its right subtree is walked. */
    method TraverseLnr() returns (visited: seq<(int, V)>)
      ensures visited == InOrder(root)
    {
      var stk: seq<Tree<V>> := [];
      var current := root;
      visited := [];
      while current != Leaf || stk != []
        invariant forall i :: 0 <= i < |stk| ==> stk[i].Node?
        invariant visited + AheadLnr(current, stk) == InOrder(root)
        decreases |InOrder(root)| - |visited|
      {
        while current != Leaf
          invariant forall i :: 0 <= i < |stk| ==> stk[i].Node?
          invariant visited + AheadLnr(current, stk) == InOrder(root)
          decreases current
        {
          PushLnr(stk, current);
          stk := stk + [current];
          current := current.left;
        }
        PopLnr(visited, stk);
        current := stk[|stk| - 1];
        stk := stk[..|stk| - 1];
        visited := visited + [(current.key, current.value)];
        current := current.right;
      }
    }

    /** `traverse_rnl`: the mirror image of `traverse_lnr`. */
    method TraverseRnl() returns (visited: seq<(int, V)>)
      ensures visited == RevOrder(root)
    {
      var stk: seq<Tree<V>> := [];
      var current := root;
      visited := [];
      while current != Leaf || stk != []
        invariant forall i :: 0 <= i < |stk| ==> stk[i].Node?
        invariant visited + AheadRnl(current, stk) == RevOrder(root)
        decreases |RevOrder(root)| - |visited|
      {
        while current != Leaf
          invariant forall i :: 0 <= i < |stk| ==> stk[i].Node?
          invariant visited + AheadRnl(current, stk) == RevOrder(root)
          decreases current
        {
          PushRnl(stk, current);
          stk := stk + [current];
          current := current.right;
        }
        PopRnl(visited, stk);
        current := stk[|stk| - 1];
        stk := stk[..|stk| - 1];
        visited := visited + [(current.key, current.value)];
        current := current.left;
      }
    }

    /** `traverse_breadth`: the entries handed to `f`, level by level. The
        queue starts with the root, if any; each node taken from the front
        is visited and its children, left first, join the back. */
    method TraverseBreadth() returns (visited: seq<(int, V)>)
      ensures visited == Bfs([root])
    {
      visited := [];
      if root == Leaf {
        return;
      }
      var q := [root];
      while q != []
        invariant Nodes(q)
        invariant visited + Bfs(q) == Bfs([root])
        decreases Total(q)
      {
        var current := q[0];
        BreadthStep(visited, q);
        q := q[1..];
        ghost var rest := q;
        visited := visited + [(current.key, current.value)];
        if current.left != Leaf {
          q := q + [current.left];
        }
        if current.right != Leaf {
          q := q + [current.right];
        }
        assert q == rest + Kids(current);
      }
    }
  }

  /** What is left to visit for the nodes on the `traverse_lnr` stack (top
      last): each node in turn, from the top, then its right subtree. */
  function PendingLnr<V>(stk: seq<Tree<V>>): seq<(int, V)>
    requires forall i :: 0 <= i < |stk| ==> stk[i].Node?
  {
    if stk == [] then []
    else
      var top := stk[|stk| - 1];
      [(top.key, top.value)] + InOrder(top.right) + PendingLnr(stk[..|stk| - 1])
  }

  /** The same for `traverse_rnl`, with the left subtrees. */
  function PendingRnl<V>(stk: seq<Tree<V>>): seq<(int, V)>
    requires forall i :: 0 <= i < |stk| ==> stk[i].Node?
  {
    if stk == [] then []
    else
      var top := stk[|stk| - 1];
      [(top.key, top.value)] + RevOrder(top.left) + PendingRnl(stk[..|stk| - 1])
  }

  /** What the walk has ahead of it: the subtree at `current`, then what
      the stack holds. */
  function AheadLnr<V>(current: Tree<V>, stk: seq<Tree<V>>): seq<(int, V)>
    requires forall i :: 0 <= i < |stk| ==> stk[i].Node?
  {
    InOrder(current) + PendingLnr(stk)
  }

  function AheadRnl<V>(current: Tree<V>, stk: seq<Tree<V>>): seq<(int, V)>
    requires forall i :: 0 <= i < |stk| ==> stk[i].Node?
  {
    RevOrder(current) + PendingRnl(stk)
  }

  /** Pushing a node on the `traverse_lnr` stack and going left leaves the
      same walk ahead. */
  lemma PushLnr<V>(stk: seq<Tree<V>>, current: Tree<V>)
    requires forall i :: 0 <= i < |stk| ==> stk[i].Node?
    requires current.Node?
    ensures forall i :: 0 <= i < |stk + [current]| ==> (stk + [current])[i].Node?
    ensures AheadLnr(current, stk) == AheadLnr(current.left, stk + [current])
  {
    assert (stk + [current])[..|stk|] == stk;
  }

  /** Popping a node off the `traverse_lnr` stack and visiting it, then
      going right, leaves the same walk ahead. */
  lemma PopLnr<V>(visited: seq<(int, V)>, stk: seq<Tree<V>>)
    requires forall i :: 0 <= i < |stk| ==> stk[i].Node?
    requires stk != []
    ensures var top := stk[|stk| - 1];
            visited + AheadLnr(Leaf, stk) == (visited + [(top.key, top.value)]) + AheadLnr(top.right, stk[..|stk| - 1])
  {
    var top, rest := stk[|stk| - 1], stk[..|stk| - 1];
    var e, x, p := [(top.key, top.value)], InOrder(top.right), PendingLnr(rest);
    assert PendingLnr(stk) == (e + x) + p;
    assert AheadLnr(Leaf, stk) == PendingLnr(stk);
    Assoc(e, x, p);
    Assoc(visited, e, x + p);
  }

  /** The same two steps for `traverse_rnl`. */
  lemma PushRnl<V>(stk: seq<Tree<V>>, current: Tree<V>)
    requires forall i :: 0 <= i < |stk| ==> stk[i].Node?
    requires current.Node?
    ensures forall i :: 0 <= i < |stk + [current]| ==> (stk + [current])[i].Node?
    ensures AheadRnl(current, stk) == AheadRnl(current.right, stk + [current])
  {
    assert (stk + [current])[..|stk|] == stk;
  }

  lemma PopRnl<V>(visited: seq<(int, V)>, stk: seq<Tree<V>>)
    requires forall i :: 0 <= i < |stk| ==> stk[i].Node?
    requires stk != []
    ensures var top := stk[|stk| - 1];
            visited + AheadRnl(Leaf, stk) == (visited + [(top.key, top.value)]) + AheadRnl(top.left, stk[..|stk| - 1])
  {
    var top, rest := stk[|stk| - 1], stk[..|stk| - 1];
    var e, x, p := [(top.key, top.value)], RevOrder(top.left), PendingRnl(rest);
    assert PendingRnl(stk) == (e + x) + p;
    assert AheadRnl(Leaf, stk) == PendingRnl(stk);
    Assoc(e, x, p);
    Assoc(visited, e, x + p);
  }

  // ---------------------------------------------------------------------
  // Breadth-first order

  /** Every tree of the queue is a node. */
  ghost predicate Nodes<V>(q: seq<Tree<V>>)
  {
    forall i :: 0 <= i < |q| ==> q[i].Node?
  }

  /** The children of a node, left first, as `traverse_breadth` queues
      them. */
  function Kids<V>(t: Tree<V>): (ks: seq<Tree<V>>)
    ensures Nodes(ks)
  {
    match t
    case Leaf => []
    case Node(l, _, _, r) => (if l.Node? then [l] else []) + (if r.Node? then [r] else [])
  }

  /** The number of nodes in the trees of a queue. */
  function Total<V>(q: seq<Tree<V>>): nat
  {
    if q == [] then 0 else Count(q[0]) + Total(q[1..])
  }

  lemma {:induction false} TotalAppend<V>(a: seq<Tree<V>>, b: seq<Tree<V>>)
    ensures Total(a + b) == Total(a) + Total(b)
  {
    if a != [] {
      assert (a + b)[1..] == a[1..] + b;
      TotalAppend(a[1..], b);
    } else {
      assert a + b == b;
    }
  }

  lemma KidsTotal<V>(t: Tree<V>)
    requires t.Node?
    ensures Total(Kids(t)) + 1 == Count(t)
  {
    var l, r := t.left, t.right;
    TotalAppend(if l.Node? then [l] else [], if r.Node? then [r] else []);
    assert Total([l]) == Count(l) && Total([r]) == Count(r);
  }

  /** What `traverse_breadth` visits from a queue: the front node, then
      what it visits from the rest with the node's children behind. */
  function Bfs<V>(q: seq<Tree<V>>): seq<(int, V)>
    decreases Total(q), |q|
  {
    if q == [] then []
    else match q[0]
      case Leaf => Bfs(q[1..])
      case Node(_, k, v, _) =>
        TotalAppend(q[1..], Kids(q[0]));
        KidsTotal(q[0]);
        [(k, v)] + Bfs(q[1..] + Kids(q[0]))
  }

  /** One step of `traverse_breadth`: visiting the front node and queueing
      its children leaves the same walk ahead and fewer nodes queued. */
  lemma BreadthStep<V>(visited: seq<(int, V)>, q: seq<Tree<V>>)
    requires Nodes(q) && q != []
    ensures Nodes(q[1..] + Kids(q[0]))
    ensures Total(q[1..] + Kids(q[0])) < Total(q)
    ensures visited + Bfs(q) == (visited + [(q[0].key, q[0].value)]) + Bfs(q[1..] + Kids(q[0]))
  {
    TotalAppend(q[1..], Kids(q[0]));
    KidsTotal(q[0]);
    var r := q[1..] + Kids(q[0]);
    forall i | 0 <= i < |r|
      ensures r[i].Node?
    {
      if i < |q| - 1 {
        assert r[i] == q[i + 1];
      } else {
        assert r[i] == Kids(q[0])[i - |q| + 1];
      }
    }
  }

  /** The roots of a queue of nodes: one level, left to right. */
  function Roots<V>(q: seq<Tree<V>>): seq<(int, V)>
    requires Nodes(q)
  {
    if q == [] then [] else [(q[0].key, q[0].value)] + Roots(q[1..])
  }

  /** The children of a queue of nodes: the next level, left to right. */
  function Children<V>(q: seq<Tree<V>>): (c: seq<Tree<V>>)
    ensures Nodes(c)
  {
    if q == [] then [] else NodesAppend(Kids(q[0]), Children(q[1..])); Kids(q[0]) + Children(q[1..])
  }

  lemma NodesAppend<V>(a: seq<Tree<V>>, b: seq<Tree<V>>)
    requires Nodes(a) && Nodes(b)
    ensures Nodes(a + b)
  {
    forall i | 0 <= i < |a + b|
      ensures (a + b)[i].Node?
    {
      if i >= |a| {
        assert (a + b)[i] == b[i - |a|];
      }
    }
  }

  lemma {:induction false} ChildrenTotal<V>(q: seq<Tree<V>>)
    requires Nodes(q)
    ensures Total(Children(q)) + |q| == Total(q)
  {
    if q != [] {
      ChildrenTotal(q[1..]);
      KidsTotal(q[0]);
      TotalAppend(Kids(q[0]), Children(q[1..]));
    }
  }

  /** Level order: the roots of the queue, then the levels below them. */
  function Levels<V>(q: seq<Tree<V>>): seq<(int, V)>
    requires Nodes(q)
    decreases Total(q)
  {
    if q == [] then []
    else
      ChildrenTotal(q);
      Roots(q) + Levels(Children(q))
  }

  /** A node at the front of the queue is visited first. */
  lemma BfsFront<V>(q: seq<Tree<V>>)
    requires q != [] && q[0].Node?
    ensures Bfs(q) == [(q[0].key, q[0].value)] + Bfs(q[1..] + Kids(q[0]))
  {
  }

  /** `traverse_breadth` empties the queue's first level before it visits
      the level below, whatever is queued behind it. */
  lemma {:induction false} BfsLevel<V>(a: seq<Tree<V>>, b: seq<Tree<V>>)
    requires Nodes(a)
    ensures Bfs(a + b) == Roots(a) + Bfs(b + Children(a))
    decreases |a|
  {
    if a == [] {
      assert a + b == b && b + Children(a) == b;
    } else {
      BfsLevel(a[1..], b + Kids(a[0]));
      BfsLevelStep(a, b);
    }
  }

  /** The step of `BfsLevel` for the front node of the level. */
  lemma BfsLevelStep<V>(a: seq<Tree<V>>, b: seq<Tree<V>>)
    requires Nodes(a) && a != []
    requires Bfs(a[1..] + (b + Kids(a[0]))) == Roots(a[1..]) + Bfs((b + Kids(a[0])) + Children(a[1..]))
    ensures Bfs(a + b) == Roots(a) + Bfs(b + Children(a))
  {
    BfsCons(a, b);
    ChildrenCons(a, b);
    Assoc([(a[0].key, a[0].value)], Roots(a[1..]), Bfs(b + Children(a)));
  }

  lemma Assoc<T>(x: seq<T>, y: seq<T>, z: seq<T>)
    ensures x + (y + z) == (x + y) + z
  {
  }

  /** The front node of a queue `a + b` is visited first, and its children
      join the back. */
  lemma BfsCons<V>(a: seq<Tree<V>>, b: seq<Tree<V>>)
    requires Nodes(a) && a != []
    ensures Bfs(a + b) == [(a[0].key, a[0].value)] + Bfs(a[1..] + (b + Kids(a[0])))
  {
    var q := a + b;
    assert q[0] == a[0] && q[1..] == a[1..] + b;
    BfsFront(q);
    assert a[1..] + (b + Kids(a[0])) == (a[1..] + b) + Kids(a[0]);
  }

  lemma ChildrenCons<V>(a: seq<Tree<V>>, b: seq<Tree<V>>)
    requires a != []
    ensures (b + Kids(a[0])) + Children(a[1..]) == b + Children(a)
  {
    assert Children(a) == Kids(a[0]) + Children(a[1..]);
    Assoc(b, Kids(a[0]), Children(a[1..]));
  }

  /** From a queue of nodes `traverse_breadth` visits in level order. */
  lemma {:induction false} BfsIsLevels<V>(q: seq<Tree<V>>)
    requires Nodes(q)
    ensures Bfs(q) == Levels(q)
    decreases Total(q)
  {
    if q != [] {
      BfsLevel(q, []);
      assert q + [] == q && [] + Children(q) == Children(q);
      ChildrenTotal(q);
      BfsIsLevels(Children(q));
    }
  }

  /** The entries of the trees of a queue. */
  ghost function Items<V>(q: seq<Tree<V>>): multiset<(int, V)>
  {
    if q == [] then multiset{} else multiset(InOrder(q[0])) + Items(q[1..])
  }

  lemma {:induction false} ItemsAppend<V>(a: seq<Tree<V>>, b: seq<Tree<V>>)
    ensures Items(a + b) == Items(a) + Items(b)
  {
    if a != [] {
      assert (a + b)[1..] == a[1..] + b;
      ItemsAppend(a[1..], b);
    } else {
      assert a + b == b;
    }
  }

  /** One tree queued holds that tree's entries. */
  lemma ItemsOne<V>(t: Tree<V>)
    ensures Items([t]) == multiset(InOrder(t))
  {
    assert [t][1..] == [];
  }

  /** The queued children of a node hold the entries of its subtrees. */
  lemma KidsHold<V>(t: Tree<V>)
    requires t.Node?
    ensures Items(Kids(t)) == multiset(InOrder(t.left)) + multiset(InOrder(t.right))
  {
    var l, r := t.left, t.right;
    ItemsOne(l);
    ItemsOne(r);
    if l.Node? && r.Node? {
      ItemsAppend([l], [r]);
    } else if l.Node? {
      assert Kids(t) == [l];
    } else if r.Node? {
      assert Kids(t) == [r];
    }
  }

  /** A node's entries are its own and those of its children. */
  lemma KidsItems<V>(t: Tree<V>)
    requires t.Node?
    ensures multiset(InOrder(t)) == multiset{(t.key, t.value)} + Items(Kids(t))
  {
    assert InOrder(t) == InOrder(t.left) + [(t.key, t.value)] + InOrder(t.right);
    KidsHold(t);
  }

  /** `traverse_breadth` visits every entry of the queued trees once. */
  lemma {:induction false} BfsItems<V>(q: seq<Tree<V>>)
    ensures multiset(Bfs(q)) == Items(q)
    decreases Total(q), |q|
  {
    if q != [] {
      var t := q[0];
      if t.Node? {
        var q' := q[1..] + Kids(t);
        TotalAppend(q[1..], Kids(t));
        KidsTotal(t);
        BfsFront(q);
        BfsItems(q');
        ItemsAppend(q[1..], Kids(t));
        KidsItems(t);
        assert multiset(Bfs(q)) == multiset{(t.key, t.value)} + multiset(Bfs(q'));
      } else {
        assert Bfs(q) == Bfs(q[1..]);
        BfsItems(q[1..]);
      }
    }
  }

  /** The breadth-first walk of a tree is its level order and holds the
      same entries as the in-order walk, each as often. */
  lemma BreadthFacts<V>(t: Tree<V>)
    ensures t.Node? ==> Bfs([t]) == Levels([t])
    ensures multiset(Bfs([t])) == multiset(InOrder(t))
  {
    if t.Node? {
      BfsIsLevels([t]);
    }
    BfsItems([t]);
    assert [t][1..] == [];
  }
}
