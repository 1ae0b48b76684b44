/** `ConstIterator`: a bidirectional iterator over a binary search tree
    whose nodes link to their parents. The iterator holds one node, or
    null for the end. A node is named here by its path from the root, so
    following `parent` drops the last step of the path and node identity
    is equality of paths. The in-order position of the node at a path is
    its `Rank`. */
module TreeIterator {
  import opened Wrappers
  import opened SearchTree

  datatype Dir = L | R

  /** The subtree at the end of a path, or `Leaf` when the path leaves the
      tree. */
  function Sub<V>(t: Tree<V>, p: seq<Dir>): Tree<V>
    decreases p
  {
    if p == [] then t
    else match t
      case Leaf => Leaf
      case Node(l, _, _, r) => Sub(if p[0] == L then l else r, p[1..])
  }

  function Child<V>(t: Tree<V>, d: Dir): Tree<V>
  {
    match t
    case Leaf => Leaf
    case Node(l, _, _, r) => if d == L then l else r
  }

  /** The number of in-order entries before every entry of the subtree at
      the path. */
  function Offset<V>(t: Tree<V>, p: seq<Dir>): nat
    decreases p
  {
    if p == [] then 0
    else match t
      case Leaf => 0
      case Node(l, _, _, r) =>
        if p[0] == L then Offset(l, p[1..]) else Count(l) + 1 + Offset(r, p[1..])
  }

  /** The in-order position of the node at the path. */
  function Rank<V>(t: Tree<V>, p: seq<Dir>): (r: nat)
    requires Sub(t, p).Node?
    ensures r < Count(t) == |InOrder(t)|
  {
    OffsetBound(t, p);
    InOrderLength(t);
    Offset(t, p) + Count(Sub(t, p).left)
  }

  /** The path of the node at in-order position `i`. */
  function PathOf<V>(t: Tree<V>, i: nat): seq<Dir>
    requires i < Count(t)
  {
    var l := t.left;
    if i < Count(l) then [L] + PathOf(l, i)
    else if i == Count(l) then []
    else [R] + PathOf(t.right, i - Count(l) - 1)
  }

  // ---------------------------------------------------------------------
  // Paths and positions

  /** A step down a path goes to a child of the subtree the path reaches. */
  lemma {:induction false} SubStep<V>(t: Tree<V>, p: seq<Dir>, d: Dir)
    ensures Sub(t, p + [d]) == Child(Sub(t, p), d)
    decreases p
  {
    if p != [] && t.Node? {
      assert (p + [d])[1..] == p[1..] + [d];
      SubStep(if p[0] == L then t.left else t.right, p[1..], d);
    } else if p == [] && t.Node? {
      assert (p + [d])[1..] == [];
    }
  }

  /** Going left keeps the entries before the subtree; going right adds the
      left subtree and the node. */
  lemma {:induction false} OffsetStep<V>(t: Tree<V>, p: seq<Dir>, d: Dir)
    requires Sub(t, p).Node?
    ensures d == L ==> Offset(t, p + [d]) == Offset(t, p)
    ensures d == R ==> Offset(t, p + [d]) == Offset(t, p) + Count(Sub(t, p).left) + 1
    decreases p
  {
    if p != [] {
      assert (p + [d])[1..] == p[1..] + [d];
      OffsetStep(if p[0] == L then t.left else t.right, p[1..], d);
    } else {
      assert (p + [d])[1..] == [];
    }
  }

  /** The subtree at a path fits inside the tree's in-order walk. */
  lemma {:induction false} OffsetBound<V>(t: Tree<V>, p: seq<Dir>)
    ensures Offset(t, p) + Count(Sub(t, p)) <= Count(t)
    decreases p
  {
    if p != [] && t.Node? {
      OffsetBound(if p[0] == L then t.left else t.right, p[1..]);
    }
  }

  /** The rank of a node is an in-order position, and the in-order walk has
      the node's entry there: the iterator's `*` is that entry. */
  lemma {:induction false} RankEntry<V>(t: Tree<V>, p: seq<Dir>)
    requires Sub(t, p).Node?
    ensures Rank(t, p) < Count(t) == |InOrder(t)|
    ensures InOrder(t)[Rank(t, p)] == (Sub(t, p).key, Sub(t, p).value)
    decreases p
  {
    InOrderLength(t);
    var l := t.left;
    var s := InOrder(t);
    InOrderLength(l);
    if p == [] {
      assert s == InOrder(l) + [(t.key, t.value)] + InOrder(t.right);
    } else if p[0] == L {
      RankEntry(l, p[1..]);
      assert s == InOrder(l) + ([(t.key, t.value)] + InOrder(t.right));
    } else {
      RankEntry(t.right, p[1..]);
      assert s == (InOrder(l) + [(t.key, t.value)]) + InOrder(t.right);
    }
  }

  /** The path of a position leads to a node of that rank. */
  lemma {:induction false} RankOfPath<V>(t: Tree<V>, i: nat)
    requires i < Count(t)
    ensures Sub(t, PathOf(t, i)).Node? && Rank(t, PathOf(t, i)) == i
  {
    var l := t.left;
    if i < Count(l) {
      RankOfPath(l, i);
    } else if i > Count(l) {
      RankOfPath(t.right, i - Count(l) - 1);
    }
  }

  /** Different nodes have different ranks: the path of a node's rank is
      the node's path. */
  lemma {:induction false} PathOfRank<V>(t: Tree<V>, p: seq<Dir>)
    requires Sub(t, p).Node?
    ensures Rank(t, p) < Count(t) && PathOf(t, Rank(t, p)) == p
    decreases p
  {
    RankEntry(t, p);
    if p != [] {
      var q := p[1..];
      if p[0] == L {
        PathOfRank(t.left, q);
        assert Rank(t, p) == Rank(t.left, q);
      } else {
        PathOfRank(t.right, q);
        assert Rank(t, p) == Count(t.left) + 1 + Rank(t.right, q);
      }
      assert p == [p[0]] + q;
    }
  }

  /** A step down keeps the entries after the subtree when it goes right;
      going left ends the subtree just before the node. */
  lemma EndStep<V>(t: Tree<V>, p: seq<Dir>, d: Dir)
    requires Sub(t, p).Node?
    ensures d == R ==> Offset(t, p + [d]) + Count(Sub(t, p + [d])) == Offset(t, p) + Count(Sub(t, p))
    ensures d == L ==> Offset(t, p + [d]) + Count(Sub(t, p + [d])) == Rank(t, p)
  {
    SubStep(t, p, d);
    OffsetStep(t, p, d);
  }

  /** Dropping the last step of a path goes to the parent. */
  lemma Parent<V>(t: Tree<V>, p: seq<Dir>)
    requires p != []
    ensures p == p[..|p| - 1] + [p[|p| - 1]]
    ensures Sub(t, p).Node? ==> Sub(t, p[..|p| - 1]).Node?
  {
    SubStep(t, p[..|p| - 1], p[|p| - 1]);
  }

  // ---------------------------------------------------------------------
  // The iterator

  class ConstIterator<V> {
    /** The tree whose nodes the iterator walks. */
    const tree: Tree<V>
    /** `node_`: the path of the node, or `None` for null. */
    var node: Option<seq<Dir>>

    /** The node is null or one of the tree's nodes. */
    ghost predicate Valid()
      reads this
    {
      node.Some? ==> Sub(tree, node.value).Node?
    }

    /** The default iterator: null. */
    constructor (t: Tree<V>)
      ensures tree == t && node == None
    {
      tree := t;
      node := None;
    }

    /** The iterator at a given node. */
    constructor At(t: Tree<V>, p: Option<seq<Dir>>)
      ensures tree == t && node == p
    {
      tree := t;
      node := p;
    }

    /** `*`: the key and value of the node, which is the in-order walk's
        entry at the node's rank. */
    function Get(): (e: (int, V))
      reads this
      requires Valid() && node.Some?
      ensures e == InOrder(tree)[Rank(tree, node.value)]
    {
      RankEntry(tree, node.value);
      var n := Sub(tree, node.value);
      (n.key, n.value)
    }

    /** `++`: with a right child, the leftmost node of the right subtree;
        otherwise climb while the node is a right child and take the parent.
        The result is the node of the next rank, or null after the last. */
    method Increment()
      requires Valid() && node.Some?
      modifies this
      ensures Valid()
      ensures Rank(tree, old(node.value)) + 1 < Count(tree) ==>
                node == Some(PathOf(tree, Rank(tree, old(node.value)) + 1))
      ensures Rank(tree, old(node.value)) + 1 == Count(tree) ==> node == None
    {
      var p := node.value;
      RankEntry(tree, p);
      ghost var next := Rank(tree, p) + 1;
      SubStep(tree, p, R);
      if Sub(tree, p).right.Node? {
        var q := p + [R];
        OffsetStep(tree, p, R);
        while Sub(tree, q).left.Node?
          invariant Sub(tree, q).Node? && Offset(tree, q) == next
          decreases Sub(tree, q)
        {
          SubStep(tree, q, L);
          OffsetStep(tree, q, L);
          q := q + [L];
        }
        PathOfRank(tree, q);
        node := Some(q);
      } else {
        var q := p;
        while q != [] && q[|q| - 1] == R
          invariant Sub(tree, q).Node? && Offset(tree, q) + Count(Sub(tree, q)) == next
          decreases |q|
        {
          Parent(tree, q);
          EndStep(tree, q[..|q| - 1], R);
          q := q[..|q| - 1];
        }
        if q == [] {
          node := None;
        } else {
          Parent(tree, q);
          EndStep(tree, q[..|q| - 1], L);
          q := q[..|q| - 1];
          PathOfRank(tree, q);
          node := Some(q);
        }
      }
    }

    /** `--`: the mirror image of `++`. The result is the node of the
        previous rank, or null before the first. */
    method Decrement()
      requires Valid() && node.Some?
      modifies this
      ensures Valid()
      ensures Rank(tree, old(node.value)) > 0 ==>
                node == Some(PathOf(tree, Rank(tree, old(node.value)) - 1))
      ensures Rank(tree, old(node.value)) == 0 ==> node == None
    {
      var p := node.value;
      RankEntry(tree, p);
      ghost var rank := Rank(tree, p);
      SubStep(tree, p, L);
      if Sub(tree, p).left.Node? {
        var q := p + [L];
        EndStep(tree, p, L);
        while Sub(tree, q).right.Node?
          invariant Sub(tree, q).Node? && Offset(tree, q) + Count(Sub(tree, q)) == rank
          decreases Sub(tree, q)
        {
          SubStep(tree, q, R);
          EndStep(tree, q, R);
          q := q + [R];
        }
        PathOfRank(tree, q);
        node := Some(q);
      } else {
        var q := p;
        while q != [] && q[|q| - 1] == L
          invariant Sub(tree, q).Node? && Offset(tree, q) == rank
          decreases |q|
        {
          Parent(tree, q);
          OffsetStep(tree, q[..|q| - 1], L);
          q := q[..|q| - 1];
        }
        if q == [] {
          node := None;
        } else {
          Parent(tree, q);
          OffsetStep(tree, q[..|q| - 1], R);
          q := q[..|q| - 1];
          PathOfRank(tree, q);
          node := Some(q);
        }
      }
    }

    /** Post-increment: a copy at the old node, then `++`. */
    method PostIncrement() returns (tmp: ConstIterator<V>)
      requires Valid() && node.Some?
      modifies this
      ensures fresh(tmp) && tmp.tree == tree && tmp.node == old(node)
      ensures Valid()
      ensures Rank(tree, old(node.value)) + 1 < Count(tree) ==>
                node == Some(PathOf(tree, Rank(tree, old(node.value)) + 1))
      ensures Rank(tree, old(node.value)) + 1 == Count(tree) ==> node == None
    {
      tmp := new ConstIterator.At(tree, node);
      Increment();
    }

    /** Post-decrement: a copy at the old node, then `--`. */
    method PostDecrement() returns (tmp: ConstIterator<V>)
      requires Valid() && node.Some?
      modifies this
      ensures fresh(tmp) && tmp.tree == tree && tmp.node == old(node)
      ensures Valid()
      ensures Rank(tree, old(node.value)) > 0 ==>
                node == Some(PathOf(tree, Rank(tree, old(node.value)) - 1))
      ensures Rank(tree, old(node.value)) == 0 ==> node == None
    {
      tmp := new ConstIterator.At(tree, node);
      Decrement();
    }

    /** `==`: the same node; on one tree, the same rank. */
    function Equals(other: ConstIterator<V>): (b: bool)
      reads this, other
      requires Valid() && other.Valid() && other.tree == tree
      ensures b <==> node == other.node
      ensures node.Some? && other.node.Some? ==>
                (b <==> Rank(tree, node.value) == Rank(tree, other.node.value))
    {
      if node.Some? && other.node.Some? then
        PathOfRank(tree, node.value);
        PathOfRank(tree, other.node.value);
        node == other.node
      else
        node == other.node
    }
  }

  /** `--` after `++` comes back to the node, unless `++` reached the end. */
  method IncrementThenDecrement<V>(it: ConstIterator<V>)
    requires it.Valid() && it.node.Some?
    requires Rank(it.tree, it.node.value) + 1 < Count(it.tree)
    modifies it
    ensures it.Valid() && it.node == old(it.node)
  {
    ghost var p := it.node.value;
    it.Increment();
    RankOfPath(it.tree, Rank(it.tree, p) + 1);
    it.Decrement();
    PathOfRank(it.tree, p);
  }

  /** In an ordered tree `++` moves to the least greater key, and `--` to
      the greatest smaller one. */
  lemma NextKey<V>(t: Tree<V>, p: seq<Dir>)
    requires Ordered(t) && Sub(t, p).Node? && Rank(t, p) + 1 < Count(t)
    ensures var q := PathOf(t, Rank(t, p) + 1);
            Sub(t, q).Node? && Sub(t, p).key < Sub(t, q).key &&
            forall x :: x in Keys(t) && Sub(t, p).key < x ==> Sub(t, q).key <= x
  {
    var i := Rank(t, p);
    var q := PathOf(t, i + 1);
    RankOfPath(t, i + 1);
    RankEntry(t, p);
    RankEntry(t, q);
    InOrderAscending(t);
    InOrderCovers(t);
    var s := InOrder(t);
    forall x | x in Keys(t) && Sub(t, p).key < x
      ensures Sub(t, q).key <= x
    {
      var j :| 0 <= j < |s| && s[j].0 == x;
      assert i < j;
      assert i + 1 < j ==> s[i + 1].0 < s[j].0;
    }
  }

  lemma PrevKey<V>(t: Tree<V>, p: seq<Dir>)
    requires Ordered(t) && Sub(t, p).Node? && Rank(t, p) > 0
    ensures var q := PathOf(t, Rank(t, p) - 1);
            Sub(t, q).Node? && Sub(t, q).key < Sub(t, p).key &&
            forall x :: x in Keys(t) && x < Sub(t, p).key ==> x <= Sub(t, q).key
  {
    var i := Rank(t, p);
    var q := PathOf(t, i - 1);
    RankOfPath(t, i - 1);
    RankEntry(t, p);
    RankEntry(t, q);
    InOrderAscending(t);
    InOrderCovers(t);
    var s := InOrder(t);
    forall x | x in Keys(t) && x < Sub(t, p).key
      ensures x <= Sub(t, q).key
    {
      var j :| 0 <= j < |s| && s[j].0 == x;
      assert j < i;
      assert j < i - 1 ==> s[j].0 < s[i - 1].0;
    }
  }
}
