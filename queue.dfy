/** `Queue`: a queue on singly linked nodes, with a head, a tail and a
    size. The nodes linked from the head are the ghost `spine`, and their
    values, front first, the ghost `contents`.

    The copy constructor leaves `tail_` at the first node it makes, so a
    copy of a queue of two or more values is not in the state the other
    operations expect: its tail is not its last node. The model keeps the
    states that can arise apart from the intended ones: `Sound` holds of
    every state the operations reach, `Valid` of the intended ones. */
module LinkedQueue {
  import opened Wrappers

  /** A value and the link to the node behind it. */
  class Node<T> {
    const data: T
    var next: Node?<T>

    constructor (d: T)
      ensures data == d && next == null
    {
      data := d;
      next := null;
    }
  }

  class Queue<T> {
    var head: Node?<T>
    var tail: Node?<T>
    var size: nat
    ghost var spine: seq<Node<T>>
    ghost var contents: seq<T>

    /** The nodes are linked in order from the head and the last links to
        nothing; no node occurs twice; the tail is null exactly when there
        are none; the size counts at least the linked nodes. */
    ghost predicate Sound()
      reads this, spine
    {
      && |contents| == |spine| <= size
      && head == (if spine == [] then null else spine[0])
      && (spine != [] ==> spine[|spine| - 1].next == null)
      && (forall k :: 0 <= k < |spine| ==> spine[k].data == contents[k])
      && (forall k :: 0 <= k < |spine| - 1 ==> spine[k].next == spine[k + 1])
      && (forall i, j :: 0 <= i < j < |spine| ==> spine[i] != spine[j])
      && (tail == null <==> spine == [])
    }

    /** The tail is null or one of the linked nodes. After a pop from a copy
        made as written, the tail can be the node just removed, which
        `pop` has deleted. */
    ghost predicate TailLinked()
      reads this
    {
      tail == null || tail in spine
    }

    /** The intended state: the tail is the last node and the size is the
        number of nodes. */
    ghost predicate Valid()
      reads this, spine
    {
      Sound() && size == |spine| && (spine != [] ==> tail == spine[|spine| - 1])
    }

    /** The empty queue. */
    constructor ()
      ensures Valid() && contents == []
    {
      head, tail, size := null, null, 0;
      spine, contents := [], [];
    }

    /** The copy constructor as written: a new node for each node of
        `other`, front to back, but `tail_` is set only while it is still
        null, that is, to the first new node. */
    constructor CopyAsWritten(other: Queue<T>)
      requires other.Sound()
      ensures Sound() && TailLinked() && contents == other.contents && size == |contents|
      ensures tail == if spine == [] then null else spine[0]
      ensures forall k :: 0 <= k < |spine| ==> fresh(spine[k])
    {
      head, tail, size := null, null, 0;
      spine, contents := [], [];
      new;
      var src := other.head;
      var last: Node?<T> := null;
      ghost var i := 0;
      while src != null
        invariant Sound() && TailLinked() && other.Sound() && size == |spine|
        invariant i == size && i <= |other.spine| && contents == other.contents[..i]
        invariant src == (if i < |other.spine| then other.spine[i] else null)
        invariant last == (if size == 0 then null else spine[size - 1])
        invariant tail == if spine == [] then null else spine[0]
        invariant forall k :: 0 <= k < |spine| ==> fresh(spine[k])
        decreases |other.spine| - i
      {
        assert other.contents[..i + 1] == other.contents[..i] + [src.data];
        var t := tail;
        last := Link(last, src.data);
        if t == null {
          tail := last;
        }
        src := src.next;
        i := i + 1;
      }
      assert other.contents[..i] == other.contents;
    }

    /** The copy constructor as intended: the tail follows each new node,
        which is what pushing the values of `other` in order does, so the
        copy is in the intended state. */
    constructor Copy(other: Queue<T>)
      requires other.Sound()
      ensures Valid() && contents == other.contents
      ensures forall k :: 0 <= k < |spine| ==> fresh(spine[k])
    {
      head, tail, size := null, null, 0;
      spine, contents := [], [];
      new;
      var src := other.head;
      ghost var i := 0;
      while src != null
        invariant Valid() && other.Sound()
        invariant i <= |other.spine| && contents == other.contents[..i]
        invariant src == (if i < |other.spine| then other.spine[i] else null)
        invariant forall k :: 0 <= k < |spine| ==> fresh(spine[k])
        decreases |other.spine| - i
      {
        assert other.contents[..i + 1] == other.contents[..i] + [src.data];
        Push(src.data);
        src := src.next;
        i := i + 1;
      }
      assert other.contents[..i] == other.contents;
    }

    /** One step of a copy: `*current = new Node(src->data)` stores the new
        node in the head or in the link of the last node, which `current`
        points at; then the size grows by one. */
    method Link(last: Node?<T>, v: T) returns (n: Node<T>)
      requires Sound() && TailLinked() && size == |spine| && last == (if spine == [] then null else spine[|spine| - 1])
      modifies this, last
      ensures Sound() && TailLinked() && size == |spine| && tail == (if old(tail) == null then n else old(tail))
      ensures contents == old(contents) + [v]
      ensures spine == old(spine) + [n] && fresh(n)
    {
      n := new Node(v);
      if last == null {
        head := n;
        tail := n;
      } else {
        last.next := n;
      }
      size := size + 1;
      spine := spine + [n];
      contents := contents + [v];
    }

    /** `push`: the new node is linked after the tail, or becomes the head
        of an empty queue, and becomes the tail. In the intended state this
        appends the value; when the tail is the node at position `k`, the
        nodes after it are unlinked. A tail that is not linked is a deleted
        node, which `push` would write to; that use is excluded. */
    method Push(v: T)
      requires Sound() && TailLinked()
      modifies this, tail
      ensures Sound() && TailLinked() && size == old(size) + 1 && contents != []
      ensures forall k :: 0 <= k < |old(spine)| && old(spine)[k] == old(tail) ==>
                contents == old(contents)[..k + 1] + [v]
      ensures old(spine) == [] ==> contents == [v]
      ensures old(Valid()) ==> Valid() && contents == old(contents) + [v]
      ensures old(Valid()) ==> spine == old(spine) + [tail] && fresh(tail)
    {
      ghost var k: nat := 0;
      if tail != null {
        k := IndexOf(tail);
      }
      var n := new Node(v);
      if tail != null {
        tail.next := n;
        spine := spine[..k + 1] + [n];
        contents := contents[..k + 1] + [v];
      } else {
        head := n;
        spine := [n];
        contents := [v];
      }
      tail := n;
      size := size + 1;
    }

    /** The position of a linked node. */
    ghost method IndexOf(t: Node<T>) returns (k: nat)
      requires Sound() && t in spine
      ensures k < |spine| && spine[k] == t
      ensures forall j :: 0 <= j < |spine| && spine[j] == t ==> j == k
    {
      k :| k < |spine| && spine[k] == t;
    }

    /** `pop`: the head node goes, and the tail with the last node;
        `logic_error` on an empty queue, which is then left as it is. */
    method Pop() returns (r: Outcome)
      requires Sound()
      modifies this
      ensures Sound()
      ensures old(contents) == [] ==> r == Failed(LogicError) && contents == [] && size == old(size)
      ensures old(contents) != [] ==> r == Done && contents == old(contents)[1..] && size == old(size) - 1
      ensures old(Valid()) ==> Valid()
    {
      if head == null {
        return Failed(LogicError);
      }
      head := head.next;
      if head == null {
        tail := null;
      }
      size := size - 1;
      spine := spine[1..];
      contents := contents[1..];
      r := Done;
    }

    /** `front`: the value of the head node, or `logic_error`. */
    function Front(): (r: Result<T>)
      reads this, spine
      requires Sound()
      ensures contents == [] <==> r == Throws(LogicError)
      ensures contents != [] ==> r == Ok(contents[0])
    {
      if head == null then Throws(LogicError) else Ok(head.data)
    }

    /** `size`: the size field, which counts the values in the intended
        state and can exceed them after a push onto a copy made as
        written. */
    function Size(): (n: nat)
      reads this, spine
      requires Sound()
      ensures n == size && n >= |contents|
      ensures Valid() ==> n == |contents|
    {
      size
    }

    /** `empty`: the size is 0; a queue with no size has no values, and in
        the intended state the converse holds too. */
    function Empty(): (b: bool)
      reads this, spine
      requires Sound()
      ensures b <==> size == 0
      ensures b ==> contents == []
      ensures Valid() ==> (b <==> contents == [])
    {
      size == 0
    }

    /** `swap`: exchange the heads, the tails and the sizes. */
    method Swap(other: Queue<T>)
      requires Sound() && other.Sound()
      modifies this, other
      ensures Sound() && other.Sound()
      ensures contents == old(other.contents) && other.contents == old(contents)
      ensures size == old(other.size) && other.size == old(size)
      ensures spine == old(other.spine) && other.spine == old(spine)
      ensures tail == old(other.tail) && other.tail == old(tail)
      ensures old(Valid()) ==> other.Valid()
      ensures old(other.Valid()) ==> Valid()
    {
      var h, t, n := head, tail, size;
      ghost var sp, cs := spine, contents;
      head, tail, size, spine, contents := other.head, other.tail, other.size, other.spine, other.contents;
      other.head, other.tail, other.size, other.spine, other.contents := h, t, n, sp, cs;
    }

    /** Copy assignment: unless `other` is this queue, copy it with the copy
        constructor as written and swap the copy in, so the values are the
        other queue's and the tail is the first of them. */
    method Assign(other: Queue<T>)
      requires Sound() && other.Sound()
      modifies this
      ensures Sound() && contents == old(other.contents)
      ensures this != other ==> size == |contents| && tail == (if spine == [] then null else spine[0])
    {
      if this != other {
        var temp := new Queue.CopyAsWritten(other);
        Swap(temp);
      }
    }
  }

  /** The fault of the copy constructor: push `v` onto a copy of a queue of
      values `a`, `b`, ... and the copy holds `a`, `v` while its size says
      one more than the original's. */
  method PushOntoCopyAsWritten<T>(q: Queue<T>, v: T) returns (c: Queue<T>)
    requires q.Valid() && |q.contents| >= 2
    ensures c.Sound() && !c.Valid() && c.contents == [q.contents[0], v]
    ensures c.size == |q.contents| + 1 && c.size > |c.contents|
  {
    c := new Queue.CopyAsWritten(q);
    c.Push(v);
  }

  /** With the intended copy, a push onto the copy appends. */
  method PushOntoCopy<T>(q: Queue<T>, v: T) returns (c: Queue<T>)
    requires q.Valid()
    ensures c.Valid() && c.contents == q.contents + [v]
  {
    c := new Queue.Copy(q);
    c.Push(v);
  }
}
