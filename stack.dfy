/** `Stack`: a stack on singly linked nodes, the top at the head. The nodes
    from the head down are the ghost `spine`, and their values, top first,
    the ghost `contents`. */
module LinkedStack {
  import opened Wrappers

  /** A value and the link to the node below it. */
  class Node<T> {
    const data: T
    var next: Node?<T>

    constructor (d: T, n: Node?<T>)
      ensures data == d && next == n
    {
      data := d;
      next := n;
    }
  }

  class Stack<T> {
    var head: Node?<T>
    var size: nat
    ghost var spine: seq<Node<T>>
    ghost var contents: seq<T>

    /** The nodes are linked in order from the head, the last links to
        nothing, no node occurs twice, and the size counts them. */
    ghost predicate Valid()
      reads this, spine
    {
      && |spine| == size && |contents| == size
      && head == (if size == 0 then null else spine[0])
      && (size > 0 ==> spine[size - 1].next == null)
      && (forall k :: 0 <= k < |spine| ==> spine[k].data == contents[k])
      && (forall k :: 0 <= k < |spine| - 1 ==> spine[k].next == spine[k + 1])
      && (forall i, j :: 0 <= i < j < |spine| ==> spine[i] != spine[j])
    }

    /** The empty stack. */
    constructor ()
      ensures Valid() && contents == []
    {
      head, size := null, 0;
      spine, contents := [], [];
    }

    /** The copy constructor: a new node for each node of `other`, from the
        top down, each linked below the one made before it. */
    constructor Copy(other: Stack<T>)
      requires other.Valid()
      ensures Valid() && contents == other.contents
      ensures forall k :: 0 <= k < |spine| ==> fresh(spine[k])
    {
      head, size := null, 0;
      spine, contents := [], [];
      new;
      var src := other.head;
      var last: Node?<T> := null;
      ghost var i := 0;
      while src != null
        invariant Valid() && other.Valid()
        invariant i == size && i <= |other.spine| && contents == other.contents[..i]
        invariant src == (if i < |other.spine| then other.spine[i] else null)
        invariant last == (if size == 0 then null else spine[size - 1])
        invariant forall k :: 0 <= k < |spine| ==> fresh(spine[k])
        decreases |other.spine| - i
      {
        assert other.contents[..i + 1] == other.contents[..i] + [src.data];
        last := Link(last, src.data);
        src := src.next;
        i := i + 1;
      }
      assert other.contents[..i] == other.contents;
    }

    /** One step of the copy: `*current = new Node(src->data)` stores the
        new node in the head or in the link of the last node, which
        `current` points at; then `current` moves to the new node's link. */
    method Link(last: Node?<T>, v: T) returns (n: Node<T>)
      requires Valid() && last == (if size == 0 then null else spine[size - 1])
      modifies this, last
      ensures Valid() && contents == old(contents) + [v]
      ensures spine == old(spine) + [n] && fresh(n)
    {
      n := new Node(v, null);
      if last == null {
        head := n;
      } else {
        last.next := n;
      }
      size := size + 1;
      spine := spine + [n];
      contents := contents + [v];
    }

    /** `push`: a new node on top. */
    method Push(v: T)
      requires Valid()
      modifies this
      ensures Valid() && contents == [v] + old(contents)
      ensures spine[1..] == old(spine) && fresh(spine[0])
    {
      head := new Node(v, head);
      size := size + 1;
      spine := [head] + spine;
      contents := [v] + contents;
    }

    /** `pop`: the top node goes; `logic_error` on an empty stack, which
        is then left as it is. */
    method Pop() returns (r: Outcome)
      requires Valid()
      modifies this
      ensures Valid()
      ensures old(contents) == [] ==> r == Failed(LogicError) && contents == []
      ensures old(contents) != [] ==> r == Done && contents == old(contents)[1..]
    {
      if head == null {
        return Failed(LogicError);
      }
      head := head.next;
      size := size - 1;
      spine := spine[1..];
      contents := contents[1..];
      r := Done;
    }

    /** `top`: the value of the top node, or `logic_error`. */
    function Top(): (r: Result<T>)
      reads this, spine
      requires Valid()
      ensures contents == [] <==> r == Throws(LogicError)
      ensures contents != [] ==> r == Ok(contents[0])
    {
      if head == null then Throws(LogicError) else Ok(head.data)
    }

    function Size(): (n: nat)
      reads this, spine
      requires Valid()
      ensures n == |contents|
    {
      size
    }

    /** `empty`: the size is 0 exactly when there are no values. */
    function Empty(): (b: bool)
      reads this, spine
      requires Valid()
      ensures b <==> contents == []
    {
      size == 0
    }

    /** `swap`: exchange the heads and the sizes. */
    method Swap(other: Stack<T>)
      requires Valid() && other.Valid()
      modifies this, other
      ensures Valid() && other.Valid()
      ensures contents == old(other.contents) && other.contents == old(contents)
      ensures spine == old(other.spine) && other.spine == old(spine)
    {
      var h, n := head, size;
      ghost var sp, cs := spine, contents;
      head, size, spine, contents := other.head, other.size, other.spine, other.contents;
      other.head, other.size, other.spine, other.contents := h, n, sp, cs;
    }

    /** Copy assignment: unless `other` is this stack, copy it and swap the
        copy in. */
    method Assign(other: Stack<T>)
      requires Valid() && other.Valid()
      modifies this
      ensures Valid() && contents == old(other.contents)
    {
      if this != other {
        var temp := new Stack.Copy(other);
        Swap(temp);
      }
    }
  }

  /** What the values on top say about the order of pops: the last value
      pushed is the first one popped. */
  method PushThenPop<T>(s: Stack<T>, v: T) returns (top: Result<T>)
    requires s.Valid()
    modifies s
    ensures top == Ok(v)
    ensures s.Valid() && s.contents == old(s.contents)
  {
    s.Push(v);
    top := s.Top();
    var r := s.Pop();
    assert r == Done;
  }
}
