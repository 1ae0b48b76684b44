/** A singly linked list with a head, a tail and a size (`ForwardList`),
    whose nodes hold their value and the link to the next node, and its
    in-place bubble sort. The nodes a list owns, in order from the head, are
    its ghost `spine`, and the values they hold are its ghost `contents`. */
module ForwardLists {
  import opened Wrappers
  import opened Ordering

  /** `ListNode`: a value and the link to the next node. */
  class Node<T> {
    var data: T
    var next: Node?<T>

    constructor (v: T)
      ensures data == v && next == null
    {
      data := v;
      next := null;
    }
  }

  // ---------------------------------------------------------------------
  // The sequence view of the sort

  /** No adjacent pair is out of order under `comp`: what a pass of the
      bubble sort without a swap leaves. */
  predicate AdjacentSorted<T>(s: seq<T>, comp: (T, T) -> bool)
  {
    forall k :: 0 <= k < |s| - 1 ==> !comp(s[k + 1], s[k])
  }

  /** `comp` never holds both ways, as a strict weak ordering demands. */
  ghost predicate Asymmetric<T(!new)>(comp: (T, T) -> bool)
  {
    forall a, b :: comp(a, b) ==> !comp(b, a)
  }

  /** Not going before is transitive, as it is for a strict weak ordering. */
  ghost predicate NotBeforeTransitive<T(!new)>(comp: (T, T) -> bool)
  {
    forall a, b, c :: !comp(b, a) && !comp(c, b) ==> !comp(c, a)
  }

  /** The number of elements of `t` that `comp` puts before `x`. */
  function Below<T>(x: T, t: seq<T>, comp: (T, T) -> bool): nat
    decreases |t|
  {
    if t == [] then 0 else (if comp(t[0], x) then 1 else 0) + Below(x, t[1..], comp)
  }

  /** The pairs of positions whose elements `comp` says are in the wrong
      order. */
  function Inversions<T>(s: seq<T>, comp: (T, T) -> bool): nat
    decreases |s|
  {
    if s == [] then 0 else Below(s[0], s[1..], comp) + Inversions(s[1..], comp)
  }

  /** `std::swap(*prev, *curr)` on the values of positions `k` and `k + 1`. */
  function SwapNext<T>(s: seq<T>, k: nat): (r: seq<T>)
    requires k + 1 < |s|
    ensures |r| == |s| && r[k] == s[k + 1] && r[k + 1] == s[k]
    ensures forall j :: 0 <= j < |s| && j != k && j != k + 1 ==> r[j] == s[j]
    ensures multiset(r) == multiset(s)
  {
    s[k := s[k + 1]][k + 1 := s[k]]
  }

  /** Exchanging two neighbours changes no count of the elements below a
      value. */
  lemma {:induction false} BelowOfSwap<T>(x: T, t: seq<T>, k: nat, comp: (T, T) -> bool)
    requires k + 1 < |t|
    ensures Below(x, SwapNext(t, k), comp) == Below(x, t, comp)
    decreases k
  {
    var u := SwapNext(t, k);
    if k == 0 {
      assert u[1..][1..] == t[1..][1..];
    } else {
      assert u[1..] == SwapNext(t[1..], k - 1);
      BelowOfSwap(x, t[1..], k - 1, comp);
    }
  }

  /** Each swap the sort makes removes exactly one inversion: this is why
      the passes come to an end. */
  lemma {:induction false} SwapRemovesInversion<T(!new)>(s: seq<T>, k: nat, comp: (T, T) -> bool)
    requires Asymmetric(comp)
    requires k + 1 < |s| && comp(s[k + 1], s[k])
    ensures Inversions(SwapNext(s, k), comp) + 1 == Inversions(s, comp)
    decreases k
  {
    var u := SwapNext(s, k);
    if k == 0 {
      var t := s[2..];
      assert s[1..][1..] == t && u[1..][1..] == t;
      assert !comp(s[0], s[1]);
    } else {
      assert u[1..] == SwapNext(s[1..], k - 1);
      BelowOfSwap(s[0], s[1..], k - 1, comp);
      SwapRemovesInversion(s[1..], k - 1, comp);
    }
  }

  /** Under a strict weak ordering, a list whose neighbours are in order is
      in order throughout. */
  lemma {:induction false} AdjacentSortedIsSorted<T(!new)>(s: seq<T>, comp: (T, T) -> bool)
    requires NotBeforeTransitive(comp)
    requires AdjacentSorted(s, comp)
    ensures NonDescending(s, comp)
    decreases |s|
  {
    if |s| > 1 {
      AdjacentSortedIsSorted(s[1..], comp);
      forall i, j | 0 <= i < j < |s|
        ensures !comp(s[j], s[i])
      {
        if i > 0 {
          assert s[j] == s[1..][j - 1] && s[i] == s[1..][i - 1];
        } else if j > 1 {
          assert s[j] == s[1..][j - 1] && s[1] == s[1..][0];
          assert !comp(s[1], s[0]);
        }
      }
    }
  }

  // ---------------------------------------------------------------------
  // The list

  class ForwardList<T(!new)> {
    var head: Node?<T>
    var tail: Node?<T>
    var size: nat
    ghost var spine: seq<Node<T>>
    ghost var contents: seq<T>

    /** The nodes are linked in order from the head to the tail, the tail
        links to nothing, no node occurs twice, and the size counts them. */
    ghost predicate Valid()
      reads this, spine
    {
      && |spine| == size && |contents| == size
      && (size == 0 ==> head == null && tail == null)
      && (size > 0 ==> head == spine[0] && tail == spine[size - 1] && tail.next == null)
      && (forall k :: 0 <= k < |spine| ==> spine[k].data == contents[k])
      && (forall k :: 0 <= k < |spine| - 1 ==> spine[k].next == spine[k + 1])
      && (forall i, j :: 0 <= i < j < |spine| ==> spine[i] != spine[j])
    }

    /** The empty list. */
    constructor ()
      ensures Valid() && contents == [] && spine == []
    {
      head, tail, size := null, null, 0;
      spine, contents := [], [];
    }

    /** The copy constructor: `addToBack` of each value of `other` in order,
        on new nodes. */
    constructor Copy(other: ForwardList<T>)
      requires other.Valid()
      ensures Valid() && contents == other.contents
      ensures forall k :: 0 <= k < |spine| ==> fresh(spine[k])
    {
      head, tail, size := null, null, 0;
      spine, contents := [], [];
      new;
      var p := other.head;
      ghost var i := 0;
      while p != null
        invariant Valid() && other.Valid()
        invariant i <= |other.spine| && contents == other.contents[..i]
        invariant p == (if i < |other.spine| then other.spine[i] else null)
        invariant forall k :: 0 <= k < |spine| ==> fresh(spine[k])
        decreases |other.spine| - i
      {
        assert other.contents[..i + 1] == other.contents[..i] + [p.data];
        AddToBack(p.data);
        p := p.next;
        i := i + 1;
      }
      assert other.contents[..i] == other.contents;
    }

    /** `isEmpty`: there are no values exactly when the size is 0. */
    function IsEmpty(): (b: bool)
      reads this, spine
      requires Valid()
      ensures b <==> contents == []
    {
      size == 0
    }

    function GetSize(): (n: nat)
      reads this, spine
      requires Valid()
      ensures n == |contents|
    {
      size
    }

    /** `getFront`: the first value, or `logic_error` on an empty list. */
    function GetFront(): (r: Result<T>)
      reads this, spine
      requires Valid()
      ensures contents == [] <==> r == Throws(LogicError)
      ensures contents != [] ==> r == Ok(contents[0])
    {
      if size == 0 then Throws(LogicError) else Ok(head.data)
    }

    /** `getBack`: the last value, or `logic_error` on an empty list. */
    function GetBack(): (r: Result<T>)
      reads this, spine
      requires Valid()
      ensures contents == [] <==> r == Throws(LogicError)
      ensures contents != [] ==> r == Ok(contents[|contents| - 1])
    {
      if size == 0 then Throws(LogicError) else Ok(tail.data)
    }

    /** `addToFront` through `insertFrontNode`: a new node before the head;
        the first node of an empty list is also its tail. */
    method AddToFront(v: T)
      requires Valid()
      modifies this
      ensures Valid() && contents == [v] + old(contents)
      ensures spine[1..] == old(spine) && fresh(spine[0])
    {
      var n := new Node(v);
      n.next := head;
      head := n;
      if size == 0 {
        tail := n;
      }
      size := size + 1;
      spine := [n] + spine;
      contents := [v] + contents;
    }

    /** `addToBack` through `insertBackNode`: a new node after the tail. */
    method AddToBack(v: T)
      requires Valid()
      modifies this, spine
      ensures Valid() && contents == old(contents) + [v]
      ensures spine[..|spine| - 1] == old(spine) && fresh(spine[|spine| - 1])
    {
      var n := new Node(v);
      if size == 0 {
        head, tail := n, n;
      } else {
        tail.next := n;
        tail := n;
      }
      size := size + 1;
      spine := spine + [n];
      contents := contents + [v];
    }

    /** `removeFront`: drop the first node; the tail goes with the last
        node; an empty list is left as it is. */
    method RemoveFront()
      requires Valid()
      modifies this
      ensures Valid()
      ensures contents == if old(contents) == [] then [] else old(contents)[1..]
      ensures spine == if old(spine) == [] then [] else old(spine)[1..]
    {
      if size != 0 {
        head := head.next;
        size := size - 1;
        if size == 0 {
          tail := null;
        }
        spine := spine[1..];
        contents := contents[1..];
      }
    }

    /** `clearAll`: `removeFront` until the list is empty. */
    method ClearAll()
      requires Valid()
      modifies this
      ensures Valid() && contents == [] && size == 0
    {
      while !IsEmpty()
        invariant Valid()
        decreases size
      {
        RemoveFront();
      }
    }

    /** `swapLists`: exchange the head, the tail and the size. */
    method SwapLists(other: ForwardList<T>)
      requires Valid() && other.Valid()
      modifies this, other
      ensures Valid() && other.Valid()
      ensures contents == old(other.contents) && other.contents == old(contents)
      ensures spine == old(other.spine) && other.spine == old(spine)
    {
      var h, t, n := head, tail, size;
      ghost var sp, cs := spine, contents;
      head, tail, size, spine, contents := other.head, other.tail, other.size, other.spine, other.contents;
      other.head, other.tail, other.size, other.spine, other.contents := h, t, n, sp, cs;
    }

    /** Copy assignment: unless `other` is this list, copy it and swap the
        copy in. */
    method Assign(other: ForwardList<T>)
      requires Valid() && other.Valid()
      modifies this
      ensures Valid() && contents == old(other.contents)
    {
      if this != other {
        var temp := new ForwardList.Copy(other);
        SwapLists(temp);
      }
    }

    /** `sort(comp)`: passes of the bubble sort, each exchanging the values
        of neighbours that `comp` says are the wrong way round, until a pass
        exchanges nothing. The nodes and their links stay as they are; the
        values end as a permutation of those before, with no neighbours out
        of order. */
    method Sort(comp: (T, T) -> bool)
      requires Valid() && Asymmetric(comp)
      modifies this, spine
      ensures Valid() && spine == old(spine)
      ensures multiset(contents) == multiset(old(contents))
      ensures AdjacentSorted(contents, comp)
      ensures |old(contents)| < 2 ==> contents == old(contents)
    {
      if size < 2 {
        return;
      }
      var swapped := true;
      while swapped
        invariant Valid() && spine == old(spine) && size >= 2
        invariant multiset(contents) == multiset(old(contents))
        invariant !swapped ==> AdjacentSorted(contents, comp)
        decreases Inversions(contents, comp) + (if swapped then 1 else 0)
      {
        swapped := Pass(comp);
      }
    }

    /** One pass of the do-while loop of `sort`: `prev` and `curr` walk the
        neighbouring nodes from the head, and the values of a pair are
        exchanged when `comp(*curr, *prev)`. A pass that exchanges something
        removes inversions; one that exchanges nothing has found the list in
        order. */
    method Pass(comp: (T, T) -> bool) returns (swapped: bool)
      requires Valid() && Asymmetric(comp) && size >= 2
      modifies this, spine
      ensures Valid() && spine == old(spine) && size == old(size)
      ensures multiset(contents) == multiset(old(contents))
      ensures swapped ==> Inversions(contents, comp) < Inversions(old(contents), comp)
      ensures !swapped ==> contents == old(contents) && AdjacentSorted(contents, comp)
    {
      swapped := false;
      var prev := head;
      var curr := head.next;
      ghost var i := 0;
      while curr != null
        invariant Valid() && spine == old(spine) && size == old(size)
        invariant i + 1 <= size && prev == spine[i]
        invariant curr == if i + 1 < size then spine[i + 1] else null
        invariant multiset(contents) == multiset(old(contents))
        invariant swapped ==> Inversions(contents, comp) < Inversions(old(contents), comp)
        invariant !swapped ==> contents == old(contents)
        invariant !swapped ==> forall k :: 0 <= k < i ==> !comp(contents[k + 1], contents[k])
        decreases size - i
      {
        if comp(curr.data, prev.data) {
          SwapRemovesInversion(contents, i, comp);
          Exchange(prev, curr, i);
          swapped := true;
        }
        prev := curr;
        curr := curr.next;
        i := i + 1;
      }
    }

    /** `std::swap(*prev, *curr)` on the values of the nodes at positions `i`
        and `i + 1`. */
    method Exchange(prev: Node<T>, curr: Node<T>, ghost i: nat)
      requires Valid() && i + 1 < size && prev == spine[i] && curr == spine[i + 1]
      modifies this, prev, curr
      ensures Valid() && spine == old(spine) && size == old(size)
      ensures head == old(head) && tail == old(tail)
      ensures contents == SwapNext(old(contents), i)
    {
      prev.data, curr.data := curr.data, prev.data;
      contents := SwapNext(contents, i);
    }
  }
}
