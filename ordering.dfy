/** Orders and sorting as the C++ standard library provides them: the
    lexicographic order of `std::string` (`operator<`), the sorted
    permutation that `std::sort` produces, and the ascending walk over a
    `std::set`. */
module Ordering {

  /** A strict total order: irreflexive, transitive, and any two different
      values are comparable. */
  ghost predicate StrictTotalOrder<T(!new)>(less: (T, T) -> bool)
  {
    && (forall a :: !less(a, a))
    && (forall a, b, c :: less(a, b) && less(b, c) ==> less(a, c))
    && (forall a, b :: a != b ==> less(a, b) || less(b, a))
  }

  /** The lexicographic order of `std::string`, `std::vector` and
      `std::pair` comparisons: a proper prefix is smaller, otherwise the
      first differing element decides. */
  predicate LexLess<T(==)>(a: seq<T>, b: seq<T>, less: (T, T) -> bool)
    decreases |a|
  {
    if |a| == 0 then |b| > 0
    else if |b| == 0 then false
    else if a[0] != b[0] then less(a[0], b[0])
    else LexLess(a[1..], b[1..], less)
  }

  lemma {:induction false} LexIrreflexive<T(!new)>(a: seq<T>, less: (T, T) -> bool)
    ensures !LexLess(a, a, less)
    decreases |a|
  {
    if |a| > 0 {
      LexIrreflexive(a[1..], less);
    }
  }

  lemma {:induction false} LexTransitive<T(!new)>(a: seq<T>, b: seq<T>, c: seq<T>, less: (T, T) -> bool)
    requires StrictTotalOrder(less)
    requires LexLess(a, b, less) && LexLess(b, c, less)
    ensures LexLess(a, c, less)
    decreases |a|
  {
    if |a| > 0 && a[0] == b[0] && b[0] == c[0] {
      LexTransitive(a[1..], b[1..], c[1..], less);
    }
  }

  lemma {:induction false} LexTotal<T(!new)>(a: seq<T>, b: seq<T>, less: (T, T) -> bool)
    requires StrictTotalOrder(less) && a != b
    ensures LexLess(a, b, less) || LexLess(b, a, less)
    decreases |a|
  {
    if |a| > 0 && |b| > 0 && a[0] == b[0] {
      assert a == [a[0]] + a[1..] && b == [b[0]] + b[1..];
      LexTotal(a[1..], b[1..], less);
    }
  }

  predicate CharLess(x: char, y: char) { x < y }

  predicate IntLess(x: int, y: int) { x < y }

  /** `operator<` on strings (characters compared by code). */
  predicate StrLess(a: string, b: string)
  {
    LexLess(a, b, CharLess)
  }

  /** `operator<` on `std::vector<int>`. */
  predicate IntsLess(a: seq<int>, b: seq<int>)
  {
    LexLess(a, b, IntLess)
  }

  lemma StrLessIsStrictTotal()
    ensures StrictTotalOrder(StrLess)
  {
    assert StrictTotalOrder(CharLess);
    forall a: string
      ensures !StrLess(a, a)
    {
      LexIrreflexive(a, CharLess);
    }
    forall a: string, b: string, c: string | StrLess(a, b) && StrLess(b, c)
      ensures StrLess(a, c)
    {
      LexTransitive(a, b, c, CharLess);
    }
    forall a: string, b: string | a != b
      ensures StrLess(a, b) || StrLess(b, a)
    {
      LexTotal(a, b, CharLess);
    }
  }

  lemma IntsLessIsStrictTotal()
    ensures StrictTotalOrder(IntsLess)
  {
    assert StrictTotalOrder(IntLess);
    forall a: seq<int>
      ensures !IntsLess(a, a)
    {
      LexIrreflexive(a, IntLess);
    }
    forall a: seq<int>, b: seq<int>, c: seq<int> | IntsLess(a, b) && IntsLess(b, c)
      ensures IntsLess(a, c)
    {
      LexTransitive(a, b, c, IntLess);
    }
    forall a: seq<int>, b: seq<int> | a != b
      ensures IntsLess(a, b) || IntsLess(b, a)
    {
      LexTotal(a, b, IntLess);
    }
  }

  /** Strictly increasing under `less`. */
  predicate SortedBy<T>(s: seq<T>, less: (T, T) -> bool)
  {
    forall i, j :: 0 <= i < j < |s| ==> less(s[i], s[j])
  }

  /** No value occurs twice. */
  predicate Distinct<T(==)>(s: seq<T>)
  {
    forall i, j :: 0 <= i < j < |s| ==> s[i] != s[j]
  }

  /** `x` placed before the first element it is not greater than. */
  function InsertBy<T>(x: T, s: seq<T>, less: (T, T) -> bool): (r: seq<T>)
    ensures multiset(r) == multiset(s) + multiset{x}
    ensures |r| == |s| + 1
  {
    if s == [] then [x]
    else if less(s[0], x) then
      assert s == [s[0]] + s[1..];
      [s[0]] + InsertBy(x, s[1..], less)
    else [x] + s
  }

  lemma {:induction false} InsertByKeepsSorted<T(!new)>(x: T, s: seq<T>, less: (T, T) -> bool)
    requires StrictTotalOrder(less) && SortedBy(s, less) && x !in s
    ensures SortedBy(InsertBy(x, s, less), less)
  {
    if s != [] && less(s[0], x) {
      InsertByKeepsSorted(x, s[1..], less);
      var r := InsertBy(x, s[1..], less);
      forall j | 0 <= j < |r|
        ensures less(s[0], r[j])
      {
        assert r[j] in multiset(r);
        if r[j] != x {
          assert r[j] in multiset(s[1..]);
          var k :| 0 <= k < |s[1..]| && s[1..][k] == r[j];
          assert s[k + 1] == r[j];
        }
      }
    }
  }

  /** The sorted permutation of `s` (what `std::sort` leaves behind). */
  function SortBy<T>(s: seq<T>, less: (T, T) -> bool): (r: seq<T>)
    ensures multiset(r) == multiset(s)
    ensures |r| == |s|
  {
    if s == [] then []
    else
      assert s == [s[0]] + s[1..];
      InsertBy(s[0], SortBy(s[1..], less), less)
  }

  /** For a strict total order and distinct values, `SortBy` is strictly
      increasing and holds the same values. */
  lemma {:induction false} SortByIsSorted<T(!new)>(s: seq<T>, less: (T, T) -> bool)
    requires StrictTotalOrder(less) && Distinct(s)
    ensures SortedBy(SortBy(s, less), less)
    ensures forall x :: x in SortBy(s, less) <==> x in s
  {
    if s != [] {
      assert Distinct(s[1..]);
      SortByIsSorted(s[1..], less);
      assert s[0] !in s[1..];
      assert s[0] !in SortBy(s[1..], less) by {
        assert s[0] !in multiset(s[1..]);
      }
      InsertByKeepsSorted(s[0], SortBy(s[1..], less), less);
    }
    forall x
      ensures x in SortBy(s, less) <==> x in s
    {
      assert x in SortBy(s, less) <==> x in multiset(SortBy(s, less));
      assert x in s <==> x in multiset(s);
    }
  }

  /** No element is smaller than one before it: the order `std::sort` leaves
      among values that may repeat. */
  predicate NonDescending<T>(s: seq<T>, less: (T, T) -> bool)
  {
    forall i, j :: 0 <= i < j < |s| ==> !less(s[j], s[i])
  }

  lemma {:induction false} InsertByKeepsNonDescending<T(!new)>(x: T, s: seq<T>, less: (T, T) -> bool)
    requires StrictTotalOrder(less) && NonDescending(s, less)
    ensures NonDescending(InsertBy(x, s, less), less)
  {
    if s != [] {
      if less(s[0], x) {
        InsertByKeepsNonDescending(x, s[1..], less);
        var r := InsertBy(x, s[1..], less);
        forall j | 0 <= j < |r|
          ensures !less(r[j], s[0])
        {
          assert r[j] in multiset(r);
          if r[j] != x {
            assert r[j] in multiset(s[1..]);
            var k :| 0 <= k < |s[1..]| && s[1..][k] == r[j];
            assert s[k + 1] == r[j];
          }
        }
      } else {
        var r := [x] + s;
        forall j | 0 < j < |r|
          ensures !less(r[j], x)
        {
          assert r[j] == s[j - 1];
          if j > 1 {
            assert !less(s[j - 1], s[0]);
          }
        }
      }
    }
  }

  /** `SortBy` under a strict total order leaves values that may repeat in
      non-descending order. */
  lemma {:induction false} SortByIsNonDescending<T(!new)>(s: seq<T>, less: (T, T) -> bool)
    requires StrictTotalOrder(less)
    ensures NonDescending(SortBy(s, less), less)
  {
    if s != [] {
      SortByIsNonDescending(s[1..], less);
      InsertByKeepsNonDescending(s[0], SortBy(s[1..], less), less);
    }
  }

  /** Two strictly increasing sequences with the same elements are equal. */
  lemma {:induction false} SortedUnique<T(!new)>(a: seq<T>, b: seq<T>, less: (T, T) -> bool)
    requires StrictTotalOrder(less) && SortedBy(a, less) && SortedBy(b, less)
    requires forall x :: x in a <==> x in b
    ensures a == b
  {
    if a != [] {
      assert a[0] in a;
    }
    if b != [] {
      assert b[0] in b;
    }
    if a != [] && b != [] {
      assert a[0] == b[0] by {
        assert a[0] in b && b[0] in a;
      }
      forall x
        ensures x in a[1..] <==> x in b[1..]
      {
        if x in a[1..] {
          var k :| 0 <= k < |a[1..]| && a[1..][k] == x;
          assert less(a[0], a[k + 1]);
          assert x in b;
        }
        if x in b[1..] {
          var k :| 0 <= k < |b[1..]| && b[1..][k] == x;
          assert less(b[0], b[k + 1]);
          assert x in a;
        }
      }
      SortedUnique(a[1..], b[1..], less);
      assert a == [a[0]] + a[1..] && b == [b[0]] + b[1..];
    }
  }

  /** Some element of a non-empty set: the next one a loop over the set
      visits, in an order left unspecified. */
  method Pick<T>(s: set<T>) returns (x: T)
    requires s != {}
    ensures x in s
  {
    x :| x in s;
  }

  /** `m` is the least element of `s`. */
  ghost predicate IsLeast<T>(m: T, s: set<T>, less: (T, T) -> bool)
  {
    m in s && forall x :: x in s && x != m ==> less(m, x)
  }

  lemma {:induction false} LeastExists<T(!new)>(s: set<T>, less: (T, T) -> bool)
    requires StrictTotalOrder(less) && s != {}
    ensures exists m :: IsLeast(m, s, less)
    decreases |s|
  {
    var x :| x in s;
    var rest := s - {x};
    if rest == {} {
      assert s == {x};
      assert IsLeast(x, s, less);
    } else {
      LeastExists(rest, less);
      var m :| IsLeast(m, rest, less);
      if less(x, m) {
        forall y | y in s && y != x
          ensures less(x, y)
        {
          assert y in rest;
        }
        assert IsLeast(x, s, less);
      } else {
        assert IsLeast(m, s, less);
      }
    }
  }

  /** The least element of a non-empty finite set. */
  ghost function Least<T(!new)>(s: set<T>, less: (T, T) -> bool): (m: T)
    requires StrictTotalOrder(less) && s != {}
    ensures IsLeast(m, s, less)
  {
    LeastExists(s, less);
    var m :| IsLeast(m, s, less);
    m
  }

  /** The elements of a finite set in ascending order. */
  ghost function Ascending<T(!new)>(s: set<T>, less: (T, T) -> bool): seq<T>
    requires StrictTotalOrder(less)
    decreases |s|
  {
    if s == {} then []
    else
      var m := Least(s, less);
      [m] + Ascending(s - {m}, less)
  }

  /** The ascending listing is strictly increasing, as long as the set, and
      holds exactly the set's elements. */
  lemma {:induction false} AscendingFacts<T(!new)>(s: set<T>, less: (T, T) -> bool)
    requires StrictTotalOrder(less)
    ensures SortedBy(Ascending(s, less), less)
    ensures |Ascending(s, less)| == |s|
    ensures forall x :: x in Ascending(s, less) <==> x in s
    decreases |s|
  {
    if s != {} {
      var m := Least(s, less);
      var rest := Ascending(s - {m}, less);
      AscendingFacts(s - {m}, less);
      var r := Ascending(s, less);
      assert r == [m] + rest;
      forall i, j | 0 <= i < j < |r|
        ensures less(r[i], r[j])
      {
        assert r[j] == rest[j - 1];
        if i > 0 {
          assert r[i] == rest[i - 1];
        } else {
          assert rest[j - 1] in s - {m};
        }
      }
    }
  }

  /** The elements of a finite set in ascending order: the walk over a
      `std::set` from `cbegin()` to `cend()`. */
  method SetToSorted<T(==, !new)>(s: set<T>, less: (T, T) -> bool) returns (r: seq<T>)
    requires StrictTotalOrder(less)
    ensures r == Ascending(s, less)
    ensures SortedBy(r, less) && Distinct(r) && |r| == |s|
    ensures forall x :: x in r <==> x in s
  {
    var listed: seq<T> := [];
    var rest := s;
    while rest != {}
      invariant rest <= s && Distinct(listed)
      invariant forall x :: x in listed <==> x in s && x !in rest
      invariant |listed| + |rest| == |s|
      decreases |rest|
    {
      var x :| x in rest;
      listed := listed + [x];
      rest := rest - {x};
    }
    SortByIsSorted(listed, less);
    r := SortBy(listed, less);
    DistinctOfSorted(r, less);
    AscendingFacts(s, less);
    SortedUnique(r, Ascending(s, less), less);
  }

  lemma DistinctOfSorted<T(!new)>(s: seq<T>, less: (T, T) -> bool)
    requires StrictTotalOrder(less) && SortedBy(s, less)
    ensures Distinct(s)
  {
  }
}
