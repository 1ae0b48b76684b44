/** The directed multigraph of the graph tool: every ordered vertex pair
    `(from, to)` maps to the list of its edge weights, in insertion order,
    and a separate ordered set holds the vertex names. The edge store is the
    open-addressing table of `HashTable`; here it is taken through its
    intended meaning, a finite map. */
module Graph {
  import opened Ordering

  type Edge = (string, string)

  /** The weights stored for an edge, or none. */
  function Weights(edges: map<Edge, seq<int>>, e: Edge): seq<int>
  {
    if e in edges then edges[e] else []
  }

  /** The invariant every operation keeps: no stored weight list is empty,
      and both endpoints of every stored edge are vertexes. */
  ghost predicate WellFormed(edges: map<Edge, seq<int>>, vertexes: set<string>)
  {
    forall e :: e in edges ==> edges[e] != [] && e.0 in vertexes && e.1 in vertexes
  }

  /** `std::find`: the index of the first occurrence of `w`, or `|s|`. */
  function FirstIndex(s: seq<int>, w: int): (i: nat)
    ensures i <= |s|
    ensures i < |s| ==> s[i] == w
    ensures forall j :: 0 <= j < i ==> s[j] != w
    ensures i == |s| <==> w !in s
  {
    if s == [] then 0
    else if s[0] == w then 0
    else 1 + FirstIndex(s[1..], w)
  }

  /** The list without the first occurrence of `w` (`vec.erase(pos)`). */
  function RemoveFirst(s: seq<int>, w: int): seq<int>
  {
    var i := FirstIndex(s, w);
    if i < |s| then s[..i] + s[i + 1..] else s
  }

  /** Removing the first occurrence removes exactly one `w`, keeps every
      other weight, and keeps the order of what remains. */
  lemma RemoveFirstDropsOne(s: seq<int>, w: int)
    ensures w in s ==> multiset(RemoveFirst(s, w)) == multiset(s) - multiset{w}
    ensures w in s ==> |RemoveFirst(s, w)| == |s| - 1
    ensures w !in s ==> RemoveFirst(s, w) == s
  {
    if w in s {
      var i := FirstIndex(s, w);
      var a, b := s[..i], s[i + 1..];
      assert s == a + ([w] + b);
      assert RemoveFirst(s, w) == a + b;
      assert multiset(s) == multiset(a) + (multiset{w} + multiset(b));
    }
  }

  /** Adding a weight and then deleting that weight leaves the same multiset
      of weights (possibly in another order: the first occurrence is the one
      removed). */
  lemma AddThenDeleteKeepsMultiset(s: seq<int>, w: int)
    ensures multiset(RemoveFirst(s + [w], w)) == multiset(s)
  {
    assert w in s + [w] by {
      assert (s + [w])[|s|] == w;
    }
    RemoveFirstDropsOne(s + [w], w);
    assert multiset(s + [w]) == multiset(s) + multiset{w};
  }

  /** The edge store after `delete_edge(from, to, w)`. */
  function DeleteWeight(edges: map<Edge, seq<int>>, e: Edge, w: int): map<Edge, seq<int>>
  {
    if e in edges && w in edges[e] then
      var rest := RemoveFirst(edges[e], w);
      if rest == [] then edges - {e} else edges[e := rest]
    else edges
  }

  /** Deleting a weight removes exactly one occurrence from that edge's list,
      drops the edge when no weight is left, and changes nothing when the
      weight is not stored for that edge. */
  lemma DeleteWeightOnEdge(edges: map<Edge, seq<int>>, e: Edge, w: int)
    ensures w in Weights(edges, e) ==>
              multiset(Weights(DeleteWeight(edges, e, w), e)) == multiset(Weights(edges, e)) - multiset{w}
    ensures w !in Weights(edges, e) ==> DeleteWeight(edges, e, w) == edges
    ensures e in DeleteWeight(edges, e, w) <==> e in edges && (w !in edges[e] || |edges[e]| > 1)
  {
    RemoveFirstDropsOne(Weights(edges, e), w);
  }

  /** Deleting a weight touches no other edge and keeps the invariant. */
  lemma DeleteWeightElsewhere(edges: map<Edge, seq<int>>, vertexes: set<string>, e: Edge, w: int)
    requires WellFormed(edges, vertexes)
    ensures WellFormed(DeleteWeight(edges, e, w), vertexes)
    ensures forall d :: d != e ==> Weights(DeleteWeight(edges, e, w), d) == Weights(edges, d)
  {
  }

  /** The edge store after `merge(other)`: each edge's weights are its own
      followed by the other graph's. */
  ghost function Merged(a: map<Edge, seq<int>>, b: map<Edge, seq<int>>): map<Edge, seq<int>>
  {
    map e | e in a.Keys + b.Keys :: Weights(a, e) + Weights(b, e)
  }

  /** The edges of `edges` whose endpoints are both in `keep`. */
  ghost function Induced(edges: map<Edge, seq<int>>, keep: set<string>): map<Edge, seq<int>>
  {
    map e | e in edges && e.0 in keep && e.1 in keep :: edges[e]
  }

  /** The vertexes that are endpoints of some stored edge. */
  ghost function Endpoints(edges: map<Edge, seq<int>>): set<string>
  {
    (set e | e in edges :: e.0) + (set e | e in edges :: e.1)
  }

  /** The edge store part-way through `merge`: the edges in `done` have the
      other graph's weights appended. */
  ghost function MergedPart(a: map<Edge, seq<int>>, b: map<Edge, seq<int>>, done: set<Edge>): map<Edge, seq<int>>
  {
    map e | e in a.Keys + done :: Weights(a, e) + (if e in done then Weights(b, e) else [])
  }

  /** One turn of the `merge` loop: edge `e`, not yet visited, gets the
      other graph's weights appended. */
  lemma MergedPartStep(m: map<Edge, seq<int>>, a: map<Edge, seq<int>>, b: map<Edge, seq<int>>, rest: set<Edge>, e: Edge)
    requires rest <= b.Keys && e in rest
    requires m == MergedPart(a, b, b.Keys - rest)
    ensures m[e := Weights(m, e) + b[e]] == MergedPart(a, b, b.Keys - (rest - {e}))
  {
    var done := b.Keys - rest;
    assert b.Keys - (rest - {e}) == done + {e};
    var n := MergedPart(a, b, done + {e});
    assert Weights(m, e) == Weights(a, e) by {
      if e in a {
        assert m[e] == Weights(a, e) + [];
      }
    }
    assert m[e := Weights(m, e) + b[e]].Keys == n.Keys;
  }

  lemma MergedPartStart(a: map<Edge, seq<int>>, b: map<Edge, seq<int>>)
    ensures MergedPart(a, b, b.Keys - b.Keys) == a
  {
    assert b.Keys - b.Keys == {};
    var m := MergedPart(a, b, {});
    forall e | e in a
      ensures m[e] == a[e]
    {
      assert m[e] == a[e] + [];
    }
  }

  lemma MergedPartDone(m: map<Edge, seq<int>>, a: map<Edge, seq<int>>, b: map<Edge, seq<int>>, rest: set<Edge>)
    requires rest == {} && m == MergedPart(a, b, b.Keys - rest)
    ensures m == Merged(a, b)
  {
    assert b.Keys - rest == b.Keys;
  }

  /** The edge store part-way through `extract`: the visited edges inside
      `keep`. */
  ghost function InducedPart(source: map<Edge, seq<int>>, keep: set<string>, done: set<Edge>): map<Edge, seq<int>>
  {
    map e | e in source && e in done && e.0 in keep && e.1 in keep :: source[e]
  }

  /** One turn of the `extract` loop: edge `e` is copied when both its
      endpoints are kept, and skipped otherwise. */
  lemma InducedPartStep(m: map<Edge, seq<int>>, source: map<Edge, seq<int>>, keep: set<string>, rest: set<Edge>, e: Edge)
    requires rest <= source.Keys && e in rest
    requires m == InducedPart(source, keep, source.Keys - rest)
    ensures e.0 in keep && e.1 in keep ==>
              m[e := source[e]] == InducedPart(source, keep, source.Keys - (rest - {e}))
    ensures !(e.0 in keep && e.1 in keep) ==>
              m == InducedPart(source, keep, source.Keys - (rest - {e}))
  {
    assert source.Keys - (rest - {e}) == (source.Keys - rest) + {e};
  }

  lemma InducedPartStart(source: map<Edge, seq<int>>, keep: set<string>)
    ensures InducedPart(source, keep, source.Keys - source.Keys) == map[]
  {
    assert source.Keys - source.Keys == {};
  }

  lemma InducedPartDone(m: map<Edge, seq<int>>, source: map<Edge, seq<int>>, keep: set<string>, rest: set<Edge>)
    requires rest == {} && m == InducedPart(source, keep, source.Keys - rest)
    ensures m == Induced(source, keep)
  {
    assert source.Keys - rest == source.Keys;
  }

  /** Collecting the endpoints of one more edge, one endpoint at a time. */
  lemma EndpointsAdd(edges: map<Edge, seq<int>>, ends: set<string>, e: Edge, x: seq<int>)
    requires ends == Endpoints(edges)
    ensures ends + {e.0} + {e.1} == Endpoints(edges[e := x])
  {
    assert e in edges[e := x];
  }

  /** Merging two well-formed graphs yields a well-formed graph whose weights
      for every edge are the concatenation of the two lists. */
  lemma MergedFacts(a: map<Edge, seq<int>>, va: set<string>, b: map<Edge, seq<int>>, vb: set<string>)
    requires WellFormed(a, va) && WellFormed(b, vb)
    ensures WellFormed(Merged(a, b), va + vb)
    ensures forall e :: Weights(Merged(a, b), e) == Weights(a, e) + Weights(b, e)
  {
  }

  /** The induced edge store keeps exactly the edges inside `keep` with their
      weights, and its endpoints all lie in `keep`. */
  lemma InducedFacts(edges: map<Edge, seq<int>>, vertexes: set<string>, keep: set<string>)
    requires WellFormed(edges, vertexes)
    ensures WellFormed(Induced(edges, keep), Endpoints(Induced(edges, keep)))
    ensures Endpoints(Induced(edges, keep)) <= keep
    ensures forall e :: Weights(Induced(edges, keep), e) == if e.0 in keep && e.1 in keep then Weights(edges, e) else []
  {
    var m := Induced(edges, keep);
    forall e | e in m
      ensures e.0 in Endpoints(m) && e.1 in Endpoints(m)
    {
    }
  }

  /** `std::pair` order on `(to, weights)`. */
  predicate PairLess(p: (string, seq<int>), q: (string, seq<int>))
  {
    StrLess(p.0, q.0) || (p.0 == q.0 && IntsLess(p.1, q.1))
  }

  lemma PairLessIsStrictTotal()
    ensures StrictTotalOrder(PairLess)
  {
    StrLessIsStrictTotal();
    IntsLessIsStrictTotal();
  }

  class Graph {
    var edges: map<Edge, seq<int>>
    var vertexes: set<string>

    ghost predicate Valid()
      reads this
    {
      WellFormed(edges, vertexes)
    }

    constructor ()
      ensures Valid() && edges == map[] && vertexes == {}
    {
      edges := map[];
      vertexes := {};
    }

    /** getEdges: the stored weights, or the empty list for an absent edge;
        by the invariant the result is empty exactly for absent edges. */
    function GetEdges(from: string, to: string): (r: seq<int>)
      reads this
      ensures (from, to) in edges ==> r == edges[(from, to)]
      ensures (from, to) !in edges ==> r == []
      ensures Valid() ==> (r == [] <==> (from, to) !in edges)
    {
      Weights(edges, (from, to))
    }

    /** has_vertex: membership in the vertex set. */
    function HasVertex(vertex: string): (r: bool)
      reads this
      ensures r <==> vertex in vertexes
    {
      vertex in vertexes
    }

    /** add_edge: the weight goes to the end of the edge's list (created
        empty when absent), and both endpoints become vertexes. */
    method AddEdge(from: string, to: string, weight: int)
      requires Valid()
      modifies this
      ensures Valid()
      ensures edges == old(edges)[(from, to) := old(GetEdges(from, to)) + [weight]]
      ensures GetEdges(from, to) == old(GetEdges(from, to)) + [weight]
      ensures vertexes == old(vertexes) + {from, to}
    {
      var list := Weights(edges, (from, to));
      edges := edges[(from, to) := list + [weight]];
      vertexes := vertexes + {from};
      vertexes := vertexes + {to};
    }

    /** add_vertex: the name joins the vertex set. */
    method AddVertex(vertex: string)
      requires Valid()
      modifies this
      ensures Valid() && edges == old(edges) && vertexes == old(vertexes) + {vertex}
    {
      vertexes := vertexes + {vertex};
    }

    /** delete_edge: the first occurrence of the weight is removed; the edge
        goes when its list becomes empty; an absent edge or weight changes
        nothing; vertexes are never removed. */
    method DeleteEdge(from: string, to: string, weight: int)
      requires Valid()
      modifies this
      ensures Valid()
      ensures edges == DeleteWeight(old(edges), (from, to), weight)
      ensures vertexes == old(vertexes)
    {
      DeleteWeightElsewhere(edges, vertexes, (from, to), weight);
      if (from, to) in edges {
        var list := edges[(from, to)];
        var pos := FirstIndex(list, weight);
        if pos != |list| {
          list := list[..pos] + list[pos + 1..];
          edges := edges[(from, to) := list];
          if list == [] {
            edges := edges - {(from, to)};
          }
        }
      }
    }

    /** get_vertexes: the vertex set in ascending order, without repeats. */
    method GetVertexes() returns (r: seq<string>)
      ensures SortedBy(r, StrLess) && Distinct(r) && |r| == |vertexes|
      ensures forall v :: v in r <==> v in vertexes
    {
      StrLessIsStrictTotal();
      r := SetToSorted(vertexes, StrLess);
    }

    /** get_outbound: one `(to, weights)` pair per stored edge leaving
        `vertex`, collected in table order and then sorted. */
    method GetOutbound(vertex: string) returns (r: seq<(string, seq<int>)>)
      ensures SortedBy(r, PairLess)
      ensures forall p :: p in r <==> (vertex, p.0) in edges && edges[(vertex, p.0)] == p.1
    {
      var collected: seq<(string, seq<int>)> := [];
      var rest := edges.Keys;
      while rest != {}
        invariant rest <= edges.Keys && Distinct(collected)
        invariant forall p :: p in collected <==>
                    (vertex, p.0) in edges && (vertex, p.0) !in rest && edges[(vertex, p.0)] == p.1
        decreases |rest|
      {
        var e := Pick(rest);
        if e.0 == vertex {
          collected := collected + [(e.1, edges[e])];
        }
        rest := rest - {e};
      }
      PairLessIsStrictTotal();
      SortByIsSorted(collected, PairLess);
      r := SortBy(collected, PairLess);
    }

    /** get_inbound: one `(from, weights)` pair per stored edge entering
        `vertex`, collected in table order and then sorted. */
    method GetInbound(vertex: string) returns (r: seq<(string, seq<int>)>)
      ensures SortedBy(r, PairLess)
      ensures forall p :: p in r <==> (p.0, vertex) in edges && edges[(p.0, vertex)] == p.1
    {
      var collected: seq<(string, seq<int>)> := [];
      var rest := edges.Keys;
      while rest != {}
        invariant rest <= edges.Keys && Distinct(collected)
        invariant forall p :: p in collected <==>
                    (p.0, vertex) in edges && (p.0, vertex) !in rest && edges[(p.0, vertex)] == p.1
        decreases |rest|
      {
        var e := Pick(rest);
        if e.1 == vertex {
          collected := collected + [(e.0, edges[e])];
        }
        rest := rest - {e};
      }
      PairLessIsStrictTotal();
      SortByIsSorted(collected, PairLess);
      r := SortBy(collected, PairLess);
    }

    /** merge: every edge of `other` has its weights appended after this
        graph's weights for the same edge; the vertex sets are united. */
    method Merge(other: Graph)
      requires Valid() && other.Valid() && other != this
      modifies this
      ensures Valid()
      ensures edges == Merged(old(edges), other.edges)
      ensures vertexes == old(vertexes) + other.vertexes
    {
      MergedFacts(edges, vertexes, other.edges, other.vertexes);
      edges := AppendAll(edges, other.edges);
      vertexes := InsertAll(vertexes, other.vertexes);
    }

    /** extract(g, keep): this graph is cleared and then receives the edges of
        `g` whose endpoints are both in `keep`, and exactly their endpoints as
        vertexes. When `g` is this graph, the clearing empties the source too
        and the result is empty. */
    method Extract(g: Graph, keep: set<string>)
      requires g.Valid()
      modifies this
      ensures Valid()
      ensures edges == if g == this then map[] else Induced(old(g.edges), keep)
      ensures vertexes == Endpoints(edges)
    {
      ghost var vs := g.vertexes;
      edges := map[];
      vertexes := {};
      var source := g.edges;
      assert source == if g == this then map[] else old(g.edges);
      if g != this {
        InducedFacts(old(g.edges), vs, keep);
      }
      edges, vertexes := CopyInduced(source, keep);
    }
  }

  /** The edge loop of `merge`: for every edge of `b`, its weights are
      appended to the list of the same edge in `a` (created empty when
      absent). */
  method AppendAll(a: map<Edge, seq<int>>, b: map<Edge, seq<int>>) returns (m: map<Edge, seq<int>>)
    ensures m == Merged(a, b)
  {
    m := a;
    var rest := b.Keys;
    MergedPartStart(a, b);
    while rest != {}
      invariant rest <= b.Keys
      invariant m == MergedPart(a, b, b.Keys - rest)
      decreases |rest|
    {
      var e := Pick(rest);
      MergedPartStep(m, a, b, rest, e);
      m := m[e := Weights(m, e) + b[e]];
      rest := rest - {e};
    }
    MergedPartDone(m, a, b, rest);
  }

  /** The vertex loop of `merge`: every name of `names` is inserted. */
  method InsertAll(vs: set<string>, names: set<string>) returns (r: set<string>)
    ensures r == vs + names
  {
    r := vs;
    var rest := names;
    while rest != {}
      invariant rest <= names
      invariant r == vs + (names - rest)
      decreases |rest|
    {
      var v := Pick(rest);
      r := r + {v};
      rest := rest - {v};
    }
  }

  /** The loop of `extract`: the edges of `source` whose endpoints are both
      in `keep` are copied, and their endpoints collected. */
  method CopyInduced(source: map<Edge, seq<int>>, keep: set<string>) returns (m: map<Edge, seq<int>>, ends: set<string>)
    ensures m == Induced(source, keep)
    ensures ends == Endpoints(m)
  {
    m := map[];
    ends := {};
    var rest := source.Keys;
    InducedPartStart(source, keep);
    while rest != {}
      invariant rest <= source.Keys
      invariant m == InducedPart(source, keep, source.Keys - rest)
      invariant ends == Endpoints(m)
      decreases |rest|
    {
      var e := Pick(rest);
      InducedPartStep(m, source, keep, rest, e);
      if e.0 in keep && e.1 in keep {
        EndpointsAdd(m, ends, e, source[e]);
        m := m[e := source[e]];
        ends := ends + {e.0};
        ends := ends + {e.1};
      }
      rest := rest - {e};
    }
    InducedPartDone(m, source, keep, rest);
  }

  /** The weights for an edge after adding `w` to it, deleting `w` again from
      the result, keep the weights' multiset; the deletion removes the first
      equal weight, which need not be the one just added. */
  lemma AddThenDeleteEdge(edges: map<Edge, seq<int>>, e: Edge, w: int)
    ensures multiset(Weights(DeleteWeight(edges[e := Weights(edges, e) + [w]], e, w), e)) == multiset(Weights(edges, e))
  {
    var added := edges[e := Weights(edges, e) + [w]];
    AddThenDeleteKeepsMultiset(Weights(edges, e), w);
    assert w in Weights(added, e) by {
      assert Weights(added, e)[|Weights(edges, e)|] == w;
    }
    RemoveFirstDropsOne(Weights(added, e), w);
  }
}
