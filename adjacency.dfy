/**
 * The vertex graph of the cloth mesh as the bone script sees it: the
 * `neighbors` dictionary built from the mesh edges, and `sort_neighbors`,
 * which ranks the neighbours of a vertex by (elevation, index), highest first.
 *
 * A vertex's elevation is the height of its world position along the up
 * direction. Only comparisons of elevations matter to the algorithm, so it
 * is given here as an integer-valued function of the vertex index.
 */
module Adjacency {

  type Vertex = nat
  type Edge = (Vertex, Vertex)
  type Neighbors = map<Vertex, set<Vertex>>
  type Elevation = Vertex -> int

  /** The (elevation, index) pair that `sort_neighbors` records for a neighbour. */
  type Ranked = (int, Vertex)

  /** `neighbors[v]` on the defaultdict: a vertex no edge touches has no neighbours. */
  function Nbrs(nb: Neighbors, v: Vertex): set<Vertex> {
    if v in nb then nb[v] else {}
  }

  /** Some edge of the mesh joins u and v, in either direction. */
  ghost predicate Joined(edges: seq<Edge>, u: Vertex, v: Vertex) {
    exists k :: 0 <= k < |edges| && (edges[k] == (u, v) || edges[k] == (v, u))
  }

  /** Every neighbour of a vertex is itself a key of the map. */
  ghost predicate Closed(nb: Neighbors) {
    forall u, v :: u in nb && v in nb[u] ==> v in nb
  }

  ghost predicate Symmetric(nb: Neighbors) {
    forall u, v :: v in Nbrs(nb, u) <==> u in Nbrs(nb, v)
  }

  /** What the edge loop leaves in `neighbors`. */
  ghost predicate AdjacencyOf(edges: seq<Edge>, nb: Neighbors) {
    && (forall u, v :: v in Nbrs(nb, u) <==> Joined(edges, u, v))
    && (forall u :: u in nb ==> nb[u] != {})
  }

  /** The vertices some edge touches. */
  ghost function Ends(edges: seq<Edge>): set<Vertex> {
    (set k | 0 <= k < |edges| :: edges[k].0) + (set k | 0 <= k < |edges| :: edges[k].1)
  }

  /** `neighbors` as a function of the edge list. */
  ghost function NeighborsOf(edges: seq<Edge>): Neighbors {
    map u | u in Ends(edges) :: set v | v in Ends(edges) && Joined(edges, u, v)
  }

  /** NeighborsOf is what the edge loop leaves: the converse of AdjacencyUnique. */
  lemma NeighborsOfAdjacency(edges: seq<Edge>)
    ensures AdjacencyOf(edges, NeighborsOf(edges))
    ensures Closed(NeighborsOf(edges)) && Symmetric(NeighborsOf(edges))
  {
    var m := NeighborsOf(edges);
    forall u: Vertex, v: Vertex
      ensures v in Nbrs(m, u) <==> Joined(edges, u, v)
    {
      if Joined(edges, u, v) {
        var k :| 0 <= k < |edges| && (edges[k] == (u, v) || edges[k] == (v, u));
        assert u == edges[k].0 || u == edges[k].1;
        assert v == edges[k].0 || v == edges[k].1;
      }
    }
    forall u | u in m
      ensures m[u] != {}
    {
      var k :| 0 <= k < |edges| && (edges[k].0 == u || edges[k].1 == u);
      var w := if edges[k].0 == u then edges[k].1 else edges[k].0;
      assert Joined(edges, u, w);
      assert w == edges[k].0 || w == edges[k].1;
      assert w in m[u];
    }
    AdjacencySymmetric(edges, m);
  }

  /** The edges determine the neighbour map: any map with AdjacencyOf is NeighborsOf. */
  lemma AdjacencyUnique(edges: seq<Edge>, nb: Neighbors)
    requires AdjacencyOf(edges, nb)
    ensures nb == NeighborsOf(edges)
  {
    var m := NeighborsOf(edges);
    forall u
      ensures u in nb <==> u in m
    {
      if u in nb {
        var v :| v in nb[u];
        assert v in Nbrs(nb, u);
        var k :| 0 <= k < |edges| && (edges[k] == (u, v) || edges[k] == (v, u));
        assert u == edges[k].0 || u == edges[k].1;
      }
      if u in m {
        var k :| 0 <= k < |edges| && (edges[k].0 == u || edges[k].1 == u);
        var w := if edges[k].0 == u then edges[k].1 else edges[k].0;
        assert Joined(edges, u, w);
        assert w in Nbrs(nb, u);
      }
    }
    forall u | u in nb
      ensures nb[u] == m[u]
    {
      forall v
        ensures v in nb[u] <==> v in m[u]
      {
        if v in nb[u] {
          assert v in Nbrs(nb, u);
          var k :| 0 <= k < |edges| && (edges[k] == (u, v) || edges[k] == (v, u));
          assert v == edges[k].0 || v == edges[k].1;
        }
        if v in m[u] {
          assert v in Nbrs(nb, u);
        }
      }
    }
  }

  /** Fills `neighbors` from the edge list, adding each edge in both directions. */
  method BuildNeighbors(edges: seq<Edge>) returns (nb: Neighbors)
    ensures AdjacencyOf(edges, nb)
    ensures nb == NeighborsOf(edges)
  {
    nb := map[];
    for k := 0 to |edges|
      invariant AdjacencyOf(edges[..k], nb)
    {
      var (from, to) := edges[k];
      nb := nb[from := Nbrs(nb, from) + {to}];
      nb := nb[to := Nbrs(nb, to) + {from}];
      forall u: Vertex, v: Vertex
        ensures v in Nbrs(nb, u) <==> Joined(edges[..k + 1], u, v)
      {
        if Joined(edges[..k], u, v) {
          var m :| 0 <= m < k && (edges[..k][m] == (u, v) || edges[..k][m] == (v, u));
          assert edges[..k + 1][m] == edges[..k][m];
        }
        if Joined(edges[..k + 1], u, v) {
          var m :| 0 <= m < k + 1 && (edges[..k + 1][m] == (u, v) || edges[..k + 1][m] == (v, u));
          if m < k {
            assert edges[..k][m] == edges[..k + 1][m];
          }
        }
        if (u, v) == (from, to) || (v, u) == (from, to) {
          assert edges[..k + 1][k] == edges[k];
        }
      }
    }
    assert edges[..|edges|] == edges;
    AdjacencyUnique(edges, nb);
  }

  /** Adjacency built from edges is symmetric and closed: v is a neighbour of u iff u is one of v. */
  lemma AdjacencySymmetric(edges: seq<Edge>, nb: Neighbors)
    requires AdjacencyOf(edges, nb)
    ensures Symmetric(nb) && Closed(nb)
  {
    forall u, v | v in Nbrs(nb, u)
      ensures u in Nbrs(nb, v)
    {
      var k :| 0 <= k < |edges| && (edges[k] == (u, v) || edges[k] == (v, u));
      assert Joined(edges, v, u);
    }
    forall u, v | u in nb && v in nb[u]
      ensures v in nb
    {
      assert v in Nbrs(nb, u);
      var k :| 0 <= k < |edges| && (edges[k] == (u, v) || edges[k] == (v, u));
      assert Joined(edges, v, u);
    }
  }

  /** Python's `>` on (elevation, index) tuples. */
  predicate TupleAbove(p: Ranked, q: Ranked) {
    p.0 > q.0 || (p.0 == q.0 && p.1 > q.1)
  }

  /** Vertex a ranks above vertex b: higher, or as high with the larger index. */
  predicate Above(elev: Elevation, a: Vertex, b: Vertex) {
    elev(a) > elev(b) || (elev(a) == elev(b) && a > b)
  }

  /** The vertices of a ranking, in order. */
  function Vs(r: seq<Ranked>): (vs: seq<Vertex>)
    ensures |vs| == |r| && forall k :: 0 <= k < |r| ==> vs[k] == r[k].1
  {
    seq(|r|, k requires 0 <= k < |r| => r[k].1)
  }

  /**
   * r lists each vertex of s exactly once, paired with its elevation, in
   * strictly descending (elevation, index) order.
   */
  ghost predicate RankedDesc(r: seq<Ranked>, s: set<Vertex>, elev: Elevation) {
    && (forall k :: 0 <= k < |r| ==> r[k].0 == elev(r[k].1))
    && (forall v :: v in s <==> v in Vs(r))
    && (forall i, j :: 0 <= i < j < |r| ==> TupleAbove(r[i], r[j]))
  }

  /** t is in s and ranks above every other vertex of s. */
  ghost predicate Highest(elev: Elevation, t: Vertex, s: set<Vertex>) {
    t in s && forall u :: u in s && u != t ==> Above(elev, t, u)
  }

  /** A non-empty finite set of vertices has one that ranks above all the others. */
  lemma {:induction false} HighestExists(s: set<Vertex>, elev: Elevation)
    requires s != {}
    ensures exists t :: Highest(elev, t, s)
    decreases |s|
  {
    var x :| x in s;
    if s == {x} {
      assert Highest(elev, x, s);
    } else {
      HighestExists(s - {x}, elev);
      var m :| Highest(elev, m, s - {x});
      if Above(elev, x, m) {
        forall u | u in s && u != x
          ensures Above(elev, x, u)
        {
          if u != m {
            assert Above(elev, m, u);
          }
        }
        assert Highest(elev, x, s);
      } else {
        assert Highest(elev, m, s);
      }
    }
  }

  /** Putting the highest vertex of s in front of a ranking of the rest ranks s. */
  lemma RankingCons(s: set<Vertex>, elev: Elevation, t: Vertex, rest: seq<Ranked>)
    requires Highest(elev, t, s)
    requires RankedDesc(rest, s - {t}, elev)
    ensures RankedDesc([(elev(t), t)] + rest, s, elev)
  {
    var r := [(elev(t), t)] + rest;
    assert Vs(r) == [t] + Vs(rest);
    forall i, j | 0 <= i < j < |r|
      ensures TupleAbove(r[i], r[j])
    {
      if i == 0 {
        assert r[j] == rest[j - 1];
        assert Vs(rest)[j - 1] in s - {t};
      } else {
        assert r[i] == rest[i - 1] && r[j] == rest[j - 1];
      }
    }
  }

  /** Every finite set of vertices has a descending ranking. */
  lemma {:induction false} RankingExists(s: set<Vertex>, elev: Elevation)
    ensures exists r :: RankedDesc(r, s, elev)
    decreases |s|
  {
    if s == {} {
      assert RankedDesc([], s, elev);
    } else {
      HighestExists(s, elev);
      var t :| Highest(elev, t, s);
      RankingExists(s - {t}, elev);
      var rest: seq<Ranked> :| RankedDesc(rest, s - {t}, elev);
      RankingCons(s, elev, t, rest);
    }
  }

  /** Dropping the first entry of a ranking of s ranks s without that vertex. */
  lemma RankingTail(r: seq<Ranked>, s: set<Vertex>, elev: Elevation)
    requires r != [] && RankedDesc(r, s, elev)
    ensures RankedDesc(r[1..], s - {r[0].1}, elev)
  {
    assert Vs(r) == [r[0].1] + Vs(r[1..]);
    forall k | 0 <= k < |r| - 1
      ensures Vs(r[1..])[k] != r[0].1
    {
      assert TupleAbove(r[0], r[k + 1]);
    }
  }

  /** The descending ranking of a set is unique: sorting distinct tuples leaves no choice. */
  lemma {:induction false} RankingUnique(r1: seq<Ranked>, r2: seq<Ranked>, s: set<Vertex>, elev: Elevation)
    requires RankedDesc(r1, s, elev) && RankedDesc(r2, s, elev)
    ensures r1 == r2
    decreases |r1|
  {
    assert r1 == [] <==> r2 == [] by {
      if r1 != [] {
        assert Vs(r1)[0] in s;
      }
      if r2 != [] {
        assert Vs(r2)[0] in s;
      }
    }
    if r1 != [] {
      assert Vs(r1)[0] in s;
      assert Vs(r2)[0] in s;
      var i :| 0 <= i < |r2| && Vs(r2)[i] == r1[0].1;
      var j :| 0 <= j < |r1| && Vs(r1)[j] == r2[0].1;
      assert i == 0 || j == 0;
      assert r1[0] == r2[0];
      RankingTail(r1, s, elev);
      RankingTail(r2, s, elev);
      RankingUnique(r1[1..], r2[1..], s - {r1[0].1}, elev);
    }
  }

  /** The ranked neighbours of v, as `sort_neighbors(v)` returns them. */
  ghost function Rank(nb: Neighbors, elev: Elevation, v: Vertex): (r: seq<Ranked>)
    ensures RankedDesc(r, Nbrs(nb, v), elev)
  {
    RankingExists(Nbrs(nb, v), elev);
    var r :| RankedDesc(r, Nbrs(nb, v), elev);
    r
  }

  /** The first entry of a ranking is the highest neighbour, the last the lowest. */
  lemma RankExtremes(nb: Neighbors, elev: Elevation, v: Vertex)
    requires Rank(nb, elev, v) != []
    ensures var r := Rank(nb, elev, v);
      forall u :: u in Nbrs(nb, v) ==>
        && (u == r[0].1 || Above(elev, r[0].1, u))
        && (u == r[|r| - 1].1 || Above(elev, u, r[|r| - 1].1))
  {
    var r := Rank(nb, elev, v);
    forall u | u in Nbrs(nb, v)
      ensures u == r[0].1 || Above(elev, r[0].1, u)
      ensures u == r[|r| - 1].1 || Above(elev, u, r[|r| - 1].1)
    {
      var k :| 0 <= k < |r| && Vs(r)[k] == u;
      if 0 < k {
        assert TupleAbove(r[0], r[k]);
      }
      if k < |r| - 1 {
        assert TupleAbove(r[k], r[|r| - 1]);
      }
    }
  }

  /** Each entry of a ranking is a neighbour, paired with its elevation. */
  lemma RankEntry(nb: Neighbors, elev: Elevation, v: Vertex, k: nat)
    requires k < |Rank(nb, elev, v)|
    ensures Rank(nb, elev, v)[k].0 == elev(Rank(nb, elev, v)[k].1)
    ensures Rank(nb, elev, v)[k].1 in Nbrs(nb, v)
    ensures Closed(nb) ==> Rank(nb, elev, v)[k].1 in nb
  {
    assert Vs(Rank(nb, elev, v))[k] in Vs(Rank(nb, elev, v));
  }

  /** A vertex has an empty ranking exactly when it has no neighbours. */
  lemma RankEmpty(nb: Neighbors, elev: Elevation, v: Vertex)
    ensures Rank(nb, elev, v) == [] <==> Nbrs(nb, v) == {}
  {
    if Rank(nb, elev, v) != [] {
      RankEntry(nb, elev, v, 0);
    }
    if Nbrs(nb, v) != {} {
      var u :| u in Nbrs(nb, v);
      assert u in Vs(Rank(nb, elev, v));
    }
  }

  /** Entries in descending tuple order: no entry is above an earlier one. */
  ghost predicate Descending(ys: seq<Ranked>) {
    forall i, j :: 0 <= i < j < |ys| ==> !TupleAbove(ys[j], ys[i])
  }

  /**
   * Inserting x just before the first entry it is above keeps a descending
   * sequence descending.
   */
  lemma InsertDescending(ys: seq<Ranked>, k: nat, x: Ranked)
    requires Descending(ys) && k <= |ys|
    requires forall m :: 0 <= m < k ==> !TupleAbove(x, ys[m])
    requires k < |ys| ==> TupleAbove(x, ys[k])
    ensures Descending(ys[..k] + [x] + ys[k..])
  {
    var zs := ys[..k] + [x] + ys[k..];
    forall i, j | 0 <= i < j < |zs|
      ensures !TupleAbove(zs[j], zs[i])
    {
      if j < k {
        assert zs[i] == ys[i] && zs[j] == ys[j];
      } else if j == k {
        assert zs[i] == ys[i] && zs[j] == x;
      } else if i < k {
        assert zs[i] == ys[i] && zs[j] == ys[j - 1];
      } else if i == k {
        assert zs[i] == x && zs[j] == ys[j - 1];
        assert !TupleAbove(ys[j - 1], ys[k]) || j - 1 == k;
      } else {
        assert zs[i] == ys[i - 1] && zs[j] == ys[j - 1];
      }
    }
  }

  /** Python's `sorted(lst, reverse=True)` on (elevation, index) tuples. */
  method SortDescending(xs: seq<Ranked>) returns (ys: seq<Ranked>)
    ensures multiset(ys) == multiset(xs)
    ensures Descending(ys)
  {
    ys := [];
    for n := 0 to |xs|
      invariant multiset(ys) == multiset(xs[..n])
      invariant Descending(ys)
    {
      var x := xs[n];
      var k := 0;
      while k < |ys| && !TupleAbove(x, ys[k])
        invariant 0 <= k <= |ys|
        invariant forall m :: 0 <= m < k ==> !TupleAbove(x, ys[m])
      {
        k := k + 1;
      }
      InsertDescending(ys, k, x);
      assert ys == ys[..k] + ys[k..];
      assert xs[..n + 1] == xs[..n] + [x];
      ys := ys[..k] + [x] + ys[k..];
    }
    assert xs[..|xs|] == xs;
  }

  /** Two equal entries in a sequence make that value occur at least twice. */
  lemma RepeatCounts<T>(s: seq<T>, i: nat, j: nat)
    requires i < j < |s| && s[i] == s[j]
    ensures multiset(s)[s[i]] >= 2
  {
    assert s == s[..j] + s[j..];
    assert s[i] in multiset(s[..j]);
    assert s[j] in multiset(s[j..]);
  }

  /** A sequence of pairwise distinct entries holds each value at most once. */
  lemma {:induction false} DistinctCounts<T>(s: seq<T>)
    requires forall i, j :: 0 <= i < j < |s| ==> s[i] != s[j]
    ensures forall x :: multiset(s)[x] <= 1
  {
    if s != [] {
      DistinctCounts(s[1..]);
      assert s == [s[0]] + s[1..];
      assert s[0] !in s[1..];
    }
  }

  /**
   * Sorting the collected (elevation, vertex) tuples of a set, each vertex
   * once, in descending order gives its ranking.
   */
  lemma SortedRanks(lst: seq<Ranked>, ranked: seq<Ranked>, s: set<Vertex>, elev: Elevation)
    requires forall k :: 0 <= k < |lst| ==> lst[k].0 == elev(lst[k].1)
    requires forall v :: v in s <==> v in Vs(lst)
    requires forall i, j :: 0 <= i < j < |lst| ==> lst[i].1 != lst[j].1
    requires multiset(ranked) == multiset(lst) && Descending(ranked)
    ensures RankedDesc(ranked, s, elev)
  {
    forall k | 0 <= k < |ranked|
      ensures ranked[k].0 == elev(ranked[k].1) && ranked[k].1 in s
    {
      assert ranked[k] in multiset(lst);
      var m :| 0 <= m < |lst| && lst[m] == ranked[k];
      assert Vs(lst)[m] == ranked[k].1 && Vs(lst)[m] in Vs(lst);
    }
    forall v | v in s
      ensures v in Vs(ranked)
    {
      var m :| 0 <= m < |lst| && Vs(lst)[m] == v;
      assert lst[m] in multiset(ranked);
      var k :| 0 <= k < |ranked| && ranked[k] == lst[m];
      assert Vs(ranked)[k] == v;
    }
    DistinctCounts(lst);
    forall i, j | 0 <= i < j < |ranked|
      ensures TupleAbove(ranked[i], ranked[j])
    {
      if ranked[i] == ranked[j] {
        RepeatCounts(ranked, i, j);
        assert false;
      }
    }
  }

  /**
   * `sort_neighbors(ind)`: collect (elevation, index) for every neighbour, in
   * whatever order the set yields them, then sort descending.
   */
  method SortNeighbors(nb: Neighbors, elev: Elevation, ind: Vertex) returns (ranked: seq<Ranked>)
    ensures RankedDesc(ranked, Nbrs(nb, ind), elev)
    ensures ranked == Rank(nb, elev, ind)
  {
    var s := Nbrs(nb, ind);
    var lst: seq<Ranked> := [];
    var rest := s;
    while rest != {}
      invariant rest <= s
      invariant forall k :: 0 <= k < |lst| ==> lst[k].0 == elev(lst[k].1)
      invariant forall v :: v in s - rest <==> v in Vs(lst)
      invariant forall i, j :: 0 <= i < j < |lst| ==> lst[i].1 != lst[j].1
      decreases rest
    {
      var v :| v in rest;
      forall i | 0 <= i < |lst|
        ensures lst[i].1 != v
      {
        assert Vs(lst)[i] in Vs(lst);
      }
      assert Vs(lst + [(elev(v), v)]) == Vs(lst) + [v];
      lst := lst + [(elev(v), v)];
      rest := rest - {v};
    }
    ranked := SortDescending(lst);
    SortedRanks(lst, ranked, s, elev);
    RankingUnique(ranked, Rank(nb, elev, ind), s, elev);
  }
}
