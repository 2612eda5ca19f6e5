/**
 * The grid extraction of the bone script: climb from vertex 0 to a local
 * maximum of elevation, walk the top ridge of the skirt, then descend from
 * every N_STEP_HORI-th ridge vertex to a degree-3 vertex, keeping every
 * N_STEP_VERT-th vertex of each descent as a column.
 */
module GridExtract {
  import opened Wrappers
  import opened Adjacency
  import GridOrder
  import Finite

  /** Every N_STEP_HORI-th ridge vertex seeds a column. */
  const N_STEP_HORI: nat := 3
  /** Every N_STEP_VERT-th vertex of a descent is kept. */
  const N_STEP_VERT: nat := 2

  datatype MeshError =
    /** `sort_neighbors(v)[0]` or `[-1]` on a vertex without neighbours (an IndexError). */
    | Isolated(at: Vertex)
    /** The descent took as many steps as there are vertices and never met a degree-3 vertex. */
    | NoTerminal(at: Vertex)

  function Last<T>(s: seq<T>): T
    requires |s| > 0
  {
    s[|s| - 1]
  }

  /** b is in s and every other vertex of s ranks above it. */
  ghost predicate Lowest(elev: Elevation, b: Vertex, s: set<Vertex>) {
    b in s && forall u :: u in s && u != b ==> Above(elev, u, b)
  }

  // ---------------------------------------------------------------------
  // Ascent to the root vertex

  /** The vertices strictly higher than v: shrinks with every step of the ascent. */
  ghost function HigherThan(nb: Neighbors, elev: Elevation, v: Vertex): set<Vertex> {
    set u | u in nb.Keys && elev(u) > elev(v)
  }

  lemma HigherShrinks(nb: Neighbors, elev: Elevation, v: Vertex, t: Vertex)
    requires t in nb && elev(t) > elev(v)
    ensures |HigherThan(nb, elev, t)| < |HigherThan(nb, elev, v)|
  {
    Finite.SubsetSmaller(HigherThan(nb, elev, t), HigherThan(nb, elev, v), t);
  }

  /** The vertices the ascent loop visits, from v up to where it stops. */
  ghost function AscentPath(nb: Neighbors, elev: Elevation, v: Vertex): (p: seq<Vertex>)
    requires Closed(nb)
    decreases |HigherThan(nb, elev, v)|
  {
    var r := Rank(nb, elev, v);
    if r != [] && r[0].0 > elev(v) then
      RankEntry(nb, elev, v, 0);
      HigherShrinks(nb, elev, v, r[0].1);
      [v] + AscentPath(nb, elev, r[0].1)
    else
      [v]
  }

  /** Where the ascent from v ends: `root_v`, or the IndexError on a vertex without neighbours. */
  ghost function Ascend(nb: Neighbors, elev: Elevation, v: Vertex): Result<Vertex, MeshError>
    requires Closed(nb)
  {
    var p := AscentPath(nb, elev, v);
    if p == [] then Err(Isolated(v))
    else if Nbrs(nb, Last(p)) == {} then Err(Isolated(Last(p)))
    else Ok(Last(p))
  }

  /**
   * The ascent starts at v; each step moves to the highest-ranked neighbour,
   * which lies strictly higher; where it stops no neighbour lies higher.
   */
  lemma {:induction false} AscentClimbs(nb: Neighbors, elev: Elevation, v: Vertex)
    requires Closed(nb)
    ensures var p := AscentPath(nb, elev, v);
      && |p| >= 1 && p[0] == v
      && (forall k :: 0 <= k < |p| - 1 ==>
            Highest(elev, p[k + 1], Nbrs(nb, p[k])) && elev(p[k + 1]) > elev(p[k]))
      && (forall u :: u in Nbrs(nb, Last(p)) ==> elev(u) <= elev(Last(p)))
      && elev(Last(p)) >= elev(v)
    decreases |HigherThan(nb, elev, v)|
  {
    var r := Rank(nb, elev, v);
    if r != [] {
      RankExtremes(nb, elev, v);
      RankEntry(nb, elev, v, 0);
    }
    if r != [] && r[0].0 > elev(v) {
      var t := r[0].1;
      HigherShrinks(nb, elev, v, t);
      AscentClimbs(nb, elev, t);
      var p := AscentPath(nb, elev, v);
      assert p == [v] + AscentPath(nb, elev, t);
      assert Highest(elev, t, Nbrs(nb, v));
    } else {
      RankEmpty(nb, elev, v);
    }
  }

  /** A successful ascent ends at a vertex with neighbours, none of them higher, no lower than the start. */
  lemma AscendFindsLocalMax(nb: Neighbors, elev: Elevation, v: Vertex)
    requires Closed(nb) && Ascend(nb, elev, v).Ok?
    ensures var root := Ascend(nb, elev, v).value;
      && Nbrs(nb, root) != {}
      && (forall u :: u in Nbrs(nb, root) ==> elev(u) <= elev(root))
      && elev(root) >= elev(v)
  {
    AscentClimbs(nb, elev, v);
  }

  /** On a symmetric adjacency the ascent fails exactly when it starts on a vertex without neighbours. */
  lemma AscendFailsOnlyAtStart(nb: Neighbors, elev: Elevation, v: Vertex)
    requires Closed(nb) && Symmetric(nb)
    ensures Ascend(nb, elev, v).Err? <==> Nbrs(nb, v) == {}
    ensures Ascend(nb, elev, v).Err? ==> Ascend(nb, elev, v).error == Isolated(v)
  {
    AscentClimbs(nb, elev, v);
    var p := AscentPath(nb, elev, v);
    if |p| > 1 {
      var k := |p| - 2;
      assert Highest(elev, p[k + 1], Nbrs(nb, p[k]));
      assert p[k] in Nbrs(nb, Last(p));
      assert Highest(elev, p[1], Nbrs(nb, p[0]));
    }
  }

  /** The `while True` ascent from `cur_v = start` (the script starts at vertex 0). */
  method FindRoot(nb: Neighbors, elev: Elevation, start: Vertex) returns (res: Result<Vertex, MeshError>)
    requires Closed(nb)
    ensures res == Ascend(nb, elev, start)
  {
    var cur := start;
    while true
      invariant Last(AscentPath(nb, elev, cur)) == Last(AscentPath(nb, elev, start))
      decreases |HigherThan(nb, elev, cur)|
    {
      var ranked := SortNeighbors(nb, elev, cur);
      if ranked == [] {
        RankEmpty(nb, elev, cur);
        return Err(Isolated(cur));
      }
      var (topZ, topV) := ranked[0];
      if topZ > elev(cur) {
        RankEntry(nb, elev, cur, 0);
        HigherShrinks(nb, elev, cur, topV);
        cur := topV;
      } else {
        RankEmpty(nb, elev, cur);
        return Ok(cur);
      }
    }
  }

  // ---------------------------------------------------------------------
  // Walk along the top ridge

  /** `[_[1] for _ in lst_nei_z[:2]]`: the vertices of the first two ranked entries. */
  function Cands(r: seq<Ranked>): (cs: seq<Vertex>)
    ensures |cs| == if |r| < 2 then |r| else 2
    ensures forall k :: 0 <= k < |cs| ==> cs[k] == r[k].1
  {
    if |r| <= 2 then Vs(r) else Vs(r[..2])
  }

  /** The inner for/else: the first candidate not yet in the list, or None when all are. */
  function FirstNew(cands: seq<Vertex>, lst: seq<Vertex>): (r: Option<Vertex>)
    ensures r.None? <==> forall c :: c in cands ==> c in lst
    ensures r.Some? ==> r.value !in lst
    ensures r.Some? ==> exists k :: (0 <= k < |cands| && cands[k] == r.value
      && forall m :: 0 <= m < k ==> cands[m] in lst)
  {
    if cands == [] then None
    else if cands[0] !in lst then Some(cands[0])
    else
      var r := FirstNew(cands[1..], lst);
      if r.Some? then
        var k :| 0 <= k < |cands[1..]| && cands[1..][k] == r.value
          && forall m :: 0 <= m < k ==> cands[1..][m] in lst;
        assert cands[k + 1] == r.value;
        r
      else
        r
  }

  /** The ridge vertices not yet listed: shrinks with every step of the walk. */
  ghost function Unlisted(nb: Neighbors, lst: seq<Vertex>): set<Vertex> {
    set v | v in nb.Keys && v !in lst
  }

  /**
   * A prefix of the ridge walk from root: it starts with root, never repeats a
   * vertex, and each vertex is the first unlisted candidate of the one before.
   */
  ghost predicate RidgeSoFar(nb: Neighbors, elev: Elevation, root: Vertex, top: seq<Vertex>) {
    && |top| >= 1 && top[0] == root
    && (forall i, j :: 0 <= i < j < |top| ==> top[i] != top[j])
    && (forall k :: 0 <= k < |top| - 1 ==>
          FirstNew(Cands(Rank(nb, elev, top[k])), top[..k + 1]) == Some(top[k + 1]))
  }

  /** Two walks from the same root agree on their common length: each step is determined. */
  lemma {:induction false} RidgePrefix(nb: Neighbors, elev: Elevation, root: Vertex, a: seq<Vertex>, b: seq<Vertex>, n: nat)
    requires RidgeSoFar(nb, elev, root, a) && RidgeSoFar(nb, elev, root, b)
    requires n <= |a| && n <= |b|
    ensures a[..n] == b[..n]
    decreases n
  {
    if n > 1 {
      RidgePrefix(nb, elev, root, a, b, n - 1);
      var k := n - 2;
      assert a[k] == a[..n - 1][k] == b[..n - 1][k] == b[k];
      assert a[..k + 1] == a[..n - 1][..k + 1] == b[..n - 1][..k + 1] == b[..k + 1];
      assert a[..n] == a[..n - 1] + [a[n - 1]];
      assert b[..n] == b[..n - 1] + [b[n - 1]];
    }
  }

  /** The ridge walk is deterministic: a finished walk from a root is the only one. */
  lemma RidgeUnique(nb: Neighbors, elev: Elevation, root: Vertex, a: seq<Vertex>, b: seq<Vertex>)
    requires RidgeSoFar(nb, elev, root, a) && FirstNew(Cands(Rank(nb, elev, Last(a))), a) == None
    requires RidgeSoFar(nb, elev, root, b) && FirstNew(Cands(Rank(nb, elev, Last(b))), b) == None
    ensures a == b
  {
    if |a| < |b| {
      RidgeOutgrows(nb, elev, root, a, b);
    } else if |b| < |a| {
      RidgeOutgrows(nb, elev, root, b, a);
    } else {
      RidgePrefix(nb, elev, root, a, b, |a|);
      assert a == a[..|a|] && b == b[..|b|];
    }
  }

  /** Vertex n of a walk is the first unlisted candidate of the n vertices before it. */
  lemma RidgeStep(nb: Neighbors, elev: Elevation, root: Vertex, b: seq<Vertex>, n: nat)
    requires RidgeSoFar(nb, elev, root, b) && 1 <= n < |b|
    ensures FirstNew(Cands(Rank(nb, elev, Last(b[..n]))), b[..n]) == Some(b[n])
  {
    assert Last(b[..n]) == b[n - 1];
  }

  /** A finished walk has no longer walk from the same root. */
  lemma RidgeOutgrows(nb: Neighbors, elev: Elevation, root: Vertex, a: seq<Vertex>, b: seq<Vertex>)
    requires RidgeSoFar(nb, elev, root, a) && FirstNew(Cands(Rank(nb, elev, Last(a))), a) == None
    requires RidgeSoFar(nb, elev, root, b)
    ensures |b| <= |a|
  {
    if |a| < |b| {
      RidgeStep(nb, elev, root, b, |a|);
      RidgePrefix(nb, elev, root, a, b, |a|);
    }
  }

  /** Appending the first unlisted candidate of the last vertex extends the walk. */
  lemma RidgeExtend(nb: Neighbors, elev: Elevation, root: Vertex, top: seq<Vertex>, next: Vertex)
    requires RidgeSoFar(nb, elev, root, top)
    requires FirstNew(Cands(Rank(nb, elev, Last(top))), top) == Some(next)
    ensures RidgeSoFar(nb, elev, root, top + [next])
  {
    var top' := top + [next];
    forall k | 0 <= k < |top'| - 1
      ensures FirstNew(Cands(Rank(nb, elev, top'[k])), top'[..k + 1]) == Some(top'[k + 1])
    {
      if k < |top| - 1 {
        assert top'[..k + 1] == top[..k + 1];
      } else {
        assert top'[..k + 1] == top;
      }
    }
  }

  /**
   * The ridge walk from root: `lst_top_v` starts with root, never repeats a
   * vertex, appends each time the first of the two top-ranked neighbours of
   * the last vertex that is not yet listed, and stops when both are listed.
   */
  method WalkRidge(nb: Neighbors, elev: Elevation, root: Vertex) returns (top: seq<Vertex>)
    requires Closed(nb)
    ensures |top| >= 1 && top[0] == root
    ensures forall i, j :: 0 <= i < j < |top| ==> top[i] != top[j]
    ensures forall k :: 0 <= k < |top| - 1 ==>
      FirstNew(Cands(Rank(nb, elev, top[k])), top[..k + 1]) == Some(top[k + 1])
    ensures FirstNew(Cands(Rank(nb, elev, Last(top))), top) == None
  {
    top := [root];
    var cur := root;
    while true
      invariant RidgeSoFar(nb, elev, root, top) && cur == Last(top)
      decreases |Unlisted(nb, top)|
    {
      var ranked := SortNeighbors(nb, elev, cur);
      var cands := Cands(ranked);
      var i := 0;
      while i < |cands| && cands[i] in top
        invariant 0 <= i <= |cands|
        invariant FirstNew(cands, top) == FirstNew(cands[i..], top)
      {
        assert cands[i..][1..] == cands[i + 1..];
        i := i + 1;
      }
      if i == |cands| {
        return;
      }
      var next := cands[i];
      assert FirstNew(cands, top) == Some(next);
      RankEntry(nb, elev, cur, i);
      Finite.SubsetSmaller(Unlisted(nb, top + [next]), Unlisted(nb, top), next);
      RidgeExtend(nb, elev, root, top, next);
      top := top + [next];
      cur := next;
    }
  }

  // ---------------------------------------------------------------------
  // Descent along a column

  /** The vertices the descent appends after v, allowing at most fuel more steps. */
  ghost function DescentFrom(nb: Neighbors, elev: Elevation, v: Vertex, fuel: nat): Result<seq<Vertex>, MeshError>
    decreases fuel
  {
    var r := Rank(nb, elev, v);
    if fuel == 0 then Err(NoTerminal(v))
    else if r == [] then Err(Isolated(v))
    else
      var next := Last(r).1;
      if |Nbrs(nb, next)| == 3 then Ok([next])
      else Prepend([next], DescentFrom(nb, elev, next, fuel - 1))
  }

  function Prepend(p: seq<Vertex>, r: Result<seq<Vertex>, MeshError>): Result<seq<Vertex>, MeshError> {
    match r
    case Ok(s) => Ok(p + s)
    case Err(e) => Err(e)
  }

  lemma PrependTwice(p: seq<Vertex>, v: Vertex, r: Result<seq<Vertex>, MeshError>)
    ensures Prepend(p, Prepend([v], r)) == Prepend(p + [v], r)
  {
    if r.Ok? {
      assert p + ([v] + r.value) == (p + [v]) + r.value;
    }
  }

  /** `lst_column_v` for the column seeded at top, before sub-sampling. */
  ghost function Column(nb: Neighbors, elev: Elevation, top: Vertex, fuel: nat): Result<seq<Vertex>, MeshError> {
    Prepend([top], DescentFrom(nb, elev, top, fuel))
  }

  lemma {:induction false} DescentShape(nb: Neighbors, elev: Elevation, v: Vertex, fuel: nat)
    requires DescentFrom(nb, elev, v, fuel).Ok?
    ensures var p := DescentFrom(nb, elev, v, fuel).value;
      && 1 <= |p| <= fuel
      && Lowest(elev, p[0], Nbrs(nb, v))
      && (forall k :: 0 <= k < |p| - 1 ==> Lowest(elev, p[k + 1], Nbrs(nb, p[k])))
      && (forall k :: 0 <= k < |p| ==> (|Nbrs(nb, p[k])| == 3 <==> k == |p| - 1))
    decreases fuel
  {
    var r := Rank(nb, elev, v);
    RankExtremes(nb, elev, v);
    RankEntry(nb, elev, v, |r| - 1);
    var next := Last(r).1;
    assert Lowest(elev, next, Nbrs(nb, v));
    if |Nbrs(nb, next)| != 3 {
      DescentShape(nb, elev, next, fuel - 1);
      var q := DescentFrom(nb, elev, next, fuel - 1).value;
      assert DescentFrom(nb, elev, v, fuel).value == [next] + q;
    }
  }

  /**
   * A column starts at its top vertex, each step goes to the lowest-ranked
   * neighbour, and it ends at the first vertex after the top that has exactly
   * three neighbours; it takes at most fuel steps.
   */
  lemma ColumnShape(nb: Neighbors, elev: Elevation, top: Vertex, fuel: nat)
    requires Column(nb, elev, top, fuel).Ok?
    ensures var col := Column(nb, elev, top, fuel).value;
      && 2 <= |col| <= fuel + 1
      && col[0] == top
      && (forall k :: 0 <= k < |col| - 1 ==> Lowest(elev, col[k + 1], Nbrs(nb, col[k])))
      && (forall k :: 1 <= k < |col| ==> (|Nbrs(nb, col[k])| == 3 <==> k == |col| - 1))
  {
    DescentShape(nb, elev, top, fuel);
    var p := DescentFrom(nb, elev, top, fuel).value;
    var col := Column(nb, elev, top, fuel).value;
    assert col == [top] + p;
    forall k | 1 <= k < |col| - 1
      ensures Lowest(elev, col[k + 1], Nbrs(nb, col[k]))
    {
      assert col[k] == p[k - 1] && col[k + 1] == p[k];
    }
  }

  /** More fuel than a finished descent used changes nothing. */
  lemma {:induction false} FuelMonotone(nb: Neighbors, elev: Elevation, v: Vertex, fuel: nat, more: nat)
    requires DescentFrom(nb, elev, v, fuel).Ok?
    requires more >= |DescentFrom(nb, elev, v, fuel).value|
    ensures DescentFrom(nb, elev, v, more) == DescentFrom(nb, elev, v, fuel)
    decreases fuel
  {
    var next := Last(Rank(nb, elev, v)).1;
    if |Nbrs(nb, next)| != 3 {
      var q := DescentFrom(nb, elev, next, fuel - 1).value;
      assert DescentFrom(nb, elev, v, fuel).value == [next] + q;
      FuelMonotone(nb, elev, next, fuel - 1, more - 1);
    }
  }

  /** The lowest vertex of a set is unique. */
  lemma LowestUnique(elev: Elevation, a: Vertex, b: Vertex, s: set<Vertex>)
    requires Lowest(elev, a, s) && Lowest(elev, b, s)
    ensures a == b
  {
  }

  /**
   * Each descent step depends only on the current vertex: once a vertex
   * repeats, the path after the repeat replays the path after its first
   * visit, so the end of the path is met earlier too.
   */
  lemma {:induction false} DescentReplays(nb: Neighbors, elev: Elevation, p: seq<Vertex>, i: nat, j: nat)
    requires forall k :: 0 <= k < |p| - 1 ==> Lowest(elev, p[k + 1], Nbrs(nb, p[k]))
    requires i < j < |p| && p[i] == p[j]
    ensures p[i + (|p| - 1 - j)] == p[|p| - 1]
    decreases |p| - j
  {
    if j < |p| - 1 {
      LowestUnique(elev, p[i + 1], p[j + 1], Nbrs(nb, p[i]));
      DescentReplays(nb, elev, p, i + 1, j + 1);
    }
  }

  /**
   * A descent that finishes visits each vertex once, all of them keys of
   * the neighbour map, so it takes at most as many steps as the map has keys.
   */
  lemma DescentDistinct(nb: Neighbors, elev: Elevation, v: Vertex, fuel: nat)
    requires Closed(nb) && DescentFrom(nb, elev, v, fuel).Ok?
    ensures var p := DescentFrom(nb, elev, v, fuel).value;
      && (forall i, j :: 0 <= i < j < |p| ==> p[i] != p[j])
      && (forall k :: 0 <= k < |p| ==> p[k] in nb)
      && |p| <= |nb.Keys|
  {
    DescentShape(nb, elev, v, fuel);
    var p := DescentFrom(nb, elev, v, fuel).value;
    forall i, j | 0 <= i < j < |p|
      ensures p[i] != p[j]
    {
      if p[i] == p[j] {
        DescentReplays(nb, elev, p, i, j);
      }
    }
    forall k | 0 <= k < |p|
      ensures p[k] in nb
    {
      if k == 0 {
        assert p[0] in Nbrs(nb, v);
      } else {
        assert p[k] in Nbrs(nb, p[k - 1]);
      }
    }
    Finite.DistinctFits(p, nb.Keys);
  }

  /**
   * The descent bound of the model is never the reason a descent fails:
   * whenever some fuel lets the descent from v finish, fuel |nb.Keys|
   * gives the same path.
   */
  lemma FuelSuffices(nb: Neighbors, elev: Elevation, v: Vertex, fuel: nat)
    requires Closed(nb) && DescentFrom(nb, elev, v, fuel).Ok?
    ensures DescentFrom(nb, elev, v, |nb.Keys|) == DescentFrom(nb, elev, v, fuel)
  {
    DescentDistinct(nb, elev, v, fuel);
    FuelMonotone(nb, elev, v, fuel, |nb.Keys|);
  }

  /** When the bounded descent reports NoTerminal, the script's descent never finishes. */
  lemma NoTerminalIsEndless(nb: Neighbors, elev: Elevation, v: Vertex, fuel: nat)
    requires Closed(nb) && DescentFrom(nb, elev, v, |nb.Keys|).Err?
    requires DescentFrom(nb, elev, v, |nb.Keys|).error.NoTerminal?
    ensures DescentFrom(nb, elev, v, fuel).Err?
  {
    if DescentFrom(nb, elev, v, fuel).Ok? {
      FuelSuffices(nb, elev, v, fuel);
    }
  }

  /**
   * The descent loop for one column, stopped after fuel iterations: the
   * source has no bound, so a descent that never meets a degree-3 vertex
   * would loop forever.
   */
  method DescendColumn(nb: Neighbors, elev: Elevation, top: Vertex, fuel: nat)
    returns (res: Result<seq<Vertex>, MeshError>)
    ensures res == Column(nb, elev, top, fuel)
  {
    var col := [top];
    var cur := top;
    var steps := fuel;
    while true
      invariant |col| >= 1 && cur == Last(col)
      invariant Column(nb, elev, top, fuel) == Prepend(col, DescentFrom(nb, elev, cur, steps))
      decreases steps
    {
      if steps == 0 {
        return Err(NoTerminal(cur));
      }
      var ranked := SortNeighbors(nb, elev, cur);
      if ranked == [] {
        return Err(Isolated(cur));
      }
      var next := ranked[|ranked| - 1].1;
      assert next == Last(Rank(nb, elev, cur)).1;
      PrependTwice(col, next, DescentFrom(nb, elev, next, steps - 1));
      col := col + [next];
      if |Nbrs(nb, next)| == 3 {
        return Ok(col);
      }
      cur := next;
      steps := steps - 1;
    }
  }

  // ---------------------------------------------------------------------
  // Sub-sampling and the columns

  /** Python's slice `s[::n]`: the entries at indices 0, n, 2n, ... */
  function Every<T>(s: seq<T>, n: nat): seq<T>
    requires n > 0
    decreases |s|
  {
    if |s| == 0 then [] else [s[0]] + Every(s[if n < |s| then n else |s|..], n)
  }

  /** `s[::n]` has ceil(|s| / n) entries. */
  lemma {:induction false} EveryLength<T>(s: seq<T>, n: nat)
    requires n > 0
    ensures |s| <= |Every(s, n)| * n < |s| + n
    decreases |s|
  {
    if |s| > 0 {
      var m := if n < |s| then n else |s|;
      EveryLength(s[m..], n);
      GridOrder.MulSucc(|Every(s[m..], n)|, n);
    }
  }

  /** Entry k of `s[::n]` is `s[k * n]`. */
  lemma {:induction false} EveryAt<T>(s: seq<T>, n: nat, k: nat)
    requires n > 0 && k < |Every(s, n)|
    ensures k * n < |s| && Every(s, n)[k] == s[k * n]
    decreases k
  {
    if k > 0 {
      var m := if n < |s| then n else |s|;
      var rest := s[m..];
      assert Every(s, n) == [s[0]] + Every(rest, n);
      assert Every(s, n)[k] == Every(rest, n)[k - 1];
      EveryAt(rest, n, k - 1);
      assert m == n;
      GridOrder.MulSucc(k - 1, n);
      assert rest[(k - 1) * n] == s[m + (k - 1) * n];
    }
  }

  /** `s[::n]` has ceil(|s| / n) entries, and its entry k is `s[k * n]`. */
  lemma {:induction false} EveryPicks<T>(s: seq<T>, n: nat)
    requires n > 0
    ensures |s| <= |Every(s, n)| * n < |s| + n
    ensures forall k :: 0 <= k < |Every(s, n)| ==> k * n < |s| && Every(s, n)[k] == s[k * n]
  {
    EveryLength(s, n);
    forall k | 0 <= k < |Every(s, n)|
      ensures k * n < |s| && Every(s, n)[k] == s[k * n]
    {
      EveryAt(s, n, k);
    }
  }

  /** The descent from seeds[c] is the first to fail, with error e. */
  ghost predicate FirstFailure(nb: Neighbors, elev: Elevation, seeds: seq<Vertex>, fuel: nat, c: nat, e: MeshError) {
    && c < |seeds|
    && Column(nb, elev, seeds[c], fuel) == Err(e)
    && forall d :: 0 <= d < c ==> Column(nb, elev, seeds[d], fuel).Ok?
  }

  /**
   * The column loop: one descent per N_STEP_HORI-th ridge vertex, each
   * sub-sampled to every N_STEP_VERT-th vertex; the first failing descent
   * aborts the script.
   */
  method BuildColumns(nb: Neighbors, elev: Elevation, ridge: seq<Vertex>, fuel: nat)
    returns (res: Result<seq<seq<Vertex>>, MeshError>)
    ensures var seeds := Every(ridge, N_STEP_HORI);
      res.Ok? ==> |res.value| == |seeds| && forall c :: 0 <= c < |seeds| ==>
        (Column(nb, elev, seeds[c], fuel).Ok? &&
         res.value[c] == Every(Column(nb, elev, seeds[c], fuel).value, N_STEP_VERT))
    ensures res.Err? ==> exists c :: FirstFailure(nb, elev, Every(ridge, N_STEP_HORI), fuel, c, res.error)
  {
    var seeds := Every(ridge, N_STEP_HORI);
    var columns: seq<seq<Vertex>> := [];
    for c := 0 to |seeds|
      invariant |columns| == c
      invariant forall d :: 0 <= d < c ==>
        (Column(nb, elev, seeds[d], fuel).Ok? &&
         columns[d] == Every(Column(nb, elev, seeds[d], fuel).value, N_STEP_VERT))
    {
      var col := DescendColumn(nb, elev, seeds[c], fuel);
      if col.Err? {
        assert FirstFailure(nb, elev, seeds, fuel, c, col.error);
        return Err(col.error);
      }
      columns := columns + [Every(col.value, N_STEP_VERT)];
    }
    return Ok(columns);
  }

  /**
   * The columns start on the ridge, N_STEP_HORI ridge vertices apart, and
   * there are just enough of them to cover the ridge.
   */
  lemma ColumnsOnRidge(nb: Neighbors, elev: Elevation, ridge: seq<Vertex>, fuel: nat, columns: seq<seq<Vertex>>)
    requires var seeds := Every(ridge, N_STEP_HORI);
      |columns| == |seeds| && forall c :: 0 <= c < |seeds| ==>
        (Column(nb, elev, seeds[c], fuel).Ok? &&
         columns[c] == Every(Column(nb, elev, seeds[c], fuel).value, N_STEP_VERT))
    ensures |ridge| <= |columns| * N_STEP_HORI < |ridge| + N_STEP_HORI
    ensures forall c :: 0 <= c < |columns| ==>
      && c * N_STEP_HORI < |ridge|
      && Column(nb, elev, ridge[c * N_STEP_HORI], fuel).Ok?
      && columns[c] == Every(Column(nb, elev, ridge[c * N_STEP_HORI], fuel).value, N_STEP_VERT)
    ensures forall c :: 0 <= c < |columns| ==> |columns[c]| >= 1 && columns[c][0] == ridge[c * N_STEP_HORI]
  {
    var seeds := Every(ridge, N_STEP_HORI);
    EveryPicks(ridge, N_STEP_HORI);
    forall c | 0 <= c < |columns|
      ensures |columns[c]| >= 1 && columns[c][0] == ridge[c * N_STEP_HORI]
    {
      ColumnShape(nb, elev, seeds[c], fuel);
      EveryPicks(Column(nb, elev, seeds[c], fuel).value, N_STEP_VERT);
    }
  }

  // ---------------------------------------------------------------------
  // The whole extraction

  datatype Extraction = Extraction(root: Vertex, ridge: seq<Vertex>, columns: seq<seq<Vertex>>)

  /**
   * What a successful run extracts from the neighbour map nb: the root is
   * where the ascent from vertex 0 ends; the ridge is the walk from the
   * root, run until both candidates of its last vertex are listed; and
   * column c is the descent from ridge vertex c * N_STEP_HORI, with every
   * N_STEP_VERT-th vertex kept.
   */
  ghost predicate ExtractedFrom(nb: Neighbors, elev: Elevation, x: Extraction) {
    && Closed(nb)
    && Ascend(nb, elev, 0) == Ok(x.root)
    && RidgeSoFar(nb, elev, x.root, x.ridge)
    && FirstNew(Cands(Rank(nb, elev, Last(x.ridge))), x.ridge) == None
    && |x.ridge| <= |x.columns| * N_STEP_HORI < |x.ridge| + N_STEP_HORI
    && (forall c :: 0 <= c < |x.columns| ==>
          && c * N_STEP_HORI < |x.ridge|
          && Column(nb, elev, x.ridge[c * N_STEP_HORI], |nb.Keys|).Ok?
          && x.columns[c] == Every(Column(nb, elev, x.ridge[c * N_STEP_HORI], |nb.Keys|).value, N_STEP_VERT))
  }

  /**
   * Why a run fails with error e on the neighbour map nb: either the
   * ascent from vertex 0 fails with e, or it reaches a root whose finished
   * ridge walk seeds a column whose descent is the first to fail, with e.
   */
  ghost predicate ExtractionFails(nb: Neighbors, elev: Elevation, e: MeshError) {
    && Closed(nb)
    && (|| Ascend(nb, elev, 0) == Err(e)
        || (&& Ascend(nb, elev, 0).Ok?
            && exists ridge: seq<Vertex>, c: nat ::
                 && RidgeSoFar(nb, elev, Ascend(nb, elev, 0).value, ridge)
                 && FirstNew(Cands(Rank(nb, elev, Last(ridge))), ridge) == None
                 && FirstFailure(nb, elev, Every(ridge, N_STEP_HORI), |nb.Keys|, c, e)))
  }

  /** A neighbour map never both yields an extraction and makes the run fail. */
  lemma ExtractionExclusive(nb: Neighbors, elev: Elevation, x: Extraction, e: MeshError)
    requires ExtractedFrom(nb, elev, x)
    ensures !ExtractionFails(nb, elev, e)
  {
    if ExtractionFails(nb, elev, e) {
      var ridge: seq<Vertex>, c: nat :|
        && RidgeSoFar(nb, elev, x.root, ridge)
        && FirstNew(Cands(Rank(nb, elev, Last(ridge))), ridge) == None
        && FirstFailure(nb, elev, Every(ridge, N_STEP_HORI), |nb.Keys|, c, e);
      RidgeUnique(nb, elev, x.root, ridge, x.ridge);
      EveryPicks(x.ridge, N_STEP_HORI);
    }
  }

  /** The root, the finished ridge walk and the column loop's result make up an extraction. */
  lemma ExtractionSound(nb: Neighbors, elev: Elevation, root: Vertex, ridge: seq<Vertex>, columns: seq<seq<Vertex>>)
    requires Closed(nb) && Ascend(nb, elev, 0) == Ok(root)
    requires RidgeSoFar(nb, elev, root, ridge)
    requires FirstNew(Cands(Rank(nb, elev, Last(ridge))), ridge) == None
    requires var seeds := Every(ridge, N_STEP_HORI);
      |columns| == |seeds| && forall c :: 0 <= c < |seeds| ==>
        (Column(nb, elev, seeds[c], |nb.Keys|).Ok? &&
         columns[c] == Every(Column(nb, elev, seeds[c], |nb.Keys|).value, N_STEP_VERT))
    ensures ExtractedFrom(nb, elev, Extraction(root, ridge, columns))
  {
    ColumnsOnRidge(nb, elev, ridge, |nb.Keys|, columns);
  }

  /**
   * An extraction from the mesh's edges: the root has neighbours, none of
   * them higher than it, and is no lower than vertex 0; the ridge starts
   * at the root and never repeats a vertex; column c starts at ridge
   * vertex c * N_STEP_HORI, and its kept vertices below the top follow the
   * lowest-neighbour descent.
   */
  lemma ExtractionFacts(edges: seq<Edge>, elev: Elevation, x: Extraction)
    requires ExtractedFrom(NeighborsOf(edges), elev, x)
    ensures exists u :: Joined(edges, x.root, u)
    ensures forall u :: Joined(edges, x.root, u) ==> elev(u) <= elev(x.root)
    ensures elev(x.root) >= elev(0)
    ensures |x.ridge| >= 1 && x.ridge[0] == x.root
    ensures forall i, j :: 0 <= i < j < |x.ridge| ==> x.ridge[i] != x.ridge[j]
    ensures forall c :: 0 <= c < |x.columns| ==>
      |x.columns[c]| >= 1 && x.columns[c][0] == x.ridge[c * N_STEP_HORI]
  {
    var nb := NeighborsOf(edges);
    NeighborsOfAdjacency(edges);
    AscendFindsLocalMax(nb, elev, 0);
    var u :| u in Nbrs(nb, x.root);
    assert Joined(edges, x.root, u);
    forall c | 0 <= c < |x.columns|
      ensures |x.columns[c]| >= 1 && x.columns[c][0] == x.ridge[c * N_STEP_HORI]
    {
      var top := x.ridge[c * N_STEP_HORI];
      ColumnShape(nb, elev, top, |nb.Keys|);
      EveryPicks(Column(nb, elev, top, |nb.Keys|).value, N_STEP_VERT);
    }
  }

  /**
   * Neighbour map, ascent from vertex 0, ridge walk and column descents.
   * The descent bound is the number of vertices that have neighbours,
   * which FuelSuffices shows to be enough for every descent that finishes.
   */
  method ExtractGrid(edges: seq<Edge>, elev: Elevation) returns (res: Result<Extraction, MeshError>)
    ensures res.Ok? ==> ExtractedFrom(NeighborsOf(edges), elev, res.value)
    ensures Closed(NeighborsOf(edges)) && Ascend(NeighborsOf(edges), elev, 0).Err? ==>
      res == Err(Ascend(NeighborsOf(edges), elev, 0).error)
    ensures (forall u :: !Joined(edges, 0, u)) ==> res == Err(Isolated(0))
    ensures res.Err? ==> ExtractionFails(NeighborsOf(edges), elev, res.error)
  {
    var nb := BuildNeighbors(edges);
    AdjacencySymmetric(edges, nb);
    var root := FindRoot(nb, elev, 0);
    AscendFailsOnlyAtStart(nb, elev, 0);
    if root.Err? {
      return Err(root.error);
    }
    var ridge := WalkRidge(nb, elev, root.value);
    var columns := BuildColumns(nb, elev, ridge, |nb.Keys|);
    if columns.Err? {
      assert RidgeSoFar(nb, elev, root.value, ridge);
      return Err(columns.error);
    }
    ExtractionSound(nb, elev, root.value, ridge, columns.value);
    return Ok(Extraction(root.value, ridge, columns.value));
  }
}
