/** src/algo/graphsc.cpp: one round of scatter and gather over a list of vertex and edge records. */
module GraphScs {
  import opened MelbourneShuffles

  /** A vertex (isV == 1, its id in both address fields) or an edge (isV == 0). */
  datatype Ve = Ve(srcV: int, dstV: int, isV: int, data: int)

  predicate CompScatter(e1: Ve, e2: Ve) {
    e1.srcV < e2.srcV || (e1.srcV == e2.srcV && e1.isV > e2.isV)
  }

  predicate CompGather(e1: Ve, e2: Ve) {
    e1.dstV < e2.dstV || (e1.dstV == e2.dstV && e1.isV < e2.isV)
  }

  /** What `std::sort` guarantees: no element is followed by one that must come before it. */
  ghost predicate SortedBy(s: seq<Ve>, before: (Ve, Ve) -> bool) {
    forall i, j :: 0 <= i < j < |s| ==> !before(s[j], s[i])
  }

  // ----- graphs -----

  ghost predicate HasVertex(g: seq<Ve>, id: int) {
    exists v :: v in g && v.isV == 1 && v.srcV == id
  }

  /** One vertex record per id, edges between existing vertices. */
  ghost predicate IsGraph(g: seq<Ve>) {
    && (forall e :: e in g ==> e.isV == 0 || e.isV == 1)
    && (forall e :: e in g && e.isV == 1 ==> e.srcV == e.dstV)
    && (forall e :: e in g ==> HasVertex(g, e.srcV) && HasVertex(g, e.dstV))
    && (forall i, j :: 0 <= i < j < |g| && g[i].isV == 1 && g[j].isV == 1 ==> g[i].srcV != g[j].srcV)
  }

  /** The data of the vertex with the given id. */
  ghost function VertexData(g: seq<Ve>, id: int): int {
    if HasVertex(g, id) then
      var v :| v in g && v.isV == 1 && v.srcV == id;
      v.data
    else 0
  }

  lemma VertexDataIs(g: seq<Ve>, v: Ve)
    requires IsGraph(g) && v in g && v.isV == 1
    ensures VertexData(g, v.srcV) == v.data
  {
    assert HasVertex(g, v.srcV);
    var w :| w in g && w.isV == 1 && w.srcV == v.srcV && VertexData(g, v.srcV) == w.data;
    var i :| 0 <= i < |g| && g[i] == v;
    var j :| 0 <= j < |g| && g[j] == w;
    assert i == j;
  }

  /** The sum of the source vertices' data over the in-edges of a vertex. */
  ghost function InEdgeSum(g: seq<Ve>, id: int, n: nat): int
    requires n <= |g|
  {
    if n == 0 then 0
    else InEdgeSum(g, id, n - 1) + if g[n - 1].isV == 0 && g[n - 1].dstV == id then VertexData(g, g[n - 1].srcV) else 0
  }

  // ----- permutations -----

  function Remove<T>(s: seq<T>, k: nat): (r: seq<T>)
    requires k < |s|
    ensures |r| == |s| - 1
  {
    s[..k] + s[k + 1..]
  }

  lemma RemoveMultiset<T>(s: seq<T>, k: nat)
    requires k < |s|
    ensures multiset(Remove(s, k)) == multiset(s) - multiset{s[k]}
  {
    assert s == s[..k] + [s[k]] + s[k + 1..];
  }

  lemma {:induction false} TwoIndices<T>(s: seq<T>, x: T) returns (i: nat, j: nat)
    requires multiset(s)[x] >= 2
    ensures i < j < |s| && s[i] == x && s[j] == x
  {
    var t, last := s[..|s| - 1], s[|s| - 1];
    assert s == t + [last];
    if last == x {
      j := |s| - 1;
      assert x in t;
      i :| i < |t| && t[i] == x;
    } else {
      i, j := TwoIndices(t, x);
    }
  }

  lemma SameIndices<T>(s: seq<T>, i: nat, j: nat)
    requires i < j < |s| && s[i] == s[j]
    ensures multiset(s)[s[i]] >= 2
  {
    assert s == s[..j] + [s[j]] + s[j + 1..];
    assert s[i] in s[..j];
  }

  lemma SameMembers<T>(g: seq<T>, h: seq<T>)
    requires multiset(g) == multiset(h)
    ensures forall e :: e in g <==> e in h
  {
    assert forall e :: e in multiset(g) <==> e in g;
    assert forall e :: e in multiset(h) <==> e in h;
  }

  lemma PermutedGraph(g: seq<Ve>, h: seq<Ve>)
    requires IsGraph(g) && multiset(g) == multiset(h)
    ensures IsGraph(h)
  {
    SameMembers(g, h);
    forall i, j | 0 <= i < j < |h| && h[i].isV == 1 && h[j].isV == 1 ensures h[i].srcV != h[j].srcV {
      if h[i].srcV == h[j].srcV {
        assert h[i] in g && h[j] in g;
        var a :| 0 <= a < |g| && g[a] == h[i];
        var b :| 0 <= b < |g| && g[b] == h[j];
        assert a == b;
        SameIndices(h, i, j);
        var c, d := TwoIndices(g, h[i]);
      }
    }
  }

  lemma GraphPermutes(g: seq<Ve>, h: seq<Ve>)
    requires IsGraph(g) && multiset(g) == multiset(h)
    ensures IsGraph(h) && forall id :: VertexData(h, id) == VertexData(g, id)
  {
    SameMembers(g, h);
    PermutedGraph(g, h);
    forall id ensures HasVertex(g, id) <==> HasVertex(h, id) {}
    forall id ensures VertexData(h, id) == VertexData(g, id) {
      if HasVertex(g, id) {
        var v :| v in g && v.isV == 1 && v.srcV == id;
        VertexDataIs(g, v);
        VertexDataIs(h, v);
      }
    }
  }

  function Map<T>(f: Ve -> T, s: seq<Ve>): (r: seq<T>)
    ensures |r| == |s| && forall i :: 0 <= i < |s| ==> r[i] == f(s[i])
  {
    seq(|s|, i requires 0 <= i < |s| => f(s[i]))
  }

  lemma {:induction false} MapPermutes<T>(f: Ve -> T, s: seq<Ve>, t: seq<Ve>)
    requires multiset(s) == multiset(t)
    ensures multiset(Map(f, s)) == multiset(Map(f, t))
    decreases |s|
  {
    if s == [] {
      assert |multiset(t)| == 0;
    } else {
      var n := |s| - 1;
      assert s[n] in multiset(t);
      var k :| 0 <= k < |t| && t[k] == s[n];
      RemoveMultiset(s, n);
      RemoveMultiset(t, k);
      MapPermutes(f, Remove(s, n), Remove(t, k));
      assert Map(f, Remove(s, n)) == Remove(Map(f, s), n);
      assert Map(f, Remove(t, k)) == Remove(Map(f, t), k);
      RemoveMultiset(Map(f, s), n);
      RemoveMultiset(Map(f, t), k);
      PutBack(multiset(Map(f, s)), multiset(Map(f, t)), f(s[n]));
    }
  }

  lemma PutBack<T>(a: multiset<T>, b: multiset<T>, x: T)
    requires x in a && x in b && a - multiset{x} == b - multiset{x}
    ensures a == b
  {
    assert a == (a - multiset{x}) + multiset{x};
    assert b == (b - multiset{x}) + multiset{x};
  }

  /** perm without the target j: larger targets move down by one. */
  function Lower(perm: seq<int>, j: int): (r: seq<int>)
    ensures |r| == |perm| && forall i :: 0 <= i < |perm| ==> r[i] == if perm[i] > j then perm[i] - 1 else perm[i]
  {
    seq(|perm|, i requires 0 <= i < |perm| => if perm[i] > j then perm[i] - 1 else perm[i])
  }

  /** Putting every element at its target index loses nothing and invents nothing. */
  lemma {:induction false} PermutedMultiset<T>(s: seq<T>, t: seq<T>, perm: seq<int>)
    requires |s| == |t| == |perm| && IsPermutation(perm)
    requires forall i :: 0 <= i < |s| ==> t[perm[i]] == s[i]
    ensures multiset(s) == multiset(t)
    decreases |s|
  {
    if s == [] {
      assert t == [];
    } else {
      var n := |s| - 1;
      var j := perm[n];
      PermutedMultiset(Remove(s, n), Remove(t, j), Lower(perm[..n], j));
      RemoveMultiset(s, n);
      RemoveMultiset(t, j);
      assert s[n] == t[j];
      PutBack(multiset(s), multiset(t), s[n]);
    }
  }

  // ----- scatter -----

  function FuncScatter(val: int): int { val }

  /** The value `val` holds before record i. */
  function ScatterVal(s: seq<Ve>, i: nat): int
    requires i <= |s|
  {
    if i == 0 then 0 else if s[i - 1].isV != 0 then s[i - 1].data else ScatterVal(s, i - 1)
  }

  /** Record i after `_scatter`. */
  function ScatteredAt(s: seq<Ve>, i: nat): Ve
    requires i < |s|
  {
    if s[i].isV != 0 then s[i] else s[i].(data := FuncScatter(ScatterVal(s, i)))
  }

  method Scatter(graph: array<Ve>)
    modifies graph
    ensures forall i :: 0 <= i < graph.Length ==> graph[i] == ScatteredAt(old(graph[..]), i)
  {
    ghost var s := graph[..];
    var val := 0;
    for i := 0 to graph.Length
      invariant val == ScatterVal(s, i)
      invariant forall k :: 0 <= k < i ==> graph[k] == ScatteredAt(s, k)
      invariant forall k :: i <= k < graph.Length ==> graph[k] == s[k]
    {
      if graph[i].isV != 0 {
        val := graph[i].data;
      } else {
        graph[i] := graph[i].(data := FuncScatter(val));
      }
    }
  }

  /** A record whose data, for an edge, is that of its source vertex in g. */
  ghost function Resolve(g: seq<Ve>, e: Ve): Ve {
    if e.isV != 0 then e else e.(data := VertexData(g, e.srcV))
  }

  lemma {:induction false} ScatterRun(s: seq<Ve>, k: nat, i: nat)
    requires k < i <= |s| && s[k].isV != 0 && forall j :: k < j < i ==> s[j].isV == 0
    ensures ScatterVal(s, i) == s[k].data
    decreases i
  {
    if i > k + 1 {
      ScatterRun(s, k, i - 1);
    }
  }

  /** In the scatter order every edge follows its source vertex, with only edges in between. */
  lemma ScatterResolves(s: seq<Ve>, i: nat)
    requires IsGraph(s) && SortedBy(s, CompScatter) && i < |s|
    ensures ScatteredAt(s, i) == Resolve(s, s[i])
  {
    if s[i].isV == 0 {
      assert HasVertex(s, s[i].srcV);
      var v :| v in s && v.isV == 1 && v.srcV == s[i].srcV;
      var k :| 0 <= k < |s| && s[k] == v;
      assert k < i by {
        assert CompScatter(s[k], s[i]);
      }
      forall j | k < j < i ensures s[j].isV == 0 {
        assert !CompScatter(s[j], s[k]) && !CompScatter(s[i], s[j]);
      }
      ScatterRun(s, k, i);
      VertexDataIs(s, v);
    }
  }

  // ----- gather -----

  /** The value `agg` holds before record i. */
  function Agg(s: seq<Ve>, i: nat): int
    requires i <= |s|
  {
    if i == 0 then 0 else if s[i - 1].isV != 0 then 0 else Agg(s, i - 1) + s[i - 1].data
  }

  /** Record i after `_gather`. */
  function GatheredAt(s: seq<Ve>, i: nat): Ve
    requires i < |s|
  {
    if s[i].isV != 0 then s[i].(data := Agg(s, i)) else s[i]
  }

  method Gather(graph: array<Ve>)
    modifies graph
    ensures forall i :: 0 <= i < graph.Length ==> graph[i] == GatheredAt(old(graph[..]), i)
  {
    ghost var s := graph[..];
    var agg := 0;
    for i := 0 to graph.Length
      invariant agg == Agg(s, i)
      invariant forall k :: 0 <= k < i ==> graph[k] == GatheredAt(s, k)
      invariant forall k :: i <= k < graph.Length ==> graph[k] == s[k]
    {
      if graph[i].isV != 0 {
        graph[i] := graph[i].(data := agg);
        agg := 0;
      } else {
        agg := agg + graph[i].data;
      }
    }
  }

  function EdgeTerm(e: Ve, id: int): int {
    if e.isV == 0 && e.dstV == id then e.data else 0
  }

  /** The sum of the data of the edges to a vertex. */
  function EdgeSum(s: seq<Ve>, id: int): int {
    if s == [] then 0 else EdgeSum(s[..|s| - 1], id) + EdgeTerm(s[|s| - 1], id)
  }

  lemma {:induction false} EdgeSumConcat(a: seq<Ve>, b: seq<Ve>, id: int)
    ensures EdgeSum(a + b, id) == EdgeSum(a, id) + EdgeSum(b, id)
    decreases |b|
  {
    if b == [] {
      assert a + b == a;
    } else {
      EdgeSumConcat(a, b[..|b| - 1], id);
      assert (a + b)[..|a + b| - 1] == a + b[..|b| - 1];
    }
  }

  lemma EdgeSumRemove(t: seq<Ve>, k: nat, id: int)
    requires k < |t|
    ensures EdgeSum(t, id) == EdgeSum(Remove(t, k), id) + EdgeTerm(t[k], id)
  {
    var a, x, b := t[..k], [t[k]], t[k + 1..];
    assert EdgeSum(x, id) == EdgeTerm(t[k], id) by { assert x[..0] == []; }
    EdgeSumConcat(a, b, id);
    EdgeSumConcat(a, x, id);
    EdgeSumConcat(a + x, b, id);
    assert t == a + x + b;
  }

  lemma {:induction false} EdgeSumPermutes(s: seq<Ve>, t: seq<Ve>, id: int)
    requires multiset(s) == multiset(t)
    ensures EdgeSum(s, id) == EdgeSum(t, id)
    decreases |s|
  {
    hide EdgeSum;
    if s == [] {
      assert |multiset(t)| == 0;
    } else {
      var n := |s| - 1;
      assert s[n] in multiset(t);
      var k :| 0 <= k < |t| && t[k] == s[n];
      RemoveMultiset(s, n);
      RemoveMultiset(t, k);
      EdgeSumPermutes(Remove(s, n), Remove(t, k), id);
      EdgeSumRemove(s, n, id);
      EdgeSumRemove(t, k, id);
    }
  }

  lemma {:induction false} NoEdges(s: seq<Ve>, id: int)
    requires forall e :: e in s ==> EdgeTerm(e, id) == 0
    ensures EdgeSum(s, id) == 0
  {
    if s != [] {
      NoEdges(s[..|s| - 1], id);
    }
  }

  /** A run of edges to one vertex, after a vertex or at the start. */
  lemma {:induction false} AggRun(s: seq<Ve>, p: nat, i: nat, id: int)
    requires p <= i <= |s| && (p == 0 || s[p - 1].isV != 0)
    requires forall j :: p <= j < i ==> s[j].isV == 0 && s[j].dstV == id
    ensures Agg(s, i) == EdgeSum(s[p..i], id)
    decreases i
  {
    if i > p {
      AggRun(s, p, i - 1, id);
      assert s[p..i][..i - p - 1] == s[p..i - 1];
    }
  }

  /** Where the run of records before i that are no vertices starts. */
  function RunStart(s: seq<Ve>, i: nat): (p: nat)
    requires i <= |s|
    ensures p <= i && (p == 0 || s[p - 1].isV != 0) && forall j :: p <= j < i ==> s[j].isV == 0
  {
    if i == 0 || s[i - 1].isV != 0 then i else RunStart(s, i - 1)
  }

  lemma NothingBefore(s: seq<Ve>, p: nat, i: nat)
    requires IsGraph(s) && SortedBy(s, CompGather) && p <= i < |s| && s[i].isV == 1 && (p == 0 || s[p - 1].isV != 0)
    ensures EdgeSum(s[..p], s[i].srcV) == 0
  {
    forall e | e in s[..p] ensures EdgeTerm(e, s[i].srcV) == 0 {
      var j :| 0 <= j < p && s[j] == e;
    }
    NoEdges(s[..p], s[i].srcV);
  }

  lemma NothingAfter(s: seq<Ve>, i: nat)
    requires IsGraph(s) && SortedBy(s, CompGather) && i < |s| && s[i].isV == 1
    ensures EdgeSum(s[i..], s[i].srcV) == 0
  {
    assert s[i] in s;
    forall e | e in s[i..] ensures EdgeTerm(e, s[i].srcV) == 0 {
      var j :| i <= j < |s| && s[j] == e;
      assert j > i ==> !CompGather(s[j], s[i]);
    }
    NoEdges(s[i..], s[i].srcV);
  }

  lemma EdgeSumSplit(s: seq<Ve>, p: nat, i: nat, id: int)
    requires p <= i <= |s|
    ensures EdgeSum(s, id) == EdgeSum(s[..p], id) + EdgeSum(s[p..i], id) + EdgeSum(s[i..], id)
  {
    hide EdgeSum;
    EdgeSumConcat(s[..p], s[p..i], id);
    EdgeSumConcat(s[..p] + s[p..i], s[i..], id);
    assert s == s[..p] + s[p..i] + s[i..];
  }

  /** In the gather order exactly the in-edges of a vertex lie between it and the vertex before. */
  lemma GatherSums(s: seq<Ve>, i: nat)
    requires IsGraph(s) && SortedBy(s, CompGather) && i < |s| && s[i].isV == 1
    ensures GatheredAt(s, i).data == EdgeSum(s, s[i].srcV)
  {
    hide EdgeSum, IsGraph, SortedBy, RunStart, Agg;
    var x, p := s[i].srcV, RunStart(s, i);
    forall j | p <= j < i ensures s[j].dstV == x {
      InEdgeBeforeVertex(s, p, i, j);
    }
    AggRun(s, p, i, x);
    NothingBefore(s, p, i);
    NothingAfter(s, i);
    EdgeSumSplit(s, p, i, x);
  }

  lemma InEdgeBeforeVertex(s: seq<Ve>, p: nat, i: nat, j: nat)
    requires IsGraph(s) && SortedBy(s, CompGather) && p <= j < i < |s| && s[i].isV == 1
    requires forall k :: p <= k < i ==> s[k].isV == 0
    ensures s[j].dstV == s[i].srcV
  {
    assert s[i] in s && s[j] in s;
    assert !CompGather(s[i], s[j]);
    assert HasVertex(s, s[j].dstV);
    var v :| v in s && v.isV == 1 && v.srcV == s[j].dstV;
    var k :| 0 <= k < |s| && s[k] == v;
    assert CompGather(s[j], s[k]);
    assert k > j;
    assert s[j].dstV < s[i].srcV ==> CompGather(s[k], s[i]);
  }

  // ----- one round -----

  /** The in-edge sum is the edge sum once every edge carries its source's data. */
  lemma {:induction false} ResolvedSum(g: seq<Ve>, id: int, n: nat)
    requires n <= |g|
    ensures EdgeSum(Map(e => Resolve(g, e), g)[..n], id) == InEdgeSum(g, id, n)
  {
    var r := Map(e => Resolve(g, e), g);
    if n > 0 {
      ResolvedSum(g, id, n - 1);
      assert r[..n][..n - 1] == r[..n - 1];
    }
  }

  /** The graph after the scatter pass is a graph ... */
  lemma ResolvedGraph(g: seq<Ve>, r: seq<Ve>)
    requires IsGraph(g) && |r| == |g| && forall i :: 0 <= i < |g| ==> r[i] == Resolve(g, g[i])
    ensures IsGraph(r)
  {
    hide VertexData;
    forall id | HasVertex(g, id) ensures HasVertex(r, id) {
      var v :| v in g && v.isV == 1 && v.srcV == id;
      var i :| 0 <= i < |g| && g[i] == v;
      assert r[i] == v;
    }
    forall e | e in r
      ensures (e.isV == 0 || e.isV == 1) && (e.isV == 1 ==> e.srcV == e.dstV) && HasVertex(r, e.srcV) && HasVertex(r, e.dstV)
    {
      var i :| 0 <= i < |r| && r[i] == e;
      assert g[i] in g;
    }
  }

  /** ... and its edges carry what the in-edges are to be summed over. */
  lemma ResolvedSums(g: seq<Ve>, r: seq<Ve>, id: int)
    requires |r| == |g| && forall i :: 0 <= i < |g| ==> r[i] == Resolve(g, g[i])
    ensures EdgeSum(r, id) == InEdgeSum(g, id, |g|)
  {
    hide EdgeSum, InEdgeSum, VertexData;
    ResolvedSum(g, id, |g|);
    assert Map(e => Resolve(g, e), g)[..|g|] == r;
  }

  lemma {:induction false} InEdgeSumIs(g: seq<Ve>, h: seq<Ve>, id: int)
    requires IsGraph(g) && multiset(g) == multiset(h)
    ensures InEdgeSum(g, id, |g|) == InEdgeSum(h, id, |h|)
  {
    hide EdgeSum, IsGraph;
    GraphPermutes(g, h);
    var f := (e: Ve) => Resolve(g, e);
    var r, q := Map(f, g), Map(f, h);
    MapPermutes(f, g, h);
    EdgeSumPermutes(r, q, id);
    ResolvedSums(g, r, id);
    ResolvedSums(h, q, id);
  }

  /** What one round makes of a record: a vertex gets the sum over its in-edges, an edge keeps the old data of its
      source vertex. */
  ghost function Outcome(g: seq<Ve>, e: Ve): Ve {
    if e.isV == 1 then e.(data := InEdgeSum(g, e.srcV, |g|)) else Resolve(g, e)
  }

  /** What one round does to a graph, whatever the two sorts do with ties: the records are those of the graph,
      each with its outcome. */
  ghost predicate Aggregated(g: seq<Ve>, r: seq<Ve>) {
    multiset(r) == multiset(Map(e => Outcome(g, e), g))
  }

  /** An edge ends with the data of the vertex it comes from. */
  lemma OutcomeOfEdge(g: seq<Ve>, e: Ve, u: Ve)
    requires IsGraph(g) && e.isV == 0 && u in g && u.isV == 1 && u.srcV == e.srcV
    ensures Outcome(g, e) == e.(data := u.data)
  {
    VertexDataIs(g, u);
  }

  /** A vertex without in-edges ends with 0. */
  lemma {:induction false} NothingGathered(g: seq<Ve>, id: int, n: nat)
    requires n <= |g| && forall e :: e in g && e.isV == 0 ==> e.dstV != id
    ensures InEdgeSum(g, id, n) == 0
  {
    if n > 0 {
      assert g[n - 1] in g;
      NothingGathered(g, id, n - 1);
    }
  }

  lemma OutcomeOfIsolated(g: seq<Ve>, v: Ve)
    requires v.isV == 1 && forall e :: e in g && e.isV == 0 ==> e.dstV != v.srcV
    ensures Outcome(g, v) == v.(data := 0)
  {
    NothingGathered(g, v.srcV, |g|);
  }

  lemma {:induction false} InEdgePrefix(g: seq<Ve>, e: Ve, id: int, n: nat)
    requires n <= |g| && forall x :: VertexData(g + [e], x) == VertexData(g, x)
    ensures InEdgeSum(g + [e], id, n) == InEdgeSum(g, id, n)
  {
    if n > 0 {
      InEdgePrefix(g, e, id, n - 1);
    }
  }

  /** One more edge, from u, adds exactly the data of u to the vertex it goes to, and nothing to any other. */
  lemma OneMoreEdge(g: seq<Ve>, e: Ve, u: Ve, v: Ve)
    requires IsGraph(g) && IsGraph(g + [e]) && e.isV == 0 && u in g && u.isV == 1 && u.srcV == e.srcV && v.isV == 1
    ensures Outcome(g + [e], v).data == Outcome(g, v).data + if e.dstV == v.srcV then u.data else 0
  {
    hide IsGraph, VertexData;
    forall x ensures VertexData(g + [e], x) == VertexData(g, x) {
      SameVertices(g, e, x);
    }
    InEdgePrefix(g, e, v.srcV, |g|);
    VertexDataIs(g, u);
  }

  /** An edge more or less does not concern the vertices. */
  lemma SameVertices(g: seq<Ve>, e: Ve, id: int)
    requires IsGraph(g) && IsGraph(g + [e]) && e.isV == 0
    ensures VertexData(g + [e], id) == VertexData(g, id)
  {
    hide IsGraph;
    if HasVertex(g, id) {
      var w :| w in g && w.isV == 1 && w.srcV == id;
      VertexDataIs(g, w);
      VertexDataIs(g + [e], w);
    }
  }

  /** s is g sorted for the scatter, t is s after the scatter pass, u is t sorted for the gather, r is
      u after the gather pass. */
  lemma RoundAggregates(g: seq<Ve>, s: seq<Ve>, t: seq<Ve>, u: seq<Ve>, r: seq<Ve>)
    requires IsGraph(g) && multiset(s) == multiset(g) && SortedBy(s, CompScatter)
    requires |t| == |s| && forall i :: 0 <= i < |s| ==> t[i] == ScatteredAt(s, i)
    requires multiset(u) == multiset(t) && SortedBy(u, CompGather)
    requires |r| == |u| && forall i :: 0 <= i < |u| ==> r[i] == GatheredAt(u, i)
    ensures Aggregated(g, r)
  {
    hide EdgeSum, IsGraph, SortedBy, Agg, ScatterVal, GatheredAt, ScatteredAt, InEdgeSum, VertexData;
    GraphPermutes(g, s);
    forall i | 0 <= i < |s| ensures t[i] == Resolve(s, s[i]) {
      ScatterResolves(s, i);
    }
    ResolvedGraph(s, t);
    GraphPermutes(t, u);
    var sum := (e: Ve) => if e.isV == 1 then e.(data := InEdgeSum(g, e.srcV, |g|)) else e;
    var outcome := (e: Ve) => Outcome(g, e);
    forall i | 0 <= i < |u| ensures r[i] == sum(u[i]) {
      GatheredRecord(u, i);
      if u[i].isV == 1 {
        GatherSums(u, i);
        EdgeSumPermutes(t, u, u[i].srcV);
        ResolvedSums(s, t, u[i].srcV);
        InEdgeSumIs(g, s, u[i].srcV);
      }
    }
    assert r == Map(sum, u);
    MapPermutes(sum, t, u);
    assert Map(sum, t) == Map(outcome, s);
    MapPermutes(outcome, g, s);
    assert Map(outcome, g) == Map(e => Outcome(g, e), g);
  }

  lemma GatheredRecord(s: seq<Ve>, i: nat)
    requires i < |s|
    ensures GatheredAt(s, i) == s[i].(data := GatheredAt(s, i).data) && (s[i].isV == 0 ==> GatheredAt(s, i) == s[i])
  {}

  // ----- the program -----

  /** The shuffle of one field. */
  method ShuffleField(graph: array<Ve>, field: Ve -> int, perm: array<int>) returns (ok: bool, shuffled: array<int>)
    requires 2 <= graph.Length == perm.Length && IsPermutation(perm[..])
    ensures fresh(shuffled) && shuffled.Length == graph.Length
    ensures ok <==> SectionsOpen(graph.Length) && NoBucketOverflows(perm[..], 1)
    ensures ok ==> forall i {:trigger perm[i]} :: 0 <= i < graph.Length ==> 0 <= perm[i] < graph.Length && shuffled[perm[i]] == field(graph[i])
  {
    hide NoBucketOverflows, SectionsOpen;
    var n := graph.Length;
    ghost var p := perm[..];
    var toShuffle := new int[n];
    shuffled := new int[n];
    for i := 0 to n
      invariant forall k :: 0 <= k < i ==> toShuffle[k] == field(graph[k])
    {
      toShuffle[i] := field(graph[i]);
    }
    assert perm[..] == p;
    ok := MelbourneShuffle(toShuffle, perm, shuffled, 1);
    assert forall i {:trigger perm[i]} :: 0 <= i < n ==> perm[i] == p[i];
  }

  /** `shuffle`: the four fields are shuffled one by one with the same permutation. */
  method Shuffle(graph: array<Ve>, perm: array<int>) returns (ok: bool)
    requires 2 <= graph.Length == perm.Length && IsPermutation(perm[..])
    modifies graph
    ensures ok <==> SectionsOpen(graph.Length) && NoBucketOverflows(perm[..], 1)
    ensures ok ==> multiset(graph[..]) == old(multiset(graph[..]))
    ensures ok ==> forall i {:trigger perm[i]} :: 0 <= i < graph.Length ==> 0 <= perm[i] < graph.Length && graph[perm[i]] == old(graph[i])
  {
    hide IsPermutation, NoBucketOverflows, SectionsOpen;
    var n := graph.Length;
    ghost var g, p := graph[..], perm[..];
    var field1, field2, field3, field4;
    ok, field1 := ShuffleField(graph, (e: Ve) => e.srcV, perm);
    if !ok { return; }
    ok, field2 := ShuffleField(graph, (e: Ve) => e.dstV, perm);
    ok, field3 := ShuffleField(graph, (e: Ve) => e.isV, perm);
    ok, field4 := ShuffleField(graph, (e: Ve) => e.data, perm);
    ghost var f := Fields(field1[..], field2[..], field3[..], field4[..]);
    forall i {:trigger p[i]} | 0 <= i < n ensures 0 <= p[i] < n && f[p[i]] == g[i] {
      assert perm[i] == p[i];
    }
    for i := 0 to n
      invariant f == Fields(field1[..], field2[..], field3[..], field4[..])
      invariant forall k :: 0 <= k < i ==> graph[k] == f[k]
    {
      graph[i] := Ve(field1[i], field2[i], field3[i], field4[i]);
    }
    assert graph[..] == f;
    PermutedMultiset(g, f, p);
  }

  function Fields(f1: seq<int>, f2: seq<int>, f3: seq<int>, f4: seq<int>): (r: seq<Ve>)
    requires |f1| == |f2| == |f3| == |f4|
    ensures |r| == |f1| && forall i :: 0 <= i < |r| ==> r[i] == Ve(f1[i], f2[i], f3[i], f4[i])
  {
    seq(|f1|, i requires 0 <= i < |f1| => Ve(f1[i], f2[i], f3[i], f4[i]))
  }

  /** One round over the graph.  The two sorts are any functions that sort by their comparators. */
  method GraphSc(graph: array<Ve>, perm1: array<int>, perm2: array<int>,
                 scatterSort: seq<Ve> -> seq<Ve>, gatherSort: seq<Ve> -> seq<Ve>) returns (ok: bool)
    requires 2 <= graph.Length == perm1.Length == perm2.Length
    requires IsPermutation(perm1[..]) && IsPermutation(perm2[..])
    requires forall s :: multiset(scatterSort(s)) == multiset(s) && SortedBy(scatterSort(s), CompScatter)
    requires forall s :: multiset(gatherSort(s)) == multiset(s) && SortedBy(gatherSort(s), CompGather)
    modifies graph
    ensures ok <==> SectionsOpen(graph.Length) && NoBucketOverflows(perm1[..], 1) && NoBucketOverflows(perm2[..], 1)
    ensures ok && IsGraph(old(graph[..])) ==> Aggregated(old(graph[..]), graph[..])
  {
    hide IsPermutation, NoBucketOverflows, SectionsOpen, IsGraph, SortedBy, Aggregated, ScatteredAt, GatheredAt;
    ghost var g := graph[..];
    ok := Shuffle(graph, perm1);
    if !ok { return; }
    ghost var s := scatterSort(graph[..]);
    Replace(graph, scatterSort(graph[..]));
    Scatter(graph);
    ghost var t := graph[..];
    ok := Shuffle(graph, perm2);
    if !ok { return; }
    ghost var u := gatherSort(graph[..]);
    Replace(graph, gatherSort(graph[..]));
    Gather(graph);
    if IsGraph(g) {
      RoundAggregates(g, s, t, u, graph[..]);
    }
  }

  method Replace(graph: array<Ve>, s: seq<Ve>)
    requires multiset(s) == multiset(graph[..])
    modifies graph
    ensures graph[..] == s
  {
    assert |multiset(s)| == |s| && |multiset(graph[..])| == graph.Length;
    forall i | 0 <= i < graph.Length { graph[i] := s[i]; }
  }
}
