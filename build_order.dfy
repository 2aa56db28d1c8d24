/** Build ordering of `PackageBuilder.detect_cycle` (ubuntu/build_deb.py:158-220): a dependency graph over
    binary-package names and Kahn's algorithm over it, with the one-shot recovery that forces a vertex of
    minimal in-degree into an empty queue. */
module BuildOrder {

  import opened Wrappers
  import opened Collections
  import opened BuildDeb

  /** An edge `(dependency, binary)`: `binary` cannot be built before `dependency`. */
  type Edge = (string, string)

  // ---------------------------------------------------------------------------------------------
  // The graph that lines 171-184 build
  // ---------------------------------------------------------------------------------------------

  /** The binary names of the table, in the order the loops at lines 172-173 visit them. */
  function Binaries(table: seq<Descriptor>): seq<string>
  {
    if table == [] then [] else Binaries(table[..|table| - 1]) + table[|table| - 1].packages
  }

  /** `(dep, binary)` for every dependency of one binary, in the order of the innermost loop. */
  function BinaryEdges(binary: string, deps: seq<string>): seq<Edge>
  {
    if deps == [] then [] else BinaryEdges(binary, deps[..|deps| - 1]) + [(deps[|deps| - 1], binary)]
  }

  /** The edges one descriptor contributes: one per (binary, dependency) pair. */
  function DescriptorEdges(packages: seq<string>, deps: seq<string>): seq<Edge>
  {
    if packages == [] then []
    else DescriptorEdges(packages[..|packages| - 1], deps) + BinaryEdges(packages[|packages| - 1], deps)
  }

  /** The edges in the order the loops at lines 177-179 visit them. */
  function EdgesOf(table: seq<Descriptor>): seq<Edge>
  {
    if table == [] then []
    else
      var d := table[|table| - 1];
      EdgesOf(table[..|table| - 1]) + DescriptorEdges(d.packages, d.dependencies)
  }

  function Sources(edges: seq<Edge>): seq<string>
  {
    if edges == [] then [] else Sources(edges[..|edges| - 1]) + [edges[|edges| - 1].0]
  }

  function Targets(edges: seq<Edge>): seq<string>
  {
    if edges == [] then [] else Targets(edges[..|edges| - 1]) + [edges[|edges| - 1].1]
  }

  /** `graph[u]`: the targets of the edges leaving `u`, in edge order. */
  function Successors(edges: seq<Edge>, u: string): seq<string>
  {
    if edges == [] then []
    else
      var e := edges[|edges| - 1];
      Successors(edges[..|edges| - 1], u) + (if e.0 == u then [e.1] else [])
  }

  /** The keys of `in_degree` in insertion order: every binary, then every new dependency. */
  function Vertices(table: seq<Descriptor>): seq<string>
  {
    Dedup(Binaries(table) + Sources(EdgesOf(table)))
  }

  /** `in_degree` after line 184: the number of edges into each vertex. */
  function InDegrees(keys: seq<string>, edges: seq<Edge>): map<string, int>
  {
    map v | v in keys :: multiset(Targets(edges))[v]
  }

  /** `graph` after line 184. */
  function Graph(keys: seq<string>, edges: seq<Edge>): map<string, seq<string>>
  {
    map v | v in keys :: Successors(edges, v)
  }

  /** `graph` and `in_degree` hold, for exactly the vertices `keys`, the successors and edge counts of `edges`. */
  ghost predicate Tables(keys: seq<string>, edges: seq<Edge>, graph: map<string, seq<string>>, indeg: map<string, int>)
  {
    && (forall v :: v in graph <==> v in keys)
    && (forall v :: v in indeg <==> v in keys)
    && (forall v :: v in keys ==> graph[v] == Successors(edges, v) && indeg[v] == multiset(Targets(edges))[v])
  }

  lemma TablesAreMaps(keys: seq<string>, edges: seq<Edge>, graph: map<string, seq<string>>, indeg: map<string, int>)
    requires Tables(keys, edges, graph, indeg)
    ensures graph == Graph(keys, edges) && indeg == InDegrees(keys, edges)
  {
    assert graph.Keys == Graph(keys, edges).Keys;
    assert indeg.Keys == InDegrees(keys, edges).Keys;
  }

  /** The maps of line 184 are a state Kahn's loop can run on, with any queue of vertices. */
  lemma GraphRunState(keys: seq<string>, edges: seq<Edge>, queue: seq<string>)
    requires forall e :: e in edges ==> e.0 in keys && e.1 in keys
    requires forall v :: v in queue ==> v in keys
    ensures RunState(Graph(keys, edges), InDegrees(keys, edges), queue)
  {
    var graph := Graph(keys, edges);
    forall u | u in graph ensures forall d :: d in graph[u] ==> d in InDegrees(keys, edges) {
      SuccessorsMembers(edges, u);
    }
  }

  lemma {:induction false} BinaryEdgesMembers(binary: string, deps: seq<string>)
    ensures forall e :: e in BinaryEdges(binary, deps) <==> e.1 == binary && e.0 in deps
  {
    if deps != [] {
      var p := deps[..|deps| - 1];
      BinaryEdgesMembers(binary, p);
      assert deps == p + [deps[|deps| - 1]];
    }
  }

  lemma {:induction false} DescriptorEdgesMembers(packages: seq<string>, deps: seq<string>)
    ensures forall e :: e in DescriptorEdges(packages, deps) <==> e.1 in packages && e.0 in deps
  {
    if packages != [] {
      var p := packages[..|packages| - 1];
      DescriptorEdgesMembers(p, deps);
      BinaryEdgesMembers(packages[|packages| - 1], deps);
      assert packages == p + [packages[|packages| - 1]];
    }
  }

  /** Descriptor `j` contributes edge `e`. */
  predicate EdgeOfDescriptor(table: seq<Descriptor>, j: int, e: Edge)
  {
    0 <= j < |table| && e.1 in table[j].packages && e.0 in table[j].dependencies
  }

  /** There is an edge dependency -> binary exactly for each binary and dependency of one descriptor. */
  lemma {:induction false} EdgesOfMembers(table: seq<Descriptor>, e: Edge)
    ensures e in EdgesOf(table) <==> exists j :: EdgeOfDescriptor(table, j, e)
  {
    if table != [] {
      var p := table[..|table| - 1];
      var d := table[|table| - 1];
      EdgesOfMembers(p, e);
      DescriptorEdgesMembers(d.packages, d.dependencies);
      assert EdgesOf(table) == EdgesOf(p) + DescriptorEdges(d.packages, d.dependencies);
      assert e in EdgesOf(table) <==> e in EdgesOf(p) || (e.1 in d.packages && e.0 in d.dependencies);
      if exists j :: EdgeOfDescriptor(p, j, e) {
        var j :| EdgeOfDescriptor(p, j, e);
        assert EdgeOfDescriptor(table, j, e);
      }
      if e.1 in d.packages && e.0 in d.dependencies {
        assert EdgeOfDescriptor(table, |p|, e);
      }
      if exists j :: EdgeOfDescriptor(table, j, e) {
        var j :| EdgeOfDescriptor(table, j, e);
        if j < |p| {
          assert EdgeOfDescriptor(p, j, e);
        } else {
          assert table[j] == d;
        }
      }
    }
  }

  lemma {:induction false} BinariesMembers(table: seq<Descriptor>, x: string)
    ensures x in Binaries(table) <==> exists j :: 0 <= j < |table| && x in table[j].packages
  {
    if table != [] {
      var p := table[..|table| - 1];
      BinariesMembers(p, x);
      if exists j :: 0 <= j < |p| && x in p[j].packages {
        var j :| 0 <= j < |p| && x in p[j].packages;
        assert table[j] == p[j];
      }
      if exists j :: 0 <= j < |table| && x in table[j].packages {
        var j :| 0 <= j < |table| && x in table[j].packages;
        if j < |p| {
          assert table[j] == p[j];
        }
      }
    }
  }

  lemma {:induction false} SourcesTargetsMembers(edges: seq<Edge>)
    ensures forall x :: x in Sources(edges) <==> exists e :: e in edges && e.0 == x
    ensures forall x :: x in Targets(edges) <==> exists e :: e in edges && e.1 == x
  {
    if edges != [] {
      var p := edges[..|edges| - 1];
      SourcesTargetsMembers(p);
      assert edges == p + [edges[|edges| - 1]];
    }
  }

  lemma {:induction false} SuccessorsMembers(edges: seq<Edge>, u: string)
    ensures forall x :: x in Successors(edges, u) <==> (u, x) in edges
  {
    if edges != [] {
      var p := edges[..|edges| - 1];
      SuccessorsMembers(p, u);
      assert edges == p + [edges[|edges| - 1]];
    }
  }

  /** Every edge joins two vertices, and every edge's target is a binary. */
  lemma EdgesJoinVertices(table: seq<Descriptor>)
    ensures forall e :: e in EdgesOf(table) ==> e.0 in Vertices(table) && e.1 in Vertices(table) && e.1 in Binaries(table)
  {
    var edges := EdgesOf(table);
    SourcesTargetsMembers(edges);
    forall e | e in edges ensures e.0 in Vertices(table) && e.1 in Vertices(table) && e.1 in Binaries(table) {
      EdgesOfMembers(table, e);
      var j :| EdgeOfDescriptor(table, j, e);
      BinariesMembers(table, e.1);
      assert e.0 in Sources(edges);
    }
  }

  /** The vertex set is every produced name plus every dependency of a descriptor that produces a name. */
  lemma VerticesMembers(table: seq<Descriptor>, x: string)
    ensures x in Vertices(table) <==>
      exists j :: 0 <= j < |table| && (x in table[j].packages || (x in table[j].dependencies && table[j].packages != []))
  {
    var edges := EdgesOf(table);
    SourcesTargetsMembers(edges);
    BinariesMembers(table, x);
    if x in Sources(edges) {
      var e :| e in edges && e.0 == x;
      EdgesOfMembers(table, e);
      var j :| EdgeOfDescriptor(table, j, e);
      assert x in table[j].dependencies && table[j].packages != [];
    }
    if exists j :: 0 <= j < |table| && x in table[j].dependencies && table[j].packages != [] {
      var j :| 0 <= j < |table| && x in table[j].dependencies && table[j].packages != [];
      var e := (x, table[j].packages[0]);
      assert EdgeOfDescriptor(table, j, e);
      EdgesOfMembers(table, e);
    }
  }

  // ---------------------------------------------------------------------------------------------
  // Kahn's algorithm (lines 186-220) as a function of its state
  // ---------------------------------------------------------------------------------------------

  /** `[pkg for pkg in in_degree if in_degree[pkg] == 0]` */
  function ZeroInDegree(keys: seq<string>, indeg: map<string, int>): (r: seq<string>)
    requires forall v :: v in keys ==> v in indeg
    ensures forall v :: v in r <==> v in keys && indeg[v] == 0
    ensures NoDups(keys) ==> NoDups(r)
  {
    if keys == [] then []
    else
      var v := keys[|keys| - 1];
      var p := keys[..|keys| - 1];
      assert forall x :: x in keys <==> x in p || x == v;
      var r := ZeroInDegree(p, indeg);
      if indeg[v] == 0 then r + [v] else r
  }

  /** `[pkg for pkg in in_degree if in_degree[pkg] > 0]` */
  function PositiveInDegree(keys: seq<string>, indeg: map<string, int>): (r: seq<string>)
    requires forall v :: v in keys ==> v in indeg
    ensures forall v :: v in r <==> v in keys && indeg[v] > 0
  {
    if keys == [] then []
    else
      var v := keys[|keys| - 1];
      var p := keys[..|keys| - 1];
      assert forall x :: x in keys <==> x in p || x == v;
      var r := PositiveInDegree(p, indeg);
      if indeg[v] > 0 then r + [v] else r
  }

  /** `min(in_degree, key=in_degree.get)`: the first key of minimal in-degree. */
  function FirstMinimum(keys: seq<string>, indeg: map<string, int>): (m: nat)
    requires keys != [] && forall v :: v in keys ==> v in indeg
    ensures m < |keys|
    ensures forall i :: 0 <= i < |keys| ==> indeg[keys[m]] <= indeg[keys[i]]
    ensures forall i :: 0 <= i < m ==> indeg[keys[m]] < indeg[keys[i]]
  {
    if |keys| == 1 then 0
    else
      var p := keys[..|keys| - 1];
      var m := FirstMinimum(p, indeg);
      assert forall i :: 0 <= i < |p| ==> p[i] == keys[i];
      if indeg[keys[|keys| - 1]] < indeg[p[m]] then |keys| - 1 else m
  }

  /** The vertices whose in-degree is positive: the measure that bounds the main loop. */
  function PositiveSet(indeg: map<string, int>): set<string>
  {
    set v | v in indeg && indeg[v] > 0
  }

  /** Lines 196-199 for the dependents `ds` of the vertex just taken from the queue. */
  function Relax(indeg: map<string, int>, queue: seq<string>, ds: seq<string>): (r: (map<string, int>, seq<string>))
    requires forall d :: d in ds ==> d in indeg
    ensures r.0.Keys == indeg.Keys
    ensures forall x :: x in r.1 ==> x in queue || x in ds
    decreases |ds|
  {
    if ds == [] then (indeg, queue)
    else
      var d := ds[0];
      var n := indeg[d] - 1;
      var indeg' := indeg[d := n];
      var queue' := if n == 0 then queue + [d] else queue;
      assert forall x :: x in ds[1..] ==> x in ds;
      Relax(indeg', queue', ds[1..])
  }

  /** Relaxing trades positive in-degrees for queue entries one for one. */
  lemma {:induction false} RelaxMeasure(indeg: map<string, int>, queue: seq<string>, ds: seq<string>)
    requires forall d :: d in ds ==> d in indeg
    ensures var r := Relax(indeg, queue, ds); |r.1| + |PositiveSet(r.0)| == |queue| + |PositiveSet(indeg)|
    decreases |ds|
  {
    if ds != [] {
      var d := ds[0];
      var n := indeg[d] - 1;
      var indeg' := indeg[d := n];
      var queue' := if n == 0 then queue + [d] else queue;
      assert PositiveSet(indeg') == if n == 0 then PositiveSet(indeg) - {d} else PositiveSet(indeg);
      assert forall x :: x in ds[1..] ==> x in ds;
      RelaxMeasure(indeg', queue', ds[1..]);
    }
  }

  /** The state Kahn's loop runs on: every dependent and every queued vertex is a key of both maps. */
  ghost predicate RunState(graph: map<string, seq<string>>, indeg: map<string, int>, queue: seq<string>)
  {
    && graph.Keys == indeg.Keys
    && (forall u :: u in graph ==> forall d :: d in graph[u] ==> d in indeg)
    && (forall v :: v in queue ==> v in graph)
  }

  /** The `while queue` loop of lines 193-199: the final in-degrees and `sorted_order`. Each round takes one
      vertex off the queue and enqueues only vertices whose in-degree just dropped from 1 to 0, so the queue
      length plus the number of positive in-degrees falls by one per round. */
  ghost function Run(graph: map<string, seq<string>>, indeg: map<string, int>, queue: seq<string>, out: seq<string>)
    : (r: (map<string, int>, seq<string>))
    requires RunState(graph, indeg, queue)
    ensures r.0.Keys == indeg.Keys
    ensures |r.1| <= |out| + |queue| + |PositiveSet(indeg)|
    ensures out <= r.1
    ensures forall x :: x in r.1 ==> x in out || x in indeg
    decreases |queue| + |PositiveSet(indeg)|
  {
    if queue == [] then (indeg, out)
    else
      var pkg := queue[0];
      var next := Relax(indeg, queue[1..], graph[pkg]);
      assert RunState(graph, next.0, next.1);
      RelaxMeasure(indeg, queue[1..], graph[pkg]);
      Run(graph, next.0, next.1, out + [pkg])
  }

  /** What `detect_cycle` returns: `Some(order)`, `None` for a detected cycle, or the `ValueError` that
      `min` raises on an empty `in_degree`. */
  ghost function DetectCycleSpec(table: seq<Descriptor>): Result<Option<seq<string>>>
  {
    if table == [] then Ok(Some([]))
    else
      var keys := Vertices(table);
      var edges := EdgesOf(table);
      var indeg := InDegrees(keys, edges);
      var graph := Graph(keys, edges);
      var zero := ZeroInDegree(keys, indeg);
      if zero == [] && keys == [] then Err(ValueError("min() arg is an empty sequence"))
      else
        var queue := if zero != [] then zero else [keys[FirstMinimum(keys, indeg)]];
        EdgesJoinVertices(table);
        GraphRunState(keys, edges, queue);
        var fin := Run(graph, indeg, queue, []);
        if PositiveInDegree(keys, fin.0) != [] then Ok(None) else Ok(Some(fin.1))
  }

  // ---------------------------------------------------------------------------------------------
  // The method
  // ---------------------------------------------------------------------------------------------

  /** Lines 172-175: every binary gets in-degree 0 and no successors. */
  method InitVertices(table: seq<Descriptor>) returns (keys: seq<string>, graph: map<string, seq<string>>, indeg: map<string, int>)
    ensures keys == Dedup(Binaries(table))
    ensures Tables(keys, [], graph, indeg)
  {
    var bins := Binaries(table);
    keys, graph, indeg := [], map[], map[];
    var i := 0;
    while i < |bins|
      invariant 0 <= i <= |bins|
      invariant keys == Dedup(bins[..i])
      invariant Tables(keys, [], graph, indeg)
    {
      var b := bins[i];
      assert (if b in indeg then keys else keys + [b]) == Dedup(bins[..i + 1]) by {
        DedupSnoc(bins, i);
        assert b in indeg <==> b in keys;
      }
      FreshVertex(keys, graph, indeg, b);
      if b !in indeg {
        keys := keys + [b];
      }
      indeg := indeg[b := 0];
      graph := graph[b := []];
      i := i + 1;
    }
    assert bins[..i] == bins;
  }

  /** Lines 174-175 for one binary: a vertex without edges. */
  lemma FreshVertex(keys: seq<string>, graph: map<string, seq<string>>, indeg: map<string, int>, b: string)
    requires Tables(keys, [], graph, indeg)
    ensures Tables(if b in indeg then keys else keys + [b], [], graph[b := []], indeg[b := 0])
  {
  }

  /** One iteration of lines 180-184; it keeps `graph` and `in_degree` equal to the tables of the edges seen so far. */
  method AddEdge(ghost pre: seq<Edge>, e: Edge, keys0: seq<string>, graph0: map<string, seq<string>>, indeg0: map<string, int>)
    returns (keys: seq<string>, graph: map<string, seq<string>>, indeg: map<string, int>)
    requires Tables(keys0, pre, graph0, indeg0)
    requires e.1 in keys0
    requires forall x :: x in Sources(pre) ==> x in keys0
    requires forall x :: x in Targets(pre) ==> x in keys0
    ensures keys == if e.0 in keys0 then keys0 else keys0 + [e.0]
    ensures Tables(keys, pre + [e], graph, indeg)
  {
    var (dep, binary) := e;
    keys, graph, indeg := keys0, graph0, indeg0;
    if dep !in indeg {
      keys := keys + [dep];
      indeg := indeg[dep := 0];
      graph := graph[dep := []];
    }
    EdgeTables(pre, e, keys, graph, indeg, keys0);
    graph := graph[dep := graph[dep] + [binary]];
    indeg := indeg[binary := indeg[binary] + 1];
  }

  /** Once its source is a vertex, an edge adds its target to the source's successors and one to the
      target's in-degree. */
  lemma EdgeTables(pre: seq<Edge>, e: Edge, keys: seq<string>, graph: map<string, seq<string>>,
                   indeg: map<string, int>, keys0: seq<string>)
    requires e.0 in keys && e.1 in keys0
    requires forall v :: v in keys ==> v in keys0 || v == e.0
    requires forall v :: v in keys0 ==> v in keys
    requires forall x :: x in Sources(pre) ==> x in keys0
    requires forall x :: x in Targets(pre) ==> x in keys0
    requires forall v :: v in graph <==> v in keys
    requires forall v :: v in indeg <==> v in keys
    requires forall v :: v in keys0 ==> graph[v] == Successors(pre, v) && indeg[v] == multiset(Targets(pre))[v]
    requires e.0 !in keys0 ==> graph[e.0] == [] && indeg[e.0] == 0
    ensures var g := graph[e.0 := graph[e.0] + [e.1]];
      forall v :: v in g <==> v in keys
    ensures var i := indeg[e.1 := indeg[e.1] + 1];
      forall v :: v in i <==> v in keys
    ensures var g := graph[e.0 := graph[e.0] + [e.1]];
      var i := indeg[e.1 := indeg[e.1] + 1];
      forall v :: v in keys ==> g[v] == Successors(pre + [e], v) && i[v] == multiset(Targets(pre + [e]))[v]
  {
    var edges := pre + [e];
    var graph' := graph[e.0 := graph[e.0] + [e.1]];
    var indeg' := indeg[e.1 := indeg[e.1] + 1];
    forall v | v in keys
      ensures graph'[v] == Successors(edges, v) && indeg'[v] == multiset(Targets(edges))[v]
    {
      if v !in keys0 {
        NewVertexHasNoEdges(pre, v);
      }
      EdgeAt(pre, e, v);
    }
    assert forall v :: v in graph' <==> v in keys;
    assert forall v :: v in indeg' <==> v in keys;
  }

  lemma EdgeAt(pre: seq<Edge>, e: Edge, v: string)
    ensures Successors(pre + [e], v) == Successors(pre, v) + (if e.0 == v then [e.1] else [])
    ensures multiset(Targets(pre + [e]))[v] == multiset(Targets(pre))[v] + (if v == e.1 then 1 else 0)
  {
    var edges := pre + [e];
    assert edges[..|edges| - 1] == pre;
    assert Targets(edges) == Targets(pre) + [e.1];
  }

  /** The facts about the first `k` edges that one iteration of lines 180-184 relies on. */
  lemma EdgePrefix(bins: seq<string>, edges: seq<Edge>, k: nat)
    requires k < |edges|
    requires forall e :: e in edges ==> e.1 in bins
    ensures edges[..k + 1] == edges[..k] + [edges[k]]
    ensures var keys := Dedup(bins + Sources(edges[..k]));
      && (forall x :: x in Sources(edges[..k]) ==> x in keys)
      && (forall x :: x in Targets(edges[..k]) ==> x in keys)
      && edges[k].1 in keys
      && Dedup(bins + Sources(edges[..k + 1])) == if edges[k].0 in keys then keys else keys + [edges[k].0]
  {
    var pre := edges[..k];
    var e := edges[k];
    assert edges[..k + 1] == pre + [e];
    var before := bins + Sources(pre);
    assert bins + Sources(pre + [e]) == before + [e.0] by {
      assert (pre + [e])[..k] == pre;
    }
    assert (before + [e.0])[..|before|] == before;
    SourcesTargetsMembers(pre);
    forall x | x in Targets(pre) ensures x in bins {
      var e' :| e' in pre && e'.1 == x;
      assert e' in edges;
    }
  }

  /** Lines 177-184: add unseen dependencies as vertices, append each edge to `graph` and count it in `in_degree`. */
  method AddEdges(table: seq<Descriptor>, keys0: seq<string>, graph0: map<string, seq<string>>, indeg0: map<string, int>)
    returns (keys: seq<string>, graph: map<string, seq<string>>, indeg: map<string, int>)
    requires keys0 == Dedup(Binaries(table)) && Tables(keys0, [], graph0, indeg0)
    ensures keys == Vertices(table)
    ensures Tables(keys, EdgesOf(table), graph, indeg)
  {
    var edges := EdgesOf(table);
    var bins := Binaries(table);
    EdgesJoinVertices(table);
    keys, graph, indeg := keys0, graph0, indeg0;
    assert edges[..0] == [];
    assert bins + Sources(edges[..0]) == bins;
    var k := 0;
    while k < |edges|
      invariant 0 <= k <= |edges|
      invariant keys == Dedup(bins + Sources(edges[..k]))
      invariant Tables(keys, edges[..k], graph, indeg)
    {
      var e := edges[k];
      ghost var pre := edges[..k];
      EdgePrefix(bins, edges, k);
      keys, graph, indeg := AddEdge(pre, e, keys, graph, indeg);
      k := k + 1;
    }
    assert edges[..k] == edges;
  }

  lemma {:induction false} NewVertexHasNoEdges(edges: seq<Edge>, v: string)
    requires v !in Sources(edges) && v !in Targets(edges)
    ensures Successors(edges, v) == [] && multiset(Targets(edges))[v] == 0
  {
    if edges != [] {
      NewVertexHasNoEdges(edges[..|edges| - 1], v);
    }
  }

  /** Lines 196-199. */
  method RelaxMethod(indeg0: map<string, int>, queue0: seq<string>, ds: seq<string>) returns (indeg: map<string, int>, queue: seq<string>)
    requires forall d :: d in ds ==> d in indeg0
    ensures (indeg, queue) == Relax(indeg0, queue0, ds)
  {
    indeg, queue := indeg0, queue0;
    var j := 0;
    while j < |ds|
      invariant 0 <= j <= |ds|
      invariant forall d :: d in ds[j..] ==> d in indeg
      invariant Relax(indeg, queue, ds[j..]) == Relax(indeg0, queue0, ds)
    {
      var dependent := ds[j];
      assert ds[j..][1..] == ds[j + 1..];
      indeg := indeg[dependent := indeg[dependent] - 1];
      if indeg[dependent] == 0 {
        queue := queue + [dependent];
      }
      j := j + 1;
    }
  }

  /** `detect_cycle`, over the descriptor table `self.packages`. */
  method DetectCycle(table: seq<Descriptor>) returns (r: Result<Option<seq<string>>>)
    ensures r == DetectCycleSpec(table)
  {
    if table == [] {
      return Ok(Some([]));
    }
    var keys, graph, indeg := InitVertices(table);
    keys, graph, indeg := AddEdges(table, keys, graph, indeg);
    TablesAreMaps(keys, EdgesOf(table), graph, indeg);
    EdgesJoinVertices(table);
    var queue := ZeroInDegree(keys, indeg);
    if queue == [] {
      if keys == [] {
        return Err(ValueError("min() arg is an empty sequence"));
      }
      queue := [keys[FirstMinimum(keys, indeg)]];
    }
    GraphRunState(keys, EdgesOf(table), queue);
    var sorted: seq<string> := [];
    ghost var start := Run(graph, indeg, queue, []);
    while queue != []
      invariant RunState(graph, indeg, queue)
      invariant indeg.Keys == set v | v in keys
      invariant Run(graph, indeg, queue, sorted) == start
      decreases |queue| + |PositiveSet(indeg)|
    {
      var pkg := queue[0];
      queue := queue[1..];
      sorted := sorted + [pkg];
      RelaxMeasure(indeg, queue, graph[pkg]);
      indeg, queue := RelaxMethod(indeg, queue, graph[pkg]);
    }
    if PositiveInDegree(keys, indeg) != [] {
      return Ok(None);
    }
    return Ok(Some(sorted));
  }

  // ---------------------------------------------------------------------------------------------
  // Correctness of Kahn's loop when some vertex starts at in-degree 0
  // ---------------------------------------------------------------------------------------------

  /** No edge runs from a vertex to itself or to an earlier vertex of `w`. */
  predicate NoBackEdge(w: seq<string>, edges: seq<Edge>)
  {
    forall i, j :: 0 <= i <= j < |w| ==> (w[j], w[i]) !in edges
  }

  /** `t` lists every vertex exactly once, each dependency before each of its dependents. */
  ghost predicate IsTopoOrder(t: seq<string>, keys: seq<string>, edges: seq<Edge>)
  {
    NoDups(t) && (forall x :: x in t <==> x in keys) && NoBackEdge(t, edges)
  }

  /** The targets of the edges whose source is not in `done`: what `in_degree` holds once `done` is processed. */
  function Pending(edges: seq<Edge>, done: seq<string>): multiset<string>
  {
    if edges == [] then multiset{}
    else
      var e := edges[|edges| - 1];
      Pending(edges[..|edges| - 1], done) + (if e.0 in done then multiset{} else multiset{e.1})
  }

  lemma {:induction false} PendingNone(edges: seq<Edge>)
    ensures Pending(edges, []) == multiset(Targets(edges))
  {
    if edges != [] {
      PendingNone(edges[..|edges| - 1]);
    }
  }

  /** Processing `p` removes exactly the edges leaving `p`. */
  lemma {:induction false} PendingStep(edges: seq<Edge>, done: seq<string>, p: string)
    requires p !in done
    ensures Pending(edges, done) == Pending(edges, done + [p]) + multiset(Successors(edges, p))
  {
    if edges != [] {
      PendingStep(edges[..|edges| - 1], done, p);
      var e := edges[|edges| - 1];
      assert e.0 in done + [p] <==> e.0 in done || e.0 == p;
    }
  }

  /** No pending edge enters `v` exactly when every edge into `v` comes from `done`. */
  lemma {:induction false} PendingZero(edges: seq<Edge>, done: seq<string>, v: string)
    ensures Pending(edges, done)[v] == 0 <==> forall e :: e in edges && e.1 == v ==> e.0 in done
  {
    if edges != [] {
      var p := edges[..|edges| - 1];
      PendingZero(p, done, v);
      assert edges == p + [edges[|edges| - 1]];
    }
  }

  /** The state of Kahn's loop on the normal path, with `w = sorted_order + queue`:
      the in-degrees count the edges from unprocessed vertices, `w` has no repeats and no back edge,
      queued vertices have in-degree 0, vertices outside `w` a positive one, and every edge into `w`
      comes from a processed vertex. */
  ghost predicate KahnInv(keys: seq<string>, edges: seq<Edge>, graph: map<string, seq<string>>,
                          indeg: map<string, int>, queue: seq<string>, out: seq<string>)
  {
    && NoDups(keys)
    && (forall e :: e in edges ==> e.0 in keys && e.1 in keys)
    && graph == Graph(keys, edges)
    && RunState(graph, indeg, queue)
    && (forall v :: v in indeg <==> v in keys)
    && (forall v :: v in keys ==> indeg[v] == Pending(edges, out)[v])
    && NoDups(out + queue)
    && (forall v :: v in out + queue ==> v in keys)
    && (forall v :: v in queue ==> indeg[v] == 0)
    && (forall v :: v in keys && v !in out + queue ==> indeg[v] > 0)
    && (forall e :: e in edges && e.1 in out + queue ==> e.0 in out)
    && NoBackEdge(out + queue, edges)
  }

  /** Relaxing only appends to the queue. */
  lemma {:induction false} RelaxKeepsQueue(indeg: map<string, int>, q: seq<string>, ds: seq<string>)
    requires forall d :: d in ds ==> d in indeg
    ensures |q| <= |Relax(indeg, q, ds).1| && Relax(indeg, q, ds).1[..|q|] == q
    decreases |ds|
  {
    if ds != [] {
      var d := ds[0];
      var indeg' := indeg[d := indeg[d] - 1];
      var q' := if indeg[d] - 1 == 0 then q + [d] else q;
      assert forall x :: x in ds[1..] ==> x in ds;
      RelaxKeepsQueue(indeg', q', ds[1..]);
      assert q'[..|q|] == q;
    }
  }

  /** Relaxing successors whose in-degrees cover their multiplicities subtracts those multiplicities. */
  lemma {:induction false} RelaxDegrees(indeg: map<string, int>, q: seq<string>, ds: seq<string>)
    requires forall d :: d in ds ==> d in indeg && indeg[d] >= multiset(ds)[d]
    ensures forall v :: v in indeg ==> Relax(indeg, q, ds).0[v] == indeg[v] - multiset(ds)[v]
    decreases |ds|
  {
    if ds != [] {
      var d := ds[0];
      var rest := ds[1..];
      assert ds == [d] + rest;
      assert multiset(ds) == multiset{d} + multiset(rest);
      var indeg' := indeg[d := indeg[d] - 1];
      var q' := if indeg[d] - 1 == 0 then q + [d] else q;
      forall y | y in rest ensures y in indeg' && indeg'[y] >= multiset(rest)[y] {
        assert y in ds;
      }
      RelaxDegrees(indeg', q', rest);
    }
  }

  /** ... and appends, once each, exactly the successors whose in-degree equals their multiplicity, that is
      the ones that reach 0. */
  lemma {:induction false} RelaxAdded(indeg: map<string, int>, q: seq<string>, ds: seq<string>)
    requires forall d :: d in ds ==> d in indeg && indeg[d] >= multiset(ds)[d]
    ensures |q| <= |Relax(indeg, q, ds).1|
    ensures NoDups(Relax(indeg, q, ds).1[|q|..])
    ensures forall x :: x in Relax(indeg, q, ds).1[|q|..] <==> x in ds && indeg[x] == multiset(ds)[x]
    decreases |ds|
  {
    RelaxKeepsQueue(indeg, q, ds);
    if ds != [] {
      var d := ds[0];
      var rest := ds[1..];
      var n := indeg[d] - 1;
      var indeg' := indeg[d := n];
      var q' := if n == 0 then q + [d] else q;
      RelaxRestFits(indeg, ds);
      var r := Relax(indeg', q', rest);
      assert Relax(indeg, q, ds) == r;
      RelaxAdded(indeg', q', rest);
      RelaxKeepsQueue(indeg', q', rest);
      RelaxAddedStep(indeg, q, ds, r.1);
    }
  }

  /** After the first successor is relaxed, the others still have in-degrees no smaller than their
      multiplicities. */
  lemma RelaxRestFits(indeg: map<string, int>, ds: seq<string>)
    requires ds != [] && forall d :: d in ds ==> d in indeg && indeg[d] >= multiset(ds)[d]
    ensures var indeg' := indeg[ds[0] := indeg[ds[0]] - 1];
      forall y :: y in ds[1..] ==> y in indeg' && indeg'[y] >= multiset(ds[1..])[y]
  {
    var d := ds[0];
    var rest := ds[1..];
    assert multiset(ds) == multiset{d} + multiset(rest) by {
      assert ds == [d] + rest;
    }
    forall y | y in rest ensures y in indeg && indeg[d := indeg[d] - 1][y] >= multiset(rest)[y] {
      assert y in ds;
    }
  }

  /** The step of `RelaxAdded`: what the first successor adds in front of what the others add. */
  lemma RelaxAddedStep(indeg: map<string, int>, q: seq<string>, ds: seq<string>, out: seq<string>)
    requires ds != [] && forall d :: d in ds ==> d in indeg && indeg[d] >= multiset(ds)[d]
    requires var q' := if indeg[ds[0]] - 1 == 0 then q + [ds[0]] else q;
      && |q'| <= |out| && out[..|q'|] == q'
      && NoDups(out[|q'|..])
      && forall x :: x in out[|q'|..] <==> x in ds[1..] && indeg[ds[0] := indeg[ds[0]] - 1][x] == multiset(ds[1..])[x]
    ensures |q| <= |out|
    ensures NoDups(out[|q|..])
    ensures forall x :: x in out[|q|..] <==> x in ds && indeg[x] == multiset(ds)[x]
  {
    var d := ds[0];
    var rest := ds[1..];
    var m := multiset(ds);
    assert m == multiset{d} + multiset(rest) by {
      assert ds == [d] + rest;
    }
    var n := indeg[d] - 1;
    var indeg' := indeg[d := n];
    var q' := if n == 0 then q + [d] else q;
    var added' := out[|q'|..];
    assert forall x :: x in rest ==> (indeg'[x] == multiset(rest)[x] <==> indeg[x] == m[x]) by {
      forall x | x in rest ensures indeg'[x] == multiset(rest)[x] <==> indeg[x] == m[x] {
        assert x in ds;
      }
    }
    if n == 0 {
      assert multiset(rest)[d] == 0;
      PushedSlice(out, q, d);
    } else {
      assert out[|q|..] == added';
    }
    AddedStep(d, rest, indeg, m, added', out[|q|..], n == 0);
  }

  /** What follows a queue that was extended by `d` starts with `d`. */
  lemma PushedSlice<T>(t: seq<T>, q: seq<T>, d: T)
    requires |q| + 1 <= |t| && t[..|q| + 1] == q + [d]
    ensures t[|q|..] == [d] + t[|q| + 1..]
  {
    assert t[|q|] == (q + [d])[|q|];
  }

  /** The bookkeeping behind one step of `RelaxAdded`. */
  lemma AddedStep(d: string, rest: seq<string>, c: map<string, int>, m: multiset<string>,
                  added': seq<string>, added: seq<string>, freed: bool)
    requires d in c && (forall x :: x in rest ==> x in c)
    requires added == (if freed then [d] else []) + added'
    requires NoDups(added')
    requires forall x :: x in added' <==> x in rest && c[x] == m[x]
    requires freed ==> d !in rest && c[d] == m[d]
    requires !freed && d !in rest ==> c[d] != m[d]
    ensures NoDups(added)
    ensures forall x :: x in added <==> x in [d] + rest && c[x] == m[x]
  {
    if freed {
      assert d !in added';
    }
  }

  /** One round of the loop keeps `KahnInv`. */
  lemma KahnStep(keys: seq<string>, edges: seq<Edge>, graph: map<string, seq<string>>,
                 indeg: map<string, int>, queue: seq<string>, out: seq<string>)
    requires KahnInv(keys, edges, graph, indeg, queue, out) && queue != []
    ensures var next := Relax(indeg, queue[1..], graph[queue[0]]);
      KahnInv(keys, edges, graph, next.0, next.1, out + [queue[0]])
  {
    var pkg := queue[0];
    var out' := out + [pkg];
    var ds := graph[pkg];
    var w := out + queue;
    assert pkg in w;
    assert ds == Successors(edges, pkg);
    SuccessorsMembers(edges, pkg);
    assert pkg !in out by {
      assert w[|out|] == pkg;
      forall i | 0 <= i < |out| ensures out[i] != pkg {
        assert w[i] == out[i];
      }
    }
    PendingStep(edges, out, pkg);
    forall d | d in ds ensures d in indeg && indeg[d] >= multiset(ds)[d] {
      assert (pkg, d) in edges;
    }
    var next := Relax(indeg, queue[1..], ds);
    RelaxKeepsQueue(indeg, queue[1..], ds);
    RelaxDegrees(indeg, queue[1..], ds);
    RelaxAdded(indeg, queue[1..], ds);
    var added := next.1[|queue| - 1..];
    QueueShape(out, queue, next.1);
    forall v | v in keys ensures next.0[v] == Pending(edges, out')[v] {
    }
    // a successor of pkg is not in w: every edge into w comes from a processed vertex
    forall x | x in ds ensures x !in w && (pkg, x) in edges {
      assert (pkg, x) in edges;
    }
    forall x | x in added ensures x in ds && forall e :: e in edges && e.1 == x ==> e.0 in out' {
      PendingZero(edges, out', x);
    }
    KahnAssemble(keys, edges, graph, indeg, queue, out, next.0, next.1, added);
  }

  /** `KahnStep` once the effect of relaxing is known. */
  lemma KahnAssemble(keys: seq<string>, edges: seq<Edge>, graph: map<string, seq<string>>,
                     indeg: map<string, int>, queue: seq<string>, out: seq<string>,
                     indeg': map<string, int>, queue': seq<string>, added: seq<string>)
    requires KahnInv(keys, edges, graph, indeg, queue, out) && queue != []
    requires queue' == queue[1..] + added && out + [queue[0]] + queue' == out + queue + added
    requires indeg'.Keys == indeg.Keys
    requires forall v :: v in keys ==> indeg'[v] == indeg[v] - multiset(graph[queue[0]])[v]
    requires forall v :: v in keys ==> indeg'[v] == Pending(edges, out + [queue[0]])[v]
    requires forall x :: x in added <==> x in graph[queue[0]] && indeg[x] == multiset(graph[queue[0]])[x]
    requires NoDups(added)
    requires forall x :: x in graph[queue[0]] ==> x !in out + queue && x in keys
    requires forall x :: x in added ==> forall e :: e in edges && e.1 == x ==> e.0 in out + [queue[0]]
    requires forall d :: d in graph[queue[0]] ==> indeg[d] >= multiset(graph[queue[0]])[d]
    ensures KahnInv(keys, edges, graph, indeg', queue', out + [queue[0]])
  {
    var ds := graph[queue[0]];
    KahnStepShape(keys, edges, out, queue, added, ds);
    forall v | v in queue[1..] ensures v in queue && v !in ds {
      assert v in queue;
    }
  }

  /** The sequence algebra of one round: `sorted_order + [pkg] + queue'` is `sorted_order + queue` extended. */
  lemma QueueShape(out: seq<string>, queue: seq<string>, r: seq<string>)
    requires queue != [] && |queue| - 1 <= |r| && r[..|queue| - 1] == queue[1..]
    ensures r == queue[1..] + r[|queue| - 1..]
    ensures out + [queue[0]] + r == out + queue + r[|queue| - 1..]
  {
    assert r == r[..|queue| - 1] + r[|queue| - 1..];
    assert queue == [queue[0]] + queue[1..];
  }

  /** The ordering half of `KahnStep`: appending the newly freed vertices keeps `w` free of repeats and back edges. */
  lemma KahnStepShape(keys: seq<string>, edges: seq<Edge>, out: seq<string>, queue: seq<string>,
                      added: seq<string>, ds: seq<string>)
    requires queue != []
    requires NoDups(out + queue) && NoDups(added) && NoBackEdge(out + queue, edges)
    requires forall e :: e in edges && e.1 in out + queue ==> e.0 in out
    requires forall x :: x in added ==> x in ds
    requires forall x :: x in ds ==> x !in out + queue
    requires forall x :: x in added ==> forall e :: e in edges && e.1 == x ==> e.0 in out + [queue[0]]
    ensures NoDups(out + queue + added)
    ensures NoBackEdge(out + queue + added, edges)
    ensures forall e :: e in edges && e.1 in out + queue + added ==> e.0 in out + [queue[0]]
  {
    var w := out + queue;
    var w' := w + added;
    forall i, j | 0 <= i < j < |w'| ensures w'[i] != w'[j] {
      if j >= |w| && i < |w| {
        assert w'[j] in added && w'[i] in w;
      } else if i >= |w| {
        assert w'[i] == added[i - |w|] && w'[j] == added[j - |w|];
      }
    }
    assert forall x :: x in out + [queue[0]] ==> x in w;
    forall i, j | 0 <= i <= j < |w'| ensures (w'[j], w'[i]) !in edges {
      if j >= |w| {
        assert w'[j] !in w;
        if i >= |w| {
          assert w'[i] in added;
        }
      }
    }
  }

  /** The loop run to the end keeps `KahnInv`. */
  lemma {:induction false} KahnRun(keys: seq<string>, edges: seq<Edge>, graph: map<string, seq<string>>,
                                   indeg: map<string, int>, queue: seq<string>, out: seq<string>)
    requires KahnInv(keys, edges, graph, indeg, queue, out)
    ensures var r := Run(graph, indeg, queue, out); KahnInv(keys, edges, graph, r.0, [], r.1)
    decreases |queue| + |PositiveSet(indeg)|
  {
    if queue != [] {
      var ds := graph[queue[0]];
      var next := Relax(indeg, queue[1..], ds);
      KahnStep(keys, edges, graph, indeg, queue, out);
      RelaxMeasure(indeg, queue[1..], ds);
      KahnRun(keys, edges, graph, next.0, next.1, out + [queue[0]]);
    }
  }

  /** Lines 186-191 on the normal path: the queue of in-degree-0 vertices satisfies `KahnInv`. */
  lemma KahnStart(table: seq<Descriptor>)
    ensures var keys := Vertices(table);
      var edges := EdgesOf(table);
      KahnInv(keys, edges, Graph(keys, edges), InDegrees(keys, edges),
              ZeroInDegree(keys, InDegrees(keys, edges)), [])
  {
    var keys := Vertices(table);
    var edges := EdgesOf(table);
    EdgesJoinVertices(table);
    KahnInit(keys, edges);
  }

  /** On any graph over duplicate-free vertices, the queue of in-degree-0 vertices starts the loop. */
  lemma KahnInit(keys: seq<string>, edges: seq<Edge>)
    requires NoDups(keys) && forall e :: e in edges ==> e.0 in keys && e.1 in keys
    ensures KahnInv(keys, edges, Graph(keys, edges), InDegrees(keys, edges),
                    ZeroInDegree(keys, InDegrees(keys, edges)), [])
  {
    var indeg := InDegrees(keys, edges);
    var zero := ZeroInDegree(keys, indeg);
    assert forall v :: v in indeg <==> v in keys;
    assert RunState(Graph(keys, edges), indeg, zero) by {
      GraphRunState(keys, edges, zero);
    }
    assert forall v :: v in keys ==> indeg[v] == Pending(edges, [])[v] by {
      PendingNone(edges);
    }
    assert forall e :: e in edges ==> e.1 !in zero by {
      SourcesTargetsMembers(edges);
      forall e | e in edges ensures e.1 !in zero {
        assert e.1 in Targets(edges);
      }
    }
    KahnInitial(keys, edges, Graph(keys, edges), indeg, zero);
  }

  /** The invariant at the start, from the facts about the initial maps and queue. */
  lemma KahnInitial(keys: seq<string>, edges: seq<Edge>, graph: map<string, seq<string>>,
                    indeg: map<string, int>, zero: seq<string>)
    requires NoDups(keys) && forall e :: e in edges ==> e.0 in keys && e.1 in keys
    requires graph == Graph(keys, edges) && RunState(graph, indeg, zero)
    requires forall v :: v in indeg <==> v in keys
    requires forall v :: v in keys ==> indeg[v] == Pending(edges, [])[v]
    requires NoDups(zero) && forall v :: v in zero <==> v in keys && indeg[v] == 0
    requires forall e :: e in edges ==> e.1 !in zero
    ensures KahnInv(keys, edges, graph, indeg, zero, [])
  {
    assert [] + zero == zero;
  }

  /** In a finished run a vertex keeps a positive in-degree exactly when it was never output. */
  lemma KahnStuck(keys: seq<string>, edges: seq<Edge>, graph: map<string, seq<string>>,
                  indeg: map<string, int>, out: seq<string>)
    requires KahnInv(keys, edges, graph, indeg, [], out)
    ensures forall v :: v in keys ==> (indeg[v] > 0 <==> v !in out)
  {
    assert out + [] == out;
    forall v | v in keys && v in out ensures indeg[v] == 0 {
      PendingZero(edges, out, v);
    }
  }

  /** The first element of `t` outside `out`. */
  ghost function FirstOutside(t: seq<string>, out: seq<string>, x: string): (i: nat)
    requires x in t && x !in out
    ensures i < |t| && t[i] !in out
    ensures forall k :: 0 <= k < i ==> t[k] in out
  {
    if t[0] !in out then 0
    else
      assert x in t[1..];
      var i := FirstOutside(t[1..], out, x);
      assert forall k :: 0 < k <= i ==> t[k] == t[1..][k - 1];
      i + 1
  }

  /** When some vertex stays unprocessed, every ordering of the vertices has a back edge: the first unprocessed
      vertex in it still has an unprocessed dependency, which comes no earlier. */
  lemma StuckHasBackEdge(keys: seq<string>, edges: seq<Edge>, graph: map<string, seq<string>>,
                         indeg: map<string, int>, out: seq<string>, t: seq<string>, v: string)
    requires KahnInv(keys, edges, graph, indeg, [], out)
    requires v in keys && v !in out
    requires forall x :: x in t <==> x in keys
    ensures !NoBackEdge(t, edges)
  {
    KahnStuck(keys, edges, graph, indeg, out);
    var i := FirstOutside(t, out, v);
    var u := t[i];
    assert indeg[u] == Pending(edges, out)[u];
    PendingZero(edges, out, u);
    var e :| e in edges && e.1 == u && e.0 !in out;
    assert e.0 in t;
    var j :| 0 <= j < |t| && t[j] == e.0;
    assert i <= j;
    assert (t[j], t[i]) in edges;
  }

  /** The end of the loop on the normal path: no positive in-degree is left exactly when `sorted_order` is a
      topological order, and otherwise no topological order exists. */
  lemma KahnDone(keys: seq<string>, edges: seq<Edge>, graph: map<string, seq<string>>,
                 indeg: map<string, int>, out: seq<string>)
    requires KahnInv(keys, edges, graph, indeg, [], out)
    ensures PositiveInDegree(keys, indeg) == [] <==> IsTopoOrder(out, keys, edges)
    ensures PositiveInDegree(keys, indeg) != [] ==> forall t :: !IsTopoOrder(t, keys, edges)
  {
    KahnStuck(keys, edges, graph, indeg, out);
    assert out + [] == out;
    if PositiveInDegree(keys, indeg) != [] {
      var v := PositiveInDegree(keys, indeg)[0];
      forall t | forall x :: x in t <==> x in keys ensures !NoBackEdge(t, edges) {
        StuckHasBackEdge(keys, edges, graph, indeg, out, t, v);
      }
    }
  }

  // ---------------------------------------------------------------------------------------------
  // What detect_cycle returns
  // ---------------------------------------------------------------------------------------------

  /** Some vertex has no incoming edge, so the queue of line 186 is not empty. */
  ghost predicate HasRoot(table: seq<Descriptor>)
  {
    var keys := Vertices(table);
    ZeroInDegree(keys, InDegrees(keys, EdgesOf(table))) != []
  }

  /** Lines 171 and 189: an empty table sorts to `[]`; a table with no vertex at all has no root and `min`
      raises `ValueError` on the empty `in_degree`. */
  lemma DetectCycleEdgeCases(table: seq<Descriptor>)
    ensures table == [] ==> DetectCycleSpec(table) == Ok(Some([]))
    ensures table != [] && Vertices(table) == [] ==> DetectCycleSpec(table).Err? && DetectCycleSpec(table).error.ValueError?
  {
  }

  /** With a root, `detect_cycle` answers the ordering question: it returns a topological order of all vertices
      when one exists and `None` exactly when none does. */
  lemma DetectCycleWithRoot(table: seq<Descriptor>)
    requires table != [] && HasRoot(table)
    ensures DetectCycleSpec(table).Ok?
    ensures DetectCycleSpec(table).value.Some? ==>
      IsTopoOrder(DetectCycleSpec(table).value.value, Vertices(table), EdgesOf(table))
    ensures DetectCycleSpec(table).value.None? <==> forall t :: !IsTopoOrder(t, Vertices(table), EdgesOf(table))
  {
    var keys := Vertices(table);
    var edges := EdgesOf(table);
    var indeg := InDegrees(keys, edges);
    var graph := Graph(keys, edges);
    var zero := ZeroInDegree(keys, indeg);
    KahnStart(table);
    KahnRun(keys, edges, graph, indeg, zero, []);
    var fin := Run(graph, indeg, zero, []);
    KahnDone(keys, edges, graph, fin.0, fin.1);
  }

  lemma VerticesOfEmpty()
    ensures Vertices([]) == []
  {
    assert Binaries([]) + Sources(EdgesOf([])) == [];
  }

  /** Either some vertex has no incoming edge, or any list of the vertices starts with one that has an
      incoming edge from a vertex no earlier than itself. */
  lemma RootOrBackEdge(table: seq<Descriptor>, t: seq<string>)
    requires Vertices(table) != [] && forall x :: x in t <==> x in Vertices(table)
    ensures HasRoot(table) || !NoBackEdge(t, EdgesOf(table))
  {
    var keys := Vertices(table);
    var edges := EdgesOf(table);
    var indeg := InDegrees(keys, edges);
    if !HasRoot(table) {
      EdgesJoinVertices(table);
      SourcesTargetsMembers(edges);
      assert keys[0] in t;
      assert t[0] in keys;
      assert indeg[t[0]] != 0;
      assert t[0] in Targets(edges);
      var e :| e in edges && e.1 == t[0];
      var j :| 0 <= j < |t| && t[j] == e.0;
      assert (t[j], t[0]) in edges;
    }
  }

  /** An acyclic dependency graph with at least one vertex is sorted topologically. */
  lemma DetectCycleAcyclic(table: seq<Descriptor>, t: seq<string>)
    requires IsTopoOrder(t, Vertices(table), EdgesOf(table)) && Vertices(table) != []
    ensures DetectCycleSpec(table).Ok? && DetectCycleSpec(table).value.Some?
    ensures IsTopoOrder(DetectCycleSpec(table).value.value, Vertices(table), EdgesOf(table))
  {
    var keys, edges := Vertices(table), EdgesOf(table);
    assert table != [] by {
      VerticesOfEmpty();
    }
    assert HasRoot(table) by {
      assert forall x :: x in t <==> x in keys;
      assert NoBackEdge(t, edges);
      RootOrBackEdge(table, t);
    }
    var indeg := InDegrees(keys, edges);
    var graph := Graph(keys, edges);
    var zero := ZeroInDegree(keys, indeg);
    KahnStart(table);
    KahnRun(keys, edges, graph, indeg, zero, []);
    var fin := Run(graph, indeg, zero, []);
    KahnDone(keys, edges, graph, fin.0, fin.1);
    assert PositiveInDegree(keys, fin.0) == [];
  }

  /** A `Some` result lists only vertices, and at most one more entry than there are vertices: on the forced
      path of lines 187-191 a vertex can be output twice. */
  lemma DetectCycleLength(table: seq<Descriptor>)
    requires DetectCycleSpec(table).Ok? && DetectCycleSpec(table).value.Some?
    ensures forall x :: x in DetectCycleSpec(table).value.value ==> x in Vertices(table)
    ensures |DetectCycleSpec(table).value.value| <= |Vertices(table)| + 1
  {
    if table != [] {
      var keys := Vertices(table);
      var edges := EdgesOf(table);
      var indeg := InDegrees(keys, edges);
      var graph := Graph(keys, edges);
      var zero := ZeroInDegree(keys, indeg);
      var queue := if zero != [] then zero else [keys[FirstMinimum(keys, indeg)]];
      EdgesJoinVertices(table);
      GraphRunState(keys, edges, queue);
      var fin := Run(graph, indeg, queue, []);
      if zero != [] {
        DetectCycleWithRoot(table);
        SameMembersSameLength(fin.1, keys);
      } else {
        SubsetCard(PositiveSet(indeg), keys);
      }
    }
  }

  /** Without a root no topological order exists, whatever the forced path returns. */
  lemma NoRootNoOrder(table: seq<Descriptor>)
    requires !HasRoot(table) && Vertices(table) != []
    ensures forall t :: !IsTopoOrder(t, Vertices(table), EdgesOf(table))
  {
    forall t | forall x :: x in t <==> x in Vertices(table) ensures !NoBackEdge(t, EdgesOf(table)) {
      RootOrBackEdge(table, t);
    }
  }

  /** Two sources that each build-depend on the other's binary: no vertex has in-degree 0, `x` is forced into
      the queue, and the loop outputs `x` twice; every in-degree ends at 0 or below, so no cycle is reported. */
  lemma TwoCycleExample(a: string, b: string, x: string, y: string)
    requires x != y
    ensures DetectCycleSpec([Descriptor(a, [x], [y], false), Descriptor(b, [y], [x], false)]) == Ok(Some([x, y, x]))
  {
    TwoCycleTables(a, b, x, y);
    TwoCycleMaps(x, y);
    TwoCycleDegrees(x, y);
    TwoCycleRun(x, y);
  }

  lemma TwoCycleDegrees(x: string, y: string)
    requires x != y
    ensures ZeroInDegree([x, y], map[x := 1, y := 1]) == []
    ensures FirstMinimum([x, y], map[x := 1, y := 1]) == 0
    ensures PositiveInDegree([x, y], map[x := 0, y := -1]) == []
  {
    var keys := [x, y];
    assert keys[..1] == [x] && [x][..0] == [];
    assert ZeroInDegree([x], map[x := 1, y := 1]) == [];
    assert PositiveInDegree([x], map[x := 0, y := -1]) == [];
  }

  lemma TwoCycleTables(a: string, b: string, x: string, y: string)
    requires x != y
    ensures var table := [Descriptor(a, [x], [y], false), Descriptor(b, [y], [x], false)];
      EdgesOf(table) == [(y, x), (x, y)] && Vertices(table) == [x, y]
  {
    var table := [Descriptor(a, [x], [y], false), Descriptor(b, [y], [x], false)];
    TwoCycleEdges(a, b, x, y);
    TwoCycleDedup(x, y);
    var edges := [(y, x), (x, y)];
    assert edges[..1] == [(y, x)] && [(y, x)][..0] == [];
    assert Sources([(y, x)]) == [y];
    assert Sources(edges) == [y, x];
    assert Binaries(table) + Sources(EdgesOf(table)) == [x, y, y, x];
  }

  lemma TwoCycleEdges(a: string, b: string, x: string, y: string)
    ensures var table := [Descriptor(a, [x], [y], false), Descriptor(b, [y], [x], false)];
      Binaries(table) == [x, y] && EdgesOf(table) == [(y, x), (x, y)]
  {
    var da := Descriptor(a, [x], [y], false);
    var db := Descriptor(b, [y], [x], false);
    var table := [da, db];
    assert table[..1] == [da];
    assert [da][..0] == [];
    assert Binaries([da]) == [x];
    assert Binaries(table) == [x] + [y];
    assert BinaryEdges(x, [y]) == [(y, x)];
    assert DescriptorEdges([x], [y]) == [(y, x)];
    assert BinaryEdges(y, [x]) == [(x, y)];
    assert DescriptorEdges([y], [x]) == [(x, y)];
    assert EdgesOf([da]) == [(y, x)];
    assert EdgesOf(table) == [(y, x)] + [(x, y)];
  }

  lemma TwoCycleDedup(x: string, y: string)
    requires x != y
    ensures Dedup([x, y, y, x]) == [x, y]
  {
    var all := [x, y, y, x];
    assert all[..3] == [x, y, y] && all[..3][..2] == [x, y] && [x, y][..1] == [x];
    assert Dedup([x]) == [x];
    assert Dedup([x, y]) == [x, y];
  }

  lemma TwoCycleMaps(x: string, y: string)
    requires x != y
    ensures InDegrees([x, y], [(y, x), (x, y)]) == map[x := 1, y := 1]
    ensures Graph([x, y], [(y, x), (x, y)]) == map[x := [y], y := [x]]
  {
    var keys := [x, y];
    var edges := [(y, x), (x, y)];
    TwoCycleTargets(x, y);
    TwoCycleSuccessors(x, y);
    assert forall v :: v in keys <==> v == x || v == y;
    var m := InDegrees(keys, edges);
    var g := Graph(keys, edges);
    assert m.Keys == {x, y} && g.Keys == {x, y};
    assert m[x] == 1 && m[y] == 1 by {
      assert multiset([x, y])[x] == 1 && multiset([x, y])[y] == 1;
    }
    assert g[x] == [y] && g[y] == [x];
    MapOfTwo(m, x, y, 1, 1);
    MapOfTwo(g, x, y, [y], [x]);
  }

  lemma MapOfTwo<V>(m: map<string, V>, x: string, y: string, u: V, v: V)
    requires x != y && m.Keys == {x, y} && m[x] == u && m[y] == v
    ensures m == map[x := u, y := v]
  {
  }

  lemma TwoCycleTargets(x: string, y: string)
    ensures Targets([(y, x), (x, y)]) == [x, y]
  {
    var edges := [(y, x), (x, y)];
    assert edges[..1] == [(y, x)] && [(y, x)][..0] == [];
    assert Targets([(y, x)]) == [x];
  }

  lemma TwoCycleSuccessors(x: string, y: string)
    requires x != y
    ensures Successors([(y, x), (x, y)], x) == [y]
    ensures Successors([(y, x), (x, y)], y) == [x]
  {
    var edges := [(y, x), (x, y)];
    assert edges[..1] == [(y, x)] && [(y, x)][..0] == [];
    assert Successors([], x) == [] && Successors([], y) == [];
    assert Successors([(y, x)], x) == [];
    assert Successors([(y, x)], y) == [x];
  }

  lemma TwoCycleRelax(x: string, y: string)
    requires x != y
    ensures Relax(map[x := 1, y := 1], [], [y]) == (map[x := 1, y := 0], [y])
    ensures Relax(map[x := 1, y := 0], [], [x]) == (map[x := 0, y := 0], [x])
    ensures Relax(map[x := 0, y := 0], [], [y]) == (map[x := 0, y := -1], [])
  {
    var i0 := map[x := 1, y := 1];
    var i1 := map[x := 1, y := 0];
    var i2 := map[x := 0, y := 0];
    var i3 := map[x := 0, y := -1];
    assert [y][1..] == [] && [x][1..] == [];
    assert i0[y := 0] == i1;
    assert i1[x := 0] == i2;
    assert i2[y := -1] == i3;
    assert [] + [y] == [y] && [] + [x] == [x];
    assert Relax(i1, [y], []) == (i1, [y]);
    assert Relax(i2, [x], []) == (i2, [x]);
  }

  /** One round of the loop of lines 193-199. */
  lemma RunStep(graph: map<string, seq<string>>, indeg: map<string, int>, queue: seq<string>, out: seq<string>,
                indeg': map<string, int>, queue': seq<string>)
    requires RunState(graph, indeg, queue) && queue != []
    requires Relax(indeg, queue[1..], graph[queue[0]]) == (indeg', queue')
    ensures RunState(graph, indeg', queue')
    ensures Run(graph, indeg, queue, out) == Run(graph, indeg', queue', out + [queue[0]])
  {
  }

  lemma TwoCycleStates(x: string, y: string)
    requires x != y
    ensures var graph := map[x := [y], y := [x]];
      RunState(graph, map[x := 1, y := 1], [x]) && RunState(graph, map[x := 1, y := 0], [y])
      && RunState(graph, map[x := 0, y := 0], [x]) && RunState(graph, map[x := 0, y := -1], [])
  {
  }

  lemma TwoCycleRun(x: string, y: string)
    requires x != y
    ensures RunState(map[x := [y], y := [x]], map[x := 1, y := 1], [x])
    ensures Run(map[x := [y], y := [x]], map[x := 1, y := 1], [x], []) == (map[x := 0, y := -1], [x, y, x])
  {
    var graph := map[x := [y], y := [x]];
    var i0 := map[x := 1, y := 1];
    var i1 := map[x := 1, y := 0];
    var i2 := map[x := 0, y := 0];
    var i3 := map[x := 0, y := -1];
    TwoCycleStates(x, y);
    TwoCycleRelax(x, y);
    assert [x][1..] == [] && [y][1..] == [];
    assert graph[x] == [y] && graph[y] == [x];
    RunStep(graph, i0, [x], [], i1, [y]);
    RunStep(graph, i1, [y], [x], i2, [x]);
    RunStep(graph, i2, [x], [x, y], i3, []);
    assert [] + [x] == [x] && [x] + [y] == [x, y] && [x, y] + [x] == [x, y, x];
  }
}
