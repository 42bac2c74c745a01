/**
 * `StudentGraph`: an insertion-ordered adjacency map from students (keyed
 * by name, as `equals`/`hashCode` are) to lists of weighted edges, built
 * over every pair of a population with weight max(score(a,b), score(b,a)).
 */
module Graphs {
  import opened Wrappers
  import opened Students
  import opened Scoring

  /** `StudentGraph.Edge`: the student at the other end and the connection weight. */
  datatype Edge = Edge(neighbor: Student, weight: int)

  /**
   * The `LinkedHashMap<UniversityStudent, List<Edge>>`: `nodes` are the keys
   * in insertion order, `adj[k]` is the list stored under `nodes[k]`.
   */
  datatype Graph = Graph(nodes: seq<Student>, adj: seq<seq<Edge>>)

  /** One list per key, and no two keys equal (same name). */
  predicate Valid(g: Graph) {
    |g.nodes| == |g.adj| && DistinctNames(g.nodes)
  }

  /** Position of the key equal to a student called `name`, if any. */
  function Find(nodes: seq<Student>, name: string): (r: Option<nat>)
    ensures r.Some? ==> r.value < |nodes| && nodes[r.value].name == name
    ensures r.None? ==> forall k :: 0 <= k < |nodes| ==> nodes[k].name != name
  {
    if nodes == [] then None
    else if nodes[0].name == name then Some(0)
    else match Find(nodes[1..], name)
      case Some(k) => Some(k + 1)
      case None => None
  }

  lemma FindDistinct(nodes: seq<Student>, k: nat)
    requires DistinctNames(nodes) && k < |nodes|
    ensures Find(nodes, nodes[k].name) == Some(k)
  {
  }

  /** `adj.getOrDefault(s, emptyList())`, looked up by name. */
  function NeighborsNamed(g: Graph, name: string): (r: seq<Edge>)
    requires Valid(g)
    ensures Find(g.nodes, name).Some? ==> r == g.adj[Find(g.nodes, name).value]
    ensures Find(g.nodes, name).None? ==> r == []
  {
    match Find(g.nodes, name)
    case Some(k) => g.adj[k]
    case None => []
  }

  /** `getNeighbors(s)`: the stored list, or the empty list for a student not in the graph. */
  function Neighbors(g: Graph, s: Student): (r: seq<Edge>)
    requires Valid(g)
    ensures (exists k :: 0 <= k < |g.nodes| && g.nodes[k].name == s.name) ==>
              exists k :: 0 <= k < |g.nodes| && g.nodes[k].name == s.name && r == g.adj[k]
    ensures (forall k :: 0 <= k < |g.nodes| ==> g.nodes[k].name != s.name) ==> r == []
  {
    NeighborsNamed(g, s.name)
  }

  /** `getAllNodes()`: the keys, in insertion order. */
  function AllNodes(g: Graph): seq<Student>
  {
    g.nodes
  }

  /** `adj.put(s, edges)`: replaces the list of an existing key (keeping the key), else appends. */
  function Put(g: Graph, s: Student, edges: seq<Edge>): (r: Graph)
    requires Valid(g)
    ensures Valid(r)
    ensures NeighborsNamed(r, s.name) == edges
    ensures forall n :: n != s.name ==> NeighborsNamed(r, n) == NeighborsNamed(g, n)
    ensures Find(g.nodes, s.name).Some? ==> r.nodes == g.nodes
    ensures Find(g.nodes, s.name).None? ==> r.nodes == g.nodes + [s]
  {
    match Find(g.nodes, s.name)
    case Some(k) => g.(adj := g.adj[k := edges])
    case None =>
      var r := Graph(g.nodes + [s], g.adj + [edges]);
      assert forall n :: Find(r.nodes, n) == (if n == s.name then Some(|g.nodes|) else Find(g.nodes, n)) by {
        forall n ensures Find(r.nodes, n) == (if n == s.name then Some(|g.nodes|) else Find(g.nodes, n)) {
          FindAppend(g.nodes, s, n);
        }
      }
      r
  }

  lemma {:induction false} FindAppend(nodes: seq<Student>, s: Student, n: string)
    requires Find(nodes, s.name).None?
    ensures Find(nodes + [s], n) == (if n == s.name then Some(|nodes|) else Find(nodes, n))
  {
    if nodes != [] {
      assert (nodes + [s])[1..] == nodes[1..] + [s];
      FindAppend(nodes[1..], s, n);
    }
  }

  /**
   * `addEdge(a, b, w)`: appends exactly one edge to `a`'s list, creating the
   * list (and the node) if needed; every other list is unchanged and no
   * reverse edge is added.
   */
  function AddEdge(g: Graph, a: Student, b: Student, w: int): (r: Graph)
    requires Valid(g)
    ensures Valid(r)
    ensures NeighborsNamed(r, a.name) == NeighborsNamed(g, a.name) + [Edge(b, w)]
    ensures forall n :: n != a.name ==> NeighborsNamed(r, n) == NeighborsNamed(g, n)
    ensures Find(g.nodes, a.name).Some? ==> r.nodes == g.nodes
    ensures Find(g.nodes, a.name).None? ==> r.nodes == g.nodes + [a]
  {
    Put(g, a, NeighborsNamed(g, a.name) + [Edge(b, w)])
  }

  /** The graph weight of a pair: the stronger of the two directional scores. */
  function Weight(a: Student, b: Student): (w: int)
    ensures w >= 0
    ensures w >= Score(a, University(b)) && w >= Score(b, University(a))
    ensures w == Score(a, University(b)) || w == Score(b, University(a))
  {
    var w1 := Score(a, University(b));
    var w2 := Score(b, University(a));
    if w1 >= w2 then w1 else w2
  }

  lemma WeightSymmetric(a: Student, b: Student)
    ensures Weight(a, b) == Weight(b, a)
  {
  }

  /** Some edge of `es` leads to a student called `name` with weight `w`. */
  ghost predicate HasEdgeTo(es: seq<Edge>, name: string, w: int) {
    exists e :: e in es && e.neighbor.name == name && e.weight == w
  }

  /** Every edge a -> b with weight w has a reverse edge b -> a with the same weight. */
  ghost predicate Symmetric(g: Graph)
    requires Valid(g)
  {
    forall name, e :: e in NeighborsNamed(g, name) ==>
      HasEdgeTo(NeighborsNamed(g, e.neighbor.name), name, e.weight)
  }

  /** No edge carries a negative weight. */
  ghost predicate NonNegative(g: Graph)
    requires Valid(g)
  {
    forall name, e :: e in NeighborsNamed(g, name) ==> e.weight >= 0
  }

  /** Adding a pair of opposite edges with one weight keeps the graph symmetric. */
  lemma AddPairKeepsSymmetric(g: Graph, a: Student, b: Student, w: int)
    requires Valid(g) && Symmetric(g)
    ensures Symmetric(AddEdge(AddEdge(g, a, b, w), b, a, w))
  {
    var g1 := AddEdge(g, a, b, w);
    var g2 := AddEdge(g1, b, a, w);
    forall name, e | e in NeighborsNamed(g2, name)
      ensures HasEdgeTo(NeighborsNamed(g2, e.neighbor.name), name, e.weight)
    {
      var m := e.neighbor.name;
      assert NeighborsNamed(g2, m) == NeighborsNamed(g, m)
        + (if m == a.name then [Edge(b, w)] else []) + (if m == b.name then [Edge(a, w)] else []);
      assert NeighborsNamed(g2, name) == NeighborsNamed(g, name)
        + (if name == a.name then [Edge(b, w)] else []) + (if name == b.name then [Edge(a, w)] else []);
      if e in NeighborsNamed(g, name) {
        var r :| r in NeighborsNamed(g, m) && r.neighbor.name == name && r.weight == e.weight;
        assert r in NeighborsNamed(g2, m);
      } else if name == a.name && e == Edge(b, w) {
        assert Edge(a, w) in NeighborsNamed(g2, m);
      } else {
        assert Edge(b, w) in NeighborsNamed(g2, m);
      }
    }
  }

  /**
   * The edges of node `k` towards the nodes before position `h`, in
   * population order, skipping `k` itself.
   */
  function Span(p: seq<Student>, k: nat, h: nat): seq<Edge>
    requires k < |p| && h <= |p|
  {
    if h == 0 then []
    else Span(p, k, h - 1) + (if h - 1 == k then [] else [Edge(p[h - 1], Weight(p[k], p[h - 1]))])
  }

  /** The list the constructor builds for node `k` of a population with distinct names. */
  function FullRow(p: seq<Student>, k: nat): seq<Edge>
    requires k < |p|
  {
    Span(p, k, |p|)
  }

  /** Position in the population of the `m`-th edge of node `k`'s list: every position but `k`. */
  function Skip(k: nat, m: nat): nat {
    if m < k then m else m + 1
  }

  lemma {:induction false} SpanShape(p: seq<Student>, k: nat, h: nat)
    requires k < |p| && h <= |p|
    ensures |Span(p, k, h)| == (if k < h then h - 1 else h)
    ensures forall m :: 0 <= m < |Span(p, k, h)| ==>
      Span(p, k, h)[m] == Edge(p[Skip(k, m)], Weight(p[k], p[Skip(k, m)]))
  {
    if h > 0 {
      SpanShape(p, k, h - 1);
      var prev, cur := Span(p, k, h - 1), Span(p, k, h);
      forall m | 0 <= m < |cur|
        ensures cur[m] == Edge(p[Skip(k, m)], Weight(p[k], p[Skip(k, m)]))
      {
        if m < |prev| {
          assert cur[m] == prev[m];
        } else {
          assert Skip(k, m) == h - 1;
        }
      }
    }
  }

  /**
   * Node `k`'s list holds exactly one edge to every other position, in
   * population order, weighted max(score(p[k], q), score(q, p[k])), zero
   * weights included; so it has |p| - 1 edges and no self-loop.
   */
  lemma FullRowShape(p: seq<Student>, k: nat)
    requires DistinctNames(p) && k < |p|
    ensures |FullRow(p, k)| == |p| - 1
    ensures forall m :: 0 <= m < |p| - 1 ==>
      FullRow(p, k)[m] == Edge(p[Skip(k, m)], Weight(p[k], p[Skip(k, m)]))
    ensures forall e :: e in FullRow(p, k) ==> e.neighbor.name != p[k].name
    ensures forall j :: 0 <= j < |p| && j != k ==>
      Edge(p[j], Weight(p[k], p[j])) in FullRow(p, k)
  {
    SpanShape(p, k, |p|);
    forall j | 0 <= j < |p| && j != k
      ensures Edge(p[j], Weight(p[k], p[j])) in FullRow(p, k)
    {
      var m := if j < k then j else j - 1;
      assert Skip(k, m) == j;
      assert FullRow(p, k)[m] == Edge(p[j], Weight(p[k], p[j]));
    }
  }

  /** Lists of every node while row `i` of the pair loop is at inner index `j`. */
  function Progress(p: seq<Student>, k: nat, i: nat, j: nat): seq<Edge>
    requires k < |p| && i < |p| && i < j <= |p|
  {
    if k < i then FullRow(p, k)
    else if k == i then Span(p, k, j)
    else Span(p, k, if k < j then i + 1 else i)
  }

  /** One inner iteration of the constructor adds the pair (i, j) in both directions. */
  lemma InnerStep(p: seq<Student>, g: Graph, i: nat, j: nat)
    requires DistinctNames(p) && Valid(g) && g.nodes == p
    requires i < j < |p|
    requires forall k :: 0 <= k < |p| ==> g.adj[k] == Progress(p, k, i, j)
    ensures AddEdge(AddEdge(g, p[i], p[j], Weight(p[i], p[j])), p[j], p[i], Weight(p[i], p[j])).nodes == p
    ensures forall k :: 0 <= k < |p| ==>
      AddEdge(AddEdge(g, p[i], p[j], Weight(p[i], p[j])), p[j], p[i], Weight(p[i], p[j])).adj[k]
        == Progress(p, k, i, j + 1)
  {
    var w := Weight(p[i], p[j]);
    WeightSymmetric(p[i], p[j]);
    FindDistinct(p, i);
    FindDistinct(p, j);
    var g1 := AddEdge(g, p[i], p[j], w);
    var g2 := AddEdge(g1, p[j], p[i], w);
    assert g1.adj == g.adj[i := g.adj[i] + [Edge(p[j], w)]];
    assert g2.adj == g1.adj[j := g1.adj[j] + [Edge(p[i], w)]];
    forall k | 0 <= k < |p|
      ensures g2.adj[k] == Progress(p, k, i, j + 1)
    {
      if k == i {
        assert Span(p, k, j + 1) == Span(p, k, j) + [Edge(p[j], w)];
      } else if k == j {
        assert Span(p, k, i + 1) == Span(p, k, i) + [Edge(p[i], Weight(p[j], p[i]))];
      }
    }
  }

  /** The first constructor loop: one empty list per student, in population order. */
  method AddNodes(p: seq<Student>) returns (g: Graph)
    ensures Valid(g) && Symmetric(g) && NonNegative(g)
    ensures forall k :: 0 <= k < |g.adj| ==> g.adj[k] == []
    ensures DistinctNames(p) ==> g.nodes == p
  {
    g := Graph([], []);
    var i := 0;
    while i < |p|
      invariant i <= |p|
      invariant Valid(g)
      invariant forall k :: 0 <= k < |g.adj| ==> g.adj[k] == []
      invariant DistinctNames(p) ==> g.nodes == p[..i]
    {
      if DistinctNames(p) {
        assert Find(g.nodes, p[i].name).None?;
        assert p[..i + 1] == p[..i] + [p[i]];
      }
      g := Put(g, p[i], []);
      i := i + 1;
    }
    assert p[..|p|] == p;
  }

  /** What the pair loop knows of the graph before row `i`. */
  ghost predicate RowsDone(p: seq<Student>, g: Graph, i: nat)
    requires i <= |p|
  {
    && Valid(g) && Symmetric(g) && NonNegative(g)
    && (DistinctNames(p) ==> (g.nodes == p &&
          forall k :: 0 <= k < |p| ==> g.adj[k] == (if k < i then FullRow(p, k) else Span(p, k, i))))
  }

  /** What the pair loop knows of the graph while row `i` is at inner index `j`. */
  ghost predicate PairsDone(p: seq<Student>, g: Graph, i: nat, j: nat)
    requires i < j <= |p|
  {
    && Valid(g) && Symmetric(g) && NonNegative(g)
    && (DistinctNames(p) ==> (g.nodes == p &&
          forall k :: 0 <= k < |p| ==> g.adj[k] == Progress(p, k, i, j)))
  }

  lemma RowEntry(p: seq<Student>, g: Graph, i: nat)
    requires i < |p| && RowsDone(p, g, i)
    ensures PairsDone(p, g, i, i + 1)
  {
    if DistinctNames(p) {
      assert Span(p, i, i + 1) == Span(p, i, i);
    }
  }

  lemma RowExit(p: seq<Student>, g: Graph, i: nat)
    requires i < |p| && PairsDone(p, g, i, |p|)
    ensures RowsDone(p, g, i + 1)
  {
  }

  lemma PairStep(p: seq<Student>, g: Graph, i: nat, j: nat)
    requires i < j < |p| && PairsDone(p, g, i, j)
    ensures PairsDone(p, AddEdge(AddEdge(g, p[i], p[j], Weight(p[i], p[j])), p[j], p[i], Weight(p[i], p[j])), i, j + 1)
  {
    var w := Weight(p[i], p[j]);
    var g1 := AddEdge(g, p[i], p[j], w);
    AddPairKeepsSymmetric(g, p[i], p[j], w);
    AddEdgeKeepsNonNegative(g, p[i], p[j], w);
    AddEdgeKeepsNonNegative(g1, p[j], p[i], w);
    if DistinctNames(p) {
      InnerStep(p, g, i, j);
    }
  }

  /** Adding an edge of non-negative weight keeps every weight non-negative. */
  lemma AddEdgeKeepsNonNegative(g: Graph, a: Student, b: Student, w: int)
    requires Valid(g) && NonNegative(g) && w >= 0
    ensures NonNegative(AddEdge(g, a, b, w))
  {
    var r := AddEdge(g, a, b, w);
    forall name, e | e in NeighborsNamed(r, name)
      ensures e.weight >= 0
    {
      if name == a.name {
        assert NeighborsNamed(r, name) == NeighborsNamed(g, name) + [Edge(b, w)];
      }
    }
  }

  /** One row of the pair loop: the pairs (i, j) for every j after i, in order. */
  method AddRow(p: seq<Student>, g0: Graph, i: nat) returns (g: Graph)
    requires i < |p| && RowsDone(p, g0, i)
    ensures RowsDone(p, g, i + 1)
  {
    g := g0;
    RowEntry(p, g, i);
    var j := i + 1;
    while j < |p|
      invariant i < j <= |p|
      invariant PairsDone(p, g, i, j)
    {
      var w := Weight(p[i], p[j]);
      PairStep(p, g, i, j);
      g := AddEdge(g, p[i], p[j], w);
      g := AddEdge(g, p[j], p[i], w);
      j := j + 1;
    }
    RowExit(p, g, i);
  }

  /**
   * The `StudentGraph` constructor. A `null` population gives no nodes.
   * Otherwise every unordered pair {a, b} of positions gets an edge a -> b
   * and an edge b -> a carrying max(score(a,b), score(b,a)), zero included.
   */
  method Build(pop: Option<seq<Student>>) returns (g: Graph)
    ensures Valid(g)
    ensures pop.None? ==> AllNodes(g) == []
    ensures Symmetric(g)
    ensures NonNegative(g)
    ensures pop.Some? && DistinctNames(pop.value) ==>
      && AllNodes(g) == pop.value
      && forall k :: 0 <= k < |pop.value| ==> Neighbors(g, pop.value[k]) == FullRow(pop.value, k)
  {
    if pop.None? {
      g := Graph([], []);
      return;
    }
    var p := pop.value;
    g := AddNodes(p);
    var i := 0;
    while i < |p|
      invariant i <= |p|
      invariant RowsDone(p, g, i)
    {
      g := AddRow(p, g, i);
      i := i + 1;
    }
    FinishedRows(p, g);
  }

  /** After the last row, every student's list is its full row. */
  lemma FinishedRows(p: seq<Student>, g: Graph)
    requires RowsDone(p, g, |p|)
    ensures DistinctNames(p) ==>
      && AllNodes(g) == p
      && forall k :: 0 <= k < |p| ==> Neighbors(g, p[k]) == FullRow(p, k)
  {
    if DistinctNames(p) {
      forall k | 0 <= k < |p|
        ensures Neighbors(g, p[k]) == FullRow(p, k)
      {
        FindDistinct(p, k);
        assert g.adj[k] == FullRow(p, k);
      }
    }
  }
}
