/**
 * The directed graph the route search runs on, modelled after the networkx
 * `DiGraph` used by the flight search: one vertex per (airport, instant) pair,
 * kept in insertion order, and at most one attribute record per ordered pair
 * of vertices.
 */
module Graphs {

  datatype Option<+T> = None | Some(value: T)

  /** An airport (IATA code) at one instant, in whole seconds. */
  datatype Vertex = Vertex(airport: string, time: int)

  /**
   * The attributes stored on an edge: `weight` is a price in cents (0 on a
   * connection), `flightNumber` is the `flight_number` attribute when one was
   * set, `isConnection` is the `is_connection` attribute (absent reads as false).
   */
  datatype EdgeAttrs = EdgeAttrs(weight: nat, flightNumber: Option<string>, isConnection: bool)

  type Edge = (Vertex, Vertex)

  /** Vertices in the order they were first added; edges keyed by ordered pair. */
  datatype Graph = Graph(vertices: seq<Vertex>, edges: map<Edge, EdgeAttrs>)

  /** Pair (i', j') comes before pair (i, j) when a nested loop over two lists visits it first. */
  predicate Before(i': int, j': int, i: int, j: int) {
    i' < i || (i' == i && j' < j)
  }

  /** The shape every `DiGraph` has: no vertex twice, every edge between vertices. */
  ghost predicate WellFormed(g: Graph) {
    && (forall i, j :: 0 <= i < j < |g.vertices| ==> g.vertices[i] != g.vertices[j])
    && (forall e :: e in g.edges ==> e.0 in g.vertices && e.1 in g.vertices)
  }

  function Last<T>(s: seq<T>): T
    requires |s| > 0
  {
    s[|s| - 1]
  }

  /** A walk: a non-empty vertex sequence starting in the graph, each step an edge. */
  predicate IsPath(g: Graph, p: seq<Vertex>) {
    && |p| >= 1
    && p[0] in g.vertices
    && forall i :: 0 <= i < |p| - 1 ==> (p[i], p[i + 1]) in g.edges
  }

  predicate PathFromTo(g: Graph, p: seq<Vertex>, s: Vertex, t: Vertex) {
    IsPath(g, p) && p[0] == s && Last(p) == t
  }

  ghost predicate Reachable(g: Graph, s: Vertex, t: Vertex) {
    exists p :: PathFromTo(g, p, s, t)
  }

  lemma PrefixIsPath(g: Graph, p: seq<Vertex>, n: nat)
    requires IsPath(g, p) && 1 <= n <= |p|
    ensures IsPath(g, p[..n])
  {
    assert p[..n][0] == p[0];
    forall i | 0 <= i < n - 1
      ensures (p[..n][i], p[..n][i + 1]) in g.edges
    {
      assert p[..n][i] == p[i] && p[..n][i + 1] == p[i + 1];
    }
  }

  /** The total weight of a walk, summed step by step from its start. */
  function PathCost(g: Graph, p: seq<Vertex>): nat
    requires IsPath(g, p)
    decreases |p|
  {
    if |p| == 1 then 0
    else
      PrefixIsPath(g, p, |p| - 1);
      PathCost(g, p[..|p| - 1]) + g.edges[(p[|p| - 2], p[|p| - 1])].weight
  }

  /** Extending a walk by one edge adds that edge's weight and nothing else. */
  lemma ExtendPath(g: Graph, p: seq<Vertex>, v: Vertex)
    requires IsPath(g, p) && (Last(p), v) in g.edges
    ensures IsPath(g, p + [v])
    ensures PathCost(g, p + [v]) == PathCost(g, p) + g.edges[(Last(p), v)].weight
  {
    var q := p + [v];
    forall i | 0 <= i < |q| - 1
      ensures (q[i], q[i + 1]) in g.edges
    {
      if i < |p| - 1 {
        assert q[i] == p[i] && q[i + 1] == p[i + 1];
      }
    }
    assert q[..|q| - 1] == p;
  }

  /** In a well-formed graph every vertex of a walk is a vertex of the graph. */
  lemma PathInGraph(g: Graph, p: seq<Vertex>)
    requires WellFormed(g) && IsPath(g, p)
    ensures forall i :: 0 <= i < |p| ==> p[i] in g.vertices
  {
    forall i | 0 <= i < |p|
      ensures p[i] in g.vertices
    {
      if i > 0 {
        assert (p[i - 1], p[i]) in g.edges;
      }
    }
  }
}
