/**
 * Construction of the time-aware flight graph: a first pass adds one flight
 * edge per record, a second pass adds a free connection edge between every two
 * vertices of one airport that lie at least an hour apart, forward in time.
 * The older script builds the same graph without the second pass.
 */
module TimeAwareGraph {
  import opened Graphs

  /** The columns of one flight record that the graph builder reads. */
  datatype FlightRow = FlightRow(
    depIata: string,
    arrIata: string,
    depTime: int,
    arrTime: int,
    price: nat,
    flightNumber: Option<string>)

  /** The minimum layover, in seconds. */
  const MinConnectionSeconds: int := 3600

  function Departure(r: FlightRow): Vertex {
    Vertex(r.depIata, r.depTime)
  }

  function Arrival(r: FlightRow): Vertex {
    Vertex(r.arrIata, r.arrTime)
  }

  function FlightEdge(r: FlightRow): Edge {
    (Departure(r), Arrival(r))
  }

  /** The attributes a record's `add_edge` stores; the script stores no flight number. */
  function FlightAttrs(r: FlightRow, keepNumbers: bool): EdgeAttrs {
    EdgeAttrs(r.price, if keepNumbers then r.flightNumber else None, false)
  }

  /** A layover from `u` to `v` is allowed: same airport, `v` at least an hour later. */
  predicate Connectable(u: Vertex, v: Vertex) {
    u.airport == v.airport && u.time < v.time && v.time - u.time >= MinConnectionSeconds
  }

  function AddVertex(vs: seq<Vertex>, v: Vertex): seq<Vertex> {
    if v in vs then vs else vs + [v]
  }

  lemma AddVertexMember(vs: seq<Vertex>, x: Vertex, v: Vertex)
    ensures v in AddVertex(vs, x) <==> v in vs || v == x
  {
  }

  /** `add_edge` for one record: new endpoints are appended, the edge's attributes replaced. */
  function AddFlight(g: Graph, r: FlightRow, keepNumbers: bool): Graph {
    Graph(AddVertex(AddVertex(g.vertices, Departure(r)), Arrival(r)),
          g.edges[FlightEdge(r) := FlightAttrs(r, keepNumbers)])
  }

  /** The graph after the flight pass over `rows`, in row order. */
  function FlightGraph(rows: seq<FlightRow>, keepNumbers: bool): Graph
    decreases |rows|
  {
    if rows == [] then Graph([], map[])
    else AddFlight(FlightGraph(rows[..|rows| - 1], keepNumbers), Last(rows), keepNumbers)
  }

  /** Adding a record keeps vertices distinct and every edge between vertices. */
  lemma AddFlightWellFormed(g: Graph, r: FlightRow, keepNumbers: bool)
    requires WellFormed(g)
    ensures WellFormed(AddFlight(g, r, keepNumbers))
  {
    var vs1 := AddVertex(g.vertices, Departure(r));
    var vs2 := AddVertex(vs1, Arrival(r));
    assert forall w :: w in g.vertices ==> w in vs1 && w in vs2;
    assert Departure(r) in vs2 && Arrival(r) in vs2;
  }

  /** The flight pass yields a well-formed graph with no connection edge. */
  lemma {:induction false} FlightGraphShape(rows: seq<FlightRow>, keepNumbers: bool)
    ensures WellFormed(FlightGraph(rows, keepNumbers))
    ensures forall e :: e in FlightGraph(rows, keepNumbers).edges ==> !FlightGraph(rows, keepNumbers).edges[e].isConnection
    decreases |rows|
  {
    if rows != [] {
      var g0 := FlightGraph(rows[..|rows| - 1], keepNumbers);
      FlightGraphShape(rows[..|rows| - 1], keepNumbers);
      AddFlightWellFormed(g0, Last(rows), keepNumbers);
    }
  }

  /** `v` is the departure or arrival vertex of one of the first `n` records. */
  ghost predicate IsEndpoint(rows: seq<FlightRow>, n: nat, v: Vertex)
    requires n <= |rows|
  {
    exists k :: 0 <= k < n && (v == Departure(rows[k]) || v == Arrival(rows[k]))
  }

  /** `e` is the flight edge of one of the first `n` records. */
  ghost predicate IsFlightEdge(rows: seq<FlightRow>, n: nat, e: Edge)
    requires n <= |rows|
  {
    exists k :: 0 <= k < n && FlightEdge(rows[k]) == e
  }

  /** The endpoints of the first n records are those of the first n - 1 and the n-th record's. */
  lemma EndpointStep(rows: seq<FlightRow>, n: nat, v: Vertex)
    requires 0 < n <= |rows|
    ensures IsEndpoint(rows, n, v) <==>
      IsEndpoint(rows[..n - 1], n - 1, v) || v == Departure(rows[n - 1]) || v == Arrival(rows[n - 1])
  {
    if IsEndpoint(rows, n, v) {
      var k :| 0 <= k < n && (v == Departure(rows[k]) || v == Arrival(rows[k]));
      if k < n - 1 {
        assert rows[..n - 1][k] == rows[k];
      }
    }
    if IsEndpoint(rows[..n - 1], n - 1, v) {
      var k :| 0 <= k < n - 1 && (v == Departure(rows[..n - 1][k]) || v == Arrival(rows[..n - 1][k]));
      assert rows[..n - 1][k] == rows[k];
    }
  }

  /** The flight edges of the first n records are those of the first n - 1 and the n-th record's. */
  lemma FlightEdgeStep(rows: seq<FlightRow>, n: nat, e: Edge)
    requires 0 < n <= |rows|
    ensures IsFlightEdge(rows, n, e) <==> IsFlightEdge(rows[..n - 1], n - 1, e) || e == FlightEdge(rows[n - 1])
  {
    if IsFlightEdge(rows, n, e) {
      var k :| 0 <= k < n && FlightEdge(rows[k]) == e;
      if k < n - 1 {
        assert rows[..n - 1][k] == rows[k];
      }
    }
    if IsFlightEdge(rows[..n - 1], n - 1, e) {
      var k :| 0 <= k < n - 1 && FlightEdge(rows[..n - 1][k]) == e;
      assert rows[..n - 1][k] == rows[k];
    }
  }

  /** The vertices of the flight pass are exactly the endpoints of the records. */
  lemma {:induction false} FlightGraphVertices(rows: seq<FlightRow>, keepNumbers: bool, v: Vertex)
    ensures v in FlightGraph(rows, keepNumbers).vertices <==> IsEndpoint(rows, |rows|, v)
    decreases |rows|
  {
    if rows != [] {
      var init := rows[..|rows| - 1];
      var g0 := FlightGraph(init, keepNumbers);
      var r := Last(rows);
      assert FlightGraph(rows, keepNumbers) == AddFlight(g0, r, keepNumbers);
      FlightGraphVertices(init, keepNumbers, v);
      AddVertexMember(g0.vertices, Departure(r), v);
      AddVertexMember(AddVertex(g0.vertices, Departure(r)), Arrival(r), v);
      EndpointStep(rows, |rows|, v);
    }
  }

  /** The edges of the flight pass are exactly the records' flight edges. */
  lemma {:induction false} FlightGraphEdges(rows: seq<FlightRow>, keepNumbers: bool, e: Edge)
    ensures e in FlightGraph(rows, keepNumbers).edges <==> IsFlightEdge(rows, |rows|, e)
    decreases |rows|
  {
    if rows != [] {
      var init := rows[..|rows| - 1];
      var g0 := FlightGraph(init, keepNumbers);
      assert FlightGraph(rows, keepNumbers) == AddFlight(g0, Last(rows), keepNumbers);
      FlightGraphEdges(init, keepNumbers, e);
      FlightEdgeStep(rows, |rows|, e);
    }
  }

  /** A repeated edge keeps the attributes of the last record that added it. */
  lemma {:induction false} LastRecordWins(rows: seq<FlightRow>, keepNumbers: bool, k: nat)
    requires k < |rows|
    requires forall k' :: k < k' < |rows| ==> FlightEdge(rows[k']) != FlightEdge(rows[k])
    ensures FlightEdge(rows[k]) in FlightGraph(rows, keepNumbers).edges
    ensures FlightGraph(rows, keepNumbers).edges[FlightEdge(rows[k])] == FlightAttrs(rows[k], keepNumbers)
    decreases |rows|
  {
    var init := rows[..|rows| - 1];
    var g0 := FlightGraph(init, keepNumbers);
    assert FlightGraph(rows, keepNumbers) == AddFlight(g0, Last(rows), keepNumbers);
    if k < |init| {
      assert FlightEdge(Last(rows)) != FlightEdge(rows[k]);
      assert init[k] == rows[k];
      forall k' | k < k' < |init|
        ensures FlightEdge(init[k']) != FlightEdge(init[k])
      {
        assert init[k'] == rows[k'];
      }
      LastRecordWins(init, keepNumbers, k);
    }
  }

  /** The pairs the connection pass links: distinct-time vertices of one airport, an hour apart. */
  function ConnectionPairs(vs: seq<Vertex>): set<Edge> {
    set u, v | u in vs && v in vs && Connectable(u, v) :: (u, v)
  }

  /** The flight number a pair's existing edge carries, if any. */
  function NumberOn(edges: map<Edge, EdgeAttrs>, e: Edge): Option<string> {
    if e in edges then edges[e].flightNumber else None
  }

  /** `add_edge(u, v, weight=0, is_connection=True)` on an edge map: attributes merge into any existing edge. */
  function Linking(edges: map<Edge, EdgeAttrs>, u: Vertex, v: Vertex): map<Edge, EdgeAttrs> {
    edges[(u, v) := EdgeAttrs(0, NumberOn(edges, (u, v)), true)]
  }

  /** What the connection pass leaves on a linked pair: free, flagged, any flight number kept. */
  function ConnectionAttrs(g: Graph, e: Edge): EdgeAttrs {
    EdgeAttrs(0, NumberOn(g.edges, e), true)
  }

  /** `g`'s edges once every pair in `links` has been given a connection edge. */
  function Overlay(g: Graph, links: set<Edge>): map<Edge, EdgeAttrs> {
    map e | e in g.edges.Keys + links :: if e in links then ConnectionAttrs(g, e) else g.edges[e]
  }

  /** The edge map after the connection pass. */
  function ConnectedEdges(g: Graph): map<Edge, EdgeAttrs> {
    Overlay(g, ConnectionPairs(g.vertices))
  }

  /**
   * The connection pass: `add_edge(u, v, weight=0, is_connection=True)` for
   * every connectable pair. On a pair that already has an edge the attributes
   * are merged, so an existing flight number survives.
   */
  function AddConnections(g: Graph): (h: Graph)
    ensures h.vertices == g.vertices
    ensures forall u, v :: u in g.vertices && v in g.vertices && Connectable(u, v) ==>
      (u, v) in h.edges && h.edges[(u, v)].weight == 0 && h.edges[(u, v)].isConnection
    ensures forall e :: e in h.edges ==> e in g.edges || Connectable(e.0, e.1)
    ensures forall e :: e in g.edges ==> e in h.edges && h.edges[e].flightNumber == g.edges[e].flightNumber
    ensures forall e :: e in g.edges && !Connectable(e.0, e.1) ==> h.edges[e] == g.edges[e]
    ensures WellFormed(g) ==> WellFormed(h)
  {
    var links := ConnectionPairs(g.vertices);
    assert forall u, v :: u in g.vertices && v in g.vertices && Connectable(u, v) ==> (u, v) in links;
    Graph(g.vertices, ConnectedEdges(g))
  }

  /** The connectable pairs of `vs` that the nested loop visits before position (i, j). */
  function LinkedBefore(vs: seq<Vertex>, i: int, j: int): set<Edge> {
    set a, b | 0 <= a < |vs| && 0 <= b < |vs| && Before(a, b, i, j) && Connectable(vs[a], vs[b]) :: (vs[a], vs[b])
  }

  /** Valid positions (i, j) of the nested loop over `n` vertices; (n, 0) is the end. */
  predicate Position(n: int, i: int, j: int) {
    0 <= i <= n && 0 <= j <= n && (i == n ==> j == 0)
  }

  /**
   * The edge map the nested loop holds when it reaches position (i, j): every
   * earlier pair, in visiting order, put to the connection test and linked when it passes.
   */
  function EdgesAfter(g: Graph, i: int, j: int): map<Edge, EdgeAttrs>
    requires Position(|g.vertices|, i, j)
    decreases i, j
  {
    if j > 0 then
      var u, v := g.vertices[i], g.vertices[j - 1];
      var edges := EdgesAfter(g, i, j - 1);
      if Connectable(u, v) then Linking(edges, u, v) else edges
    else if i > 0 then EdgesAfter(g, i - 1, |g.vertices|)
    else g.edges
  }

  lemma LinkedStep(vs: seq<Vertex>, i: int, j: int)
    requires 0 <= i < |vs| && 0 <= j < |vs|
    ensures LinkedBefore(vs, i, j + 1) ==
      LinkedBefore(vs, i, j) + (if Connectable(vs[i], vs[j]) then {(vs[i], vs[j])} else {})
  {
    if Connectable(vs[i], vs[j]) {
      assert Before(i, j, i, j + 1);
    }
    forall e | e in LinkedBefore(vs, i, j + 1)
      ensures e in LinkedBefore(vs, i, j) || (Connectable(vs[i], vs[j]) && e == (vs[i], vs[j]))
    {
      var a, b :| 0 <= a < |vs| && 0 <= b < |vs| && Before(a, b, i, j + 1) &&
        Connectable(vs[a], vs[b]) && e == (vs[a], vs[b]);
      if Before(a, b, i, j) {
        assert e in LinkedBefore(vs, i, j);
      }
    }
  }

  lemma LinkedNextRow(vs: seq<Vertex>, i: int)
    requires 0 <= i < |vs|
    ensures LinkedBefore(vs, i, |vs|) == LinkedBefore(vs, i + 1, 0)
  {
    forall e | e in LinkedBefore(vs, i, |vs|) ensures e in LinkedBefore(vs, i + 1, 0) {
      var a, b :| 0 <= a < |vs| && 0 <= b < |vs| && Before(a, b, i, |vs|) &&
        Connectable(vs[a], vs[b]) && e == (vs[a], vs[b]);
      assert Before(a, b, i + 1, 0);
    }
    forall e | e in LinkedBefore(vs, i + 1, 0) ensures e in LinkedBefore(vs, i, |vs|) {
      var a, b :| 0 <= a < |vs| && 0 <= b < |vs| && Before(a, b, i + 1, 0) &&
        Connectable(vs[a], vs[b]) && e == (vs[a], vs[b]);
      assert Before(a, b, i, |vs|);
    }
  }

  lemma LinkedAll(vs: seq<Vertex>)
    ensures LinkedBefore(vs, |vs|, 0) == ConnectionPairs(vs)
  {
    forall e | e in ConnectionPairs(vs) ensures e in LinkedBefore(vs, |vs|, 0) {
      var a :| 0 <= a < |vs| && vs[a] == e.0;
      var b :| 0 <= b < |vs| && vs[b] == e.1;
      assert Before(a, b, |vs|, 0);
    }
  }

  /** Linking one more pair is `add_edge` on the map built so far. */
  lemma OverlayAdd(g: Graph, links: set<Edge>, u: Vertex, v: Vertex)
    ensures Overlay(g, links + {(u, v)}) == Linking(Overlay(g, links), u, v)
  {
    assert NumberOn(Overlay(g, links), (u, v)) == NumberOn(g.edges, (u, v));
  }

  /** The map the loop holds at (i, j) is `g`'s edges with every pair linked so far overlaid. */
  lemma {:induction false} EdgesAfterOverlay(g: Graph, i: int, j: int)
    requires Position(|g.vertices|, i, j)
    ensures EdgesAfter(g, i, j) == Overlay(g, LinkedBefore(g.vertices, i, j))
    decreases i, j
  {
    var vs := g.vertices;
    if j > 0 {
      EdgesAfterOverlay(g, i, j - 1);
      LinkedStep(vs, i, j - 1);
      if Connectable(vs[i], vs[j - 1]) {
        OverlayAdd(g, LinkedBefore(vs, i, j - 1), vs[i], vs[j - 1]);
      }
    } else if i > 0 {
      EdgesAfterOverlay(g, i - 1, |vs|);
      LinkedNextRow(vs, i - 1);
    } else {
      assert LinkedBefore(vs, 0, 0) == {};
    }
  }

  /**
   * The connection pass as the nested loop over the vertex list runs it, with
   * the three-part test spelled out; it ends with the graph `AddConnections` describes.
   */
  method ConnectionPass(g: Graph) returns (h: Graph)
    ensures h == AddConnections(g)
  {
    var vs := g.vertices;
    var edges := g.edges;
    var i := 0;
    while i < |vs|
      invariant 0 <= i <= |vs|
      invariant edges == EdgesAfter(g, i, 0)
    {
      var j := 0;
      while j < |vs|
        invariant 0 <= j <= |vs|
        invariant edges == EdgesAfter(g, i, j)
      {
        var u, v := vs[i], vs[j];
        if u.airport == v.airport && u.time < v.time && v.time - u.time >= MinConnectionSeconds {
          edges := Linking(edges, u, v);
        }
        j := j + 1;
      }
      i := i + 1;
    }
    EdgesAfterOverlay(g, |vs|, 0);
    LinkedAll(vs);
    h := Graph(vs, edges);
  }

  /** `_create_time_aware_graph`: the flight pass followed by the connection pass. */
  function BuildTimeAwareGraph(rows: seq<FlightRow>): Graph {
    AddConnections(FlightGraph(rows, true))
  }

  /** The script's graph: the flight pass alone, with prices and no flight numbers. */
  function ScriptGraph(rows: seq<FlightRow>): Graph {
    FlightGraph(rows, false)
  }

  /** Every connection edge is free. */
  ghost predicate ConnectionsAreFree(g: Graph) {
    forall e :: e in g.edges && g.edges[e].isConnection ==> g.edges[e].weight == 0
  }

  /** The built graph is well formed and every connection edge in it is free. */
  lemma BuiltGraphShape(rows: seq<FlightRow>)
    ensures WellFormed(BuildTimeAwareGraph(rows))
    ensures ConnectionsAreFree(BuildTimeAwareGraph(rows))
  {
    FlightGraphShape(rows, true);
  }

  /** The vertices of the built graph are exactly the records' endpoints. */
  lemma BuiltGraphVertices(rows: seq<FlightRow>, v: Vertex)
    ensures v in BuildTimeAwareGraph(rows).vertices <==>
      exists k :: 0 <= k < |rows| && (v == Departure(rows[k]) || v == Arrival(rows[k]))
  {
    FlightGraphVertices(rows, true, v);
  }

  /**
   * A connection edge joins `u` to `v` exactly when both are vertices of the
   * graph and `v` is at the same airport at least an hour after `u`.
   */
  lemma ConnectionGate(rows: seq<FlightRow>, u: Vertex, v: Vertex)
    ensures var h := BuildTimeAwareGraph(rows);
      ((u, v) in h.edges && h.edges[(u, v)].isConnection) <==>
      (u in h.vertices && v in h.vertices && Connectable(u, v))
  {
    var g := FlightGraph(rows, true);
    var h := BuildTimeAwareGraph(rows);
    FlightGraphShape(rows, true);
    if (u, v) in h.edges && h.edges[(u, v)].isConnection {
      if (u, v) in g.edges {
        assert u in g.vertices && v in g.vertices;
      }
    }
  }

  /** A connection edge is free, never a self-loop and points strictly forward in time. */
  lemma ConnectionEdgeShape(rows: seq<FlightRow>, e: Edge)
    requires e in BuildTimeAwareGraph(rows).edges && BuildTimeAwareGraph(rows).edges[e].isConnection
    ensures BuildTimeAwareGraph(rows).edges[e].weight == 0
    ensures e.0 != e.1 && e.0.airport == e.1.airport
    ensures e.0.time + MinConnectionSeconds <= e.1.time
  {
    ConnectionGate(rows, e.0, e.1);
  }

  /**
   * Every record's edge is present in the built graph. When no later record
   * repeats it and the connection pass did not overwrite it, it carries that
   * record's price and number.
   */
  lemma BuiltFlightEdge(rows: seq<FlightRow>, k: nat)
    requires k < |rows|
    ensures FlightEdge(rows[k]) in BuildTimeAwareGraph(rows).edges
    ensures (forall k' :: k < k' < |rows| ==> FlightEdge(rows[k']) != FlightEdge(rows[k])) &&
            !Connectable(Departure(rows[k]), Arrival(rows[k])) ==>
      BuildTimeAwareGraph(rows).edges[FlightEdge(rows[k])] == EdgeAttrs(rows[k].price, rows[k].flightNumber, false)
  {
    FlightGraphEdges(rows, true, FlightEdge(rows[k]));
    if forall k' :: k < k' < |rows| ==> FlightEdge(rows[k']) != FlightEdge(rows[k]) {
      LastRecordWins(rows, true, k);
    }
  }

  /** An airport with a single recorded instant gets no connection edge. */
  lemma SingleInstantNoConnection(rows: seq<FlightRow>, airport: string, t: int, e: Edge)
    requires forall v :: v in BuildTimeAwareGraph(rows).vertices && v.airport == airport ==> v.time == t
    requires e in BuildTimeAwareGraph(rows).edges && e.0.airport == airport
    ensures !BuildTimeAwareGraph(rows).edges[e].isConnection
  {
    if BuildTimeAwareGraph(rows).edges[e].isConnection {
      ConnectionGate(rows, e.0, e.1);
    }
  }

  /** The script's graph has no connection edge; every edge is some record's flight. */
  lemma ScriptGraphEdges(rows: seq<FlightRow>, e: Edge)
    requires e in ScriptGraph(rows).edges
    ensures !ScriptGraph(rows).edges[e].isConnection
    ensures IsFlightEdge(rows, |rows|, e)
  {
    FlightGraphEdges(rows, false, e);
    FlightGraphShape(rows, false);
  }
}
