/**
 * Two flights, one from airport `a` to `b` landing at 10:00 and one from `b`
 * to `c` leaving `gap` seconds later, priced 50.00 and 70.00: what the
 * time-aware graph allows for each gap.
 */
module Scenarios {
  import opened Graphs
  import opened TimeAwareGraph
  import opened CheapestPath

  /** Three different airports. */
  predicate Distinct(a: string, b: string, c: string) {
    a != b && b != c && a != c
  }

  function FirstDeparture(a: string): Vertex {
    Vertex(a, 28800)
  }

  function FirstArrival(b: string): Vertex {
    Vertex(b, 36000)
  }

  function SecondDeparture(b: string, gap: int): Vertex {
    Vertex(b, 36000 + gap)
  }

  function SecondArrival(c: string, gap: int): Vertex {
    Vertex(c, 43200 + gap)
  }

  function TwoFlights(a: string, b: string, c: string, gap: int): seq<FlightRow> {
    [FlightRow(a, b, 28800, 36000, 5000, Some("F1")),
     FlightRow(b, c, 36000 + gap, 43200 + gap, 7000, Some("F2"))]
  }

  /** The vertices of the two-flight graph are the four endpoints. */
  lemma TwoFlightsVertex(a: string, b: string, c: string, gap: int, v: Vertex)
    ensures v in BuildTimeAwareGraph(TwoFlights(a, b, c, gap)).vertices <==>
      v == FirstDeparture(a) || v == FirstArrival(b) || v == SecondDeparture(b, gap) || v == SecondArrival(c, gap)
  {
    var rows := TwoFlights(a, b, c, gap);
    BuiltGraphVertices(rows, v);
    if IsEndpoint(rows, |rows|, v) {
      var k :| 0 <= k < 2 && (v == Departure(rows[k]) || v == Arrival(rows[k]));
      assert k == 0 || k == 1;
    }
    if v == FirstDeparture(a) || v == FirstArrival(b) {
      assert v == Departure(rows[0]) || v == Arrival(rows[0]);
    } else if v == SecondDeparture(b, gap) || v == SecondArrival(c, gap) {
      assert v == Departure(rows[1]) || v == Arrival(rows[1]);
    }
  }

  /** An edge of the two-flight graph is one of the two flights or a connection between its vertices. */
  lemma TwoFlightsEdge(a: string, b: string, c: string, gap: int, e: Edge)
    requires e in BuildTimeAwareGraph(TwoFlights(a, b, c, gap)).edges
    ensures || e == (FirstDeparture(a), FirstArrival(b))
            || e == (SecondDeparture(b, gap), SecondArrival(c, gap))
            || (Connectable(e.0, e.1) && e.0 in BuildTimeAwareGraph(TwoFlights(a, b, c, gap)).vertices
                && e.1 in BuildTimeAwareGraph(TwoFlights(a, b, c, gap)).vertices)
  {
    var rows := TwoFlights(a, b, c, gap);
    var g := FlightGraph(rows, true);
    var h := AddConnections(g);
    assert h == BuildTimeAwareGraph(rows);
    if Connectable(e.0, e.1) {
      BuiltGraphShape(rows);
    } else {
      assert e in g.edges;
      FlightGraphEdges(rows, true, e);
      var k :| 0 <= k < 2 && FlightEdge(rows[k]) == e;
      assert k == 0 || k == 1;
    }
  }

  /** A connection edge joins the two vertices at `b` exactly when the gap is at least an hour. */
  lemma ConnectionThreshold(a: string, b: string, c: string, gap: int)
    ensures var h := BuildTimeAwareGraph(TwoFlights(a, b, c, gap));
      var e := (FirstArrival(b), SecondDeparture(b, gap));
      (e in h.edges && h.edges[e].isConnection) <==> gap >= 3600
  {
    TwoFlightsVertex(a, b, c, gap, FirstArrival(b));
    TwoFlightsVertex(a, b, c, gap, SecondDeparture(b, gap));
    ConnectionGate(TwoFlights(a, b, c, gap), FirstArrival(b), SecondDeparture(b, gap));
  }

  /** A 3599-second gap gets no connection edge, a 3600-second gap gets one. */
  lemma ThresholdIsOneHour(a: string, b: string, c: string)
    ensures var h := BuildTimeAwareGraph(TwoFlights(a, b, c, 3599));
      var e := (FirstArrival(b), SecondDeparture(b, 3599));
      !(e in h.edges && h.edges[e].isConnection)
    ensures var h := BuildTimeAwareGraph(TwoFlights(a, b, c, 3600));
      var e := (FirstArrival(b), SecondDeparture(b, 3600));
      e in h.edges && h.edges[e].isConnection
  {
    ConnectionThreshold(a, b, c, 3599);
    ConnectionThreshold(a, b, c, 3600);
  }

  /** The two flight edges keep their records' prices and numbers. */
  lemma TwoFlightsPrices(a: string, b: string, c: string, gap: int)
    requires Distinct(a, b, c)
    ensures var h := BuildTimeAwareGraph(TwoFlights(a, b, c, gap));
      && (FirstDeparture(a), FirstArrival(b)) in h.edges
      && h.edges[(FirstDeparture(a), FirstArrival(b))] == EdgeAttrs(5000, Some("F1"), false)
      && (SecondDeparture(b, gap), SecondArrival(c, gap)) in h.edges
      && h.edges[(SecondDeparture(b, gap), SecondArrival(c, gap))] == EdgeAttrs(7000, Some("F2"), false)
  {
    var rows := TwoFlights(a, b, c, gap);
    BuiltFlightEdge(rows, 0);
    BuiltFlightEdge(rows, 1);
  }

  /** With at least an hour at `b` the route flies, waits, and flies on, for 120.00 in total. */
  lemma LayoverRoute(a: string, b: string, c: string, gap: int)
    requires Distinct(a, b, c) && gap >= 3600
    ensures var h := BuildTimeAwareGraph(TwoFlights(a, b, c, gap));
      var p := [FirstDeparture(a), FirstArrival(b), SecondDeparture(b, gap), SecondArrival(c, gap)];
      && Route(h, p, a, c)
      && PathCost(h, p) == 12000
      && (FirstArrival(b), SecondDeparture(b, gap)) in h.edges
      && h.edges[(FirstArrival(b), SecondDeparture(b, gap))].isConnection
  {
    var rows := TwoFlights(a, b, c, gap);
    var h := BuildTimeAwareGraph(rows);
    var p0, p1, p2, p3 := FirstDeparture(a), FirstArrival(b), SecondDeparture(b, gap), SecondArrival(c, gap);
    TwoFlightsVertex(a, b, c, gap, p0);
    TwoFlightsPrices(a, b, c, gap);
    ConnectionThreshold(a, b, c, gap);
    ConnectionEdgeShape(rows, (p1, p2));
    ExtendPath(h, [p0], p1);
    assert [p0] + [p1] == [p0, p1];
    ExtendPath(h, [p0, p1], p2);
    assert [p0, p1] + [p2] == [p0, p1, p2];
    ExtendPath(h, [p0, p1, p2], p3);
    assert [p0, p1, p2] + [p3] == [p0, p1, p2, p3];
  }

  /** That route's itinerary: the first flight, a layover of `gap` seconds at `b`, the second flight. */
  lemma LayoverItinerary(a: string, b: string, c: string, gap: int)
    requires Distinct(a, b, c) && gap >= 3600
    ensures var h := BuildTimeAwareGraph(TwoFlights(a, b, c, gap));
      var p := [FirstDeparture(a), FirstArrival(b), SecondDeparture(b, gap), SecondArrival(c, gap)];
      && IsPath(h, p)
      && Itinerary(h, p) == [Flight(a, b, 28800, 36000, Some("F1"), 5000),
                             Layover(b, gap),
                             Flight(b, c, 36000 + gap, 43200 + gap, Some("F2"), 7000)]
  {
    var h := BuildTimeAwareGraph(TwoFlights(a, b, c, gap));
    LayoverRoute(a, b, c, gap);
    TwoFlightsPrices(a, b, c, gap);
    ThreeSteps(h, a, b, c, gap);
  }

  /** The itinerary of fly, wait, fly in any graph holding those three edges. */
  lemma ThreeSteps(h: Graph, a: string, b: string, c: string, gap: int)
    requires var p := [FirstDeparture(a), FirstArrival(b), SecondDeparture(b, gap), SecondArrival(c, gap)];
      && IsPath(h, p)
      && h.edges[(p[0], p[1])] == EdgeAttrs(5000, Some("F1"), false)
      && h.edges[(p[1], p[2])].isConnection
      && h.edges[(p[2], p[3])] == EdgeAttrs(7000, Some("F2"), false)
    ensures var p := [FirstDeparture(a), FirstArrival(b), SecondDeparture(b, gap), SecondArrival(c, gap)];
      Itinerary(h, p) == [Flight(a, b, 28800, 36000, Some("F1"), 5000),
                          Layover(b, gap),
                          Flight(b, c, 36000 + gap, 43200 + gap, Some("F2"), 7000)]
  {
  }

  /** A departure from `b` at the very instant of the arrival is the same vertex: no layover is needed. */
  lemma SameInstantTransfer(a: string, b: string, c: string)
    requires Distinct(a, b, c)
    ensures var h := BuildTimeAwareGraph(TwoFlights(a, b, c, 0));
      var p := [FirstDeparture(a), FirstArrival(b), SecondArrival(c, 0)];
      && Route(h, p, a, c)
      && PathCost(h, p) == 12000
      && |Itinerary(h, p)| == 2 && Itinerary(h, p)[0].Flight? && Itinerary(h, p)[1].Flight?
  {
    var rows := TwoFlights(a, b, c, 0);
    var h := BuildTimeAwareGraph(rows);
    var p0, p1, p2 := FirstDeparture(a), FirstArrival(b), SecondArrival(c, 0);
    TwoFlightsVertex(a, b, c, 0, p0);
    TwoFlightsPrices(a, b, c, 0);
    assert SecondDeparture(b, 0) == p1;
    ExtendPath(h, [p0], p1);
    assert [p0] + [p1] == [p0, p1];
    ExtendPath(h, [p0, p1], p2);
    assert [p0, p1] + [p2] == [p0, p1, p2];
  }

  /**
   * When the onward flight leaves under an hour after the arrival (or before
   * it), a walk from `a` never gets past the first arrival.
   */
  lemma {:induction false} StuckAtFirstArrival(a: string, b: string, c: string, gap: int, p: seq<Vertex>)
    requires Distinct(a, b, c) && gap != 0 && gap < 3600
    requires IsPath(BuildTimeAwareGraph(TwoFlights(a, b, c, gap)), p) && p[0].airport == a
    ensures Last(p) == FirstDeparture(a) || Last(p) == FirstArrival(b)
    decreases |p|
  {
    var h := BuildTimeAwareGraph(TwoFlights(a, b, c, gap));
    if |p| == 1 {
      TwoFlightsVertex(a, b, c, gap, p[0]);
    } else {
      PrefixIsPath(h, p, |p| - 1);
      StuckAtFirstArrival(a, b, c, gap, p[..|p| - 1]);
      var e := (p[|p| - 2], p[|p| - 1]);
      assert e in h.edges;
      TwoFlightsEdge(a, b, c, gap, e);
      if Connectable(e.0, e.1) {
        TwoFlightsVertex(a, b, c, gap, e.1);
      }
    }
  }

  /** With a gap under an hour (other than zero) no route joins `a` to `c`. */
  lemma NoRouteUnderAnHour(a: string, b: string, c: string, gap: int, p: seq<Vertex>)
    requires Distinct(a, b, c) && gap != 0 && gap < 3600
    ensures !Route(BuildTimeAwareGraph(TwoFlights(a, b, c, gap)), p, a, c)
  {
    if Route(BuildTimeAwareGraph(TwoFlights(a, b, c, gap)), p, a, c) {
      StuckAtFirstArrival(a, b, c, gap, p);
    }
  }
}
