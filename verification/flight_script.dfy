/**
 * The older script version of the search: incomplete records are dropped,
 * the graph holds only flight edges (no layovers are synthesised), and the
 * same first-minimum selection runs over the candidate vertices.
 */
module FlightScript {
  import opened Graphs
  import opened TimeAwareGraph
  import opened CheapestPath

  /**
   * One flight as read from the API. A `None` field is a missing value; a
   * present scheduled time is taken as already parsed to seconds.
   */
  datatype RawFlight = RawFlight(
    originIata: Option<string>,
    destinationIata: Option<string>,
    departure: Option<int>,
    arrival: Option<int>,
    flightNumber: Option<string>,
    price: nat)

  /** A code counts as given when it is present and not the empty string. */
  predicate Given(code: Option<string>) {
    code.Some? && code.value != ""
  }

  /** Both airport codes and both scheduled times are there. */
  predicate Complete(f: RawFlight) {
    Given(f.originIata) && Given(f.destinationIata) && f.departure.Some? && f.arrival.Some?
  }

  function ToRow(f: RawFlight): FlightRow
    requires Complete(f)
  {
    FlightRow(f.originIata.value, f.destinationIata.value, f.departure.value, f.arrival.value, f.price, f.flightNumber)
  }

  /** The records the script keeps, in input order. */
  function KeepComplete(raws: seq<RawFlight>): (rows: seq<FlightRow>)
    ensures |rows| <= |raws|
    ensures forall r :: r in rows ==> r.depIata != "" && r.arrIata != ""
    decreases |raws|
  {
    if raws == [] then []
    else (if Complete(raws[0]) then [ToRow(raws[0])] else []) + KeepComplete(raws[1..])
  }

  /** A record is kept exactly when it is complete. */
  lemma {:induction false} KeepCompleteMembers(raws: seq<RawFlight>, r: FlightRow)
    ensures r in KeepComplete(raws) <==> exists k :: 0 <= k < |raws| && Complete(raws[k]) && ToRow(raws[k]) == r
    decreases |raws|
  {
    if raws != [] {
      KeepCompleteMembers(raws[1..], r);
      if exists k :: 0 <= k < |raws| && Complete(raws[k]) && ToRow(raws[k]) == r {
        var k :| 0 <= k < |raws| && Complete(raws[k]) && ToRow(raws[k]) == r;
        if k > 0 {
          assert raws[1..][k - 1] == raws[k];
        }
      }
      if exists k :: 0 <= k < |raws[1..]| && Complete(raws[1..][k]) && ToRow(raws[1..][k]) == r {
        var k :| 0 <= k < |raws[1..]| && Complete(raws[1..][k]) && ToRow(raws[1..][k]) == r;
        assert raws[1..][k] == raws[k + 1];
      }
    }
  }

  /** Filtering keeps the input order: filtering a concatenation concatenates the filtered parts. */
  lemma {:induction false} KeepCompleteAppend(a: seq<RawFlight>, b: seq<RawFlight>)
    ensures KeepComplete(a + b) == KeepComplete(a) + KeepComplete(b)
    decreases |a|
  {
    if a == [] {
      assert a + b == b;
    } else {
      var head := if Complete(a[0]) then [ToRow(a[0])] else [];
      assert (a + b)[0] == a[0];
      assert (a + b)[1..] == a[1..] + b;
      KeepCompleteAppend(a[1..], b);
      calc {
        KeepComplete(a + b);
        head + KeepComplete(a[1..] + b);
        head + (KeepComplete(a[1..]) + KeepComplete(b));
        { assert head + (KeepComplete(a[1..]) + KeepComplete(b)) == (head + KeepComplete(a[1..])) + KeepComplete(b); }
        KeepComplete(a) + KeepComplete(b);
      }
    }
  }

  /** Every step of a walk in the script's graph is some record's flight. */
  lemma ScriptWalkIsFlights(rows: seq<FlightRow>, p: seq<Vertex>)
    requires IsPath(ScriptGraph(rows), p)
    ensures forall i :: 0 <= i < |p| - 1 ==>
      !ScriptGraph(rows).edges[(p[i], p[i + 1])].isConnection && IsFlightEdge(rows, |rows|, (p[i], p[i + 1]))
  {
    forall i | 0 <= i < |p| - 1
      ensures !ScriptGraph(rows).edges[(p[i], p[i + 1])].isConnection && IsFlightEdge(rows, |rows|, (p[i], p[i + 1]))
    {
      ScriptGraphEdges(rows, (p[i], p[i + 1]));
    }
  }

  /**
   * Two consecutive steps of a walk in the script's graph are two records'
   * flights (the content, from `ScriptWalkIsFlights`); since both edges share
   * `p[i + 1]`, the first record's arrival is the second's departure, so a
   * script route never waits between flights.
   */
  lemma ScriptLegsMeet(rows: seq<FlightRow>, p: seq<Vertex>, i: int)
    requires IsPath(ScriptGraph(rows), p) && 0 <= i < |p| - 2
    ensures exists k1, k2 ::
      (&& 0 <= k1 < |rows| && 0 <= k2 < |rows|
       && FlightEdge(rows[k1]) == (p[i], p[i + 1]) && FlightEdge(rows[k2]) == (p[i + 1], p[i + 2])
       && Arrival(rows[k1]) == Departure(rows[k2]))
  {
    ScriptWalkIsFlights(rows, p);
    assert IsFlightEdge(rows, |rows|, (p[i], p[i + 1]));
    assert IsFlightEdge(rows, |rows|, (p[i + 1], p[i + 2]));
  }

  /**
   * The script's variables after the search: whether both airports were
   * found, `cheapest_path`, and `min_cost` (None standing for infinity).
   */
  datatype ScriptResult = ScriptResult(airportsFound: bool, cheapestPath: Option<seq<Vertex>>, minCost: Option<nat>)

  /** The script's graph build and cheapest-path selection over the kept records. */
  method ScriptSearch(rows: seq<FlightRow>, start: string, dest: string) returns (res: ScriptResult)
    ensures !res.airportsFound <==> Absent(ScriptGraph(rows), start) || Absent(ScriptGraph(rows), dest)
    ensures !res.airportsFound ==> res.cheapestPath.None? && res.minCost.None?
    ensures res.cheapestPath.None? <==> res.minCost.None?
    ensures res.cheapestPath.None? <==> forall p :: !Route(ScriptGraph(rows), p, start, dest)
    ensures res.cheapestPath.Some? ==>
      && Route(ScriptGraph(rows), res.cheapestPath.value, start, dest)
      && PathCost(ScriptGraph(rows), res.cheapestPath.value) == res.minCost.value
      && forall p :: Route(ScriptGraph(rows), p, start, dest) ==> res.minCost.value <= PathCost(ScriptGraph(rows), p)
    ensures res.cheapestPath.Some? ==> exists i, j ::
      FirstMinimum(ScriptGraph(rows), AtAirport(ScriptGraph(rows).vertices, start), AtAirport(ScriptGraph(rows).vertices, dest),
                   i, j, Choice(res.cheapestPath.value, res.minCost.value))
  {
    var g := ScriptGraph(rows);
    FlightGraphShape(rows, false);
    var starts := AtAirport(g.vertices, start);
    var dests := AtAirport(g.vertices, dest);
    if |starts| == 0 || |dests| == 0 {
      if |starts| == 0 {
        assert Absent(g, start);
      } else {
        assert Absent(g, dest);
      }
      forall p
        ensures !Route(g, p, start, dest)
      {
        if |starts| != 0 && IsPath(g, p) {
          PathInGraph(g, p);
        }
      }
      return ScriptResult(false, None, None);
    }
    assert starts[0] in g.vertices && dests[0] in g.vertices;
    var best := SelectCheapest(g, starts, dests);
    if best.None? {
      forall p
        ensures !Route(g, p, start, dest)
      {
        NoPairNoRoute(g, start, dest, starts, dests, p);
      }
      return ScriptResult(true, None, None);
    }
    var c := best.value;
    res := ScriptResult(true, Some(c.path), Some(c.cost));
    ghost var i, j :| FirstMinimum(g, starts, dests, i, j, c);
    assert starts[i] in starts && dests[j] in dests;
    assert Route(g, c.path, start, dest);
    forall p | Route(g, p, start, dest)
      ensures c.cost <= PathCost(g, p)
    {
      FirstMinimumIsGlobal(g, start, dest, i, j, c, p);
    }
  }
}
