/**
 * The cheapest-route search over the time-aware graph: every vertex at the
 * start airport is paired with every vertex at the destination airport, a
 * cheapest walk is searched for each pair, the first strictly cheapest pair
 * wins, and its walk is turned into an itinerary of flights and layovers.
 */
module CheapestPath {
  import opened Graphs
  import opened ShortestPaths
  import opened TimeAwareGraph

  /** The vertices of `vs` at `airport`, in their graph order. */
  function AtAirport(vs: seq<Vertex>, airport: string): (r: seq<Vertex>)
    ensures forall v :: v in r <==> v in vs && v.airport == airport
    ensures |r| <= |vs|
  {
    if vs == [] then []
    else (if vs[0].airport == airport then [vs[0]] else []) + AtAirport(vs[1..], airport)
  }

  /**
   * `idx` lists, in increasing order, exactly the positions from `lo` on at
   * which `vs` has a vertex at `airport`, and `r[k]` is the vertex at `idx[k]`.
   */
  ghost predicate PositionsAt(vs: seq<Vertex>, airport: string, r: seq<Vertex>, idx: seq<int>, lo: nat) {
    && |idx| == |r|
    && (forall k :: 0 <= k < |idx| ==> lo <= idx[k] < |vs| && r[k] == vs[idx[k]])
    && (forall k, l :: 0 <= k < l < |idx| ==> idx[k] < idx[l])
    && (forall x :: lo <= x < |vs| && vs[x].airport == airport ==> x in idx)
  }

  lemma ShiftPositions(vs: seq<Vertex>, airport: string, r: seq<Vertex>, rest: seq<int>) returns (shifted: seq<int>)
    requires |vs| > 0 && PositionsAt(vs[1..], airport, r, rest, 0)
    ensures PositionsAt(vs, airport, r, shifted, 1)
  {
    shifted := seq(|rest|, k requires 0 <= k < |rest| => rest[k] + 1);
    forall k | 0 <= k < |shifted|
      ensures 1 <= shifted[k] < |vs| && r[k] == vs[shifted[k]]
    {
      assert vs[1..][rest[k]] == vs[shifted[k]];
    }
    forall x | 1 <= x < |vs| && vs[x].airport == airport
      ensures x in shifted
    {
      assert vs[1..][x - 1] == vs[x];
      var k :| 0 <= k < |rest| && rest[k] == x - 1;
      assert shifted[k] == x;
    }
  }

  lemma PrependPosition(vs: seq<Vertex>, airport: string, r: seq<Vertex>, shifted: seq<int>) returns (idx: seq<int>)
    requires |vs| > 0 && vs[0].airport == airport && PositionsAt(vs, airport, r, shifted, 1)
    ensures PositionsAt(vs, airport, [vs[0]] + r, idx, 0)
  {
    idx := [0] + shifted;
    forall k | 1 <= k < |idx|
      ensures idx[k] == shifted[k - 1] && ([vs[0]] + r)[k] == r[k - 1]
    {
    }
  }

  /**
   * The candidates are the vertices at `airport` in graph order: `idx` lists,
   * in increasing order, exactly the positions of `vs` at that airport, and
   * the k-th candidate is the vertex at the k-th of them.
   */
  lemma {:induction false} AtAirportOrder(vs: seq<Vertex>, airport: string) returns (idx: seq<int>)
    ensures PositionsAt(vs, airport, AtAirport(vs, airport), idx, 0)
    decreases |vs|
  {
    if vs == [] {
      idx := [];
    } else {
      var r := AtAirport(vs[1..], airport);
      var rest := AtAirportOrder(vs[1..], airport);
      var shifted := ShiftPositions(vs, airport, r, rest);
      if vs[0].airport == airport {
        assert AtAirport(vs, airport) == [vs[0]] + r;
        idx := PrependPosition(vs, airport, r, shifted);
      } else {
        assert AtAirport(vs, airport) == r;
        idx := shifted;
      }
    }
  }

  /** No vertex of the graph lies at `airport`. */
  predicate Absent(g: Graph, airport: string) {
    forall v :: v in g.vertices ==> v.airport != airport
  }

  /** A walk whose first vertex is at `from` and whose last vertex is at `to`. */
  predicate Route(g: Graph, p: seq<Vertex>, from: string, to: string) {
    IsPath(g, p) && p[0].airport == from && Last(p).airport == to
  }

  /** The walk chosen for one (start, destination) pair, with its cost. */
  datatype Choice = Choice(path: seq<Vertex>, cost: nat)

  /** Every walk from `s` to `t` costs more than `c`. */
  ghost predicate AllDearer(g: Graph, s: Vertex, t: Vertex, c: nat) {
    forall p :: PathFromTo(g, p, s, t) ==> PathCost(g, p) > c
  }

  /** Every walk from `s` to `t` costs at least `c`. */
  ghost predicate NoneCheaper(g: Graph, s: Vertex, t: Vertex, c: nat) {
    forall p :: PathFromTo(g, p, s, t) ==> PathCost(g, p) >= c
  }

  /**
   * `c` is a walk for pair (i, j) of the candidate lists, no pair has a
   * cheaper walk, and every pair before (i, j) has only dearer walks: the
   * strict `<` of the selection keeps exactly this pair.
   */
  ghost predicate FirstMinimum(g: Graph, starts: seq<Vertex>, dests: seq<Vertex>, i: int, j: int, c: Choice) {
    && 0 <= i < |starts| && 0 <= j < |dests|
    && PathFromTo(g, c.path, starts[i], dests[j]) && PathCost(g, c.path) == c.cost
    && (forall i', j' :: 0 <= i' < |starts| && 0 <= j' < |dests| ==> NoneCheaper(g, starts[i'], dests[j'], c.cost))
    && (forall i', j' :: 0 <= i' < |starts| && 0 <= j' < |dests| && Before(i', j', i, j) ==>
          AllDearer(g, starts[i'], dests[j'], c.cost))
  }

  /**
   * The strict `<` leaves no choice: two first minima over the same lists are
   * the same pair at the same cost, so repeating a search repeats its answer
   * up to the choice among equally cheap walks of that pair.
   */
  lemma FirstMinimumUnique(g: Graph, starts: seq<Vertex>, dests: seq<Vertex>,
                           i1: int, j1: int, c1: Choice, i2: int, j2: int, c2: Choice)
    requires FirstMinimum(g, starts, dests, i1, j1, c1)
    requires FirstMinimum(g, starts, dests, i2, j2, c2)
    ensures i1 == i2 && j1 == j2 && c1.cost == c2.cost
  {
    assert NoneCheaper(g, starts[i2], dests[j2], c1.cost);
    assert NoneCheaper(g, starts[i1], dests[j1], c2.cost);
    assert PathCost(g, c1.path) >= c2.cost && PathCost(g, c2.path) >= c1.cost;
    assert !Before(i1, j1, i2, j2) && !Before(i2, j2, i1, j1);
  }

  /** The loop state after visiting every pair before (i, j). */
  ghost predicate SelectionInvariant(g: Graph, starts: seq<Vertex>, dests: seq<Vertex>, i: int, j: int,
                                     best: Option<Choice>, bi: int, bj: int)
  {
    && (best.None? ==>
          forall i', j' :: 0 <= i' < |starts| && 0 <= j' < |dests| && Before(i', j', i, j) ==>
            !Reachable(g, starts[i'], dests[j']))
    && (best.Some? ==>
          && Before(bi, bj, i, j) && 0 <= bi < |starts| && 0 <= bj < |dests|
          && PathFromTo(g, best.value.path, starts[bi], dests[bj])
          && PathCost(g, best.value.path) == best.value.cost
          && (forall i', j' :: 0 <= i' < |starts| && 0 <= j' < |dests| && Before(i', j', i, j) ==>
                NoneCheaper(g, starts[i'], dests[j'], best.value.cost))
          && (forall i', j' :: 0 <= i' < |starts| && 0 <= j' < |dests| && Before(i', j', bi, bj) ==>
                AllDearer(g, starts[i'], dests[j'], best.value.cost)))
  }

  /** Visiting pair (i, j) with the walk the search returned for it keeps the invariant. */
  lemma VisitPair(g: Graph, starts: seq<Vertex>, dests: seq<Vertex>, i: int, j: int,
                  best: Option<Choice>, bi: int, bj: int, found: Option<seq<Vertex>>, best': Option<Choice>)
    returns (bi': int, bj': int)
    requires 0 <= i < |starts| && 0 <= j < |dests|
    requires SelectionInvariant(g, starts, dests, i, j, best, bi, bj)
    requires found.Some? ==> PathFromTo(g, found.value, starts[i], dests[j])
    requires found.Some? ==> NoneCheaper(g, starts[i], dests[j], PathCost(g, found.value))
    requires found.None? ==> !Reachable(g, starts[i], dests[j])
    requires best' == (if found.Some? && (best.None? || PathCost(g, found.value) < best.value.cost)
                       then Some(Choice(found.value, PathCost(g, found.value))) else best)
    ensures SelectionInvariant(g, starts, dests, i, j + 1, best', bi', bj')
  {
    if found.Some? && (best.None? || PathCost(g, found.value) < best.value.cost) {
      var c := PathCost(g, found.value);
      bi', bj' := i, j;
      forall i', j' | 0 <= i' < |starts| && 0 <= j' < |dests| && Before(i', j', i, j)
        ensures AllDearer(g, starts[i'], dests[j'], c)
      {
        if best.None? {
          assert !Reachable(g, starts[i'], dests[j']);
        }
      }
    } else {
      bi', bj' := bi, bj;
      if found.None? {
        forall p | PathFromTo(g, p, starts[i], dests[j])
          ensures false
        {
        }
      }
    }
  }

  /** Having visited every destination of start i is having visited every pair before start i + 1. */
  lemma NextStart(g: Graph, starts: seq<Vertex>, dests: seq<Vertex>, i: int, best: Option<Choice>, bi: int, bj: int)
    requires SelectionInvariant(g, starts, dests, i, |dests|, best, bi, bj)
    ensures SelectionInvariant(g, starts, dests, i + 1, 0, best, bi, bj)
  {
    assert forall i', j' :: 0 <= j' < |dests| ==> (Before(i', j', i + 1, 0) <==> Before(i', j', i, |dests|));
  }

  /** After the last pair the invariant gives the selection's contract. */
  lemma SelectionDone(g: Graph, starts: seq<Vertex>, dests: seq<Vertex>, best: Option<Choice>, bi: int, bj: int)
    requires SelectionInvariant(g, starts, dests, |starts|, 0, best, bi, bj)
    ensures best.Some? ==> exists i, j :: FirstMinimum(g, starts, dests, i, j, best.value)
    ensures best.None? <==>
      forall i, j :: 0 <= i < |starts| && 0 <= j < |dests| ==> !Reachable(g, starts[i], dests[j])
  {
    if best.Some? {
      assert FirstMinimum(g, starts, dests, bi, bj, best.value);
    } else if exists i, j :: 0 <= i < |starts| && 0 <= j < |dests| && Reachable(g, starts[i], dests[j]) {
      var i, j :| 0 <= i < |starts| && 0 <= j < |dests| && Reachable(g, starts[i], dests[j]);
      assert Before(i, j, |starts|, 0);
    }
  }

  /**
   * The selection loop: for each start vertex, for each destination vertex,
   * search a cheapest walk and keep it when it is strictly cheaper than the
   * best so far. None exactly when no pair is connected.
   */
  method SelectCheapest(g: Graph, starts: seq<Vertex>, dests: seq<Vertex>) returns (best: Option<Choice>)
    requires WellFormed(g)
    ensures best.Some? ==> exists i, j :: FirstMinimum(g, starts, dests, i, j, best.value)
    ensures best.None? <==>
      forall i, j :: 0 <= i < |starts| && 0 <= j < |dests| ==> !Reachable(g, starts[i], dests[j])
  {
    best := None;
    ghost var bi, bj := 0, 0;
    var i := 0;
    while i < |starts|
      invariant 0 <= i <= |starts|
      invariant SelectionInvariant(g, starts, dests, i, 0, best, bi, bj)
    {
      var j := 0;
      while j < |dests|
        invariant 0 <= j <= |dests|
        invariant SelectionInvariant(g, starts, dests, i, j, best, bi, bj)
      {
        var found := CheapestWalk(g, starts[i], dests[j]);
        var next := best;
        if found.Some? {
          var cost := PathCost(g, found.value);
          if best.None? || cost < best.value.cost {
            next := Some(Choice(found.value, cost));
          }
        }
        bi, bj := VisitPair(g, starts, dests, i, j, best, bi, bj, found, next);
        best := next;
        j := j + 1;
      }
      NextStart(g, starts, dests, i, best, bi, bj);
      i := i + 1;
    }
    SelectionDone(g, starts, dests, best, bi, bj);
  }

  /** One itinerary entry: a flight, or a wait at one airport (in seconds). */
  datatype Leg =
    | Flight(from: string, to: string, departure: int, arrival: int, flightNumber: Option<string>, price: nat)
    | Layover(airport: string, seconds: int)

  /** The entry for one step of a walk: a layover when the edge is a connection, a flight otherwise. */
  function LegOf(u: Vertex, v: Vertex, a: EdgeAttrs): Leg {
    if a.isConnection then Layover(u.airport, v.time - u.time)
    else Flight(u.airport, v.airport, u.time, v.time, a.flightNumber, a.weight)
  }

  /** The itinerary of a walk: one entry per step, in walk order. */
  function Itinerary(g: Graph, p: seq<Vertex>): (legs: seq<Leg>)
    requires IsPath(g, p)
    ensures |legs| == |p| - 1
    ensures forall i :: 0 <= i < |legs| ==> legs[i] == LegOf(p[i], p[i + 1], g.edges[(p[i], p[i + 1])])
    decreases |p|
  {
    if |p| == 1 then []
    else
      PrefixIsPath(g, p, |p| - 1);
      Itinerary(g, p[..|p| - 1]) + [LegOf(p[|p| - 2], p[|p| - 1], g.edges[(p[|p| - 2], p[|p| - 1])])]
  }

  /** The sum of the prices of the flight entries. */
  function FlightTotal(legs: seq<Leg>): nat {
    if legs == [] then 0
    else FlightTotal(legs[..|legs| - 1]) + (if Last(legs).Flight? then Last(legs).price else 0)
  }

  /** When connections are free, the flight prices of a walk's itinerary add up to its cost. */
  lemma {:induction false} ItineraryTotal(g: Graph, p: seq<Vertex>)
    requires IsPath(g, p) && ConnectionsAreFree(g)
    ensures FlightTotal(Itinerary(g, p)) == PathCost(g, p)
    decreases |p|
  {
    if |p| > 1 {
      var q := p[..|p| - 1];
      PrefixIsPath(g, p, |p| - 1);
      ItineraryTotal(g, q);
      var legs := Itinerary(g, p);
      assert legs[..|legs| - 1] == Itinerary(g, q);
    }
  }

  /**
   * In the built graph every layover entry waits at least an hour at the one
   * airport both of its vertices share, and every flight entry takes its
   * endpoints from the step's two vertices.
   */
  lemma ItineraryLegs(rows: seq<FlightRow>, p: seq<Vertex>, i: int)
    requires IsPath(BuildTimeAwareGraph(rows), p) && 0 <= i < |p| - 1
    ensures var leg := Itinerary(BuildTimeAwareGraph(rows), p)[i];
      && (leg.Layover? ==> leg.airport == p[i].airport == p[i + 1].airport && leg.seconds >= MinConnectionSeconds)
      && (leg.Flight? ==> leg.from == p[i].airport && leg.to == p[i + 1].airport
                          && leg.departure == p[i].time && leg.arrival == p[i + 1].time)
  {
    var g := BuildTimeAwareGraph(rows);
    assert (p[i], p[i + 1]) in g.edges;
    if g.edges[(p[i], p[i + 1])].isConnection {
      ConnectionEdgeShape(rows, (p[i], p[i + 1]));
    }
  }

  /** What `find_cheapest_path` returns: `(None, None)`, `(None, inf)`, or an itinerary and its cost. */
  datatype Outcome = NotSearched | NoRoute | Found(itinerary: seq<Leg>, cost: nat)

  /** A first minimum is no dearer than any walk between the two airports. */
  lemma FirstMinimumIsGlobal(g: Graph, start: string, dest: string, i: int, j: int, c: Choice, p: seq<Vertex>)
    requires WellFormed(g)
    requires FirstMinimum(g, AtAirport(g.vertices, start), AtAirport(g.vertices, dest), i, j, c)
    requires Route(g, p, start, dest)
    ensures c.cost <= PathCost(g, p)
  {
    var starts, dests := AtAirport(g.vertices, start), AtAirport(g.vertices, dest);
    PathInGraph(g, p);
    assert p[0] in starts && Last(p) in dests;
    var i' :| 0 <= i' < |starts| && starts[i'] == p[0];
    var j' :| 0 <= j' < |dests| && dests[j'] == Last(p);
    assert NoneCheaper(g, starts[i'], dests[j'], c.cost);
  }

  /** When no candidate pair is connected, no walk joins the two airports. */
  lemma NoPairNoRoute(g: Graph, start: string, dest: string, starts: seq<Vertex>, dests: seq<Vertex>, p: seq<Vertex>)
    requires WellFormed(g)
    requires starts == AtAirport(g.vertices, start) && dests == AtAirport(g.vertices, dest)
    requires forall i, j :: 0 <= i < |starts| && 0 <= j < |dests| ==> !Reachable(g, starts[i], dests[j])
    ensures !Route(g, p, start, dest)
  {
    if Route(g, p, start, dest) {
      PathInGraph(g, p);
      assert p[0] in starts && Last(p) in dests;
      var i :| 0 <= i < |starts| && starts[i] == p[0];
      var j :| 0 <= j < |dests| && dests[j] == Last(p);
      assert PathFromTo(g, p, starts[i], dests[j]);
      assert Reachable(g, starts[i], dests[j]);
    }
  }

  /**
   * `find_cheapest_path`: `NotSearched` when there is no graph, it has no
   * vertex, or either airport has no vertex; `NoRoute` when no walk joins the
   * airports; otherwise the itinerary of the first cheapest pair's walk, whose
   * cost no walk between the airports undercuts.
   */
  method FindCheapestPath(graph: Option<Graph>, start: string, dest: string) returns (r: Outcome)
    requires graph.Some? ==> WellFormed(graph.value)
    ensures r.NotSearched? <==> graph.None? || Absent(graph.value, start) || Absent(graph.value, dest)
    ensures r.NoRoute? ==> graph.Some? && forall p :: !Route(graph.value, p, start, dest)
    ensures r.Found? ==> graph.Some?
    ensures r.Found? ==> exists p ::
      Route(graph.value, p, start, dest) && PathCost(graph.value, p) == r.cost && r.itinerary == Itinerary(graph.value, p)
    ensures r.Found? ==> forall p ::
      Route(graph.value, p, start, dest) ==> r.cost <= PathCost(graph.value, p)
    ensures r.Found? ==> exists i, j, p ::
      FirstMinimum(graph.value, AtAirport(graph.value.vertices, start), AtAirport(graph.value.vertices, dest), i, j, Choice(p, r.cost))
      && r.itinerary == Itinerary(graph.value, p)
    ensures r.Found? && ConnectionsAreFree(graph.value) ==> FlightTotal(r.itinerary) == r.cost
  {
    if graph.None? || |graph.value.vertices| == 0 {
      return NotSearched;
    }
    var g := graph.value;
    var starts := AtAirport(g.vertices, start);
    var dests := AtAirport(g.vertices, dest);
    if |starts| == 0 || |dests| == 0 {
      if |starts| == 0 {
        assert Absent(g, start);
      } else {
        assert Absent(g, dest);
      }
      return NotSearched;
    }
    assert starts[0] in g.vertices && dests[0] in g.vertices;
    var best := SelectCheapest(g, starts, dests);
    if best.None? {
      forall p
        ensures !Route(g, p, start, dest)
      {
        NoPairNoRoute(g, start, dest, starts, dests, p);
      }
      return NoRoute;
    }
    var c := best.value;
    r := Found(Itinerary(g, c.path), c.cost);
    ghost var i, j :| FirstMinimum(g, starts, dests, i, j, c);
    assert starts[i] in starts && dests[j] in dests;
    assert Route(g, c.path, start, dest);
    forall p | Route(g, p, start, dest)
      ensures r.cost <= PathCost(g, p)
    {
      FirstMinimumIsGlobal(g, start, dest, i, j, c, p);
    }
    if ConnectionsAreFree(g) {
      ItineraryTotal(g, c.path);
    }
  }
}
