# Cheapest flight routes over a time-aware graph

A model of the routing core of a small flight-search application. Flight
records (origin and destination IATA codes, scheduled departure and arrival,
price, flight number) become a directed *time-aware graph*. Each vertex is an
`(airport, instant)` pair, and each record adds one edge from its departure
vertex to its arrival vertex. The record's price is the edge's weight.

A second pass over the vertex list adds a free *connection* edge (a layover)
between two vertices of the same airport when the later one is at least an
hour after the earlier one. The cheapest route between two airport codes then
comes from a shortest-path search, run for every pair of an origin vertex and
a destination vertex. The strictly cheapest walk wins, and the first pair in
visiting order wins ties. The winning walk is turned into an itinerary of
flights and layovers.

An older script version is modelled too. It filters the records for
completeness and builds a graph of flight edges only, with no layovers. It then
runs the same selection and reports the cheapest walk and its cost, with
infinity standing for "no route".

Modules, in dependency order:

- `Graphs` (graphs.dfy): the graph as networkx keeps it.
  - Vertices are kept in insertion order.
  - Edges are a map from an ordered pair to its attributes.
  - Also here: walks and their cost.
- `ShortestPaths` (shortest_paths.dfy): the shortest-path search.
  - The application calls networkx's `dijkstra_path`.
  - The model replaces it with a label-correcting search whose result is proved cheapest among all walks.
  - The result is None exactly when the target cannot be reached.
- `TimeAwareGraph` (time_aware_graph.dfy): the two passes of the graph builder.
  - The flight pass is a fold over the records.
  - The connection pass is defined twice and proved equal: declaratively, and as the nested loop the source runs.
  - Also here: the flight-only graph of the script.
- `CheapestPath` (cheapest_path.dfy): the search itself.
  - Candidate vertices.
  - The first-minimum selection.
  - Itineraries.
  - `find_cheapest_path` with its three outcomes.
- `FlightScript` (flight_script.dfy): the script's record filter, its flight-only graph and its selection loop.
- `Scenarios` (scenarios.dfy): a two-flight network `a → b`, then `b → c`, where the onward flight leaves `gap` seconds after the first one lands. It pins down the one-hour threshold and the routes that result.

Representation choices:

- Times are whole seconds (`int`). The source uses pandas timestamps; only their differences in seconds and their order matter.
- Prices are whole cents (`nat`). The source draws prices as integers divided by 100.
- The itinerary keeps a layover's length in seconds rather than the formatted hours string.

Two behaviours of the builder follow from the code and are stated as they are.

- A departure at the very instant of an arrival at the same airport is the same vertex. The transfer needs no connection edge, so it is allowed.
  - A transfer with a gap of 1 to 3599 seconds is refused.
  - See `Scenarios.SameInstantTransfer` and `Scenarios.NoRouteUnderAnHour`.
- A record can join two vertices of the same airport at least an hour apart. The connection pass then overwrites that record's edge:
  - it becomes free;
  - it is flagged as a layover;
  - it keeps its flight number.

  `TimeAwareGraph.BuiltFlightEdge` states the price and number only for records the connection test does not match.

## Model

| member | source | states |
|---|---|---|
| Graphs.PathCost | frontend/FlightSearch.py:178-186 | The cost of a walk as the sum of its edges' weights. A definition without its own contract; `Graphs.ExtendPath` states its step, and `CheapestPath.ItineraryTotal` relates it to the itinerary. |
| Graphs.ExtendPath | frontend/FlightSearch.py:181-187 | Extending a walk by one edge gives a walk whose cost is the old cost plus that edge's weight, the running sum the loop keeps. |
| ShortestPaths.Settle | frontend/FlightSearch.py:175 | The search labels the source with 0; every label is realised by a walk from the source of exactly that cost, and no edge can lower any label. |
| ShortestPaths.SettledIsOptimal | frontend/FlightSearch.py:175 | Once no edge lowers a label, every walk from the source ends at a labelled vertex whose label is no dearer than the walk. |
| ShortestPaths.CheapestWalk | frontend/FlightSearch.py:175 | The returned walk goes from source to target and costs no more than any other such walk; there is no result exactly when the target is unreachable (`NetworkXNoPath` or `NodeNotFound`). |
| TimeAwareGraph.AddFlight | frontend/FlightSearch.py:89-93 | One record's `add_edge`: endpoints appended when new, the edge's attributes replaced. A definition; `TimeAwareGraph.FlightGraphVertices`, `TimeAwareGraph.FlightGraphEdges` and `TimeAwareGraph.LastRecordWins` carry its contract. |
| TimeAwareGraph.FlightGraph | frontend/FlightSearch.py:85-93 | The flight pass over the records in row order. A definition; the same three lemmas and `TimeAwareGraph.FlightGraphShape` carry its contract. |
| TimeAwareGraph.FlightGraphShape | frontend/FlightSearch.py:85-93 | The flight pass yields distinct vertices, edges only between vertices, and no edge flagged as a connection. |
| TimeAwareGraph.FlightGraphVertices | frontend/FlightSearch.py:88-93 | A vertex is in the flight-pass graph exactly when it is the departure or arrival vertex of some record. |
| TimeAwareGraph.FlightGraphEdges | frontend/FlightSearch.py:88-93 | An edge is in the flight-pass graph exactly when it joins some record's departure vertex to its arrival vertex. |
| TimeAwareGraph.LastRecordWins | frontend/FlightSearch.py:91-93 | When several records share an edge, the edge carries the price and flight number of the last of them. |
| TimeAwareGraph.AddConnections | frontend/FlightSearch.py:96-108 | The connection pass adds no vertex. It gives every connectable pair of vertices a free edge flagged as a connection and adds no other edge. Existing flight numbers survive, every other edge is unchanged, and a well-formed graph stays well formed. |
| TimeAwareGraph.EdgesAfterOverlay | frontend/FlightSearch.py:97-108 | Wherever the nested loop stands, its edge map is the original edges overlaid with a connection edge on exactly the connectable pairs visited so far. |
| TimeAwareGraph.ConnectionPass | frontend/FlightSearch.py:96-108 | The nested loop over the vertex list, with the source's three-part test, ends with exactly the graph `AddConnections` describes. |
| TimeAwareGraph.BuildTimeAwareGraph | frontend/FlightSearch.py:83-108 | The flight pass followed by the connection pass. A definition; `TimeAwareGraph.BuiltGraphShape`, `TimeAwareGraph.BuiltGraphVertices`, `TimeAwareGraph.ConnectionGate` and `TimeAwareGraph.BuiltFlightEdge` carry its contract. |
| TimeAwareGraph.BuiltGraphShape | frontend/FlightSearch.py:83-108 | The built graph is well formed and every connection edge in it has weight 0. |
| TimeAwareGraph.BuiltGraphVertices | frontend/FlightSearch.py:88-97 | The built graph's vertices are exactly the records' endpoints; the connection pass adds none. |
| TimeAwareGraph.ConnectionGate | frontend/FlightSearch.py:102-108 | A connection edge joins `u` to `v` if and only if both are vertices, share the airport, and `v` is strictly later by at least 3600 seconds. |
| TimeAwareGraph.ConnectionEdgeShape | frontend/FlightSearch.py:102-108 | Every connection edge is free, never a self-loop, stays at one airport and moves forward in time by at least an hour. |
| TimeAwareGraph.BuiltFlightEdge | frontend/FlightSearch.py:88-108 | Every record's edge is in the built graph. If no later record repeats it and the connection test does not match it, the edge carries that record's price and flight number and is not a connection. |
| TimeAwareGraph.SingleInstantNoConnection | frontend/FlightSearch.py:102-104 | An airport whose vertices all share one instant has no connection edge leaving it. |
| TimeAwareGraph.ScriptGraph | main.py:86-91 | The script's graph: the flight pass with prices and no flight numbers. A definition; `TimeAwareGraph.ScriptGraphEdges` carries its contract. |
| TimeAwareGraph.ScriptGraphEdges | main.py:86-91 | The script's graph has no connection edge; each of its edges is some record's flight. |
| CheapestPath.AtAirport | frontend/FlightSearch.py:162-163 | The candidate list holds exactly the graph's vertices at that airport code, and is no longer than the vertex list. |
| CheapestPath.AtAirportOrder | frontend/FlightSearch.py:162-163 | The candidate list keeps the graph's node order: there is an increasing list of exactly the positions of the vertex list at that airport, and the k-th candidate is the vertex at the k-th position. The tie-break of the selection relies on this order. |
| CheapestPath.SelectCheapest | frontend/FlightSearch.py:172-214 | The selection returns a walk for some candidate pair. No pair has a cheaper walk, and every earlier pair has only strictly dearer walks. It returns nothing exactly when no pair is connected. |
| CheapestPath.FirstMinimumUnique | frontend/FlightSearch.py:208-210 | With the strict `<`, two first minima over the same candidate lists are the same pair at the same cost. |
| CheapestPath.LegOf | frontend/FlightSearch.py:188-206 | One itinerary entry: a layover at the first vertex's airport for the time between the two vertices when the edge is a connection, otherwise a flight with both vertices' airports and times, the flight number and the price. A definition; `CheapestPath.ItineraryLegs` and `CheapestPath.ItineraryTotal` carry its contract. |
| CheapestPath.Itinerary | frontend/FlightSearch.py:181-206 | The itinerary has one entry per edge of the walk, each the flight or layover that edge describes. |
| CheapestPath.ItineraryTotal | frontend/FlightSearch.py:185-199 | When connection edges are free, the prices of the itinerary's flights add up to the walk's cost. |
| CheapestPath.ItineraryLegs | frontend/FlightSearch.py:189-206 | In a built graph, every layover entry stays at the one airport of its two vertices for at least 3600 seconds. Every flight entry takes its airports and times from its two vertices. |
| CheapestPath.FindCheapestPath | frontend/FlightSearch.py:156-215 | The result is `(None, None)` exactly when there is no graph or either airport has no vertex. `(None, inf)` means no route exists. Otherwise the result is the itinerary of a route from the first cheapest pair, its cost is no more than that of any route between the airports, and with free connections its flights' prices add up to that cost. |
| FlightScript.KeepComplete | main.py:48-59 | The kept records are no more than the input and all have non-empty airport codes. |
| FlightScript.KeepCompleteMembers | main.py:48-59 | A record is kept exactly when some input flight has both codes and both times, and that record is the flight's fields. |
| FlightScript.KeepCompleteAppend | main.py:33-59 | Each flight is kept or dropped on its own: filtering a concatenation is the concatenation of the filtered parts, in order. |
| FlightScript.ScriptWalkIsFlights | main.py:86-91 | Every step of a walk in the script's graph is a record's flight, never a layover. |
| FlightScript.ScriptLegsMeet | main.py:86-91 | Two consecutive steps of such a walk are two records' flights. Their meeting at one vertex, so with no wait, follows from the two edges sharing a vertex; the substance comes from `ScriptWalkIsFlights`. |
| FlightScript.ScriptSearch | main.py:178-221 | The search reports the airports found exactly when both have vertices. If they are not found, path and cost stay `None` and infinity. The path is absent exactly when the cost is infinite, and that happens exactly when no route exists. A present path is a route whose cost is the minimum over all routes, taken from the first cheapest pair. |
| Scenarios.TwoFlightsPrices | frontend/FlightSearch.py:88-93 | The two flights' edges carry their records' prices and flight numbers and are not connections. |
| Scenarios.ConnectionThreshold | frontend/FlightSearch.py:102-104 | The two vertices at the middle airport get a connection edge exactly when the gap is at least 3600 seconds. |
| Scenarios.ThresholdIsOneHour | frontend/FlightSearch.py:102-104 | A gap of 3599 seconds gets no connection edge; a gap of 3600 seconds gets one. |
| Scenarios.LayoverRoute | frontend/FlightSearch.py:97-108 | With a gap of at least an hour the walk fly–wait–fly is a route of cost 120.00 whose middle edge is a connection. |
| Scenarios.LayoverItinerary | frontend/FlightSearch.py:181-206 | That route's itinerary is the first flight, a layover of `gap` seconds at the middle airport, then the second flight. |
| Scenarios.SameInstantTransfer | frontend/FlightSearch.py:88-104 | With a zero gap the two flights meet at one vertex. They form a route of two flight entries and no layover, for 120.00. |
| Scenarios.NoRouteUnderAnHour | frontend/FlightSearch.py:97-108 | With a non-zero gap under an hour there is no route from the first airport to the last. |

## Left out

- Fetching flights over HTTP and extracting them from JSON are left out. This includes the application's filter that drops any record with a falsy field, such as a zero price. The model starts from the records that reach the graph builder.
- Parsing timestamps with pandas is left out. Times are whole seconds. The script's filter treats a scheduled time as present when it is not missing, so an empty time string is not distinguished.
- Floating-point prices are modelled as whole cents, so sums are exact.
- Printing a layover as `"{:.1f} horas"` is not modelled. The itinerary keeps the layover's length in seconds.
- Plotting, the Gemini prompt and its regular expressions, the web views and the database models are left out. They do not touch the routing.
- `dijkstra_path` is a library call. `ShortestPaths.CheapestWalk` has the same contract: a cheapest walk, or none exactly when none exists. Among equally cheap walks, the model does not fix which one networkx returns. Which pair wins and at what cost is fixed (`CheapestPath.FirstMinimumUnique`), but the winning pair's walk, and so its itinerary, may be any cheapest one.
- CheapestPath.FindCheapestPath builds the itinerary only for the winning walk. The source builds one for every candidate pair and keeps the winner's, which gives the same result.
- The console messages are not modelled.
- Nothing checks that a flight departs before it arrives, and the source does not check it either.
- FlightScript.ScriptSearch: when no record passes the filter, or the request fails, the script crashes before the graph is built: converting the missing `HPartida` column raises `KeyError`, or the unassigned `df_flights` raises `NameError`. The model instead searches an empty graph and reports the airports as not found.
