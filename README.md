# Delivery route planning: distance matrices and route extraction

This project is a Dafny model of the core of a delivery-route planner. The
planner does two things. It builds a cost matrix over a list of stops, either
geometrically or from a road-network service. It then asks a routing library
for a visiting order and reads that answer back as one flat list of node
indices. The model covers two source files:

- `src/distance_calculator.py` is modelled in `distance_calculator.dfy`
  (module `DistanceCalculator`). It covers:
  - the geometric matrix builder, a method with nested loops;
  - the decoding half of the batched matrix service (Google Distance Matrix),
    also a method with nested loops, and its request URL;
  - the per-pair routing service (OSRM): its request URL and the selection of
    the first route's distance.
- `src/route_optimizer.py` is modelled in `route_optimizer.dfy`
  (module `RouteOptimizer`). It covers:
  - the arc-cost callback;
  - the successor-walking extraction loop, as a method;
  - the `None` result when there is no solution.

The routing library itself is not modelled. Its model is a value:
`Routing(start, isEnd, node)` holds what `routing.Start`, `routing.IsEnd` and
`manager.IndexToNode` answer. Its search is a function parameter `solve` that
returns either nothing or a successor table `next`, which is what
`solution.Value(routing.NextVar(i))` answers.

Supporting files:

- `cheapest_arc.dfy` (module `CheapestArc`) is a stand-in for the library's
  PATH_CHEAPEST_ARC first-solution strategy, which the source selects by name.
  It is written from that strategy's documented behaviour, not from code in
  the repository. From the depot it moves each time to the cheapest unvisited
  node, with the lowest index winning ties, and then returns to the depot.
- `optional.dfy`, `seqs.dfy` and `text.dfy` are helpers:
  - the Option type;
  - facts about sequences without repeated elements (pigeonhole);
  - Python's `str.join` and `str.split`, with a round-trip lemma.

Abstractions:

- The haversine distance is a parameter `dist: (Coord, Coord) -> real`.
- Python's float formatting `f"{x}"` is a parameter `fmt: real -> string`.
- HTTP responses are input values. For the batched service this is the status
  code and the parsed body. For the per-pair service it is a transport
  failure, or a status code and a body that may have failed to parse.
- JSON keys that the source reads with `[]` are `Option` fields, so a missing
  key can be modelled. Keys read with `.get` are `Option` fields too; an absent
  one just compares unequal to `"OK"`.

Behaviour of the code worth stating:

- The batched decoder accepts only transport code 200 exactly, not any 2xx code.
- A missing `rows`, `elements` or `distance` key after an `"OK"` status raises
  `KeyError`, and the decoder does not catch it. The model gives `Raised`, not
  a failure value.
- The per-pair service returns `None` for a failed pair. Nothing in the code
  builds a matrix from it or puts an "infinite" sentinel in place.
- The decoded batched matrix simply mirrors the response. Nothing checks that
  it is square or that its size matches the origins and destinations.
- `optimize_route` does not check the matrix, the depot or the vehicle count.
  Those checks belong to the routing library.
- For several vehicles, the result is one flat list with no marker between
  vehicles. The model keeps it that way. `Route` concatenates the per-vehicle
  `Segment`s.

## Model

| member | source | states |
|---|---|---|
| `DistanceCalculator.CreateDistanceMatrix` | src/distance_calculator.py:52-62 | the result has one row per location and one entry per location in each row (so an empty input gives an empty matrix); every diagonal entry is 0.0 whatever the point distance; every other entry (i, j) is the point distance of locations i and j |
| `DistanceCalculator.PointMatrixSymmetric` | src/distance_calculator.py:44-58 | if the point distance is symmetric, the built matrix is symmetric, as the doc comment promises |
| `DistanceCalculator.PointMatrixOfOnePlace` | src/distance_calculator.py:58 | if all locations coincide and a point's distance to itself is zero, every entry is zero |
| `DistanceCalculator.DecodeMatrixResponse` | src/distance_calculator.py:89-111 | result is `None` exactly when the transport code is not 200 or the top-level status is not "OK", so no partial matrix is ever produced; a `KeyError` escapes exactly when the status is accepted but `rows`, some row's `elements`, or the distance of an "OK" element is missing; otherwise the result mirrors the response row for row and element for element, in order |
| `DistanceCalculator.ElementCost` | src/distance_calculator.py:105-108 | an element decodes to a finite cost exactly when its status is "OK", and that cost is its `distance.value`; every other element decodes to the unreachable sentinel |
| `DistanceCalculator.DecodedShapeIsResponseShape` | src/distance_calculator.py:100-111 | a decoded matrix is n by n exactly when the response has n rows of n elements each; the shape is not checked against the request |
| `DistanceCalculator.PointListRoundTrip` | src/distance_calculator.py:81-82 | the pipe-joined coordinate list splits back on `|` into one piece per point, in order; each piece splits on `,` into the latitude and then the longitude; an empty point list gives the empty string |
| `DistanceCalculator.MatrixUrlQuery` | src/distance_calculator.py:84-87 | the request URL is the endpoint followed by exactly three query parameters, origins, destinations and key, in that order |
| `DistanceCalculator.RouteUrlLonLat` | src/distance_calculator.py:130-134 | the URL is the server, `/route/v1/driving/`, two points separated by `;`, and `?overview=false`; each point is written longitude first, then latitude |
| `DistanceCalculator.RouteDistance` | src/distance_calculator.py:136-145 | the result is a distance exactly when the request went through (no transport exception, no 4xx/5xx status, a parseable body) and `routes` is present, non-empty and its first entry has a distance; that distance is the result; in every other case the result is `None` |
| `DistanceCalculator.RouteDistanceFirstOnly` | src/distance_calculator.py:140-141 | routes after the first never change the answer; an empty or missing `routes` gives `None` |
| `Text.SplitJoin` | src/distance_calculator.py:81-82 | joining parts with a separator none of them contains, then splitting on it, gives the parts back |
| `RouteOptimizer.ArcCostByNode` | src/route_optimizer.py:30-34 | the arc cost depends only on the nodes of the two indices: indices standing for the same nodes cost the same |
| `RouteOptimizer.ArcCostSymmetry` | src/route_optimizer.py:30-34 | with a symmetric matrix the arc cost is symmetric; with a zero diagonal two indices of the same node cost zero |
| `RouteOptimizer.LibraryCostIsRouteCost` | src/route_optimizer.py:30-39 | the sum of the callback's arc costs along a chain of indices equals the matrix cost of the node sequence the extraction reports |
| `RouteOptimizer.ExtractRoute` | src/route_optimizer.py:55-64 | the result is the concatenation, in vehicle order 0..k-1, of each vehicle's segment: the nodes of the successor chain from `Start(v)` up to but excluding the first end index, then the node of that end index |
| `RouteOptimizer.OptimizeRoute` | src/route_optimizer.py:52-66 | the result is `None` exactly when the solver returns no solution; otherwise it is the extracted flat route of all vehicles |
| `RouteOptimizer.ChainEnds` | src/route_optimizer.py:58-61 | the walk stops at the first end index: every index before the last is not an end index, and the last one is |
| `RouteOptimizer.ChainDistinct` | src/route_optimizer.py:58-61 | a successor walk that reaches an end never passes the same index twice |
| `RouteOptimizer.EndsWithinBound` | src/route_optimizer.py:58-61 | a walk that reaches an end in finitely many steps does so within as many steps as there are indices |
| `RouteOptimizer.SegmentFramed` | src/route_optimizer.py:57-63 | with a single depot, and start indices that are not end indices, each vehicle's segment starts and ends at the depot and has at least two entries |
| `RouteOptimizer.RouteLength` | src/route_optimizer.py:56-63 | the flat route holds at least two entries per vehicle |
| `RouteOptimizer.RouteAtDepot` | src/route_optimizer.py:56-63 | with at least one vehicle and a single depot, the flat route's first and last entries are the depot |
| `RouteOptimizer.OneVehicleChain` | src/route_optimizer.py:57-61 | for one vehicle, a chain that passes every node index has exactly the n node indices, each once, and then the end index |
| `RouteOptimizer.OneVehicleTour` | tests/test_optimizer.py:23-26 | for one vehicle whose solution visits every node, the route has n + 1 entries, starts and ends at the depot, and its first n entries are a permutation of the node indices |
| `CheapestArc.CheapestUnvisited` | src/route_optimizer.py:43-45 | returns an unvisited node that is cheapest from the current node, the lowest index among equally cheap ones |
| `CheapestArc.PathCheapestArc` | src/route_optimizer.py:43-45 | stand-in for the library strategy: the tour has n + 1 entries and starts and ends at the depot; its first n entries are a permutation of the nodes; each step goes to a cheapest node not yet visited |

## Left out

- The haversine formula (src/distance_calculator.py:9-37, and its copy in src/simulate_driver.py) is floating-point trigonometry. It is the parameter `dist` here.
- Number formatting of floats is the parameter `fmt`. Real numbers stand for Python floats, so rounding and the float `inf` value are not modelled; the sentinel is the `Inf` constructor.
- `requests.get`, `response.json()` and `print` are network I/O and logging. The responses are input values. In the batched service, an exception from `requests.get` or from `response.json()` is not modelled.
- `DistanceCalculator.DecodeMatrixResponse`: a row or element that is not a JSON object, or a `distance.value` that is not a number, is not modelled. `element["distance"]["value"]` is treated as one lookup.
- `RouteOptimizer.OptimizeRoute`: the routing library's internals are foreign code with a wall-clock budget. That covers `RoutingIndexManager`, `RoutingModel`, `SolveWithParameters`, guided local search and the 30-second limit. Its model is the value `Routing`, and its search is the parameter `solve`. The method assumes that the solver's successor table is well formed and that every vehicle's chain reaches an end index. The method does not say which successor table the solver picks, or that it is optimal.
- `RouteOptimizer.OneVehicleTour`: the index layout for one vehicle is assumed, not derived: indices 0..n-1 are the nodes, the start is the depot's index, and index n is the end. So is the claim that the solver's chain passes every node; the library promises both.
- Which successor table the library returns, and what it costs, depend on the library's search, which is not modelled.
- `RouteOptimizer.LibraryCostIsRouteCost`: the library converts each callback result to a 64-bit integer and adds the results with saturation; the model sums unbounded integers, so matrix entries and their sums are assumed to fit in 64 bits.
- The int-versus-float difference between `create_distance_matrix` (floats) and `optimize_route` (an int matrix) is a concern for callers; the matrices here are `real` and `int` respectively.
- src/simulate_driver.py, src/map_utils.py, app/streamlit_app.py and setup.py are presentation, rendering, UI and packaging. They are not part of this model.
