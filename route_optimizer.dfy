/** Route extraction from a routing solution (src/route_optimizer.py).

    The search is done by a routing library and is not modelled: the library's
    model is the value `Routing` (what `routing.Start`, `routing.IsEnd` and
    `manager.IndexToNode` answer) and its answer is a successor table `next`
    (what `solution.Value(routing.NextVar(index))` answers), or nothing. What is
    modelled is the arc-cost callback handed to the library and the loop that
    turns a solution into the flat list of node indices. */
module RouteOptimizer {
  import opened Optional
  import opened Seqs

  /** The routing model over indices 0 .. |isEnd|-1: the start index of each
      vehicle, which indices are end indices, and the node of each index. */
  datatype Routing = Routing(start: seq<nat>, isEnd: seq<bool>, node: seq<nat>)

  /** Every start index is an index of the model. */
  predicate ValidRouting(r: Routing) {
    && |r.node| == |r.isEnd|
    && forall v :: 0 <= v < |r.start| ==> r.start[v] < |r.isEnd|
  }

  /** A successor table for the model: one successor per index, each an index. */
  predicate Valid(r: Routing, next: seq<nat>) {
    && ValidRouting(r)
    && |next| == |r.isEnd|
    && forall i :: 0 <= i < |next| ==> next[i] < |next|
  }

  // ---------------------------------------------------------------------------
  // Arc costs (distance_callback)
  // ---------------------------------------------------------------------------

  /** Every index of the model names a row and a column of the matrix. */
  predicate NodesInMatrix(matrix: seq<seq<int>>, r: Routing) {
    && Square(matrix)
    && forall i :: 0 <= i < |r.node| ==> r.node[i] < |matrix|
  }

  /** The cost of the arc between two indices: the matrix entry of their nodes. */
  function ArcCost(matrix: seq<seq<int>>, r: Routing, fromIndex: nat, toIndex: nat): int
    requires NodesInMatrix(matrix, r)
    requires fromIndex < |r.node| && toIndex < |r.node|
  {
    matrix[r.node[fromIndex]][r.node[toIndex]]
  }

  /** Arc costs depend on nodes only: the start and end copies of the depot,
      and any other indices standing for the same nodes, cost the same. */
  lemma ArcCostByNode(matrix: seq<seq<int>>, r: Routing, a: nat, b: nat, a': nat, b': nat)
    requires NodesInMatrix(matrix, r)
    requires a < |r.node| && b < |r.node| && a' < |r.node| && b' < |r.node|
    requires r.node[a] == r.node[a'] && r.node[b] == r.node[b']
    ensures ArcCost(matrix, r, a, b) == ArcCost(matrix, r, a', b')
  {
  }

  /** A symmetric matrix gives symmetric arc costs, and a zero diagonal gives
      a zero cost between two indices of the same node. */
  lemma ArcCostSymmetry(matrix: seq<seq<int>>, r: Routing, a: nat, b: nat)
    requires NodesInMatrix(matrix, r)
    requires a < |r.node| && b < |r.node|
    requires forall i, j :: 0 <= i < |matrix| && 0 <= j < |matrix| ==> matrix[i][j] == matrix[j][i]
    requires forall i :: 0 <= i < |matrix| ==> matrix[i][i] == 0
    ensures ArcCost(matrix, r, a, b) == ArcCost(matrix, r, b, a)
    ensures r.node[a] == r.node[b] ==> ArcCost(matrix, r, a, b) == 0
  {
  }

  /** The sum of the callback's arc costs along a sequence of indices. */
  function IndexPathCost(matrix: seq<seq<int>>, r: Routing, c: seq<nat>): int
    requires NodesInMatrix(matrix, r)
    requires forall j :: 0 <= j < |c| ==> c[j] < |r.node|
  {
    if |c| < 2 then 0 else ArcCost(matrix, r, c[0], c[1]) + IndexPathCost(matrix, r, c[1..])
  }

  /** The matrix cost of a sequence of nodes. */
  function NodePathCost(matrix: seq<seq<int>>, p: seq<nat>): int
    requires Square(matrix)
    requires forall j :: 0 <= j < |p| ==> p[j] < |matrix|
  {
    if |p| < 2 then 0 else matrix[p[0]][p[1]] + NodePathCost(matrix, p[1..])
  }

  // ---------------------------------------------------------------------------
  // Successor chains
  // ---------------------------------------------------------------------------

  /** Following successors from `i` reaches an end index in at most `k` steps. */
  predicate EndsWithin(r: Routing, next: seq<nat>, i: nat, k: nat)
    requires Valid(r, next) && i < |next|
    decreases k
  {
    r.isEnd[i] || (k > 0 && EndsWithin(r, next, next[i], k - 1))
  }

  /** The indices visited from `i` up to and including the first end index. */
  function Chain(r: Routing, next: seq<nat>, i: nat, k: nat): (c: seq<nat>)
    requires Valid(r, next) && i < |next| && EndsWithin(r, next, i, k)
    ensures |c| >= 1 && c[0] == i && |c| <= k + 1
    ensures forall j :: 0 <= j < |c| ==> c[j] < |next|
    decreases k
  {
    if r.isEnd[i] then [i] else [i] + Chain(r, next, next[i], k - 1)
  }

  /** The nodes of a sequence of indices. */
  function Nodes(r: Routing, c: seq<nat>): seq<nat>
    requires forall j :: 0 <= j < |c| ==> c[j] < |r.node|
  {
    seq(|c|, j requires 0 <= j < |c| => r.node[c[j]])
  }

  /** The chain from every vehicle's start reaches an end index within as
      many steps as the model has indices (by `EndsWithinBound`, the same as
      reaching one at all). */
  predicate Terminates(r: Routing, next: seq<nat>)
    requires Valid(r, next)
  {
    forall v :: 0 <= v < |r.start| ==> EndsWithin(r, next, r.start[v], |next|)
  }

  /** The nodes one vehicle drives through: the chain from its start up to
      and including its end index. */
  function Segment(r: Routing, next: seq<nat>, v: nat): seq<nat>
    requires Valid(r, next) && Terminates(r, next) && v < |r.start|
  {
    Nodes(r, Chain(r, next, r.start[v], |next|))
  }

  /** The segments of vehicles 0 .. vehicles-1 one after another, with nothing
      marking where one vehicle's segment ends. */
  function Route(r: Routing, next: seq<nat>, vehicles: nat): seq<nat>
    requires Valid(r, next) && Terminates(r, next) && vehicles <= |r.start|
  {
    if vehicles == 0 then [] else Route(r, next, vehicles - 1) + Segment(r, next, vehicles - 1)
  }

  // ---------------------------------------------------------------------------
  // Extraction (optimize_route)
  // ---------------------------------------------------------------------------

  /** Walks each vehicle's successors from its start until an end index,
      appending the node of every index passed and then the node of the end. */
  method ExtractRoute(r: Routing, next: seq<nat>) returns (route: seq<nat>)
    requires Valid(r, next) && Terminates(r, next)
    ensures route == Route(r, next, |r.start|)
  {
    route := [];
    for v := 0 to |r.start|
      invariant route == Route(r, next, v)
    {
      var index: nat := r.start[v];
      ghost var fuel: nat := |next|;
      while !r.isEnd[index]
        invariant index < |next| && EndsWithin(r, next, index, fuel)
        invariant route + Nodes(r, Chain(r, next, index, fuel)) == Route(r, next, v + 1)
        decreases fuel
      {
        var nodeIndex := r.node[index];
        route := route + [nodeIndex];
        NodesCons(r, index, Chain(r, next, next[index], fuel - 1));
        index := next[index];
        fuel := fuel - 1;
      }
      route := route + [r.node[index]];
    }
  }

  /** `None` when the library finds no solution, the extracted route otherwise.
      `routing` is the model the library builds for the matrix, the vehicle
      count and the depot; `solve` is the library's search. */
  method OptimizeRoute(matrix: seq<seq<int>>, numVehicles: nat, routing: Routing,
                       solve: (seq<seq<int>>, Routing) -> Option<seq<nat>>)
    returns (route: Option<seq<nat>>)
    requires ValidRouting(routing) && |routing.start| == numVehicles
    requires solve(matrix, routing).Some? ==>
               Valid(routing, solve(matrix, routing).value) && Terminates(routing, solve(matrix, routing).value)
    ensures route.None? <==> solve(matrix, routing).None?
    ensures route.Some? ==> route.value == Route(routing, solve(matrix, routing).value, numVehicles)
  {
    var solution := solve(matrix, routing);
    if solution.Some? {
      var indices := ExtractRoute(routing, solution.value);
      return Some(indices);
    } else {
      return None;
    }
  }

  lemma NodesCons(r: Routing, i: nat, c: seq<nat>)
    requires i < |r.node| && forall j :: 0 <= j < |c| ==> c[j] < |r.node|
    ensures Nodes(r, [i] + c) == [r.node[i]] + Nodes(r, c)
  {
  }

  // ---------------------------------------------------------------------------
  // Properties of chains and routes
  // ---------------------------------------------------------------------------

  /** A chain stops at its first end index: every index before the last is
      not an end index, and the last one is. */
  lemma {:induction false} ChainEnds(r: Routing, next: seq<nat>, i: nat, k: nat)
    requires Valid(r, next) && i < |next| && EndsWithin(r, next, i, k)
    ensures var c := Chain(r, next, i, k);
      && r.isEnd[c[|c| - 1]]
      && forall j :: 0 <= j < |c| - 1 ==> !r.isEnd[c[j]]
    decreases k
  {
    if !r.isEnd[i] {
      ChainEnds(r, next, next[i], k - 1);
    }
  }

  lemma {:induction false} EndsWithinMore(r: Routing, next: seq<nat>, i: nat, k: nat, k': nat)
    requires Valid(r, next) && i < |next| && EndsWithin(r, next, i, k) && k <= k'
    ensures EndsWithin(r, next, i, k')
    decreases k
  {
    if !r.isEnd[i] {
      EndsWithinMore(r, next, next[i], k - 1, k' - 1);
    }
  }

  /** The chain does not depend on the step bound it was computed with. */
  lemma {:induction false} ChainFuel(r: Routing, next: seq<nat>, i: nat, k: nat, k': nat)
    requires Valid(r, next) && i < |next|
    requires EndsWithin(r, next, i, k) && EndsWithin(r, next, i, k')
    ensures Chain(r, next, i, k) == Chain(r, next, i, k')
    decreases k
  {
    if !r.isEnd[i] {
      ChainFuel(r, next, next[i], k - 1, k' - 1);
    }
  }

  /** Every suffix of a chain is the chain from its first index. */
  lemma {:induction false} ChainSuffix(r: Routing, next: seq<nat>, i: nat, k: nat, j: nat)
    requires Valid(r, next) && i < |next| && EndsWithin(r, next, i, k)
    requires j < |Chain(r, next, i, k)|
    ensures var c := Chain(r, next, i, k);
      j <= k && EndsWithin(r, next, c[j], k - j) && Chain(r, next, c[j], k - j) == c[j..]
    decreases j
  {
    if j > 0 {
      var c := Chain(r, next, i, k);
      assert c[1..] == Chain(r, next, next[i], k - 1);
      ChainSuffix(r, next, next[i], k - 1, j - 1);
      assert c[1..][j - 1..] == c[j..];
    }
  }

  /** A chain that reaches an end never passes the same index twice. */
  lemma ChainDistinct(r: Routing, next: seq<nat>, i: nat, k: nat)
    requires Valid(r, next) && i < |next| && EndsWithin(r, next, i, k)
    ensures Distinct(Chain(r, next, i, k))
  {
    var c := Chain(r, next, i, k);
    forall a, b | 0 <= a < b < |c| ensures c[a] != c[b] {
      if c[a] == c[b] {
        ChainSuffix(r, next, i, k, a);
        ChainSuffix(r, next, i, k, b);
        ChainFuel(r, next, c[a], k - a, k - b);
        assert false;
      }
    }
  }

  /** Reaching an end in finitely many steps is reaching it within as many
      steps as there are indices, which is what `Terminates` asks. */
  lemma EndsWithinBound(r: Routing, next: seq<nat>, i: nat, k: nat)
    requires Valid(r, next) && i < |next| && EndsWithin(r, next, i, k)
    ensures EndsWithin(r, next, i, |next|)
  {
    var c := Chain(r, next, i, k);
    ChainDistinct(r, next, i, k);
    DistinctBounded(c, |next|);
    ChainSteps(r, next, i, k);
    EndsWithinMore(r, next, i, |c| - 1, |next|);
  }

  lemma {:induction false} ChainSteps(r: Routing, next: seq<nat>, i: nat, k: nat)
    requires Valid(r, next) && i < |next| && EndsWithin(r, next, i, k)
    ensures EndsWithin(r, next, i, |Chain(r, next, i, k)| - 1)
    decreases k
  {
    if !r.isEnd[i] {
      ChainSteps(r, next, next[i], k - 1);
    }
  }

  /** The cost the library minimises along a vehicle's chain is the matrix
      cost of the node sequence the extraction reports for it. */
  lemma {:induction false} LibraryCostIsRouteCost(matrix: seq<seq<int>>, r: Routing, c: seq<nat>)
    requires NodesInMatrix(matrix, r)
    requires forall j :: 0 <= j < |c| ==> c[j] < |r.node|
    ensures IndexPathCost(matrix, r, c) == NodePathCost(matrix, Nodes(r, c))
  {
    if |c| >= 2 {
      LibraryCostIsRouteCost(matrix, r, c[1..]);
      assert Nodes(r, c)[1..] == Nodes(r, c[1..]);
    }
  }

  /** The library's single-depot model: every start index and every end index
      stands for the depot, and no start index is an end index. */
  predicate SingleDepot(r: Routing, depot: nat)
    requires ValidRouting(r)
  {
    && (forall v :: 0 <= v < |r.start| ==> r.node[r.start[v]] == depot && !r.isEnd[r.start[v]])
    && (forall i :: 0 <= i < |r.isEnd| && r.isEnd[i] ==> r.node[i] == depot)
  }

  /** Each vehicle's segment leaves the depot, comes back to it and holds at
      least those two entries. */
  lemma SegmentFramed(r: Routing, next: seq<nat>, depot: nat, v: nat)
    requires Valid(r, next) && Terminates(r, next) && v < |r.start|
    requires SingleDepot(r, depot)
    ensures var s := Segment(r, next, v);
      |s| >= 2 && s[0] == depot && s[|s| - 1] == depot
  {
    ChainEnds(r, next, r.start[v], |next|);
  }

  /** The flat route holds at least two entries per vehicle. */
  lemma {:induction false} RouteLength(r: Routing, next: seq<nat>, depot: nat, vehicles: nat)
    requires Valid(r, next) && Terminates(r, next) && vehicles <= |r.start|
    requires SingleDepot(r, depot)
    ensures |Route(r, next, vehicles)| >= 2 * vehicles
    decreases vehicles
  {
    if vehicles > 0 {
      RouteLength(r, next, depot, vehicles - 1);
      SegmentFramed(r, next, depot, vehicles - 1);
    }
  }

  /** With at least one vehicle, the flat route starts and ends at the depot. */
  lemma {:induction false} RouteAtDepot(r: Routing, next: seq<nat>, depot: nat, vehicles: nat)
    requires Valid(r, next) && Terminates(r, next) && 0 < vehicles <= |r.start|
    requires SingleDepot(r, depot)
    ensures var route := Route(r, next, vehicles);
      |route| >= 2 && route[0] == depot && route[|route| - 1] == depot
    decreases vehicles
  {
    SegmentFramed(r, next, depot, vehicles - 1);
    if vehicles > 1 {
      RouteAtDepot(r, next, depot, vehicles - 1);
    }
  }

  /** The shape of the library's model for n nodes, one vehicle and a depot:
      indices 0 .. n-1 are the nodes themselves, the vehicle starts at the
      depot's index and index n is its end, standing for the depot again. */
  predicate OneVehicleModel(r: Routing, n: nat, depot: nat) {
    && depot < n
    && |r.start| == 1 && r.start[0] == depot
    && |r.isEnd| == n + 1 && |r.node| == n + 1
    && (forall i :: 0 <= i <= n ==> (r.isEnd[i] <==> i == n))
    && (forall i :: 0 <= i < n ==> r.node[i] == i)
    && r.node[n] == depot
  }

  /** For one vehicle whose chain passes every node index, the route is a
      permutation of all n nodes followed by the depot again: n + 1 entries,
      first and last the depot. */
  lemma OneVehicleTour(r: Routing, next: seq<nat>, n: nat, depot: nat)
    requires OneVehicleModel(r, n, depot)
    requires Valid(r, next) && Terminates(r, next)
    requires forall x :: 0 <= x < n ==> x in Chain(r, next, r.start[0], |next|)
    ensures var route := Route(r, next, 1);
      && |route| == n + 1
      && route[0] == depot && route[n] == depot
      && Distinct(route[..n])
      && forall x: nat :: x < n ==> x in route[..n]
  {
    var c := Chain(r, next, depot, |next|);
    OneVehicleChain(r, next, n, depot);
    var route := Route(r, next, 1);
    assert route == Nodes(r, c) by {
      assert Route(r, next, 0) == [];
      assert Segment(r, next, 0) == Nodes(r, c);
    }
    assert route[..n] == c[..n] by {
      forall j | 0 <= j < n ensures route[j] == c[j] {
        assert c[j] < n;
      }
    }
  }

  /** The chain of the single vehicle: the n node indices, each once, and
      then the end index n. */
  lemma OneVehicleChain(r: Routing, next: seq<nat>, n: nat, depot: nat)
    requires OneVehicleModel(r, n, depot)
    requires Valid(r, next) && Terminates(r, next)
    requires forall x :: 0 <= x < n ==> x in Chain(r, next, r.start[0], |next|)
    ensures var c := Chain(r, next, depot, |next|);
      && |c| == n + 1 && c[n] == n
      && (forall j :: 0 <= j < n ==> c[j] < n)
      && Distinct(c[..n])
      && forall x: nat :: x < n ==> x in c[..n]
  {
    var c := Chain(r, next, depot, |next|);
    OneVehicleChainEnd(r, next, n, depot);
    ChainDistinct(r, next, depot, |next|);
    var inner := c[..|c| - 1];
    assert Distinct(inner);
    assert c == inner + [n];
    CoversButLast(inner, n);
    CoveringDistinctSize(inner, n);
  }

  lemma CoversButLast(inner: seq<nat>, n: nat)
    requires forall x: nat :: x < n ==> x in inner + [n]
    ensures forall x: nat :: x < n ==> x in inner
  {
    forall x: nat | x < n ensures x in inner {
      assert x in inner + [n];
    }
  }

  /** The single vehicle's chain ends at index n and passes node indices only
      before that. */
  lemma OneVehicleChainEnd(r: Routing, next: seq<nat>, n: nat, depot: nat)
    requires OneVehicleModel(r, n, depot)
    requires Valid(r, next) && Terminates(r, next)
    ensures var c := Chain(r, next, depot, |next|);
      && c[|c| - 1] == n
      && forall j :: 0 <= j < |c| - 1 ==> c[j] < n
  {
    ChainEnds(r, next, depot, |next|);
  }
}
