/** A deterministic stand-in for the routing library's PATH_CHEAPEST_ARC
    first-solution strategy, which src/route_optimizer.py selects but does not
    implement: from the depot, repeatedly move to the cheapest node not yet
    visited (the lowest index wins a tie), then return to the depot. This
    describes the library's documented behaviour; it is not a transcription of
    code in the repository. */
module CheapestArc {
  import opened Seqs

  /** Every step of `path` goes to a cheapest node among those not visited
      before it. */
  predicate Greedy(matrix: seq<seq<int>>, path: seq<nat>)
    requires Square(matrix)
    requires forall k :: 0 <= k < |path| ==> path[k] < |matrix|
  {
    forall k, x :: 1 <= k < |path| && 0 <= x < |matrix| && x !in path[..k] ==>
      matrix[path[k - 1]][path[k]] <= matrix[path[k - 1]][x]
  }

  /** The cheapest node to go to from `from` among those not in `visited`,
      the lowest index among equally cheap ones. */
  method CheapestUnvisited(matrix: seq<seq<int>>, from: nat, visited: seq<nat>) returns (best: nat)
    requires Square(matrix) && from < |matrix|
    requires Distinct(visited) && |visited| < |matrix|
    requires forall k :: 0 <= k < |visited| ==> visited[k] < |matrix|
    ensures best < |matrix| && best !in visited
    ensures forall x :: 0 <= x < |matrix| && x !in visited ==> matrix[from][best] <= matrix[from][x]
    ensures forall x :: 0 <= x < best && x !in visited ==> matrix[from][best] < matrix[from][x]
  {
    ghost var w := Unused(visited, |matrix|);
    assert w !in visited;
    var found := false;
    best := 0;
    for c := 0 to |matrix|
      invariant !found ==> forall x :: 0 <= x < c ==> x in visited
      invariant found ==> best < c && best !in visited
      invariant found ==> forall x :: 0 <= x < c && x !in visited ==> matrix[from][best] <= matrix[from][x]
      invariant found ==> forall x :: 0 <= x < best && x !in visited ==> matrix[from][best] < matrix[from][x]
    {
      if c !in visited && (!found || matrix[from][c] < matrix[from][best]) {
        best, found := c, true;
      }
    }
  }

  /** The initial tour: every node exactly once, starting at the depot, each
      step to a cheapest unvisited node, and then back to the depot. */
  method PathCheapestArc(matrix: seq<seq<int>>, depot: nat) returns (tour: seq<nat>)
    requires Square(matrix) && depot < |matrix|
    ensures |tour| == |matrix| + 1
    ensures forall k :: 0 <= k < |tour| ==> tour[k] < |matrix|
    ensures tour[0] == depot && tour[|matrix|] == depot
    ensures Distinct(tour[..|matrix|])
    ensures forall x: nat :: x < |matrix| ==> x in tour[..|matrix|]
    ensures forall k, j :: 1 <= k <= j < |matrix| ==>
              matrix[tour[k - 1]][tour[k]] <= matrix[tour[k - 1]][tour[j]]
  {
    var n := |matrix|;
    var path: seq<nat> := [depot];
    while |path| < n
      invariant 1 <= |path| <= n && path[0] == depot
      invariant Distinct(path)
      invariant forall k :: 0 <= k < |path| ==> path[k] < n
      invariant Greedy(matrix, path)
      decreases n - |path|
    {
      var best := CheapestUnvisited(matrix, path[|path| - 1], path);
      forall k | 1 <= k < |path| ensures (path + [best])[..k] == path[..k] { }
      path := path + [best];
    }
    DistinctInRangeCovers(path, n);
    forall k, j | 1 <= k <= j < n ensures matrix[path[k - 1]][path[k]] <= matrix[path[k - 1]][path[j]] {
      assert path[j] !in path[..k];
    }
    tour := path + [depot];
    assert tour[..n] == path;
  }
}
