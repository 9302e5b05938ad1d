/**
 * The Erdős–Rényi generators: each candidate pair of vertices is visited
 * once and becomes an edge when its random draw falls below the inclusion
 * probability. The random source is a parameter: coin(i, j) is the outcome
 * of the inclusion test made when pair (i, j) is visited, and roll(i, j) the
 * nonnegative number drawn for that edge's weight.
 */
module RandomGraphs {
  import opened Graphs

  /**
   * A directed graph with an edge of weight 1 from i to j, for every ordered
   * pair of distinct vertices whose test succeeds. A negative vertex count
   * is rejected by the graph constructor.
   */
  method GenerateDirected(n: int, coin: (int, int) -> bool) returns (r: Result<Graph>)
    ensures r.Failure? <==> n < 0
    ensures r.Failure? ==> r.error == InvalidArgument
    ensures r.Success? ==> fresh(r.value) && r.value.Valid()
    ensures r.Success? ==> r.value.kind == Directed && r.value.n == n
    ensures r.Success? ==> forall i, j :: 0 <= i < n && 0 <= j < n ==>
              r.value.adj[i][j] == if i != j && coin(i, j) then 1 else 0
  {
    r := Graph.Create(Directed, n);
    if r.Failure? {
      return;
    }
    var g := r.value;
    for i := 0 to n
      invariant g.Valid() && g.kind == Directed && g.n == n
      invariant forall a, b :: 0 <= a < n && 0 <= b < n ==>
                  g.adj[a][b] == if a < i && a != b && coin(a, b) then 1 else 0
    {
      for j := 0 to n
        invariant g.Valid() && g.kind == Directed && g.n == n
        invariant forall a, b :: 0 <= a < n && 0 <= b < n ==>
                    g.adj[a][b] == if (a < i || (a == i && b < j)) && a != b && coin(a, b) then 1 else 0
      {
        if i != j && coin(i, j) {
          g.AddEdge(i, j);
        }
      }
    }
  }

  /**
   * An undirected graph with an edge of weight 1 between i and j, for every
   * pair i < j whose test succeeds; each pair is tested once.
   */
  method GenerateUndirected(n: int, coin: (int, int) -> bool) returns (r: Result<Graph>)
    ensures r.Failure? <==> n < 0
    ensures r.Failure? ==> r.error == InvalidArgument
    ensures r.Success? ==> fresh(r.value) && r.value.Valid()
    ensures r.Success? ==> r.value.kind == Undirected && r.value.n == n
    ensures r.Success? ==> forall i, j :: 0 <= i < j < n ==>
              r.value.adj[i][j] == r.value.adj[j][i] == if coin(i, j) then 1 else 0
    ensures r.Success? ==> forall i :: 0 <= i < n ==> r.value.adj[i][i] == 0
  {
    r := Graph.Create(Undirected, n);
    if r.Failure? {
      return;
    }
    var g := r.value;
    for i := 0 to n
      invariant g.Valid() && g.kind == Undirected && g.n == n
      invariant forall a, b :: 0 <= a < b < n ==>
                  g.adj[a][b] == if a < i && coin(a, b) then 1 else 0
      invariant forall a :: 0 <= a < n ==> g.adj[a][a] == 0
    {
      for j := i + 1 to n
        invariant g.Valid() && g.kind == Undirected && g.n == n
        invariant forall a, b :: 0 <= a < b < n ==>
                    g.adj[a][b] == if (a < i || (a == i && b < j)) && coin(a, b) then 1 else 0
        invariant forall a :: 0 <= a < n ==> g.adj[a][a] == 0
      {
        if coin(i, j) {
          g.AddEdge(i, j);
        }
      }
    }
  }

  /**
   * A weighted graph with an edge from i to j, for every ordered pair of
   * distinct vertices whose test succeeds, of weight
   * minW + roll(i, j) % (maxW - minW + 1). The divisor must not be zero;
   * since roll(i, j) is nonnegative, C++'s truncating % and Dafny's % agree
   * for either sign of the divisor. When minW <= maxW every drawn weight lies
   * in [minW, maxW] (a drawn 0 leaves the cell empty).
   */
  method GenerateWeighted(n: int, coin: (int, int) -> bool, roll: (int, int) -> nat,
                          minW: int, maxW: int) returns (r: Result<Graph>)
    requires maxW - minW + 1 != 0
    ensures r.Failure? <==> n < 0
    ensures r.Failure? ==> r.error == InvalidArgument
    ensures r.Success? ==> fresh(r.value) && r.value.Valid()
    ensures r.Success? ==> r.value.kind == Weighted && r.value.n == n
    ensures r.Success? ==> forall i, j :: 0 <= i < n && 0 <= j < n ==>
              r.value.adj[i][j] ==
                if i != j && coin(i, j) then minW + roll(i, j) % (maxW - minW + 1) else 0
    ensures r.Success? && minW <= maxW ==> forall i, j :: 0 <= i < n && 0 <= j < n && i != j && coin(i, j) ==>
              minW <= r.value.adj[i][j] <= maxW
  {
    r := Graph.Create(Weighted, n);
    if r.Failure? {
      return;
    }
    var g := r.value;
    for i := 0 to n
      invariant g.Valid() && g.kind == Weighted && g.n == n
      invariant forall a, b :: 0 <= a < n && 0 <= b < n ==>
                  g.adj[a][b] ==
                    if a < i && a != b && coin(a, b) then minW + roll(a, b) % (maxW - minW + 1) else 0
    {
      for j := 0 to n
        invariant g.Valid() && g.kind == Weighted && g.n == n
        invariant forall a, b :: 0 <= a < n && 0 <= b < n ==>
                    g.adj[a][b] ==
                      if (a < i || (a == i && b < j)) && a != b && coin(a, b)
                      then minW + roll(a, b) % (maxW - minW + 1) else 0
      {
        if i != j && coin(i, j) {
          var w := minW + roll(i, j) % (maxW - minW + 1);
          g.AddEdge(i, j, w);
        }
      }
    }
  }
}
