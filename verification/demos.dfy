/**
 * The call sequences of the library's demonstration driver, replayed as
 * verified methods on the Graph class, with the state each one must end in.
 */
module Demos {
  import opened Matrices
  import opened AdjacencyLists
  import opened Graphs

  type Cell = (int, int)

  /**
   * m is the n × n matrix whose nonzero cells are exactly the keys of
   * weights, holding the weights it maps them to.
   */
  ghost predicate Holds(m: Matrix, n: nat, weights: map<Cell, int>) {
    IsSquare(m, n) &&
    (forall c :: c in weights ==> 0 <= c.0 < n && 0 <= c.1 < n && weights[c] != 0) &&
    forall i, j :: 0 <= i < n && 0 <= j < n ==>
      m[i][j] == if (i, j) in weights then weights[(i, j)] else 0
  }

  /** A graph without edges. */
  lemma ZerosHoldNothing(n: nat)
    ensures Holds(Zeros(n), n, map[])
  {
  }

  /**
   * A one-way edge write of weight w into cell (u, v) records w there, or
   * erases the cell when w is 0 (a cell already empty stays so).
   */
  lemma WriteOneWay(kind: Kind, m: Matrix, n: nat, weights: map<Cell, int>, u: int, v: int, w: int)
    requires Holds(m, n, weights) && kind != Undirected && InRange(u, v, n)
    ensures Holds(EdgeWrite(kind, m, u, v, w), n,
                  if w != 0 then weights[(u, v) := w]
                  else if (u, v) in weights then weights - {(u, v)}
                  else weights)
  {
  }

  /** An undirected edge write of a nonzero weight records it in both cells. */
  lemma WriteBothWays(m: Matrix, n: nat, weights: map<Cell, int>, u: int, v: int, w: int)
    requires Holds(m, n, weights) && InRange(u, v, n) && w != 0
    ensures Holds(EdgeWrite(Undirected, m, u, v, w), n, weights[(u, v) := w][(v, u) := w])
  {
  }

  /** Appending a vertex keeps every edge where it was. */
  lemma GrowKeepsCells(m: Matrix, n: nat, weights: map<Cell, int>)
    requires Holds(m, n, weights)
    ensures Holds(Grow(m), n + 1, weights)
  {
  }

  /** A row whose only nonzero cell below k is c lists just that cell. */
  lemma SoleNeighbour(row: seq<int>, k: nat, c: nat)
    requires c < k <= |row| && row[c] != 0
    requires forall j :: 0 <= j < k && j != c ==> row[j] == 0
    ensures Neighbours(row, k) == [(c, row[c])]
  {
    var r := Neighbours(row, k);
    assert (c, row[c]) in r;
    NeighboursAscending(row, k);
    assert r[0] in r;
  }

  /** A row with no nonzero cell below k has an empty list. */
  lemma NoNeighbours(row: seq<int>, k: nat)
    requires k <= |row|
    requires forall j :: 0 <= j < k ==> row[j] == 0
    ensures Neighbours(row, k) == []
  {
  }

  /** In the directed demonstration, removing vertex 1 leaves three edges. */
  lemma RemovingVertexOne(m: Matrix)
    requires Holds(m, 9, map[(0, 1) := 1, (2, 3) := 1, (2, 4) := 1, (3, 5) := 1])
    ensures Holds(Drop(m, 1), 8, map[(1, 2) := 1, (1, 3) := 1, (2, 4) := 1])
  {
  }

  /**
   * A directed graph of 6 vertices with edges (0,1), (2,3), (2,4), (3,5),
   * grown by three vertices, with vertex 1 removed and then edge (2,3)
   * removed. Removing vertex 1 drops (0,1) and renumbers the other edges to
   * (1,2), (1,3), (2,4); the cell (2,3) is then already empty, so exactly
   * these three edges remain.
   */
  method DirectedDemo() returns (m: Matrix)
    ensures Holds(m, 8, map[(1, 2) := 1, (1, 3) := 1, (2, 4) := 1])
  {
    var g := new Graph(Directed, 6);
    ZerosHoldNothing(6);
    WriteOneWay(Directed, g.adj, 6, map[], 0, 1, 1);
    g.AddEdge(0, 1);
    WriteOneWay(Directed, g.adj, 6, map[(0, 1) := 1], 2, 3, 1);
    g.AddEdge(2, 3);
    WriteOneWay(Directed, g.adj, 6, map[(0, 1) := 1, (2, 3) := 1], 2, 4, 1);
    g.AddEdge(2, 4);
    WriteOneWay(Directed, g.adj, 6, map[(0, 1) := 1, (2, 3) := 1, (2, 4) := 1], 3, 5, 1);
    g.AddEdge(3, 5);
    var built := map[(0, 1) := 1, (2, 3) := 1, (2, 4) := 1, (3, 5) := 1];
    GrowKeepsCells(g.adj, 6, built);
    g.AddVertex();
    GrowKeepsCells(g.adj, 7, built);
    g.AddVertex();
    GrowKeepsCells(g.adj, 8, built);
    g.AddVertex();
    RemovingVertexOne(g.adj);
    var removed := g.RemoveVertex(1);
    var shifted := map[(1, 2) := 1, (1, 3) := 1, (2, 4) := 1];
    WriteOneWay(Directed, g.adj, 8, shifted, 2, 3, 0);
    g.RemoveEdge(2, 3);
    m := g.adj;
  }

  /**
   * An undirected graph of 4 vertices on the path 0-1-2-3, grown by one
   * vertex: both directions of every edge are stored, and the new vertex is
   * isolated.
   */
  method UndirectedDemo() returns (m: Matrix)
    ensures Holds(m, 5, map[(0, 1) := 1, (1, 0) := 1, (1, 2) := 1,
                            (2, 1) := 1, (2, 3) := 1, (3, 2) := 1])
  {
    var g := new Graph(Undirected, 4);
    ZerosHoldNothing(4);
    WriteBothWays(g.adj, 4, map[], 0, 1, 1);
    g.AddEdge(0, 1);
    WriteBothWays(g.adj, 4, map[(0, 1) := 1, (1, 0) := 1], 1, 2, 1);
    g.AddEdge(1, 2);
    WriteBothWays(g.adj, 4, map[(0, 1) := 1, (1, 0) := 1, (1, 2) := 1, (2, 1) := 1], 2, 3, 1);
    g.AddEdge(2, 3);
    GrowKeepsCells(g.adj, 4, map[(0, 1) := 1, (1, 0) := 1, (1, 2) := 1,
                                 (2, 1) := 1, (2, 3) := 1, (3, 2) := 1]);
    g.AddVertex();
    m := g.adj;
  }

  /**
   * A weighted graph of 4 vertices with edges (0,1) of weight 5 and (2,3) of
   * weight 7, converted to adjacency lists.
   */
  method WeightedDemo() returns (lists: AdjList)
    ensures lists == [[(1, 5)], [], [(3, 7)], []]
  {
    var g := new Graph(Weighted, 4);
    ZerosHoldNothing(4);
    WriteOneWay(Weighted, g.adj, 4, map[], 0, 1, 5);
    g.AddEdge(0, 1, 5);
    WriteOneWay(Weighted, g.adj, 4, map[(0, 1) := 5], 2, 3, 7);
    g.AddEdge(2, 3, 7);
    lists := g.ConvToAdjList();
    WeightedDemoLists(g.adj);
  }

  /** The adjacency lists of the weighted demonstration graph. */
  lemma WeightedDemoLists(a: Matrix)
    requires Holds(a, 4, map[(0, 1) := 5, (2, 3) := 7])
    ensures AdjListOf(a) == [[(1, 5)], [], [(3, 7)], []]
  {
    SoleNeighbour(a[0], 4, 1);
    NoNeighbours(a[1], 4);
    SoleNeighbour(a[2], 4, 3);
    NoNeighbours(a[3], 4);
  }
}
