/**
 * Graphs over an adjacency matrix. The three concrete graph classes of the
 * library differ only in how they write an edge, so one class carries a
 * Kind tag that selects the edge policy; vertex operations are shared.
 */
module Graphs {
  import opened Matrices
  import opened AdjacencyLists

  /** The concrete graph classes, each with its own edge policy. */
  datatype Kind = Directed | Undirected | Weighted

  /** The two exceptions the vertex operations raise. */
  datatype GraphError = InvalidArgument | OutOfRange

  datatype Result<T> = Success(value: T) | Failure(error: GraphError)

  datatype Outcome = Pass | Fail(error: GraphError)

  /** Both endpoints are vertices of a graph with n vertices. */
  predicate InRange(u: int, v: int, n: int) {
    0 <= u < n && 0 <= v < n
  }

  /**
   * Cell (i, j) is one an edge write (u, v) of this kind stores into: the
   * cell (u, v) itself and, for an undirected graph, its mirror (v, u).
   */
  predicate Touches(kind: Kind, u: int, v: int, i: int, j: int) {
    (i == u && j == v) || (kind == Undirected && i == v && j == u)
  }

  /**
   * The matrix after an edge (u, v) of weight w is written under the edge
   * policy of kind: every touched cell becomes w and nothing else changes;
   * an endpoint out of range leaves the matrix as it was, with no error.
   * Removing an edge is writing weight 0.
   */
  function EdgeWrite(kind: Kind, m: Matrix, u: int, v: int, w: int): (r: Matrix)
    requires IsSquare(m, |m|)
    ensures IsSquare(r, |m|)
    ensures !InRange(u, v, |m|) ==> r == m
    ensures forall i, j :: 0 <= i < |m| && 0 <= j < |m| ==>
              r[i][j] == if InRange(u, v, |m|) && Touches(kind, u, v, i, j) then w else m[i][j]
    ensures kind == Undirected && IsSymmetric(m) ==> IsSymmetric(r)
  {
    if !InRange(u, v, |m|) then m
    else if kind == Undirected then Put(Put(m, u, v, w), v, u, w)
    else Put(m, u, v, w)
  }

  /**
   * Removing an edge that was added to empty cells puts the matrix back as
   * it was.
   */
  lemma RemoveUndoesAdd(kind: Kind, m: Matrix, u: int, v: int, w: int)
    requires IsSquare(m, |m|)
    requires InRange(u, v, |m|) ==> m[u][v] == 0 && (kind == Undirected ==> m[v][u] == 0)
    ensures EdgeWrite(kind, EdgeWrite(kind, m, u, v, w), u, v, 0) == m
  {
    var r := EdgeWrite(kind, EdgeWrite(kind, m, u, v, w), u, v, 0);
    assert |r| == |m|;
    forall i | 0 <= i < |m|
      ensures r[i] == m[i]
    {
      assert |r[i]| == |m[i]|;
      forall j | 0 <= j < |m|
        ensures r[i][j] == m[i][j]
      {
      }
    }
  }

  /**
   * A directed or weighted graph stores the two directions of a pair of
   * vertices independently: writing (i, j) and then (j, i) leaves each with
   * its own weight.
   */
  lemma OneWayEdgesAreIndependent(kind: Kind, m: Matrix, i: int, j: int, w: int, w2: int)
    requires kind != Undirected && IsSquare(m, |m|)
    requires InRange(i, j, |m|) && i != j
    ensures var r := EdgeWrite(kind, EdgeWrite(kind, m, i, j, w), j, i, w2);
            r[i][j] == w && r[j][i] == w2
  {
  }

  class Graph {
    const kind: Kind
    var n: int
    var adj: Matrix

    /** The vertex count matches the square matrix; undirected graphs stay symmetric. */
    ghost predicate Valid()
      reads this
    {
      n >= 0 && IsSquare(adj, n) && (kind == Undirected ==> IsSymmetric(adj))
    }

    /** A graph of v vertices and no edges. */
    constructor (kind: Kind, v: nat)
      ensures Valid()
      ensures this.kind == kind && n == v && adj == Zeros(v)
    {
      this.kind := kind;
      n := v;
      adj := Zeros(v);
    }

    /**
     * Construction with a possibly negative vertex count: a negative count
     * is rejected with InvalidArgument.
     */
    static method Create(kind: Kind, v: int) returns (r: Result<Graph>)
      ensures r.Failure? <==> v < 0
      ensures r.Failure? ==> r.error == InvalidArgument
      ensures r.Success? ==> fresh(r.value) && r.value.Valid() && r.value.kind == kind
      ensures r.Success? ==> r.value.n == v && r.value.adj == Zeros(v)
    {
      if v < 0 {
        return Failure(InvalidArgument);
      }
      var g := new Graph(kind, v);
      return Success(g);
    }

    /** Appends a vertex with no edges; it gets the index old(n). */
    method AddVertex()
      requires Valid()
      modifies this
      ensures Valid()
      ensures n == old(n) + 1 && adj == Grow(old(adj))
    {
      n := n + 1;
      var i := 0;
      while i < |adj|
        invariant 0 <= i <= |adj| == old(|adj|) && n == old(n) + 1
        invariant forall k :: 0 <= k < i ==> adj[k] == old(adj)[k] + [0]
        invariant forall k :: i <= k < |adj| ==> adj[k] == old(adj)[k]
      {
        adj := adj[i := adj[i] + [0]];
        i := i + 1;
      }
      adj := adj + [ZeroRow(n)];
      assert adj == Grow(old(adj));
    }

    /**
     * Removes vertex v with its row and its column; the vertices after it
     * are renumbered down by one. An index outside [0, n) fails with
     * OutOfRange before anything changes.
     */
    method RemoveVertex(v: int) returns (r: Outcome)
      requires Valid()
      modifies this
      ensures Valid()
      ensures r.Fail? <==> !(0 <= v < old(n))
      ensures r.Fail? ==> r.error == OutOfRange && n == old(n) && adj == old(adj)
      ensures r.Pass? ==> n == old(n) - 1 && adj == Drop(old(adj), v)
    {
      if v < 0 || v >= n {
        return Fail(OutOfRange);
      }
      adj := adj[..v] + adj[v + 1..];
      n := n - 1;
      var i := 0;
      while i < |adj|
        invariant 0 <= i <= |adj| == n == old(n) - 1
        invariant forall k :: 0 <= k < i ==> adj[k] == RemoveAt(RemoveAt(old(adj), v)[k], v)
        invariant forall k :: i <= k < |adj| ==> adj[k] == RemoveAt(old(adj), v)[k]
      {
        adj := adj[i := adj[i][..v] + adj[i][v + 1..]];
        i := i + 1;
      }
      assert adj == Drop(old(adj), v);
      return Pass;
    }

    /**
     * Adds the edge (u, v) of weight w under this graph's edge policy; an
     * endpoint out of range is silently ignored.
     */
    method AddEdge(u: int, v: int, w: int := 1)
      requires Valid()
      modifies this
      ensures Valid()
      ensures n == old(n) && adj == EdgeWrite(kind, old(adj), u, v, w)
    {
      if u >= 0 && v >= 0 && u < n && v < n {
        adj := adj[u := adj[u][v := w]];
        if kind == Undirected {
          adj := adj[v := adj[v][u := w]];
        }
      }
    }

    /**
     * Removes the edge (u, v) under this graph's edge policy; an endpoint
     * out of range is silently ignored.
     */
    method RemoveEdge(u: int, v: int)
      requires Valid()
      modifies this
      ensures Valid()
      ensures n == old(n) && adj == EdgeWrite(kind, old(adj), u, v, 0)
    {
      if u >= 0 && v >= 0 && u < n && v < n {
        adj := adj[u := adj[u][v := 0]];
        if kind == Undirected {
          adj := adj[v := adj[v][u := 0]];
        }
      }
    }

    /**
     * The adjacency list of the graph, built by a row-major scan; the graph
     * is not changed.
     */
    method ConvToAdjList() returns (lists: AdjList)
      requires Valid()
      ensures lists == AdjListOf(adj)
    {
      lists := seq(n, _ => []);
      var i := 0;
      while i < n
        invariant 0 <= i <= n == |lists|
        invariant forall k :: 0 <= k < i ==> lists[k] == Neighbours(adj[k], n)
        invariant forall k :: i <= k < n ==> lists[k] == []
      {
        ghost var before := lists;
        var j := 0;
        while j < n
          invariant 0 <= j <= n == |lists|
          invariant lists[i] == Neighbours(adj[i], j)
          invariant forall k :: 0 <= k < n && k != i ==> lists[k] == before[k]
        {
          if adj[i][j] != 0 {
            lists := lists[i := lists[i] + [(j, adj[i][j])]];
          }
          j := j + 1;
        }
        i := i + 1;
      }
    }
  }
}
