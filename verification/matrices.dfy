/**
 * The adjacency matrix behind every graph: an n × n table of integers in
 * which 0 means "no edge" and any other value is an edge of that weight.
 * This module holds the value-level meaning of the structural operations;
 * the class in module Graphs updates its matrix in place and is proved to
 * agree with these functions.
 */
module Matrices {

  type Matrix = seq<seq<int>>

  /** m has n rows, each of length n. */
  predicate IsSquare(m: Matrix, n: int) {
    |m| == n && forall r :: 0 <= r < |m| ==> |m[r]| == n
  }

  /** m is square and mirrors itself across the diagonal. */
  predicate IsSymmetric(m: Matrix) {
    IsSquare(m, |m|) &&
    forall i, j :: 0 <= i < |m| && 0 <= j < |m| ==> m[i][j] == m[j][i]
  }

  /** A row of n zeros: a vertex with no outgoing edges. */
  function ZeroRow(n: nat): (r: seq<int>)
    ensures |r| == n
    ensures forall j :: 0 <= j < n ==> r[j] == 0
  {
    seq(n, _ => 0)
  }

  /** The matrix of a graph with n vertices and no edges. */
  function Zeros(n: nat): (r: Matrix)
    ensures IsSquare(r, n)
    ensures forall i, j :: 0 <= i < n && 0 <= j < n ==> r[i][j] == 0
    ensures IsSymmetric(r)
  {
    seq(n, _ => ZeroRow(n))
  }

  /**
   * The matrix after one vertex is appended: every old cell keeps its value,
   * and the new last row and last column are zero.
   */
  function Grow(m: Matrix): (r: Matrix)
    requires IsSquare(m, |m|)
    ensures IsSquare(r, |m| + 1)
    ensures forall i, j :: 0 <= i < |m| && 0 <= j < |m| ==> r[i][j] == m[i][j]
    ensures forall k :: 0 <= k <= |m| ==> r[|m|][k] == 0 && r[k][|m|] == 0
    ensures IsSymmetric(m) ==> IsSymmetric(r)
  {
    var r := seq(|m| + 1, i requires 0 <= i < |m| + 1 =>
      if i < |m| then m[i] + [0] else ZeroRow(|m| + 1));
    assert forall i :: 0 <= i < |m| ==> r[i] == m[i] + [0];
    assert r[|m|] == ZeroRow(|m| + 1);
    r
  }

  /**
   * The old index of what is index i once index v has been removed: indices
   * below v stay put, the others move down by one.
   */
  function Skip(i: int, v: int): (r: int)
  {
    if i < v then i else i + 1
  }

  /** s without its element at index v; later elements shift down by one. */
  function RemoveAt<T>(s: seq<T>, v: nat): (r: seq<T>)
    requires v < |s|
    ensures |r| == |s| - 1
    ensures forall j :: 0 <= j < |r| ==> r[j] == s[Skip(j, v)]
  {
    s[..v] + s[v + 1..]
  }

  /**
   * The matrix after vertex v is removed: row v and column v disappear, and
   * the new cell (i, j) is the old cell (Skip(i, v), Skip(j, v)).
   */
  function Drop(m: Matrix, v: nat): (r: Matrix)
    requires IsSquare(m, |m|) && v < |m|
    ensures IsSquare(r, |m| - 1)
    ensures forall i, j :: 0 <= i < |m| - 1 && 0 <= j < |m| - 1 ==>
              r[i][j] == m[Skip(i, v)][Skip(j, v)]
    ensures IsSymmetric(m) ==> IsSymmetric(r)
  {
    var rows := RemoveAt(m, v);
    seq(|rows|, i requires 0 <= i < |rows| => RemoveAt(rows[i], v))
  }

  /** The matrix with the single cell (u, v) set to w. */
  function Put(m: Matrix, u: nat, v: nat, w: int): (r: Matrix)
    requires IsSquare(m, |m|) && u < |m| && v < |m|
    ensures IsSquare(r, |m|)
    ensures r[u][v] == w
    ensures forall i, j :: 0 <= i < |m| && 0 <= j < |m| && (i != u || j != v) ==>
              r[i][j] == m[i][j]
  {
    m[u := m[u][v := w]]
  }

  /**
   * Appending a vertex and then removing the last vertex gives back the
   * matrix exactly.
   */
  lemma GrowThenDropLast(m: Matrix)
    requires IsSquare(m, |m|)
    ensures Drop(Grow(m), |m|) == m
  {
    var r := Drop(Grow(m), |m|);
    assert |r| == |m|;
    forall i | 0 <= i < |m|
      ensures r[i] == m[i]
    {
      assert |r[i]| == |m[i]|;
      forall j | 0 <= j < |m|
        ensures r[i][j] == m[i][j]
      {
        assert Skip(i, |m|) == i && Skip(j, |m|) == j;
      }
    }
  }

  /**
   * Removing any vertex other than the last one after an append is not a
   * round trip: the vertices after it are renumbered, and the new empty
   * vertex survives as the last one.
   */
  lemma GrowThenDropKeepsNewVertex(m: Matrix, v: nat)
    requires IsSquare(m, |m|) && v < |m|
    ensures Drop(Grow(m), v) == Grow(Drop(m, v))
  {
    var a := Drop(Grow(m), v);
    var b := Grow(Drop(m, v));
    forall i | 0 <= i < |m|
      ensures a[i] == b[i]
    {
      forall j | 0 <= j < |m|
        ensures a[i][j] == b[i][j]
      {
        GrowThenDropCell(m, v, i, j);
      }
    }
  }

  /** One cell of GrowThenDropKeepsNewVertex. */
  lemma GrowThenDropCell(m: Matrix, v: nat, i: nat, j: nat)
    requires IsSquare(m, |m|) && v < |m| && i < |m| && j < |m|
    ensures Drop(Grow(m), v)[i][j] == Grow(Drop(m, v))[i][j]
  {
  }
}
