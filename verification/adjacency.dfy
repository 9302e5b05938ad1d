/**
 * The adjacency-list view of a matrix: for every vertex, the pairs
 * (neighbour, weight) of its nonzero cells, in increasing neighbour order.
 */
module AdjacencyLists {
  import opened Matrices

  type Edge = (int, int)
  type AdjList = seq<seq<Edge>>

  /** The pairs' first components strictly increase along l. */
  predicate Ascending(l: seq<Edge>) {
    forall a, b :: 0 <= a < b < |l| ==> l[a].0 < l[b].0
  }

  /**
   * The (neighbour, weight) pairs of the nonzero cells among the first k
   * cells of a row, scanned left to right.
   */
  function Neighbours(row: seq<int>, k: nat): (r: seq<Edge>)
    requires k <= |row|
    ensures forall e :: e in r <==> 0 <= e.0 < k && row[e.0] != 0 && e.1 == row[e.0]
    ensures |r| <= k
  {
    if k == 0 then []
    else
      var prefix := Neighbours(row, k - 1);
      if row[k - 1] != 0 then prefix + [(k - 1, row[k - 1])] else prefix
  }

  /** The adjacency list of the whole matrix, one list per row. */
  function AdjListOf(m: Matrix): (r: AdjList)
    requires IsSquare(m, |m|)
    ensures |r| == |m|
    ensures forall i, e :: 0 <= i < |m| ==>
              (e in r[i] <==> 0 <= e.0 < |m| && m[i][e.0] != 0 && e.1 == m[i][e.0])
    ensures forall i :: 0 <= i < |m| ==> Ascending(r[i])
  {
    var r := seq(|m|, i requires 0 <= i < |m| => Neighbours(m[i], |m|));
    assert forall i :: 0 <= i < |m| ==> Ascending(r[i]) by {
      forall i | 0 <= i < |m| ensures Ascending(r[i]) {
        NeighboursAscending(m[i], |m|);
      }
    }
    r
  }

  /** A row's list is in increasing neighbour order, as the left-to-right scan builds it. */
  lemma {:induction false} NeighboursAscending(row: seq<int>, k: nat)
    requires k <= |row|
    ensures Ascending(Neighbours(row, k))
  {
    if k > 0 {
      NeighboursAscending(row, k - 1);
    }
  }

  /** The weight a list records for neighbour j, or 0 when it records none. */
  function WeightOf(l: seq<Edge>, j: int): (r: int) {
    if l == [] then 0
    else if l[|l| - 1].0 == j then l[|l| - 1].1
    else WeightOf(l[..|l| - 1], j)
  }

  /** Rebuilds an n × n matrix from adjacency lists. */
  function FromAdjList(n: nat, lists: AdjList): (m: Matrix)
    requires |lists| == n
    ensures IsSquare(m, n)
  {
    seq(n, i requires 0 <= i < n => seq(n, j => WeightOf(lists[i], j)))
  }

  /** The list of a row's first k cells records exactly those cells' weights. */
  lemma {:induction false} WeightOfNeighbours(row: seq<int>, k: nat, j: int)
    requires k <= |row|
    ensures WeightOf(Neighbours(row, k), j) == if 0 <= j < k then row[j] else 0
  {
    if k > 0 {
      var prefix := Neighbours(row, k - 1);
      WeightOfNeighbours(row, k - 1, j);
      var l := Neighbours(row, k);
      if j == k - 1 {
        if row[k - 1] != 0 {
          assert l == prefix + [(k - 1, row[k - 1])];
        } else {
          assert l == prefix;
        }
      } else {
        if row[k - 1] != 0 {
          assert l == prefix + [(k - 1, row[k - 1])];
          assert l[..|l| - 1] == prefix;
        } else {
          assert l == prefix;
        }
        assert WeightOf(l, j) == WeightOf(prefix, j);
      }
    }
  }

  /**
   * The adjacency list loses nothing: the matrix can be rebuilt from it.
   */
  lemma AdjListIsLossless(m: Matrix)
    requires IsSquare(m, |m|)
    ensures FromAdjList(|m|, AdjListOf(m)) == m
  {
    var r := FromAdjList(|m|, AdjListOf(m));
    forall i | 0 <= i < |m|
      ensures r[i] == m[i]
    {
      forall j | 0 <= j < |m|
        ensures r[i][j] == m[i][j]
      {
        WeightOfNeighbours(m[i], |m|, j);
      }
    }
  }
}
