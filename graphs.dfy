/**
 * Graphs given as adjacency matrices, and the edge list the engine derives
 * from them (`get_edges` in dim.py).
 */
module Graphs {

  /** An edge as the engine stores it: the pair (u, v) of its endpoints. */
  datatype Edge = Edge(u: nat, v: nat)

  /** An n-by-n matrix: n rows of n integer entries. */
  predicate IsSquare(adj: seq<seq<int>>)
  {
    forall i :: 0 <= i < |adj| ==> |adj[i]| == |adj|
  }

  /** Lexicographic order on edges: first by u, then by v. */
  predicate EdgeLess(e: Edge, f: Edge)
  {
    e.u < f.u || (e.u == f.u && e.v < f.v)
  }

  predicate StrictlyIncreasing(s: seq<Edge>)
  {
    forall a, b :: 0 <= a < b < |s| ==> EdgeLess(s[a], s[b])
  }

  /** The edges (i, k) with i < k < j and adj[i][k] == 1, by increasing k. */
  function RowEdges(adj: seq<seq<int>>, i: nat, j: nat): (r: seq<Edge>)
    requires IsSquare(adj) && i < |adj| && j <= |adj|
    ensures forall k :: 0 <= k < |r| ==> r[k].u == i && i < r[k].v < j
  {
    if j <= i + 1 then []
    else if adj[i][j - 1] == 1 then RowEdges(adj, i, j - 1) + [Edge(i, j - 1)]
    else RowEdges(adj, i, j - 1)
  }

  /** The upper-triangle edges of rows 0 .. i-1, row by row. */
  function EdgesBelow(adj: seq<seq<int>>, i: nat): (r: seq<Edge>)
    requires IsSquare(adj) && i <= |adj|
    ensures forall k :: 0 <= k < |r| ==> r[k].u < i && r[k].u < r[k].v < |adj|
  {
    if i == 0 then [] else EdgesBelow(adj, i - 1) + RowEdges(adj, i - 1, |adj|)
  }

  /** The edge list of the graph, in the order `get_edges` produces it. */
  function Edges(adj: seq<seq<int>>): (r: seq<Edge>)
    requires IsSquare(adj)
    ensures forall k :: 0 <= k < |r| ==> r[k].u < r[k].v < |adj|
  {
    EdgesBelow(adj, |adj|)
  }

  /** `get_edges`: scan the upper triangle row by row, appending every (i, j) whose entry is 1. */
  method GetEdges(adj: seq<seq<int>>) returns (edges: seq<Edge>)
    requires IsSquare(adj)
    ensures edges == Edges(adj)
  {
    var n := |adj|;
    edges := [];
    var i := 0;
    while i < n
      invariant 0 <= i <= n
      invariant edges == EdgesBelow(adj, i)
    {
      edges := ScanRow(adj, i, edges);
      EdgesBelowStep(adj, i + 1);
      i := i + 1;
    }
  }

  /** The inner loop of `get_edges`: append the edges (i, j) of row i with i < j, by increasing j. */
  method ScanRow(adj: seq<seq<int>>, i: nat, done: seq<Edge>) returns (edges: seq<Edge>)
    requires IsSquare(adj) && i < |adj|
    ensures edges == done + RowEdges(adj, i, |adj|)
  {
    edges := done;
    var j := i + 1;
    while j < |adj|
      invariant i + 1 <= j <= |adj|
      invariant edges == done + RowEdges(adj, i, j)
    {
      ExtendRow(adj, i, j, done, edges);
      if adj[i][j] == 1 {
        edges := edges + [Edge(i, j)];
      }
      j := j + 1;
    }
  }

  /** One more row adds that row's edges at the end. */
  lemma EdgesBelowStep(adj: seq<seq<int>>, i: nat)
    requires IsSquare(adj) && 0 < i <= |adj|
    ensures EdgesBelow(adj, i) == EdgesBelow(adj, i - 1) + RowEdges(adj, i - 1, |adj|)
  {
  }

  /** One more column of row i appends the edge (i, j) exactly when its entry is 1. */
  lemma ExtendRow(adj: seq<seq<int>>, i: nat, j: nat, done: seq<Edge>, edges: seq<Edge>)
    requires IsSquare(adj) && i < j < |adj|
    requires edges == done + RowEdges(adj, i, j)
    ensures (if adj[i][j] == 1 then edges + [Edge(i, j)] else edges) == done + RowEdges(adj, i, j + 1)
  {
    if adj[i][j] == 1 {
      assert RowEdges(adj, i, j + 1) == RowEdges(adj, i, j) + [Edge(i, j)];
    }
  }

  lemma {:induction false} RowEdgesMembership(adj: seq<seq<int>>, i: nat, j: nat, e: Edge)
    requires IsSquare(adj) && i < |adj| && j <= |adj|
    ensures e in RowEdges(adj, i, j) <==> e.u == i && i < e.v < j && adj[i][e.v] == 1
  {
    if j > i + 1 {
      RowEdgesMembership(adj, i, j - 1, e);
    }
  }

  lemma {:induction false} EdgesBelowMembership(adj: seq<seq<int>>, i: nat, e: Edge)
    requires IsSquare(adj) && i <= |adj|
    ensures e in EdgesBelow(adj, i) <==> e.u < i && e.u < e.v < |adj| && adj[e.u][e.v] == 1
  {
    if i > 0 {
      var a, b := EdgesBelow(adj, i - 1), RowEdges(adj, i - 1, |adj|);
      assert EdgesBelow(adj, i) == a + b;
      EdgesBelowMembership(adj, i - 1, e);
      RowEdgesMembership(adj, i - 1, |adj|, e);
      assert e in a + b <==> e in a || e in b;
    }
  }

  /** An edge is listed exactly when it lies strictly above the diagonal and its entry is 1. */
  lemma EdgesMembership(adj: seq<seq<int>>, e: Edge)
    requires IsSquare(adj)
    ensures e in Edges(adj) <==> e.u < e.v < |adj| && adj[e.u][e.v] == 1
  {
    EdgesBelowMembership(adj, |adj|, e);
  }

  lemma {:induction false} RowEdgesSorted(adj: seq<seq<int>>, i: nat, j: nat)
    requires IsSquare(adj) && i < |adj| && j <= |adj|
    ensures StrictlyIncreasing(RowEdges(adj, i, j))
  {
    if j > i + 1 {
      RowEdgesSorted(adj, i, j - 1);
    }
  }

  lemma {:induction false} EdgesBelowSorted(adj: seq<seq<int>>, i: nat)
    requires IsSquare(adj) && i <= |adj|
    ensures StrictlyIncreasing(EdgesBelow(adj, i))
  {
    if i > 0 {
      EdgesBelowSorted(adj, i - 1);
      RowEdgesSorted(adj, i - 1, |adj|);
      var a, b := EdgesBelow(adj, i - 1), RowEdges(adj, i - 1, |adj|);
      assert EdgesBelow(adj, i) == a + b;
      assert forall x, y :: 0 <= x < |a| && 0 <= y < |b| ==> EdgeLess(a[x], b[y]);
    }
  }

  /** The edge list is strictly increasing in (u, v), hence free of duplicates. */
  lemma EdgesSorted(adj: seq<seq<int>>)
    requires IsSquare(adj)
    ensures StrictlyIncreasing(Edges(adj))
    ensures forall a, b :: 0 <= a < b < |Edges(adj)| ==> Edges(adj)[a] != Edges(adj)[b]
  {
    EdgesBelowSorted(adj, |adj|);
  }

  /** Two matrices of the same size that agree strictly above the diagonal. */
  predicate SameUpperTriangle(adj1: seq<seq<int>>, adj2: seq<seq<int>>)
    requires IsSquare(adj1) && IsSquare(adj2)
  {
    |adj1| == |adj2| && forall i, j :: 0 <= i < j < |adj1| ==> adj1[i][j] == adj2[i][j]
  }

  /** Edges ordered by `EdgeLess` are equal or ordered one way or the other. */
  lemma EdgeLessTotal(e: Edge, f: Edge)
    ensures e == f || EdgeLess(e, f) || EdgeLess(f, e)
  {
  }

  /** Two strictly increasing lists with the same elements are the same list. */
  lemma {:induction false} SortedUnique(a: seq<Edge>, b: seq<Edge>)
    requires StrictlyIncreasing(a) && StrictlyIncreasing(b)
    requires forall e :: e in a <==> e in b
    ensures a == b
  {
    if a != [] {
      assert a[0] in b;
    }
    if b != [] {
      assert b[0] in a;
    }
    if a != [] && b != [] {
      EdgeLessTotal(a[0], b[0]);
      assert a[0] == b[0];
      forall e ensures e in a[1..] <==> e in b[1..] {
        assert e in a[1..] <==> e in a && e != a[0];
        assert e in b[1..] <==> e in b && e != b[0];
      }
      SortedUnique(a[1..], b[1..]);
      assert a == [a[0]] + a[1..];
      assert b == [b[0]] + b[1..];
    }
  }

  /** The diagonal and the lower triangle are never read. */
  lemma EdgesReadUpperTriangleOnly(adj1: seq<seq<int>>, adj2: seq<seq<int>>)
    requires IsSquare(adj1) && IsSquare(adj2) && SameUpperTriangle(adj1, adj2)
    ensures Edges(adj1) == Edges(adj2)
  {
    forall e ensures e in Edges(adj1) <==> e in Edges(adj2) {
      EdgesMembership(adj1, e);
      EdgesMembership(adj2, e);
    }
    EdgesSorted(adj1);
    EdgesSorted(adj2);
    SortedUnique(Edges(adj1), Edges(adj2));
  }
}
