/**
 * The three tests a candidate edge sequence must pass (`is_matching`,
 * `is_induced` and `is_dominating` in dim.py), each as a predicate stating
 * what the test means and a method running the source's loop.
 */
module Validators {
  import opened Graphs

  /** Two edges have an endpoint in common. */
  predicate ShareVertex(e: Edge, f: Edge)
  {
    e.u == f.u || e.u == f.v || e.v == f.u || e.v == f.v
  }

  /** Every endpoint of every edge of `m`. */
  function Endpoints(m: seq<Edge>): (s: set<nat>)
    ensures forall x :: x in s <==> exists i :: 0 <= i < |m| && (m[i].u == x || m[i].v == x)
  {
    if m == [] then {}
    else
      var init := m[..|m| - 1];
      assert forall i :: 0 <= i < |init| ==> init[i] == m[i];
      Endpoints(init) + {m[|m| - 1].u, m[|m| - 1].v}
  }

  // ---------------------------------------------------------------------------
  // Matching
  // ---------------------------------------------------------------------------

  /** No vertex is an endpoint of two different positions of the candidate. */
  predicate IsMatching(m: seq<Edge>)
  {
    forall i, j :: 0 <= i < j < |m| ==> !ShareVertex(m[i], m[j])
  }

  /** One step of the loop: the next edge may be added iff neither endpoint has been used. */
  lemma MatchingExtend(m: seq<Edge>, e: Edge)
    ensures IsMatching(m + [e]) <==> IsMatching(m) && e.u !in Endpoints(m) && e.v !in Endpoints(m)
  {
    var me := m + [e];
    assert forall i :: 0 <= i < |m| ==> me[i] == m[i];
    assert me[|m|] == e;
    if IsMatching(me) {
      forall i | 0 <= i < |m| ensures !ShareVertex(m[i], e) {
        assert !ShareVertex(me[i], me[|m|]);
      }
    }
  }

  /** `is_matching`: grow the set of used vertices, failing at the first edge that reuses one. */
  method CheckMatching(matching: seq<Edge>) returns (ok: bool)
    ensures ok == IsMatching(matching)
  {
    var usedVertices: set<nat> := {};
    var k := 0;
    while k < |matching|
      invariant 0 <= k <= |matching|
      invariant usedVertices == Endpoints(matching[..k])
      invariant IsMatching(matching[..k])
    {
      var e := matching[k];
      assert matching[..k + 1] == matching[..k] + [e];
      MatchingExtend(matching[..k], e);
      if e.u in usedVertices || e.v in usedVertices {
        assert !IsMatching(matching[..k + 1]);
        MatchingPrefix(matching, k + 1);
        return false;
      }
      usedVertices := usedVertices + {e.u};
      usedVertices := usedVertices + {e.v};
      k := k + 1;
    }
    assert matching[..k] == matching;
    return true;
  }

  /** A prefix of a matching is a matching. */
  lemma MatchingPrefix(m: seq<Edge>, k: nat)
    requires k <= |m|
    ensures IsMatching(m) ==> IsMatching(m[..k])
  {
    if IsMatching(m) {
      var p := m[..k];
      forall i, j | 0 <= i < j < |p| ensures !ShareVertex(p[i], p[j]) {
        assert p[i] == m[i] && p[j] == m[j];
      }
    }
  }

  /** Candidates of at most one edge pass both the matching and the induced test. */
  lemma SmallCandidates(m: seq<Edge>, adj: seq<seq<int>>)
    requires |m| <= 1 && IsSquare(adj) && VerticesBelow(m, |adj|)
    ensures IsMatching(m) && IsInduced(m, adj)
  {
  }

  // ---------------------------------------------------------------------------
  // Induced
  // ---------------------------------------------------------------------------

  /** Every endpoint of `m` is a row and column index of an n-by-n matrix. */
  predicate VerticesBelow(m: seq<Edge>, n: nat)
  {
    forall k :: 0 <= k < |m| ==> m[k].u < n && m[k].v < n
  }

  /** One of the four entries between an endpoint of `e` and an endpoint of `f` is 1. */
  predicate CrossAdjacent(e: Edge, f: Edge, adj: seq<seq<int>>)
    requires IsSquare(adj) && e.u < |adj| && e.v < |adj| && f.u < |adj| && f.v < |adj|
  {
    adj[e.u][f.u] == 1 || adj[e.u][f.v] == 1 || adj[e.v][f.u] == 1 || adj[e.v][f.v] == 1
  }

  /** No earlier edge of the candidate is cross-adjacent to a later one. */
  predicate IsInduced(m: seq<Edge>, adj: seq<seq<int>>)
    requires IsSquare(adj) && VerticesBelow(m, |adj|)
  {
    forall i, j :: 0 <= i < j < |m| ==> !CrossAdjacent(m[i], m[j], adj)
  }

  /** `is_induced`: test every pair i < j for the four cross entries, returning at the first hit. */
  method CheckInduced(matching: seq<Edge>, adj: seq<seq<int>>) returns (ok: bool)
    requires IsSquare(adj) && VerticesBelow(matching, |adj|)
    ensures ok == IsInduced(matching, adj)
  {
    var i := 0;
    while i < |matching|
      invariant 0 <= i <= |matching|
      invariant forall a, b :: 0 <= a < i && a < b < |matching| ==> !CrossAdjacent(matching[a], matching[b], adj)
    {
      var u1, v1 := matching[i].u, matching[i].v;
      var j := i + 1;
      while j < |matching|
        invariant i + 1 <= j <= |matching|
        invariant forall b :: i < b < j ==> !CrossAdjacent(matching[i], matching[b], adj)
      {
        var u2, v2 := matching[j].u, matching[j].v;
        if adj[u1][u2] == 1 {
          return false;
        }
        if adj[u1][v2] == 1 {
          return false;
        }
        if adj[v1][u2] == 1 {
          return false;
        }
        if adj[v1][v2] == 1 {
          return false;
        }
        j := j + 1;
      }
      i := i + 1;
    }
    return true;
  }

  /** The matrix equals its transpose. */
  predicate IsSymmetric(adj: seq<seq<int>>)
    requires IsSquare(adj)
  {
    forall i, j :: 0 <= i < |adj| && 0 <= j < |adj| ==> adj[i][j] == adj[j][i]
  }

  /** Every edge of the graph with both endpoints among those of `m` is itself in `m`. */
  ghost predicate NoExtraEdges(adj: seq<seq<int>>, m: seq<Edge>)
    requires IsSquare(adj)
  {
    forall f :: f in Edges(adj) && f.u in Endpoints(m) && f.v in Endpoints(m) ==> f in m
  }

  /** The edge of the graph joining x and y, written with its smaller endpoint first. */
  function Join(x: nat, y: nat): Edge
  {
    if x < y then Edge(x, y) else Edge(y, x)
  }

  /** Under the no-extra-edges condition, an endpoint of m[i] and one of m[j] (i != j) are not adjacent. */
  lemma NoCrossEntry(adj: seq<seq<int>>, m: seq<Edge>, i: nat, j: nat, x: nat, y: nat)
    requires IsSquare(adj) && IsSymmetric(adj) && IsMatching(m) && NoExtraEdges(adj, m)
    requires i < |m| && j < |m| && i != j
    requires x == m[i].u || x == m[i].v
    requires y == m[j].u || y == m[j].v
    requires x < |adj| && y < |adj|
    ensures adj[x][y] != 1
  {
    if adj[x][y] == 1 {
      assert x != y by {
        if i < j { assert !ShareVertex(m[i], m[j]); } else { assert !ShareVertex(m[j], m[i]); }
      }
      var f := Join(x, y);
      EdgesMembership(adj, f);
    }
  }

  /** A graph edge between endpoints of a matching that passes the test is one of its edges. */
  lemma InducedEdgeInMatching(adj: seq<seq<int>>, m: seq<Edge>, f: Edge)
    requires IsSquare(adj) && IsSymmetric(adj) && VerticesBelow(m, |adj|) && IsInduced(m, adj)
    requires forall k :: 0 <= k < |m| ==> m[k].u < m[k].v
    requires f in Edges(adj) && f.u in Endpoints(m) && f.v in Endpoints(m)
    ensures f in m
  {
    EdgesMembership(adj, f);
    var i :| 0 <= i < |m| && (m[i].u == f.u || m[i].v == f.u);
    var j :| 0 <= j < |m| && (m[j].u == f.v || m[j].v == f.v);
    if i < j {
      assert false;
    } else if j < i {
      assert false;
    } else {
      assert f == m[i];
    }
  }

  /**
   * For a symmetric matrix and a matching drawn from its edges, the test of
   * `is_induced` means the textbook condition: the endpoints of the matching
   * span no edge of the graph besides the matching's own.
   */
  lemma InducedMeaning(adj: seq<seq<int>>, m: seq<Edge>)
    requires IsSquare(adj) && IsSymmetric(adj) && IsMatching(m)
    requires forall k :: 0 <= k < |m| ==> m[k] in Edges(adj)
    ensures VerticesBelow(m, |adj|)
    ensures IsInduced(m, adj) <==> NoExtraEdges(adj, m)
  {
    assert forall k :: 0 <= k < |m| ==> m[k].u < m[k].v < |adj|;
    if IsInduced(m, adj) {
      forall f | f in Edges(adj) && f.u in Endpoints(m) && f.v in Endpoints(m) ensures f in m {
        InducedEdgeInMatching(adj, m, f);
      }
    }
    if NoExtraEdges(adj, m) {
      forall i, j | 0 <= i < j < |m| ensures !CrossAdjacent(m[i], m[j], adj) {
        NoCrossEntry(adj, m, i, j, m[i].u, m[j].u);
        NoCrossEntry(adj, m, i, j, m[i].u, m[j].v);
        NoCrossEntry(adj, m, i, j, m[i].v, m[j].u);
        NoCrossEntry(adj, m, i, j, m[i].v, m[j].v);
      }
    }
  }

  // ---------------------------------------------------------------------------
  // Dominating
  // ---------------------------------------------------------------------------

  /** The same edge with its endpoints swapped. */
  function Flip(e: Edge): Edge
  {
    Edge(e.v, e.u)
  }

  /** How many positions of `m` hold an edge sharing a vertex with `e`. */
  function TouchCount(e: Edge, m: seq<Edge>): (c: nat)
    ensures c <= |m|
  {
    if m == [] then 0
    else TouchCount(e, m[..|m| - 1]) + (if ShareVertex(e, m[|m| - 1]) then 1 else 0)
  }

  /** An edge of the graph is fine if it belongs to the candidate (either way round) or is touched exactly once. */
  predicate Dominated(e: Edge, m: seq<Edge>)
  {
    e in m || Flip(e) in m || TouchCount(e, m) == 1
  }

  predicate IsDominating(m: seq<Edge>, edges: seq<Edge>)
  {
    forall k :: 0 <= k < |edges| ==> Dominated(edges[k], m)
  }

  /** `is_dominating`: skip the candidate's own edges, count the touches of every other edge, fail unless it is 1. */
  method CheckDominating(matching: seq<Edge>, edges: seq<Edge>) returns (ok: bool)
    ensures ok == IsDominating(matching, edges)
  {
    var matchingSet := set k | 0 <= k < |matching| :: matching[k];
    var k := 0;
    while k < |edges|
      invariant 0 <= k <= |edges|
      invariant forall q :: 0 <= q < k ==> Dominated(edges[q], matching)
    {
      var e := edges[k];
      if e in matchingSet || Flip(e) in matchingSet {
        k := k + 1;
        continue;
      }
      var dominatedCount := 0;
      var j := 0;
      while j < |matching|
        invariant 0 <= j <= |matching|
        invariant dominatedCount == TouchCount(e, matching[..j])
      {
        assert matching[..j + 1][..j] == matching[..j];
        if ShareVertex(e, matching[j]) {
          dominatedCount := dominatedCount + 1;
        }
        j := j + 1;
      }
      assert matching[..j] == matching;
      if dominatedCount != 1 {
        return false;
      }
      k := k + 1;
    }
    return true;
  }

  /** No touch at all: no position of `m` shares a vertex with `e`. */
  lemma {:induction false} NoTouch(e: Edge, m: seq<Edge>)
    ensures TouchCount(e, m) == 0 <==> forall j :: 0 <= j < |m| ==> !ShareVertex(e, m[j])
  {
    if m != [] {
      var init := m[..|m| - 1];
      NoTouch(e, init);
      assert forall j :: 0 <= j < |init| ==> init[j] == m[j];
    }
  }

  /** Position i of `m` touches `e` and no other position does. */
  predicate TouchedOnlyAt(e: Edge, m: seq<Edge>, i: nat)
    requires i < |m|
  {
    ShareVertex(e, m[i]) && forall j :: 0 <= j < |m| && j != i ==> !ShareVertex(e, m[j])
  }

  /** The count is 1 exactly when one position of `m` touches `e` and no other does. */
  lemma {:induction false} ExactlyOneTouch(e: Edge, m: seq<Edge>)
    ensures TouchCount(e, m) == 1 <==> exists i: nat :: i < |m| && TouchedOnlyAt(e, m, i)
  {
    if m != [] {
      var last := |m| - 1;
      var init := m[..last];
      assert forall j :: 0 <= j < |init| ==> init[j] == m[j];
      ExactlyOneTouch(e, init);
      NoTouch(e, init);
      if TouchCount(e, m) == 1 {
        if ShareVertex(e, m[last]) {
          assert TouchedOnlyAt(e, m, last);
        } else {
          var i: nat :| i < |init| && TouchedOnlyAt(e, init, i);
          assert TouchedOnlyAt(e, m, i);
        }
      }
      if exists i: nat :: i < |m| && TouchedOnlyAt(e, m, i) {
        var i: nat :| i < |m| && TouchedOnlyAt(e, m, i);
        if i == last {
          assert forall j :: 0 <= j < |init| ==> !ShareVertex(e, init[j]);
        } else {
          assert TouchedOnlyAt(e, init, i);
        }
      }
    }
  }
}
