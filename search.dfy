/**
 * `has_DIM` in dim.py: try the edge subsets of 1, 2, ..., m edges, each size
 * in the order `itertools.combinations` yields them, and return the first one
 * that passes the matching, induced and dominating tests.
 */
module Search {
  import opened Wrappers
  import opened Graphs
  import opened Validators
  import opened Combinations

  /** The candidate the index tuple `c` picks from the edge list, in list order. */
  function Select(edges: seq<Edge>, c: seq<nat>): seq<Edge>
    requires IsComb(c, |edges|)
  {
    seq(|c|, k requires 0 <= k < |c| => edges[c[k]])
  }

  /** The candidate passes all three tests of the search loop. */
  predicate Passes(adj: seq<seq<int>>, w: seq<Edge>)
    requires IsSquare(adj) && VerticesBelow(w, |adj|)
  {
    IsMatching(w) && IsInduced(w, adj) && IsDominating(w, Edges(adj))
  }

  /** `c` is a non-empty subset of the edge indices whose candidate passes. */
  predicate Admissible(adj: seq<seq<int>>, c: seq<nat>)
    requires IsSquare(adj)
  {
    IsComb(c, |Edges(adj)|) && 1 <= |c| && Passes(adj, Select(Edges(adj), c))
  }

  /** The search tries `d` before `c`: fewer edges, or as many and lexicographically earlier. */
  ghost predicate TriedBefore(d: seq<nat>, c: seq<nat>)
  {
    |d| < |c| || (|d| == |c| && LexLess(d, c))
  }

  /** `c` passes and nothing the search tries before it does. */
  ghost predicate IsFirstAdmissible(adj: seq<seq<int>>, c: seq<nat>)
    requires IsSquare(adj)
  {
    Admissible(adj, c) && forall d :: TriedBefore(d, c) ==> !Admissible(adj, d)
  }

  ghost predicate IsFirstWitness(adj: seq<seq<int>>, w: seq<Edge>)
    requires IsSquare(adj)
  {
    exists c :: IsFirstAdmissible(adj, c) && w == Select(Edges(adj), c)
  }

  /** No non-empty subset of the edge list passes. */
  ghost predicate NoWitness(adj: seq<seq<int>>)
    requires IsSquare(adj)
  {
    forall c :: !Admissible(adj, c)
  }

  /** What `has_DIM` promises about its pair (found, matching). */
  ghost predicate SearchOutcome(adj: seq<seq<int>>, found: bool, matching: Option<seq<Edge>>)
    requires IsSquare(adj)
  {
    found == matching.Some? &&
    (found ==> IsFirstWitness(adj, matching.value)) &&
    (!found ==> NoWitness(adj))
  }

  /** Everything the generator has not reached yet lies at or after the current tuple. */
  lemma BelowNext(c: seq<nat>, m: nat, d: seq<nat>)
    requires IsComb(c, m) && IsComb(d, m) && |d| == |c|
    requires NextComb(c, m).Some? ==> LexLess(d, NextComb(c, m).value)
    ensures d == c || LexLess(d, c)
  {
    NextCombIsSuccessor(c, m);
    LexTotal(c, d);
    if NextComb(c, m).Some? {
      LexAsymmetric(d, NextComb(c, m).value);
    }
  }

  /** The generator's step increases the base-m value of the tuple, which stays below m^r. */
  lemma NextValueIncreases(c: seq<nat>, m: nat)
    requires IsComb(c, m) && NextComb(c, m).Some?
    ensures Value(c, m) < Value(NextComb(c, m).value, m) < Pow(m, |c|)
  {
    NextCombIsSuccessor(c, m);
    var n := NextComb(c, m).value;
    var k: nat :| LexLessAt(c, n, k);
    LexValue(c, n, m, k);
    ValueBound(n, m);
  }

  /** `has_DIM`: sizes r = 1 .. m, for each size the combinations in order; the first passing one wins. */
  method HasDim(adj: seq<seq<int>>) returns (found: bool, matching: Option<seq<Edge>>)
    requires IsSquare(adj)
    ensures SearchOutcome(adj, found, matching)
  {
    var edges := GetEdges(adj);
    var m := |edges|;
    var r := 1;
    while r <= m
      invariant 1 <= r <= m + 1
      invariant forall d :: |d| < r ==> !Admissible(adj, d)
    {
      FirstCombIsLeast(r, m);
      forall d | |d| == r && LexLess(d, FirstComb(r)) ensures !Admissible(adj, d) {
        if IsComb(d, m) {
          LexAsymmetric(d, FirstComb(r));
        }
      }
      var next := Some(FirstComb(r));
      while next.Some?
        invariant next.Some? ==> IsComb(next.value, m) && |next.value| == r
        invariant forall d :: |d| == r && (next.Some? ==> LexLess(d, next.value)) ==> !Admissible(adj, d)
        decreases if next.Some? then Pow(m, r) - Value(next.value, m) else 0
      {
        var c := next.value;
        ValueBound(c, m);
        var candidate := Select(edges, c);
        var ok := CheckMatching(candidate);
        if ok {
          ok := CheckInduced(candidate, adj);
        }
        if ok {
          ok := CheckDominating(candidate, edges);
        }
        if ok {
          assert IsFirstAdmissible(adj, c);
          found, matching := true, Some(candidate);
          return;
        }
        next := NextComb(c, m);
        NextCombIsSuccessor(c, m);
        if next.Some? {
          NextValueIncreases(c, m);
        }
        forall d | |d| == r && (next.Some? ==> LexLess(d, next.value)) ensures !Admissible(adj, d) {
          if IsComb(d, m) {
            BelowNext(c, m, d);
          }
        }
      }
      r := r + 1;
    }
    forall d ensures !Admissible(adj, d) {
      if IsComb(d, m) {
        CombLength(d, m);
      }
    }
    found, matching := false, None;
  }

  // ---------------------------------------------------------------------------
  // What the outcome says
  // ---------------------------------------------------------------------------

  /** At most one index tuple is the first admissible one. */
  lemma FirstAdmissibleUnique(adj: seq<seq<int>>, c1: seq<nat>, c2: seq<nat>)
    requires IsSquare(adj) && IsFirstAdmissible(adj, c1) && IsFirstAdmissible(adj, c2)
    ensures c1 == c2
  {
    if |c1| == |c2| {
      LexTotal(c1, c2);
    }
  }

  /** The outcome is a function of the graph: two runs on the same matrix agree. */
  lemma SearchOutcomeDeterministic(adj: seq<seq<int>>, f1: bool, w1: Option<seq<Edge>>, f2: bool, w2: Option<seq<Edge>>)
    requires IsSquare(adj) && SearchOutcome(adj, f1, w1) && SearchOutcome(adj, f2, w2)
    ensures f1 == f2 && w1 == w2
  {
    if f1 && f2 {
      var c1 :| IsFirstAdmissible(adj, c1) && w1.value == Select(Edges(adj), c1);
      var c2 :| IsFirstAdmissible(adj, c2) && w2.value == Select(Edges(adj), c2);
      FirstAdmissibleUnique(adj, c1, c2);
    }
  }

  /** A witness is a non-empty, order-preserving selection from the edge list that passes all three tests. */
  lemma WitnessPasses(adj: seq<seq<int>>, w: seq<Edge>)
    requires IsSquare(adj) && IsFirstWitness(adj, w)
    ensures 1 <= |w| && VerticesBelow(w, |adj|)
    ensures IsMatching(w) && IsInduced(w, adj) && IsDominating(w, Edges(adj))
    ensures exists c :: IsComb(c, |Edges(adj)|) && w == Select(Edges(adj), c)
  {
  }

  /**
   * On a symmetric matrix a witness is a dominating induced matching in the
   * textbook sense: no two of its edges share a vertex, its endpoints span no
   * other edge of the graph, and every other edge of the graph shares a
   * vertex with exactly one of its edges.
   */
  lemma WitnessIsDominatingInducedMatching(adj: seq<seq<int>>, w: seq<Edge>)
    requires IsSquare(adj) && IsSymmetric(adj) && IsFirstWitness(adj, w)
    ensures IsMatching(w) && NoExtraEdges(adj, w)
    ensures forall f :: f in Edges(adj) && f !in w ==> exists i: nat :: i < |w| && TouchedOnlyAt(f, w, i)
  {
    var e := Edges(adj);
    var c :| IsFirstAdmissible(adj, c) && w == Select(e, c);
    assert forall k :: 0 <= k < |w| ==> w[k] in e;
    InducedMeaning(adj, w);
    forall f | f in e && f !in w ensures exists i: nat :: i < |w| && TouchedOnlyAt(f, w, i) {
      OtherEdgeTouchedOnce(e, w, f);
    }
  }

  /** A listed edge outside a dominating candidate drawn from the list is touched by exactly one of its edges. */
  lemma OtherEdgeTouchedOnce(e: seq<Edge>, w: seq<Edge>, f: Edge)
    requires forall k :: 0 <= k < |e| ==> e[k].u < e[k].v
    requires forall k :: 0 <= k < |w| ==> w[k] in e
    requires IsDominating(w, e) && f in e && f !in w
    ensures exists i: nat :: i < |w| && TouchedOnlyAt(f, w, i)
  {
    var q :| 0 <= q < |e| && e[q] == f;
    assert Dominated(e[q], w);
    assert Flip(f) !in w;
    ExactlyOneTouch(f, w);
  }

  /**
   * A graph without edges gets (false, None): the search starts at one edge,
   * although the empty candidate would pass all three tests.
   */
  lemma EdgelessGraphHasNoDim(adj: seq<seq<int>>, found: bool, matching: Option<seq<Edge>>)
    requires IsSquare(adj) && Edges(adj) == [] && SearchOutcome(adj, found, matching)
    ensures !found && matching == None
    ensures Passes(adj, [])
  {
    if found {
      var c :| IsFirstAdmissible(adj, c) && matching.value == Select(Edges(adj), c);
      CombLength(c, 0);
    }
  }

  /** A graph with exactly one edge gets that edge as its witness. */
  lemma SingleEdgeGraph(adj: seq<seq<int>>, found: bool, matching: Option<seq<Edge>>)
    requires IsSquare(adj) && |Edges(adj)| == 1 && SearchOutcome(adj, found, matching)
    ensures found && matching == Some(Edges(adj))
  {
    var e := Edges(adj);
    var c: seq<nat> := [0];
    assert Select(e, c) == e;
    assert Dominated(e[0], e);
    assert Admissible(adj, c);
    assert forall d :: TriedBefore(d, c) ==> !Admissible(adj, d);
    assert IsFirstAdmissible(adj, c);
    var c2 :| IsFirstAdmissible(adj, c2) && matching.value == Select(e, c2);
    FirstAdmissibleUnique(adj, c, c2);
  }
}
