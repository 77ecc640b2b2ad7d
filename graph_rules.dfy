/**
 * `enforce_graph_rules` in 1_Interactive_DIM_Demo.py: the demo page turns the
 * matrix the user edited into a simple undirected graph, in place, before it
 * draws it and hands it to the engine. The diagonal becomes 0 and every pair
 * of mirrored entries becomes the larger of the two.
 */
module GraphRules {
  import opened Graphs
  import opened Validators

  function Max(a: int, b: int): int
  {
    if a >= b then a else b
  }

  /** The entries of a 2-D array, row by row. */
  ghost function Contents(mat: array2<int>): (s: seq<seq<int>>)
    reads mat
    ensures |s| == mat.Length0
    ensures forall i :: 0 <= i < mat.Length0 ==> |s[i]| == mat.Length1
  {
    seq(mat.Length0, i reads mat => seq(mat.Length1, j reads mat =>
      if 0 <= i < mat.Length0 && 0 <= j < mat.Length1 then mat[i, j] else 0))
  }

  /** A square matrix with a zero diagonal that equals its transpose. */
  predicate IsSimple(s: seq<seq<int>>)
  {
    IsSquare(s) && (forall i :: 0 <= i < |s| ==> s[i][i] == 0) && IsSymmetric(s)
  }

  /** The matrix the demo's correction produces from a square matrix `s`. */
  function Normalise(s: seq<seq<int>>): (t: seq<seq<int>>)
    requires IsSquare(s)
  {
    seq(|s|, i requires 0 <= i < |s| => seq(|s|, j requires 0 <= j < |s| =>
      if i == j then 0 else Max(s[i][j], s[j][i])))
  }

  /** `enforce_graph_rules`: zero the diagonal, then make each mirrored pair equal to its maximum. */
  method EnforceGraphRules(mat: array2<int>) returns (res: array2<int>)
    requires mat.Length0 == mat.Length1
    modifies mat
    ensures res == mat
    ensures Contents(mat) == Normalise(old(Contents(mat)))
    ensures IsSimple(Contents(mat))
  {
    var n := mat.Length0;

    for i := 0 to n
      invariant forall a, b :: 0 <= a < n && 0 <= b < n ==>
        mat[a, b] == if a == b && a < i then 0 else old(mat[a, b])
    {
      mat[i, i] := 0;
    }

    for i := 0 to n
      invariant forall a, b :: 0 <= a < n && 0 <= b < n ==>
        mat[a, b] == if a == b then 0
                     else if a < i || b < i then Max(old(mat[a, b]), old(mat[b, a]))
                     else old(mat[a, b])
    {
      for j := 0 to n
        invariant forall a, b :: 0 <= a < n && 0 <= b < n ==>
          mat[a, b] == if a == b then 0
                       else if a < i || b < i || (a == i && b < j) || (b == i && a < j)
                       then Max(old(mat[a, b]), old(mat[b, a]))
                       else old(mat[a, b])
      {
        var val := Max(mat[i, j], mat[j, i]);
        mat[i, j] := val;
        mat[j, i] := val;
      }
    }

    res := mat;
    ghost var before := old(Contents(mat));
    assert forall a, b :: 0 <= a < n && 0 <= b < n ==> before[a][b] == old(mat[a, b]);
    assert forall a :: 0 <= a < n ==> Contents(mat)[a] == Normalise(before)[a];
    NormaliseIsSimple(before);
  }

  /** The corrected matrix has a zero diagonal and is symmetric. */
  lemma NormaliseIsSimple(s: seq<seq<int>>)
    requires IsSquare(s)
    ensures IsSimple(Normalise(s))
  {
  }

  /** A matrix that already obeys the rules is left as it is. */
  lemma NormaliseKeepsSimple(s: seq<seq<int>>)
    requires IsSimple(s)
    ensures Normalise(s) == s
  {
    assert forall i :: 0 <= i < |s| ==> Normalise(s)[i] == s[i];
  }

  /** Running the correction twice gives what running it once does. */
  lemma NormaliseIdempotent(s: seq<seq<int>>)
    requires IsSquare(s)
    ensures Normalise(Normalise(s)) == Normalise(s)
  {
    NormaliseIsSimple(s);
    NormaliseKeepsSimple(Normalise(s));
  }
}
