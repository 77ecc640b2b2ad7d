/**
 * The order in which `itertools.combinations(pool, r)` produces r-subsets of a
 * pool of m items, modelled on the index tuples it walks through: the first
 * tuple is (0, 1, ..., r-1); each next tuple increments the rightmost index
 * that has not yet reached its maximum and resets the indices after it to
 * consecutive values; when every index is at its maximum the generator stops.
 * The tuples therefore appear in increasing lexicographic order.
 */
module Combinations {
  import opened Wrappers

  /** `c` is an r-subset of range(m), listed in increasing order. */
  predicate IsComb(c: seq<nat>, m: nat)
  {
    (forall k :: 0 <= k < |c| ==> c[k] < m) &&
    (forall j, k :: 0 <= j < k < |c| ==> c[j] < c[k])
  }

  /** `c` and `d` agree before position k and `c` is smaller at k. */
  predicate LexLessAt(c: seq<nat>, d: seq<nat>, k: nat)
  {
    k < |c| && k < |d| && c[..k] == d[..k] && c[k] < d[k]
  }

  /** Lexicographic order on index tuples. */
  ghost predicate LexLess(c: seq<nat>, d: seq<nat>)
  {
    exists k: nat :: LexLessAt(c, d, k)
  }

  /** The first tuple of every r: (0, 1, ..., r-1). */
  function FirstComb(r: nat): seq<nat>
  {
    seq(r, k => k)
  }

  /** The rightmost position p < i whose index is below its maximum p + m - |c|. */
  function FindPivot(c: seq<nat>, m: nat, i: nat): (p: Option<nat>)
    requires i <= |c|
    ensures p.Some? ==>
      (p.value < i && c[p.value] != p.value + m - |c| &&
       forall j :: p.value < j < i ==> c[j] == j + m - |c|)
    ensures p.None? ==> forall j :: 0 <= j < i ==> c[j] == j + m - |c|
  {
    if i == 0 then None
    else if c[i - 1] != i - 1 + m - |c| then Some(i - 1)
    else FindPivot(c, m, i - 1)
  }

  /** Increment position p and give the positions after it consecutive values. */
  function Bump(c: seq<nat>, p: nat): seq<nat>
    requires p < |c|
  {
    c[..p] + seq(|c| - p, k => c[p] + 1 + k)
  }

  /** The tuple the generator yields after `c`, or None when `c` is the last one. */
  function NextComb(c: seq<nat>, m: nat): Option<seq<nat>>
  {
    match FindPivot(c, m, |c|)
    case None => None
    case Some(p) => Some(Bump(c, p))
  }

  // ---------------------------------------------------------------------------
  // Facts about r-subsets
  // ---------------------------------------------------------------------------

  lemma {:induction false} CombGap(c: seq<nat>, m: nat, j: nat, k: nat)
    requires IsComb(c, m) && j <= k < |c|
    ensures c[k] - c[j] >= k - j
  {
    if j < k {
      CombGap(c, m, j, k - 1);
    }
  }

  /** Position k of an r-subset of range(m) holds at least k and at most k + m - r. */
  lemma CombBounds(c: seq<nat>, m: nat, k: nat)
    requires IsComb(c, m) && k < |c|
    ensures k <= c[k] <= k + m - |c|
  {
    CombGap(c, m, 0, k);
    CombGap(c, m, k, |c| - 1);
  }

  /** An r-subset of range(m) has r <= m. */
  lemma CombLength(c: seq<nat>, m: nat)
    requires IsComb(c, m)
    ensures |c| <= m
  {
    if |c| > 0 {
      CombBounds(c, m, |c| - 1);
    }
  }

  lemma {:induction false} FirstDifference(a: seq<nat>, b: seq<nat>)
    requires |a| == |b| && a != b
    ensures exists q: nat :: q < |a| && a[..q] == b[..q] && a[q] != b[q]
  {
    if a[0] != b[0] {
      assert a[..0] == b[..0];
    } else {
      FirstDifference(a[1..], b[1..]);
      var q: nat :| q < |a| - 1 && a[1..][..q] == b[1..][..q] && a[1..][q] != b[1..][q];
      assert a[..q + 1] == [a[0]] + a[1..][..q];
      assert b[..q + 1] == [b[0]] + b[1..][..q];
    }
  }

  /** Any two tuples of one length are equal or ordered one way or the other. */
  lemma LexTotal(c: seq<nat>, d: seq<nat>)
    requires |c| == |d|
    ensures c == d || LexLess(c, d) || LexLess(d, c)
  {
    if c != d {
      FirstDifference(c, d);
      var q: nat :| q < |c| && c[..q] == d[..q] && c[q] != d[q];
      if c[q] < d[q] {
        assert LexLessAt(c, d, q);
      } else {
        assert LexLessAt(d, c, q);
      }
    }
  }

  /** The order is asymmetric, hence irreflexive. */
  lemma LexAsymmetric(c: seq<nat>, d: seq<nat>)
    requires LexLess(c, d)
    ensures !LexLess(d, c) && c != d
  {
    var k: nat :| LexLessAt(c, d, k);
  }

  /** (0, ..., r-1) is an r-subset and precedes every other r-subset. */
  lemma FirstCombIsLeast(r: nat, m: nat)
    requires r <= m
    ensures IsComb(FirstComb(r), m)
    ensures forall d :: IsComb(d, m) && |d| == r ==> d == FirstComb(r) || LexLess(FirstComb(r), d)
  {
    var f := FirstComb(r);
    forall d | IsComb(d, m) && |d| == r && d != f ensures LexLess(f, d) {
      FirstDifference(f, d);
      var q: nat :| q < r && f[..q] == d[..q] && f[q] != d[q];
      CombBounds(d, m, q);
      assert LexLessAt(f, d, q);
    }
  }

  lemma BumpIsComb(c: seq<nat>, m: nat, p: nat)
    requires IsComb(c, m) && p < |c| && c[p] < p + m - |c|
    ensures IsComb(Bump(c, p), m) && |Bump(c, p)| == |c|
    ensures LexLessAt(c, Bump(c, p), p)
  {
    var n := Bump(c, p);
    assert forall k :: 0 <= k < p ==> n[k] == c[k];
    assert forall k :: p <= k < |c| ==> n[k] == c[p] + 1 + (k - p);
    assert n[..p] == c[..p];
  }

  /** With every position after p at its maximum, no r-subset lies strictly between `c` and Bump(c, p). */
  lemma BumpIsLeastAbove(c: seq<nat>, m: nat, p: nat, d: seq<nat>)
    requires IsComb(c, m) && p < |c| && c[p] < p + m - |c|
    requires forall j :: p < j < |c| ==> c[j] == j + m - |c|
    requires IsComb(d, m) && |d| == |c| && LexLess(c, d)
    ensures d == Bump(c, p) || LexLess(Bump(c, p), d)
  {
    var r := |c|;
    var n := Bump(c, p);
    BumpIsComb(c, m, p);
    var k: nat :| LexLessAt(c, d, k);
    CombBounds(d, m, k);
    assert k <= p;
    if k < p {
      assert n[..k] == c[..k];
      assert LexLessAt(n, d, k);
    } else if d != n {
      forall j | p <= j < r ensures d[j] >= n[j] {
        CombGap(d, m, p, j);
      }
      FirstDifference(n, d);
      var q: nat :| q < r && n[..q] == d[..q] && n[q] != d[q];
      assert LexLessAt(n, d, q);
    }
  }

  /** With every position at its maximum, no r-subset is greater than `c`. */
  lemma LastCombIsGreatest(c: seq<nat>, m: nat, d: seq<nat>)
    requires IsComb(c, m)
    requires forall j :: 0 <= j < |c| ==> c[j] == j + m - |c|
    requires IsComb(d, m) && |d| == |c|
    ensures !LexLess(c, d)
  {
    if LexLess(c, d) {
      var k: nat :| LexLessAt(c, d, k);
      CombBounds(d, m, k);
    }
  }

  /**
   * The generator's step yields the lexicographic successor: the next tuple is
   * an r-subset greater than `c` with no r-subset strictly between them, and
   * it stops exactly when no r-subset is greater than `c`.
   */
  lemma NextCombIsSuccessor(c: seq<nat>, m: nat)
    requires IsComb(c, m)
    ensures NextComb(c, m).Some? ==>
      var n := NextComb(c, m).value;
      IsComb(n, m) && |n| == |c| && LexLess(c, n) &&
      forall d :: IsComb(d, m) && |d| == |c| && LexLess(c, d) ==> d == n || LexLess(n, d)
    ensures NextComb(c, m).None? ==>
      forall d :: IsComb(d, m) && |d| == |c| ==> !LexLess(c, d)
  {
    match FindPivot(c, m, |c|)
    case None =>
      forall d | IsComb(d, m) && |d| == |c| ensures !LexLess(c, d) {
        LastCombIsGreatest(c, m, d);
      }
    case Some(p) =>
      CombBounds(c, m, p);
      BumpIsComb(c, m, p);
      forall d | IsComb(d, m) && |d| == |c| && LexLess(c, d) ensures d == Bump(c, p) || LexLess(Bump(c, p), d) {
        BumpIsLeastAbove(c, m, p, d);
      }
  }

  // ---------------------------------------------------------------------------
  // A ranking that the successor increases, for termination of the search
  // ---------------------------------------------------------------------------

  function Pow(b: nat, e: nat): nat
  {
    if e == 0 then 1 else b * Pow(b, e - 1)
  }

  /** The tuple read as a numeral in base b, most significant position first. */
  function Value(c: seq<nat>, b: nat): nat
  {
    if c == [] then 0 else c[0] * Pow(b, |c| - 1) + Value(c[1..], b)
  }

  /** A digit below the next one, followed by any lower digits, stays below it. */
  lemma DigitStep(x: nat, y: nat, p: nat, v: nat, w: nat)
    requires x < y && v < p
    ensures x * p + v < y * p + w
  {
    assert (x + 1) * p <= y * p;
  }

  /** A numeral whose digits are below b is below b^|c|. */
  lemma {:induction false} ValueBound(c: seq<nat>, b: nat)
    requires forall k :: 0 <= k < |c| ==> c[k] < b
    ensures Value(c, b) < Pow(b, |c|)
  {
    if c != [] {
      ValueBound(c[1..], b);
      DigitStep(c[0], b, Pow(b, |c| - 1), Value(c[1..], b), 0);
    }
  }

  /** Lexicographic order on tuples of digits below b agrees with their numeric value. */
  lemma {:induction false} LexValue(c: seq<nat>, d: seq<nat>, b: nat, k: nat)
    requires |c| == |d| && LexLessAt(c, d, k)
    requires forall i :: 0 <= i < |c| ==> c[i] < b
    requires forall i :: 0 <= i < |d| ==> d[i] < b
    ensures Value(c, b) < Value(d, b)
  {
    if k == 0 {
      ValueBound(c[1..], b);
      DigitStep(c[0], d[0], Pow(b, |c| - 1), Value(c[1..], b), Value(d[1..], b));
    } else {
      assert c[0] == c[..k][0] == d[..k][0] == d[0];
      assert c[1..][..k - 1] == c[1..k] == d[1..k] == d[1..][..k - 1];
      LexValue(c[1..], d[1..], b, k - 1);
    }
  }
}
