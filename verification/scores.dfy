/** Scores compared by the search: a finite heuristic value, or one of the
    proven outcomes +inf (won) and -inf (lost) that the evaluation functions
    return for decided games. */
module Scores {

  datatype Score = NegInf | Fin(r: real) | PosInf

  /** The total order -inf < every finite value < +inf. */
  predicate Le(a: Score, b: Score) {
    a.NegInf? || b.PosInf? || (a.Fin? && b.Fin? && a.r <= b.r)
  }

  predicate Lt(a: Score, b: Score) {
    !Le(b, a)
  }

  /** Python's two-argument max: the first argument unless the second is
      strictly greater. */
  function Max(a: Score, b: Score): (m: Score)
    ensures Le(a, m) && Le(b, m)
    ensures m == a || m == b
  {
    if Lt(a, b) then b else a
  }

  /** Python's two-argument min: the first argument unless the second is
      strictly smaller. */
  function Min(a: Score, b: Score): (m: Score)
    ensures Le(m, a) && Le(m, b)
    ensures m == a || m == b
  {
    if Lt(b, a) then b else a
  }

  /** Le is a total order on scores. */
  lemma LeIsTotalOrder(a: Score, b: Score, c: Score)
    ensures Le(a, a)
    ensures Le(a, b) && Le(b, a) ==> a == b
    ensures Le(a, b) && Le(b, c) ==> Le(a, c)
    ensures Le(a, b) || Le(b, a)
  {
  }

  /** v is the maximum of vals, and -inf when vals is empty. */
  ghost predicate IsMaxOf(v: Score, vals: seq<Score>) {
    && (forall j :: 0 <= j < |vals| ==> Le(vals[j], v))
    && (|vals| == 0 ==> v == NegInf)
    && (|vals| > 0 ==> exists j :: 0 <= j < |vals| && v == vals[j])
  }

  /** v is the minimum of vals, and +inf when vals is empty. */
  ghost predicate IsMinOf(v: Score, vals: seq<Score>) {
    && (forall j :: 0 <= j < |vals| ==> Le(v, vals[j]))
    && (|vals| == 0 ==> v == PosInf)
    && (|vals| > 0 ==> exists j :: 0 <= j < |vals| && v == vals[j])
  }

  /** Among the first n values, index k holds a maximum and no later index
      among them does. */
  ghost predicate IsLastBest(vals: seq<Score>, n: int, k: int) {
    && 0 <= k < n <= |vals|
    && (forall j :: 0 <= j < n ==> Le(vals[j], vals[k]))
    && (forall j :: k < j < n ==> Lt(vals[j], vals[k]))
  }

  /** Among the first n values, index k holds a maximum and no earlier index
      does. */
  ghost predicate IsFirstBest(vals: seq<Score>, n: int, k: int) {
    && 0 <= k < n <= |vals|
    && (forall j :: 0 <= j < n ==> Le(vals[j], vals[k]))
    && (forall j :: 0 <= j < k ==> Lt(vals[j], vals[k]))
  }

  /** The first and the last best index of the same values hold the same
      value, in that order, and coincide exactly when the best value is
      attained once. */
  lemma FirstAndLastBestAgree(vals: seq<Score>, k1: int, k2: int)
    requires IsFirstBest(vals, |vals|, k1)
    requires IsLastBest(vals, |vals|, k2)
    ensures vals[k1] == vals[k2]
    ensures k1 <= k2
    ensures k1 == k2 <==> forall j :: 0 <= j < |vals| && j != k1 ==> Lt(vals[j], vals[k1])
  {
    LeIsTotalOrder(vals[k1], vals[k2], vals[k1]);
    if k1 != k2 {
      assert !Lt(vals[k2], vals[k1]);
    }
  }

  /** A value at least the last best so far becomes the new last best. */
  lemma LastBestReplaced(vals: seq<Score>, i: int, k: int)
    requires 0 <= i < |vals|
    requires k == -1 ==> i == 0
    requires k != -1 ==> IsLastBest(vals, i, k) && Le(vals[k], vals[i])
    ensures IsLastBest(vals, i + 1, i)
  {
    forall j | 0 <= j < i + 1
      ensures Le(vals[j], vals[i])
    {
      if j < i {
        LeIsTotalOrder(vals[j], vals[k], vals[i]);
      } else {
        LeIsTotalOrder(vals[i], vals[i], vals[i]);
      }
    }
  }

  /** A value below the last best so far leaves it the last best. */
  lemma LastBestKept(vals: seq<Score>, i: int, k: int)
    requires 0 <= i < |vals|
    requires IsLastBest(vals, i, k) && Lt(vals[i], vals[k])
    ensures IsLastBest(vals, i + 1, k)
  {
  }

  /** A value strictly above every value so far, each at most `bound`,
      becomes the first best. */
  lemma FirstBestReplaced(vals: seq<Score>, i: int, bound: Score)
    requires 0 <= i < |vals|
    requires forall j :: 0 <= j < i ==> Le(vals[j], bound)
    requires Lt(bound, vals[i])
    ensures IsFirstBest(vals, i + 1, i)
  {
    forall j | 0 <= j < i + 1
      ensures Le(vals[j], vals[i])
    {
      if j < i {
        LeIsTotalOrder(vals[j], bound, vals[i]);
      }
    }
  }

  /** A value at most the first best so far leaves it the first best. */
  lemma FirstBestKept(vals: seq<Score>, i: int, k: int)
    requires 0 <= i < |vals|
    requires IsFirstBest(vals, i, k) && Le(vals[i], vals[k])
    ensures IsFirstBest(vals, i + 1, k)
  {
  }
}
