/** The minimum fold that both `np.min` over the members and the builtin
    `min` over the trees compute. */
module Folds {

  /** The least element of a non-empty sequence of reals. */
  function MinOf(xs: seq<real>): real
    requires |xs| > 0
  {
    if |xs| == 1 then xs[0]
    else
      var rest := MinOf(xs[1..]);
      if xs[0] <= rest then xs[0] else rest
  }

  /** The minimum is at most every element. */
  lemma {:induction false} MinOfIsLowerBound(xs: seq<real>)
    requires |xs| > 0
    ensures forall i :: 0 <= i < |xs| ==> MinOf(xs) <= xs[i]
  {
    if |xs| > 1 {
      MinOfIsLowerBound(xs[1..]);
      forall i | 1 <= i < |xs| ensures MinOf(xs) <= xs[i] {
        assert xs[i] == xs[1..][i - 1];
      }
    }
  }

  /** The minimum is one of the elements. */
  lemma {:induction false} MinOfIsElement(xs: seq<real>)
    requires |xs| > 0
    ensures exists i :: 0 <= i < |xs| && MinOf(xs) == xs[i]
  {
    if |xs| > 1 {
      MinOfIsElement(xs[1..]);
      var j :| 0 <= j < |xs[1..]| && MinOf(xs[1..]) == xs[1..][j];
      if MinOf(xs) != xs[0] {
        assert MinOf(xs) == xs[j + 1];
      }
    } else {
      assert MinOf(xs) == xs[0];
    }
  }

  /** Being at most every element and equal to one of them pins the minimum down. */
  lemma MinOfUnique(xs: seq<real>, m: real)
    requires |xs| > 0
    requires forall i :: 0 <= i < |xs| ==> m <= xs[i]
    requires exists i :: 0 <= i < |xs| && m == xs[i]
    ensures m == MinOf(xs)
  {
    MinOfIsLowerBound(xs);
    MinOfIsElement(xs);
  }
}
