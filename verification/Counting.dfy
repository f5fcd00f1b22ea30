/** Finite sets of numbers. */
module Counting {

  /** A set of numbers below n has at most n elements. */
  lemma {:induction false} Below(s: set<nat>, n: nat)
    requires forall x :: x in s ==> x < n
    ensures |s| <= n
  {
    if |s| > 0 {
      var x :| x in s;
      Below(s - {n - 1}, n - 1);
    }
  }
}
