/** Facts about the ratios `n / d` the heuristic scores are built from. */
module Ratio {

  /** `n / d` for counts `n <= d` lies in [0, 1] and hits each end exactly when `n` does. */
  lemma RatioBounds(n: nat, d: nat)
    requires 0 < d && n <= d
    ensures 0.0 <= n as real / d as real <= 1.0
    ensures n as real / d as real == 1.0 <==> n == d
    ensures n as real / d as real == 0.0 <==> n == 0
  {
    var r := n as real / d as real;
    assert r * d as real == n as real;
    if r == 1.0 {
      assert n as real == d as real;
    }
  }

  /** The part of `q` that `d` shares is no larger than `q`, and as large only when `q <= d`. */
  lemma OverlapSize<T>(q: set<T>, d: set<T>)
    ensures |q * d| <= |q|
    ensures |q * d| == |q| <==> q <= d
  {
    var shared, rest := q * d, q - d;
    assert q == shared + rest && shared * rest == {};
    assert |q| == |shared| + |rest|;
    if rest != {} {
      var x :| x in rest;
      assert x !in d;
    }
  }
}
