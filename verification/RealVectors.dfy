/** Sums over finite vectors of reals. */
module RealVectors {

  type Vector = seq<real>

  function SumTo(v: Vector, k: nat): real
    requires k <= |v|
  {
    if k == 0 then 0.0 else SumTo(v, k - 1) + v[k - 1]
  }

  function Mass(v: Vector): real {
    SumTo(v, |v|)
  }

  /** Multiplication under a name, so that a proof can treat products as opaque terms. */
  function Product(a: real, b: real): real {
    a * b
  }

  function Scale(c: real, w: Vector): Vector {
    seq(|w|, d requires 0 <= d < |w| => Product(c, w[d]))
  }

  function Times(g: Vector, v: Vector): Vector
    requires |g| == |v|
  {
    seq(|v|, i requires 0 <= i < |v| => Product(g[i], v[i]))
  }

  lemma Distribute(c: real, a: real, b: real)
    ensures c * (a + b) == c * a + c * b
  {
  }

  lemma MulMonotone(c: real, a: real, b: real)
    requires c >= 0.0 && a <= b
    ensures c * a <= c * b
  {
  }

  lemma SignOfProduct(c: real, a: real)
    requires c >= 0.0 && a >= 0.0
    ensures c * a >= 0.0 && (c * a > 0.0 <==> c > 0.0 && a > 0.0)
  {
  }

  lemma {:induction false} AllZero(v: Vector, m: nat)
    requires m <= |v| && forall i :: 0 <= i < |v| ==> v[i] == 0.0
    ensures SumTo(v, m) == 0.0
  {
    if m > 0 {
      AllZero(v, m - 1);
    }
  }

  lemma {:induction false} ScaleSum(c: real, w: Vector, m: nat)
    requires m <= |w|
    ensures SumTo(Scale(c, w), m) == c * SumTo(w, m)
  {
    if m > 0 {
      ScaleSum(c, w, m - 1);
      Distribute(c, SumTo(w, m - 1), w[m - 1]);
    }
  }

  /** Changing one entry changes the sum by as much. */
  lemma {:induction false} SumUpdate(v: Vector, i: nat, c: real, m: nat)
    requires i < |v| && m <= |v|
    ensures SumTo(v[i := v[i] + c], m) == SumTo(v, m) + (if i < m then c else 0.0)
  {
    if m > 0 {
      SumUpdate(v, i, c, m - 1);
    }
  }

  lemma {:induction false} SumsAgree(u: Vector, v: Vector, m: nat)
    requires m <= |u| && m <= |v| && forall i :: 0 <= i < m ==> u[i] == v[i]
    ensures SumTo(u, m) == SumTo(v, m)
  {
    if m > 0 {
      SumsAgree(u, v, m - 1);
    }
  }

  lemma {:induction false} SumOfNonNegative(v: Vector, k: nat, m: nat)
    requires k <= m <= |v| && forall i :: 0 <= i < |v| ==> v[i] >= 0.0
    ensures 0.0 <= SumTo(v, k) <= SumTo(v, m)
    decreases m
  {
    if k < m {
      SumOfNonNegative(v, k, m - 1);
    } else if k > 0 {
      SumOfNonNegative(v, k - 1, m - 1);
    }
  }

  lemma {:induction false} SumOfConcat(u: Vector, v: Vector, m: nat)
    requires m <= |v|
    ensures SumTo(u + v, |u| + m) == Mass(u) + SumTo(v, m)
  {
    if m > 0 {
      SumOfConcat(u, v, m - 1);
    } else {
      SumsAgree(u + v, u, |u|);
    }
  }

  /** Positive weights keep a positive sum of non-negative terms positive. */
  lemma {:induction false} WeightedSumSign(g: Vector, v: Vector, m: nat)
    requires |g| == |v| && m <= |v| && forall i :: 0 <= i < |v| ==> g[i] > 0.0 && v[i] >= 0.0
    ensures SumTo(Times(g, v), m) >= 0.0 && (SumTo(v, m) > 0.0 ==> SumTo(Times(g, v), m) > 0.0)
    ensures SumTo(v, m) >= 0.0
  {
    if m > 0 {
      WeightedSumSign(g, v, m - 1);
      SignOfProduct(g[m - 1], v[m - 1]);
    }
  }
}
