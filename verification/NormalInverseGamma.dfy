/**
 The conjugate update of the changepoint detector: folding observations in one at a
 time gives the closed batch form, so only their count, sum and sum of squares matter.
 */
module NormalInverseGamma {
  import opened Arithmetic

  datatype NigParams = NigParams(mu: real, kappa: real, alpha: real, beta: real)

  function UpdateOne(p: NigParams, x: real): NigParams
    requires p.kappa > 0.0
  {
    var kappaNew := p.kappa + 1.0;
    NigParams(
      (p.kappa * p.mu + x) / kappaNew,
      kappaNew,
      p.alpha + 0.5,
      p.beta + p.kappa * ((x - p.mu) * (x - p.mu)) / (2.0 * kappaNew))
  }

  /** Parameters for which the Student-t predictive density is defined. */
  predicate Proper(p: NigParams) {
    p.kappa > 0.0 && p.alpha > 0.0 && p.beta > 0.0
  }

  function Fold(prior: NigParams, xs: seq<real>): (p: NigParams)
    requires prior.kappa > 0.0
    ensures p.kappa == prior.kappa + |xs| as real
    ensures p.alpha == prior.alpha + |xs| as real / 2.0
  {
    if xs == [] then prior else UpdateOne(Fold(prior, xs[..|xs| - 1]), xs[|xs| - 1])
  }

  /** The sum of f over the observations. */
  function SumOf(f: real -> real, xs: seq<real>): real {
    if xs == [] then 0.0 else SumOf(f, xs[..|xs| - 1]) + f(xs[|xs| - 1])
  }

  const IDENTITY: real -> real := x => x
  const SQUARE: real -> real := x => x * x

  lemma UpdateKeepsProper(p: NigParams, x: real)
    requires Proper(p)
    ensures Proper(UpdateOne(p, x)) && UpdateOne(p, x).beta >= p.beta
  {
    NonNegativeShare(p.kappa, (x - p.mu) * (x - p.mu), 2.0 * (p.kappa + 1.0));
  }

  lemma NonNegativeShare(a: real, square: real, d: real)
    requires a > 0.0 && square >= 0.0 && d > 0.0
    ensures a * square / d >= 0.0
  {
    assert a * square >= 0.0;
  }

  /** Every state of the detector has a defined predictive density. */
  lemma {:induction false} FoldIsProper(prior: NigParams, xs: seq<real>)
    requires Proper(prior)
    ensures Proper(Fold(prior, xs)) && Fold(prior, xs).beta >= prior.beta > 0.0
    ensures Fold(prior, xs).kappa > 0.0 && Fold(prior, xs).alpha > 0.0
    decreases |xs|
  {
    hide UpdateOne;
    if xs != [] {
      FoldIsProper(prior, xs[..|xs| - 1]);
      UpdateKeepsProper(Fold(prior, xs[..|xs| - 1]), xs[|xs| - 1]);
    }
  }

  /** kappa mu accumulates the sum, and the spread term completes the square. */
  lemma UpdateCompletesSquare(kappa: real, mu: real, x: real, next: real, muNext: real, spread: real)
    requires kappa > 0.0 && next == kappa + 1.0
    requires muNext == (kappa * mu + x) / next && spread == kappa * ((x - mu) * (x - mu)) / (2.0 * next)
    ensures next * muNext == kappa * mu + x
    ensures 2.0 * spread == x * x + kappa * (mu * mu) - next * (muNext * muNext)
  {
    var total := kappa * mu + x;
    assert next * muNext == total;
    assert next * (2.0 * spread) == kappa * ((x - mu) * (x - mu));
    assert next * (next * (muNext * muNext)) == total * total by {
      assert next * (next * (muNext * muNext)) == (next * muNext) * (next * muNext);
    }
    assert total * total == kappa * kappa * (mu * mu) + 2.0 * kappa * mu * x + x * x;
    CancelFactor(next, 2.0 * spread, x * x + kappa * (mu * mu) - next * (muNext * muNext));
  }

  /** The closed form in the count, the sum and the sum of squares of the observations. */
  ghost predicate IsBatchOf(p: NigParams, prior: NigParams, n: real, sum: real, squares: real) {
    && p.kappa == prior.kappa + n
    && p.alpha == prior.alpha + n / 2.0
    && p.kappa * p.mu == prior.kappa * prior.mu + sum
    && p.beta == prior.beta + (squares + prior.kappa * (prior.mu * prior.mu) - p.kappa * (p.mu * p.mu)) / 2.0
  }

  lemma UpdateKeepsBatch(p: NigParams, prior: NigParams, n: real, sum: real, squares: real, x: real)
    requires p.kappa > 0.0 && IsBatchOf(p, prior, n, sum, squares)
    ensures IsBatchOf(UpdateOne(p, x), prior, n + 1.0, sum + IDENTITY(x), squares + SQUARE(x))
  {
    var q := UpdateOne(p, x);
    var spread := p.kappa * ((x - p.mu) * (x - p.mu)) / (2.0 * q.kappa);
    UpdateCompletesSquare(p.kappa, p.mu, x, q.kappa, q.mu, spread);
  }

  /** Folding the observations in one at a time gives the batch parameters. */
  lemma {:induction false} FoldIsBatch(prior: NigParams, xs: seq<real>)
    requires prior.kappa > 0.0
    ensures IsBatchOf(Fold(prior, xs), prior, |xs| as real, SumOf(IDENTITY, xs), SumOf(SQUARE, xs))
    decreases |xs|
  {
    hide IsBatchOf, UpdateOne;
    if xs == [] {
      EmptyBatch(prior);
    } else {
      FoldIsBatch(prior, xs[..|xs| - 1]);
      UpdateKeepsBatch(Fold(prior, xs[..|xs| - 1]), prior, |xs| as real - 1.0,
                       SumOf(IDENTITY, xs[..|xs| - 1]), SumOf(SQUARE, xs[..|xs| - 1]), xs[|xs| - 1]);
    }
  }

  lemma EmptyBatch(prior: NigParams)
    ensures IsBatchOf(prior, prior, 0.0, 0.0, 0.0)
  {
  }

  // ---------------------------------------------------------------------------
  // Order does not matter
  // ---------------------------------------------------------------------------

  function Without(xs: seq<real>, j: nat): seq<real>
    requires j < |xs|
  {
    xs[..j] + xs[j + 1..]
  }

  lemma {:induction false} SumWithout(f: real -> real, xs: seq<real>, j: nat)
    requires j < |xs|
    ensures SumOf(f, xs) == SumOf(f, Without(xs, j)) + f(xs[j])
    decreases |xs|
  {
    var n := |xs| - 1;
    if j == n {
      assert Without(xs, j) == xs[..n];
    } else {
      SumWithout(f, xs[..n], j);
      assert Without(xs, j)[..n - 1] == Without(xs[..n], j);
      assert Without(xs, j)[n - 1] == xs[n];
    }
  }

  lemma MultisetWithout(xs: seq<real>, j: nat)
    requires j < |xs|
    ensures multiset(Without(xs, j)) == multiset(xs) - multiset{xs[j]}
  {
    assert xs == xs[..j] + [xs[j]] + xs[j + 1..];
  }

  lemma {:induction false} SumIsPermutationInvariant(f: real -> real, xs: seq<real>, ys: seq<real>)
    requires multiset(xs) == multiset(ys)
    ensures |xs| == |ys| && SumOf(f, xs) == SumOf(f, ys)
    decreases |xs|
  {
    assert |xs| == |multiset(xs)| == |multiset(ys)| == |ys|;
    if xs != [] {
      var n := |xs| - 1;
      assert xs[n] in multiset(ys);
      var j :| 0 <= j < |ys| && ys[j] == xs[n];
      assert Without(xs, n) == xs[..n];
      MultisetWithout(xs, n);
      MultisetWithout(ys, j);
      SumIsPermutationInvariant(f, xs[..n], Without(ys, j));
      SumWithout(f, ys, j);
    }
  }

  lemma BatchDeterminesParameters(p: NigParams, q: NigParams, prior: NigParams, n: real, sum: real, squares: real)
    requires p.kappa > 0.0 && IsBatchOf(p, prior, n, sum, squares) && IsBatchOf(q, prior, n, sum, squares)
    ensures p == q
  {
    CancelFactor(p.kappa, p.mu, q.mu);
  }

  /** Two orderings of the same observations lead to the same parameters. */
  lemma FoldIgnoresOrder(prior: NigParams, xs: seq<real>, ys: seq<real>)
    requires prior.kappa > 0.0 && multiset(xs) == multiset(ys)
    ensures Fold(prior, xs) == Fold(prior, ys)
  {
    hide SumOf, IsBatchOf, UpdateOne;
    SumIsPermutationInvariant(IDENTITY, xs, ys);
    SumIsPermutationInvariant(SQUARE, xs, ys);
    FoldIsBatch(prior, xs);
    FoldIsBatch(prior, ys);
    BatchDeterminesParameters(Fold(prior, xs), Fold(prior, ys), prior, |xs| as real,
                              SumOf(IDENTITY, xs), SumOf(SQUARE, xs));
  }
}
