/**
 Personalised PageRank as a map on vectors of reals.

 A graph is the list of its neighbour sets; `Step` is the textbook update in gather
 form. The scattering loops over edges are proved against it in `KnowledgeGraph`.
 */
module PageRank {
  import opened Arithmetic
  import opened Collections
  import opened RealVectors

  /** Neighbour sets are in range, symmetric and without self-loops. */
  ghost predicate Undirected(nbrs: seq<set<nat>>) {
    forall s: nat, d: nat {:trigger d in nbrs[s]} :: s < |nbrs| && d in nbrs[s] ==>
      d < |nbrs| && d != s && s in nbrs[d]
  }

  /** The share of s's mass that one edge to d carries. */
  function Weight(nbrs: seq<set<nat>>, s: nat, d: nat): real
    requires s < |nbrs|
  {
    if d in nbrs[s] then 1.0 / |nbrs[s]| as real else 0.0
  }

  /** What reaches d from the sources below k. */
  function Inflow(nbrs: seq<set<nat>>, x: Vector, d: nat, k: nat): real
    requires |x| == |nbrs| && k <= |x|
  {
    if k == 0 then 0.0 else Inflow(nbrs, x, d, k - 1) + x[k - 1] * Weight(nbrs, k - 1, d)
  }

  function InflowVector(nbrs: seq<set<nat>>, x: Vector, k: nat): Vector
    requires |x| == |nbrs| && k <= |x|
  {
    seq(|x|, d requires 0 <= d < |x| => Inflow(nbrs, x, d, k))
  }

  /** Restart with probability alpha, otherwise follow the flow. */
  function Mix(alpha: real, personal: Vector, flow: Vector): Vector
    requires |personal| == |flow|
  {
    seq(|flow|, d requires 0 <= d < |flow| => alpha * personal[d] + (1.0 - alpha) * flow[d])
  }

  function Step(nbrs: seq<set<nat>>, personal: Vector, alpha: real, x: Vector): Vector
    requires |x| == |nbrs| == |personal|
  {
    Mix(alpha, personal, InflowVector(nbrs, x, |x|))
  }

  function Iterate(nbrs: seq<set<nat>>, personal: Vector, alpha: real, t: nat): (r: Vector)
    requires |nbrs| == |personal|
    ensures |r| == |personal|
  {
    if t == 0 then personal else Step(nbrs, personal, alpha, Iterate(nbrs, personal, alpha, t - 1))
  }

  function AbsAll(v: Vector): Vector {
    seq(|v|, i requires 0 <= i < |v| => Abs(v[i]))
  }

  /** The L1 norm. */
  function Norm(v: Vector): real {
    Mass(AbsAll(v))
  }

  function Minus(x: Vector, y: Vector): Vector
    requires |x| == |y|
  {
    seq(|x|, i requires 0 <= i < |x| => x[i] - y[i])
  }

  // ---------------------------------------------------------------------------
  // Columns
  // ---------------------------------------------------------------------------

  function Column(nbrs: seq<set<nat>>, s: nat): Vector
    requires s < |nbrs|
  {
    seq(|nbrs|, d requires 0 <= d < |nbrs| => Weight(nbrs, s, d))
  }

  function Below(a: set<nat>, m: nat): set<nat> {
    set d | d in a && d < m
  }

  lemma {:induction false} ColumnPrefix(nbrs: seq<set<nat>>, s: nat, m: nat)
    requires s < |nbrs| && m <= |nbrs| && nbrs[s] != {}
    ensures SumTo(Column(nbrs, s), m) == |Below(nbrs[s], m)| as real / |nbrs[s]| as real
  {
    if m > 0 {
      ColumnPrefix(nbrs, s, m - 1);
      if m - 1 in nbrs[s] {
        assert Below(nbrs[s], m) == Below(nbrs[s], m - 1) + {m - 1};
      } else {
        assert Below(nbrs[s], m) == Below(nbrs[s], m - 1);
      }
    } else {
      assert Below(nbrs[s], m) == {};
    }
  }

  lemma {:induction false} ZeroColumn(nbrs: seq<set<nat>>, s: nat, m: nat)
    requires s < |nbrs| && m <= |nbrs| && nbrs[s] == {}
    ensures SumTo(Column(nbrs, s), m) == 0.0
  {
    if m > 0 {
      ZeroColumn(nbrs, s, m - 1);
    }
  }

  /** Every column of the built adjacency sums to 1, or to 0 at an isolated node. */
  lemma ColumnSum(nbrs: seq<set<nat>>, s: nat)
    requires Undirected(nbrs) && s < |nbrs|
    ensures Mass(Column(nbrs, s)) == if nbrs[s] == {} then 0.0 else 1.0
  {
    if nbrs[s] == {} {
      ZeroColumn(nbrs, s, |nbrs|);
    } else {
      ColumnPrefix(nbrs, s, |nbrs|);
      assert Below(nbrs[s], |nbrs|) == nbrs[s];
    }
  }

  // ---------------------------------------------------------------------------
  // Contraction
  // ---------------------------------------------------------------------------

  lemma {:induction false} AddVectors(u: Vector, v: Vector, z: Vector, m: nat)
    requires |u| == |v| == |z| && m <= |u| && forall d :: 0 <= d < |u| ==> u[d] == v[d] + z[d]
    ensures SumTo(u, m) == SumTo(v, m) + SumTo(z, m)
    ensures SumTo(AbsAll(u), m) <= SumTo(AbsAll(v), m) + SumTo(AbsAll(z), m)
  {
    if m > 0 {
      AddVectors(u, v, z, m - 1);
    }
  }

  lemma ScaleNorm(c: real, w: Vector)
    ensures Norm(Scale(c, w)) == Abs(c) * Norm(w)
  {
    hide SumTo;
    forall d | 0 <= d < |w|
      ensures Abs(Scale(c, w)[d]) == Scale(Abs(c), AbsAll(w))[d]
    {
      AbsOfProduct(c, w[d]);
    }
    assert AbsAll(Scale(c, w)) == Scale(Abs(c), AbsAll(w));
    ScaleSum(Abs(c), AbsAll(w), |w|);
  }

  lemma AbsOfProduct(c: real, a: real)
    ensures Abs(c * a) == Abs(c) * Abs(a)
  {
  }

  lemma NormOfNonNegative(v: Vector)
    requires forall i :: 0 <= i < |v| ==> v[i] >= 0.0
    ensures Norm(v) == Mass(v)
  {
    assert AbsAll(v) == v;
  }

  /** The sum of x over the sources below k that have somewhere to send it. */
  function LinkedMass(nbrs: seq<set<nat>>, x: Vector, k: nat): real
    requires |x| == |nbrs| && k <= |x|
  {
    if k == 0 then 0.0 else LinkedMass(nbrs, x, k - 1) + (if nbrs[k - 1] == {} then 0.0 else x[k - 1])
  }

  /** One source adds its column, scaled by its mass, to the inflow of all nodes. */
  lemma InflowAddsColumn(nbrs: seq<set<nat>>, x: Vector, k: nat)
    requires Undirected(nbrs) && |x| == |nbrs| && 0 < k <= |x|
    ensures var v := InflowVector(nbrs, x, k - 1);
      && Mass(InflowVector(nbrs, x, k)) == Mass(v) + x[k - 1] * (if nbrs[k - 1] == {} then 0.0 else 1.0)
      && Norm(InflowVector(nbrs, x, k)) <= Norm(v) + Abs(x[k - 1])
  {
    hide SumTo;
    var column := Column(nbrs, k - 1);
    AddVectors(InflowVector(nbrs, x, k), InflowVector(nbrs, x, k - 1), Scale(x[k - 1], column), |x|);
    ScaleSum(x[k - 1], column, |x|);
    ScaleNorm(x[k - 1], column);
    NormOfNonNegative(column);
    ColumnSum(nbrs, k - 1);
  }

  lemma {:induction false} InflowTotals(nbrs: seq<set<nat>>, x: Vector, k: nat)
    requires Undirected(nbrs) && |x| == |nbrs| && k <= |x|
    ensures Mass(InflowVector(nbrs, x, k)) == LinkedMass(nbrs, x, k)
    ensures Norm(InflowVector(nbrs, x, k)) <= SumTo(AbsAll(x), k)
  {
    if k == 0 {
      AllZero(InflowVector(nbrs, x, 0), |x|);
      AllZero(AbsAll(InflowVector(nbrs, x, 0)), |x|);
    } else {
      InflowTotals(nbrs, x, k - 1);
      InflowAddsColumn(nbrs, x, k);
    }
  }

  lemma {:induction false} InflowIsLinear(nbrs: seq<set<nat>>, x: Vector, y: Vector, d: nat, k: nat)
    requires |x| == |y| == |nbrs| && k <= |x|
    ensures Inflow(nbrs, Minus(x, y), d, k) == Inflow(nbrs, x, d, k) - Inflow(nbrs, y, d, k)
  {
    if k > 0 {
      InflowIsLinear(nbrs, x, y, d, k - 1);
      var w := Weight(nbrs, k - 1, d);
      assert (x[k - 1] - y[k - 1]) * w == x[k - 1] * w - y[k - 1] * w;
    }
  }

  /** The restart cancels: mixing scales a difference of flows by 1 - alpha. */
  lemma MixScalesDifference(alpha: real, personal: Vector, f: Vector, g: Vector)
    requires |personal| == |f| == |g| && alpha <= 1.0
    ensures Norm(Minus(Mix(alpha, personal, f), Mix(alpha, personal, g))) == (1.0 - alpha) * Norm(Minus(f, g))
  {
    hide SumTo;
    var moved := Minus(Mix(alpha, personal, f), Mix(alpha, personal, g));
    forall d | 0 <= d < |f|
      ensures moved[d] == Scale(1.0 - alpha, Minus(f, g))[d]
    {
      SameRestart(alpha * personal[d], 1.0 - alpha, f[d], g[d]);
    }
    assert moved == Scale(1.0 - alpha, Minus(f, g));
    ScaleNorm(1.0 - alpha, Minus(f, g));
  }

  lemma SameRestart(restart: real, c: real, a: real, b: real)
    ensures (restart + c * a) - (restart + c * b) == c * (a - b)
  {
  }

  lemma InflowOfDifference(nbrs: seq<set<nat>>, x: Vector, y: Vector)
    requires |x| == |y| == |nbrs|
    ensures InflowVector(nbrs, Minus(x, y), |x|) == Minus(InflowVector(nbrs, x, |x|), InflowVector(nbrs, y, |y|))
  {
    forall d | 0 <= d < |x|
      ensures Inflow(nbrs, Minus(x, y), d, |x|) == Inflow(nbrs, x, d, |x|) - Inflow(nbrs, y, d, |x|)
    {
      InflowIsLinear(nbrs, x, y, d, |x|);
    }
  }

  /** One update brings any two vectors closer by the factor 1 - alpha. */
  lemma StepContracts(nbrs: seq<set<nat>>, personal: Vector, alpha: real, x: Vector, y: Vector)
    requires Undirected(nbrs) && |x| == |y| == |nbrs| == |personal| && 0.0 <= alpha <= 1.0
    ensures Norm(Minus(Step(nbrs, personal, alpha, x), Step(nbrs, personal, alpha, y)))
         <= (1.0 - alpha) * Norm(Minus(x, y))
  {
    hide SumTo, Inflow;
    var f, g := InflowVector(nbrs, x, |x|), InflowVector(nbrs, y, |y|);
    MixScalesDifference(alpha, personal, f, g);
    InflowOfDifference(nbrs, x, y);
    InflowTotals(nbrs, Minus(x, y), |x|);
    MulMonotone(1.0 - alpha, Norm(Minus(f, g)), Norm(Minus(x, y)));
  }

  lemma Chain(b: real, power: real, first: real, before: real, now: real)
    requires b >= 0.0 && now <= b * before && before <= power * first
    ensures now <= (b * power) * first
  {
    MulMonotone(b, before, power * first);
    assert b * (power * first) == (b * power) * first;
  }

  /** Successive iterates move by at most (1 - alpha)^t of the first move. */
  lemma {:induction false} IteratesContract(nbrs: seq<set<nat>>, personal: Vector, alpha: real, t: nat)
    requires Undirected(nbrs) && |nbrs| == |personal| && 0.0 <= alpha <= 1.0
    ensures Norm(Minus(Iterate(nbrs, personal, alpha, t + 1), Iterate(nbrs, personal, alpha, t)))
         <= Power(1.0 - alpha, t) * Norm(Minus(Iterate(nbrs, personal, alpha, 1), personal))
  {
    hide SumTo, Inflow;
    if t > 0 {
      IteratesContract(nbrs, personal, alpha, t - 1);
      var now, before := Iterate(nbrs, personal, alpha, t), Iterate(nbrs, personal, alpha, t - 1);
      var first := Norm(Minus(Iterate(nbrs, personal, alpha, 1), personal));
      StepContracts(nbrs, personal, alpha, now, before);
      var next := Iterate(nbrs, personal, alpha, t + 1);
      Chain(1.0 - alpha, Power(1.0 - alpha, t - 1), first, Norm(Minus(now, before)), Norm(Minus(next, now)));
    }
  }

  /** The iterates approach every fixed point at the same rate. */
  lemma {:induction false} IteratesApproachFixedPoint(
    nbrs: seq<set<nat>>, personal: Vector, alpha: real, fixed: Vector, t: nat)
    requires Undirected(nbrs) && |nbrs| == |personal| == |fixed| && 0.0 <= alpha <= 1.0
    requires Step(nbrs, personal, alpha, fixed) == fixed
    ensures Norm(Minus(Iterate(nbrs, personal, alpha, t), fixed))
         <= Power(1.0 - alpha, t) * Norm(Minus(personal, fixed))
  {
    hide SumTo, Inflow;
    if t > 0 {
      IteratesApproachFixedPoint(nbrs, personal, alpha, fixed, t - 1);
      var before := Iterate(nbrs, personal, alpha, t - 1);
      StepContracts(nbrs, personal, alpha, before, fixed);
      Chain(1.0 - alpha, Power(1.0 - alpha, t - 1), Norm(Minus(personal, fixed)),
            Norm(Minus(before, fixed)), Norm(Minus(Iterate(nbrs, personal, alpha, t), fixed)));
    }
  }

  lemma EntryIsBelowNorm(v: Vector, i: nat)
    requires i < |v|
    ensures Abs(v[i]) <= Norm(v)
  {
    var all := AbsAll(v);
    SumOfNonNegative(all, i, i);
    SumOfNonNegative(all, i + 1, |all|);
    assert SumTo(all, i + 1) == SumTo(all, i) + all[i];
  }

  /** For alpha > 0 there is at most one fixed point. */
  lemma FixedPointIsUnique(nbrs: seq<set<nat>>, personal: Vector, alpha: real, x: Vector, y: Vector)
    requires Undirected(nbrs) && |nbrs| == |personal| == |x| == |y| && 0.0 < alpha <= 1.0
    requires Step(nbrs, personal, alpha, x) == x && Step(nbrs, personal, alpha, y) == y
    ensures x == y
  {
    hide Step, Norm;
    var distance := Norm(Minus(x, y));
    StepContracts(nbrs, personal, alpha, x, y);
    ContractedToNothing(alpha, 1.0 - alpha, distance);
    forall i | 0 <= i < |x|
      ensures x[i] == y[i]
    {
      EntryIsBelowNorm(Minus(x, y), i);
    }
  }

  lemma ContractedToNothing(alpha: real, c: real, distance: real)
    requires alpha > 0.0 && alpha + c == 1.0 && distance <= c * distance
    ensures distance <= 0.0
  {
    assert alpha * distance + c * distance == distance;
    if distance > 0.0 {
      ProductIsPositive(alpha, distance);
    }
  }

  // ---------------------------------------------------------------------------
  // Mass
  // ---------------------------------------------------------------------------

  /** The personalisation vector: uniform on the seed list, its weight not repeated for repeated seeds. */
  function Personal(n: nat, seeds: seq<nat>): Vector
    requires seeds != []
  {
    seq(n, i requires 0 <= i < n => if i in seeds then 1.0 / |seeds| as real else 0.0)
  }

  lemma {:induction false} InflowSign(nbrs: seq<set<nat>>, x: Vector, d: nat, k: nat)
    requires |x| == |nbrs| && k <= |x| && forall i :: 0 <= i < |x| ==> x[i] >= 0.0
    ensures Inflow(nbrs, x, d, k) >= 0.0
    ensures Inflow(nbrs, x, d, k) > 0.0 <==> exists s :: 0 <= s < k && x[s] > 0.0 && d in nbrs[s]
  {
    if k > 0 {
      InflowSign(nbrs, x, d, k - 1);
      var term := x[k - 1] * Weight(nbrs, k - 1, d);
      assert term >= 0.0;
      assert term > 0.0 <==> x[k - 1] > 0.0 && d in nbrs[k - 1];
    }
  }

  lemma MixSign(alpha: real, a: real, b: real)
    requires 0.0 <= alpha <= 1.0 && a >= 0.0 && b >= 0.0
    ensures alpha * a + (1.0 - alpha) * b >= 0.0
    ensures 0.0 < alpha < 1.0 ==> (alpha * a + (1.0 - alpha) * b > 0.0 <==> a > 0.0 || b > 0.0)
  {
    SignOfProduct(alpha, a);
    SignOfProduct(1.0 - alpha, b);
  }

  lemma {:induction false} IteratesAreNonNegative(nbrs: seq<set<nat>>, personal: Vector, alpha: real, t: nat)
    requires |nbrs| == |personal| && 0.0 <= alpha <= 1.0 && forall i :: 0 <= i < |personal| ==> personal[i] >= 0.0
    ensures forall i :: 0 <= i < |personal| ==> Iterate(nbrs, personal, alpha, t)[i] >= 0.0
  {
    hide Inflow;
    if t > 0 {
      IteratesAreNonNegative(nbrs, personal, alpha, t - 1);
      forall d | 0 <= d < |personal|
        ensures Iterate(nbrs, personal, alpha, t)[d] >= 0.0
      {
        InflowSign(nbrs, Iterate(nbrs, personal, alpha, t - 1), d, |personal|);
        MixSign(alpha, personal[d], Inflow(nbrs, Iterate(nbrs, personal, alpha, t - 1), d, |personal|));
      }
    }
  }

  lemma {:induction false} MixSum(alpha: real, personal: Vector, flow: Vector, m: nat)
    requires |personal| == |flow| && m <= |flow|
    ensures SumTo(Mix(alpha, personal, flow), m) == alpha * SumTo(personal, m) + (1.0 - alpha) * SumTo(flow, m)
  {
    if m > 0 {
      MixSum(alpha, personal, flow, m - 1);
      Distribute(alpha, SumTo(personal, m - 1), personal[m - 1]);
      Distribute(1.0 - alpha, SumTo(flow, m - 1), flow[m - 1]);
    }
  }

  /** Conservation: an update keeps the share alpha of the restart mass and the linked part of the rest. */
  lemma StepMass(nbrs: seq<set<nat>>, personal: Vector, alpha: real, x: Vector)
    requires Undirected(nbrs) && |x| == |nbrs| == |personal|
    ensures Mass(Step(nbrs, personal, alpha, x)) == alpha * Mass(personal) + (1.0 - alpha) * LinkedMass(nbrs, x, |x|)
  {
    hide SumTo, Inflow, LinkedMass;
    MixSum(alpha, personal, InflowVector(nbrs, x, |x|), |x|);
    InflowTotals(nbrs, x, |x|);
  }

  lemma {:induction false} LinkedMassBound(nbrs: seq<set<nat>>, x: Vector, k: nat)
    requires |x| == |nbrs| && k <= |x| && forall i :: 0 <= i < |x| ==> x[i] >= 0.0
    ensures LinkedMass(nbrs, x, k) <= SumTo(x, k)
    ensures LinkedMass(nbrs, x, k) == SumTo(x, k) <==> forall s :: 0 <= s < k && nbrs[s] == {} ==> x[s] == 0.0
  {
    if k > 0 {
      LinkedMassBound(nbrs, x, k - 1);
    }
  }

  lemma NoInflowWhenIsolated(nbrs: seq<set<nat>>, x: Vector, s: nat)
    requires Undirected(nbrs) && |x| == |nbrs| && s < |nbrs| && nbrs[s] == {}
    requires forall i :: 0 <= i < |x| ==> x[i] >= 0.0
    ensures Inflow(nbrs, x, s, |x|) == 0.0
  {
    InflowSign(nbrs, x, s, |x|);
  }

  /** From the first update on an isolated node holds exactly what restarts there. */
  lemma IsolatedNodes(nbrs: seq<set<nat>>, personal: Vector, alpha: real, t: nat, s: nat)
    requires Undirected(nbrs) && |nbrs| == |personal| && s < |nbrs| && nbrs[s] == {}
    requires 0.0 <= alpha <= 1.0 && forall i :: 0 <= i < |personal| ==> personal[i] >= 0.0
    ensures Iterate(nbrs, personal, alpha, t)[s] == if t == 0 then personal[s] else alpha * personal[s]
  {
    if t > 0 {
      var before := Iterate(nbrs, personal, alpha, t - 1);
      IteratesAreNonNegative(nbrs, personal, alpha, t - 1);
      NoInflowWhenIsolated(nbrs, before, s);
      hide Undirected, Inflow;
      assert Iterate(nbrs, personal, alpha, t)[s] ==
        alpha * personal[s] + (1.0 - alpha) * Inflow(nbrs, before, s, |before|);
    }
  }

  /** Total mass never exceeds the mass of the personalisation vector. */
  lemma {:induction false} MassNeverGrows(nbrs: seq<set<nat>>, personal: Vector, alpha: real, t: nat)
    requires Undirected(nbrs) && |nbrs| == |personal|
    requires 0.0 <= alpha <= 1.0 && forall i :: 0 <= i < |personal| ==> personal[i] >= 0.0
    ensures Mass(Iterate(nbrs, personal, alpha, t)) <= Mass(personal)
  {
    hide SumTo, Inflow, LinkedMass;
    if t > 0 {
      var before := Iterate(nbrs, personal, alpha, t - 1);
      MassNeverGrows(nbrs, personal, alpha, t - 1);
      IteratesAreNonNegative(nbrs, personal, alpha, t - 1);
      StepMass(nbrs, personal, alpha, before);
      LinkedMassBound(nbrs, before, |before|);
      MulMonotone(1.0 - alpha, LinkedMass(nbrs, before, |before|), Mass(personal));
    }
  }

  /** Mass is conserved from the first iteration on exactly when no seed is isolated. */
  lemma {:induction false} MassIsConservedIffNoSeedIsolated(nbrs: seq<set<nat>>, personal: Vector, alpha: real, t: nat)
    requires Undirected(nbrs) && |nbrs| == |personal| && t > 0
    requires 0.0 < alpha < 1.0 && forall i :: 0 <= i < |personal| ==> personal[i] >= 0.0
    ensures Mass(Iterate(nbrs, personal, alpha, t)) == Mass(personal) <==>
      forall s :: 0 <= s < |nbrs| && nbrs[s] == {} ==> personal[s] == 0.0
  {
    hide SumTo, Inflow, LinkedMass;
    var before := Iterate(nbrs, personal, alpha, t - 1);
    IteratesAreNonNegative(nbrs, personal, alpha, t - 1);
    MassNeverGrows(nbrs, personal, alpha, t - 1);
    StepMass(nbrs, personal, alpha, before);
    LinkedMassBound(nbrs, before, |before|);
    forall s | 0 <= s < |nbrs| && nbrs[s] == {}
      ensures before[s] == 0.0 <==> personal[s] == 0.0
    {
      IsolatedIffUnseeded(nbrs, personal, alpha, t - 1, s);
    }
    if t > 1 {
      MassIsConservedIffNoSeedIsolated(nbrs, personal, alpha, t - 1);
    }
    MixStrictly(alpha, 1.0 - alpha, Mass(personal), LinkedMass(nbrs, before, |before|));
  }

  lemma IsolatedIffUnseeded(nbrs: seq<set<nat>>, personal: Vector, alpha: real, t: nat, s: nat)
    requires Undirected(nbrs) && |nbrs| == |personal| && s < |nbrs| && nbrs[s] == {}
    requires 0.0 < alpha <= 1.0 && forall i :: 0 <= i < |personal| ==> personal[i] >= 0.0
    ensures Iterate(nbrs, personal, alpha, t)[s] == 0.0 <==> personal[s] == 0.0
  {
    hide Undirected, Iterate;
    IsolatedNodes(nbrs, personal, alpha, t, s);
    SignOfProduct(alpha, personal[s]);
  }

  lemma MixStrictly(alpha: real, c: real, total: real, linked: real)
    requires alpha + c == 1.0 && c > 0.0 && linked <= total
    ensures alpha * total + c * linked == total <==> linked == total
  {
    assert alpha * total + c * total == total;
    if linked < total {
      MulStrict(c, linked, total);
    }
  }

  lemma MulStrict(c: real, a: real, b: real)
    requires c > 0.0 && a < b
    ensures c * a < c * b
  {
  }

  /** The first m nodes hold the share of the seed list that its distinct seeds among them make up. */
  lemma {:induction false} PersonalMass(n: nat, seeds: seq<nat>, m: nat)
    requires seeds != [] && m <= n
    ensures SumTo(Personal(n, seeds), m) == |Below(SeedSet(seeds), m)| as real / |seeds| as real
  {
    if m == 0 {
      assert Below(SeedSet(seeds), 0) == {};
    } else {
      PersonalMass(n, seeds, m - 1);
      BelowNext(seeds, m - 1);
      hide SeedSet, Below;
      AddOneOver(|Below(SeedSet(seeds), m - 1)|, |seeds| as real);
    }
  }

  lemma BelowNext(seeds: seq<nat>, m: nat)
    ensures |Below(SeedSet(seeds), m + 1)| == |Below(SeedSet(seeds), m)| + if m in seeds then 1 else 0
  {
    assert Below(SeedSet(seeds), m + 1) == Below(SeedSet(seeds), m) + (if m in seeds then {m} else {});
  }

  lemma AddOneOver(k: nat, n: real)
    requires n > 0.0
    ensures (k + 1) as real / n == k as real / n + 1.0 / n
  {
  }

  function SeedSet(seeds: seq<nat>): set<nat> {
    set s | s in seeds
  }

  lemma {:induction false} SeedSetSize(seeds: seq<nat>)
    ensures |SeedSet(seeds)| <= |seeds|
  {
    if seeds != [] {
      SeedSetSize(seeds[1..]);
      assert seeds == [seeds[0]] + seeds[1..];
      assert SeedSet(seeds) == SeedSet(seeds[1..]) + {seeds[0]};
    }
  }

  lemma PersonalMassAtMostOne(n: nat, seeds: seq<nat>)
    requires seeds != []
    ensures Mass(Personal(n, seeds)) <= 1.0
  {
    hide SumTo;
    PersonalMass(n, seeds, n);
    SeedSetSize(seeds);
    BelowIsSmaller(SeedSet(seeds), n);
    DivideBound(|Below(SeedSet(seeds), n)| as real, |seeds| as real);
  }

  lemma {:induction false} SeedSetIsFull(seeds: seq<nat>)
    ensures |SeedSet(seeds)| == |seeds| <==> Distinct(seeds)
  {
    if seeds != [] {
      var rest := seeds[1..];
      SeedSetIsFull(rest);
      SeedSetSize(rest);
      assert seeds == [seeds[0]] + rest;
      assert SeedSet(seeds) == SeedSet(rest) + {seeds[0]};
      assert Distinct(seeds) <==> seeds[0] !in rest && Distinct(rest) by {
        DistinctHead(seeds[0], rest);
      }
    }
  }

  lemma DistinctHead(first: nat, rest: seq<nat>)
    ensures Distinct([first] + rest) <==> first !in rest && Distinct(rest)
  {
    var s := [first] + rest;
    if Distinct(s) {
      forall i, j | 0 <= i < j < |rest|
        ensures rest[i] != rest[j]
      {
        assert s[i + 1] == rest[i] && s[j + 1] == rest[j];
      }
      forall j | 0 <= j < |rest|
        ensures rest[j] != first
      {
        assert s[0] != s[j + 1];
      }
    }
  }

  /** The personalisation vector has total mass 1 exactly when no seed is repeated. */
  lemma PersonalMassIsOneIffDistinct(n: nat, seeds: seq<nat>)
    requires seeds != [] && forall i :: 0 <= i < |seeds| ==> seeds[i] < n
    ensures Mass(Personal(n, seeds)) == 1.0 <==> Distinct(seeds)
  {
    hide SumTo;
    PersonalMass(n, seeds, n);
    assert Below(SeedSet(seeds), n) == SeedSet(seeds);
    SeedSetIsFull(seeds);
    QuotientIff(|SeedSet(seeds)| as real, |seeds| as real, 1.0);
  }

  lemma BelowIsSmaller(a: set<nat>, m: nat)
    ensures |Below(a, m)| <= |a|
  {
    assert a == Below(a, m) + (a - Below(a, m));
  }

  lemma DivideBound(k: real, n: real)
    requires n > 0.0 && k <= n
    ensures k / n <= 1.0
  {
  }

  /** Scores are non-negative and total at most one. */
  lemma ScoresAreSubProbability(nbrs: seq<set<nat>>, seeds: seq<nat>, alpha: real, t: nat)
    requires Undirected(nbrs) && seeds != [] && 0.0 <= alpha <= 1.0
    ensures var r := Iterate(nbrs, Personal(|nbrs|, seeds), alpha, t);
      Mass(r) <= 1.0 && forall i :: 0 <= i < |r| ==> r[i] >= 0.0
  {
    hide SumTo, Inflow;
    var personal := Personal(|nbrs|, seeds);
    IteratesAreNonNegative(nbrs, personal, alpha, t);
    MassNeverGrows(nbrs, personal, alpha, t);
    PersonalMassAtMostOne(|nbrs|, seeds);
  }

  // ---------------------------------------------------------------------------
  // Support
  // ---------------------------------------------------------------------------

  /** A walk along edges that starts at a seed. */
  ghost predicate WalkFromSeed(nbrs: seq<set<nat>>, seeds: seq<nat>, walk: seq<nat>) {
    && walk != []
    && walk[0] in seeds
    && (forall i :: 0 <= i < |walk| ==> walk[i] < |nbrs|)
    && (forall i :: 0 < i < |walk| ==> walk[i] in nbrs[walk[i - 1]])
  }

  /** d is within t edges of some seed. */
  ghost predicate WithinReach(nbrs: seq<set<nat>>, seeds: seq<nat>, d: nat, t: nat) {
    exists walk :: WalkFromSeed(nbrs, seeds, walk) && walk[|walk| - 1] == d && |walk| <= t + 1
  }

  lemma ReachZero(nbrs: seq<set<nat>>, seeds: seq<nat>, d: nat)
    requires d < |nbrs|
    ensures WithinReach(nbrs, seeds, d, 0) <==> d in seeds
  {
    if d in seeds {
      assert WalkFromSeed(nbrs, seeds, [d]);
    }
  }

  lemma ReachStep(nbrs: seq<set<nat>>, seeds: seq<nat>, d: nat, t: nat)
    requires t > 0 && d < |nbrs|
    ensures WithinReach(nbrs, seeds, d, t) <==>
      d in seeds || exists s :: 0 <= s < |nbrs| && WithinReach(nbrs, seeds, s, t - 1) && d in nbrs[s]
  {
    if WithinReach(nbrs, seeds, d, t) {
      var walk :| WalkFromSeed(nbrs, seeds, walk) && walk[|walk| - 1] == d && |walk| <= t + 1;
      if |walk| > 1 {
        var shorter := walk[..|walk| - 1];
        assert WalkFromSeed(nbrs, seeds, shorter);
        assert WithinReach(nbrs, seeds, shorter[|shorter| - 1], t - 1);
      }
    }
    if d in seeds {
      assert WalkFromSeed(nbrs, seeds, [d]);
    }
    if s :| 0 <= s < |nbrs| && WithinReach(nbrs, seeds, s, t - 1) && d in nbrs[s] {
      var walk :| WalkFromSeed(nbrs, seeds, walk) && walk[|walk| - 1] == s && |walk| <= t;
      assert WalkFromSeed(nbrs, seeds, walk + [d]);
    }
  }

  /** After t iterations exactly the nodes within t edges of a seed have a positive score. */
  lemma {:induction false} PositiveIffWithinReach(nbrs: seq<set<nat>>, seeds: seq<nat>, alpha: real, t: nat, d: nat)
    requires seeds != [] && 0.0 < alpha < 1.0 && d < |nbrs|
    ensures Iterate(nbrs, Personal(|nbrs|, seeds), alpha, t)[d] > 0.0 <==> WithinReach(nbrs, seeds, d, t)
    decreases t
  {
    hide Inflow, WithinReach, SumTo;
    var personal := Personal(|nbrs|, seeds);
    if t == 0 {
      ReachZero(nbrs, seeds, d);
    } else {
      var before := Iterate(nbrs, personal, alpha, t - 1);
      IteratesAreNonNegative(nbrs, personal, alpha, t - 1);
      InflowSign(nbrs, before, d, |nbrs|);
      forall s | 0 <= s < |nbrs|
        ensures before[s] > 0.0 <==> WithinReach(nbrs, seeds, s, t - 1)
      {
        PositiveIffWithinReach(nbrs, seeds, alpha, t - 1, s);
      }
      ReachStep(nbrs, seeds, d, t);
      MixSign(alpha, personal[d], Inflow(nbrs, before, d, |nbrs|));
    }
  }
}
