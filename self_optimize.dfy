// The self-optimisation of `PYGA_StandardGenAlgBehavior`: between
// generations the behaviour re-tunes its crossover rate, its mutation rate
// and its influence distance from the number of clusters the population
// forms.  Rates and cluster limits are integers and Python 2 divides them
// with floor division; the influence distance is a real.

module SelfOptimize {
  import opened Errors
  import opened PyMath
  import Individuals
  import Clustering
  import Populations

  /** Above this percentage of duplicated individuals the cluster count is not consulted. */
  const AuthorizedDuplPercent := 20
  /** `cm` and `mm`: the smallest crossover and mutation rates of the lines. */
  const RateMin := 10

  // ----- the rate lines -----

  /** `int((cM + cm)/2)` with `cM = maxRepro - cm`: the rate at the stability point. */
  function StableRate(maxRepro: int): (r: int)
    ensures r * 2 <= maxRepro < r * 2 + 2
  {
    FloorDiv((maxRepro - RateMin) + RateMin, 2)
  }

  /** `((a1 - aS)*n + (aS - a1*sm)) / (1 - sm)`, the line used below the band. */
  function LineBelow(a1: int, aS: int, n: int, sm: int): int
    requires sm != 1
  {
    FloorDiv((a1 - aS) * n + (aS - a1 * sm), 1 - sm)
  }

  /** `((aSM - aPs)*n + (aPs*sM - ps*aSM)) / (sM - ps)`, the line used above the band. */
  function LineAbove(aSM: int, aPs: int, n: int, sM: int, ps: int): int
    requires sM != ps
  {
    FloorDiv((aSM - aPs) * n + (aPs * sM - ps * aSM), sM - ps)
  }

  lemma FloorDivExact(k: int, d: int)
    requires d != 0
    ensures FloorDiv(k * d, d) == k
  {
    var q := FloorDiv(k * d, d);
    if d > 0 {
      MulCancel(q, k + 1, d);
      MulCancel(k, q + 1, d);
    } else {
      MulCancel(q, k + 1, -d);
      MulCancel(k, q + 1, -d);
    }
  }

  /** The lower line joins (1, a1) to the stability point (sm, aS). */
  lemma {:induction false} LineBelowAnchors(a1: int, aS: int, sm: int)
    requires sm != 1
    ensures LineBelow(a1, aS, 1, sm) == a1
    ensures LineBelow(a1, aS, sm, sm) == aS
  {
    assert (a1 - aS) * 1 + (aS - a1 * sm) == a1 * (1 - sm);
    FloorDivExact(a1, 1 - sm);
    assert (a1 - aS) * sm + (aS - a1 * sm) == aS * (1 - sm);
    FloorDivExact(aS, 1 - sm);
  }

  /** The upper line joins the stability point (sM, aSM) to (ps, aPs). */
  lemma {:induction false} LineAboveAnchors(aSM: int, aPs: int, sM: int, ps: int)
    requires sM != ps
    ensures LineAbove(aSM, aPs, sM, sM, ps) == aSM
    ensures LineAbove(aSM, aPs, ps, sM, ps) == aPs
  {
    assert (aSM - aPs) * sM + (aPs * sM - ps * aSM) == aSM * (sM - ps);
    FloorDivExact(aSM, sM - ps);
    assert (aSM - aPs) * ps + (aPs * sM - ps * aSM) == aPs * (sM - ps);
    FloorDivExact(aPs, sM - ps);
  }

  /** The crossover rate for n clusters in a population of ps: the stability
      rate inside [sm, sM], a line rising from 10 at one cluster below it and a
      line rising to maxRepro - 10 at ps clusters above it. */
  function CrossoverRate(n: int, ps: int, sm: int, sM: int, maxRepro: int): (r: Result<int>)
    ensures sm <= n <= sM ==> r == Ok(StableRate(maxRepro))
    ensures r.Err? <==> (n < sm && sm == 1) || (sM < n && !(n < sm) && sM == ps)
    ensures r.Err? ==> r.error == ZeroDivisionError
    ensures 1 <= n <= ps ==> r.Ok?
    ensures n == 1 < sm ==> r == Ok(RateMin)
    ensures ps == n && sM < n && !(n < sm) ==> r == Ok(maxRepro - RateMin)
    ensures n < sm && sm != 1 ==> r == Ok(LineBelow(RateMin, StableRate(maxRepro), n, sm))
  {
    var cS := StableRate(maxRepro);
    var cM := maxRepro - RateMin;
    if n < sm then
      if sm == 1 then Err(ZeroDivisionError)
      else
        LineBelowAnchors(RateMin, cS, sm);
        Ok(LineBelow(RateMin, cS, n, sm))
    else if n > sM then
      if sM == ps then Err(ZeroDivisionError)
      else
        LineAboveAnchors(cS, cM, sM, ps);
        Ok(LineAbove(cS, cM, n, sM, ps))
    else Ok(cS)
  }

  /** The mutation rate for n clusters: the mirror image of the crossover
      rate, falling from maxRepro - 10 at one cluster to 10 at ps clusters. */
  function MutationRate(n: int, ps: int, sm: int, sM: int, maxRepro: int): (r: Result<int>)
    ensures sm <= n <= sM ==> r == Ok(StableRate(maxRepro))
    ensures r.Err? <==> (n < sm && sm == 1) || (sM < n && !(n < sm) && sM == ps)
    ensures r.Err? ==> r.error == ZeroDivisionError
    ensures 1 <= n <= ps ==> r.Ok?
    ensures n == 1 < sm ==> r == Ok(maxRepro - RateMin)
    ensures ps == n && sM < n && !(n < sm) ==> r == Ok(RateMin)
    ensures sM < n && !(n < sm) && sM != ps ==> r == Ok(LineAbove(StableRate(maxRepro), RateMin, n, sM, ps))
  {
    var mS := StableRate(maxRepro);
    var mM := maxRepro - RateMin;
    if n < sm then
      if sm == 1 then Err(ZeroDivisionError)
      else
        LineBelowAnchors(mM, mS, sm);
        Ok(LineBelow(mM, mS, n, sm))
    else if n > sM then
      if sM == ps then Err(ZeroDivisionError)
      else
        LineAboveAnchors(mS, RateMin, sM, ps);
        Ok(LineAbove(mS, RateMin, n, sM, ps))
    else Ok(mS)
  }

  /** Both rates meet the stability rate where their lines reach the band. */
  lemma RatesContinuous(ps: int, sm: int, sM: int, maxRepro: int)
    requires sm != 1 && sM != ps
    ensures LineBelow(RateMin, StableRate(maxRepro), sm, sm) == StableRate(maxRepro)
    ensures LineAbove(StableRate(maxRepro), maxRepro - RateMin, sM, sM, ps) == StableRate(maxRepro)
    ensures LineBelow(maxRepro - RateMin, StableRate(maxRepro), sm, sm) == StableRate(maxRepro)
    ensures LineAbove(StableRate(maxRepro), RateMin, sM, sM, ps) == StableRate(maxRepro)
  {
    LineBelowAnchors(RateMin, StableRate(maxRepro), sm);
    LineAboveAnchors(StableRate(maxRepro), maxRepro - RateMin, sM, ps);
    LineBelowAnchors(maxRepro - RateMin, StableRate(maxRepro), sm);
    LineAboveAnchors(StableRate(maxRepro), RateMin, sM, ps);
  }

  /** `min(90, duplPercent*3)`: the mutation rate when too many individuals are duplicated. */
  function DuplicatedMutationRate(duplPercent: int): (r: int)
    ensures r <= 90 && r <= duplPercent * 3
    ensures r == 90 || r == duplPercent * 3
  {
    if 90 <= duplPercent * 3 then 90 else duplPercent * 3
  }

  /** A partition of a non-empty population into non-empty clusters has
      between one and as many clusters as individuals, so neither rate divides by zero. */
  lemma ClusterCount(cs: seq<seq<nat>>, n: nat)
    requires Clustering.Partition(cs, n) && Clustering.Seeded(cs)
    ensures n > 0 ==> 1 <= |cs|
    ensures |cs| <= n
  {
    FlattenBounded(cs, n);
    Clustering.Pigeonhole(Clustering.Flatten(cs), n);
    FlattenAtLeast(cs);
  }

  predicate AllBelow(s: seq<nat>, n: nat) {
    forall i :: 0 <= i < |s| ==> s[i] < n
  }

  lemma {:induction false} FlattenBounded(cs: seq<seq<nat>>, n: nat)
    requires Clustering.InRange(cs, n)
    ensures AllBelow(Clustering.Flatten(cs), n)
  {
    if cs != [] {
      var init := cs[..|cs| - 1];
      assert Clustering.InRange(init, n) by {
        forall c, k | 0 <= c < |init| && 0 <= k < |init[c]| ensures init[c][k] < n {
          assert init[c] == cs[c];
        }
      }
      FlattenBounded(init, n);
      assert Clustering.Flatten(cs) == Clustering.Flatten(init) + cs[|cs| - 1];
    }
  }

  lemma {:induction false} FlattenAtLeast(cs: seq<seq<nat>>)
    requires forall c :: 0 <= c < |cs| ==> cs[c] != []
    ensures |Clustering.Flatten(cs)| >= |cs|
  {
    if cs != [] {
      var init := cs[..|cs| - 1];
      assert forall c :: 0 <= c < |init| ==> init[c] == cs[c];
      FlattenAtLeast(init);
      assert Clustering.Flatten(cs) == Clustering.Flatten(init) + cs[|cs| - 1];
    }
  }

  /** `optimizeCrossover`: no crossover when more than 20% of the population
      is duplicated, otherwise the rate of the cluster count.  The
      duplication percentage divides by the population size. */
  method OptimizeCrossover<T>(population: Populations.Population<T>, isDuplication: (T, T) -> bool,
                              distance: (T, T) -> Option<real>, inflDist: real, sm: int, sM: int, maxRepro: int)
    returns (r: Result<int>, clusters: seq<seq<nat>>)
    ensures |population.individuals| == 0 ==> r == Err(ZeroDivisionError)
    ensures |population.individuals| > 0 ==>
              var dupl := Populations.DuplicateCount(population.individuals, |population.individuals|, isDuplication)
                          * 100 / |population.individuals|;
              (dupl > AuthorizedDuplPercent ==> r == Ok(0))
              && (dupl <= AuthorizedDuplPercent ==>
                    Clustering.Partition(clusters, |population.individuals|) && Clustering.Seeded(clusters)
                    && Clustering.Chained(population.individuals, clusters, distance, inflDist)
                    && Clustering.Separated(population.individuals, clusters, distance, inflDist)
                    && 1 <= |clusters| <= |population.individuals|
                    && r == CrossoverRate(|clusters|, |population.individuals|, sm, sM, maxRepro) && r.Ok?)
  {
    clusters := [];
    var dupl := population.GetDuplicationPercent(isDuplication);
    if dupl.Err? {
      return Err(dupl.error), [];
    }
    if dupl.value > AuthorizedDuplPercent {
      return Ok(0), [];
    }
    var members;
    members, clusters := population.GetClusters(distance, inflDist);
    ClusterCount(clusters, |population.individuals|);
    r := CrossoverRate(|clusters|, |population.individuals|, sm, sM, maxRepro);
  }

  /** `optimizeMutation`: a rate growing with the duplication when more than
      20% of the population is duplicated, otherwise the rate of the cluster count. */
  method OptimizeMutation<T>(population: Populations.Population<T>, isDuplication: (T, T) -> bool,
                             distance: (T, T) -> Option<real>, inflDist: real, sm: int, sM: int, maxRepro: int)
    returns (r: Result<int>, clusters: seq<seq<nat>>)
    ensures |population.individuals| == 0 ==> r == Err(ZeroDivisionError)
    ensures |population.individuals| > 0 ==>
              var dupl := Populations.DuplicateCount(population.individuals, |population.individuals|, isDuplication)
                          * 100 / |population.individuals|;
              (dupl > AuthorizedDuplPercent ==> r == Ok(DuplicatedMutationRate(dupl)))
              && (dupl <= AuthorizedDuplPercent ==>
                    Clustering.Partition(clusters, |population.individuals|) && Clustering.Seeded(clusters)
                    && Clustering.Chained(population.individuals, clusters, distance, inflDist)
                    && Clustering.Separated(population.individuals, clusters, distance, inflDist)
                    && 1 <= |clusters| <= |population.individuals|
                    && r == MutationRate(|clusters|, |population.individuals|, sm, sM, maxRepro) && r.Ok?)
  {
    clusters := [];
    var dupl := population.GetDuplicationPercent(isDuplication);
    if dupl.Err? {
      return Err(dupl.error), [];
    }
    if dupl.value > AuthorizedDuplPercent {
      return Ok(DuplicatedMutationRate(dupl.value)), [];
    }
    var members;
    members, clusters := population.GetClusters(distance, inflDist);
    ClusterCount(clusters, |population.individuals|);
    r := MutationRate(|clusters|, |population.individuals|, sm, sM, maxRepro);
  }

  // ----- the influence distance -----

  function RealLess(x: real, y: real): bool {
    x < y
  }

  /** Python 2 `a < b` between distances, None below every number. */
  predicate Lt(a: Option<real>, b: Option<real>) {
    Individuals.NoneFirstLess(a, b, RealLess)
  }

  /** Not below (with None least) is a total preorder. */
  lemma NotLtTrans(x: Option<real>, y: Option<real>, z: Option<real>)
    requires !Lt(x, y) && !Lt(y, z)
    ensures !Lt(x, z)
  {
  }

  lemma LtAsymmetric(x: Option<real>, y: Option<real>)
    requires Lt(x, y)
    ensures !Lt(y, x)
  {
  }

  /** Position j of cl is a partner of x (`x is not cl[j]`) at distance d. */
  predicate PartnerAt<T(==)>(cl: seq<T>, x: T, distance: (T, T) -> Option<real>, j: int, d: Option<real>) {
    0 <= j < |cl| && cl[j] != x && distance(x, cl[j]) == d
  }

  /** Two distinct individuals (`indiv1 is not indiv2`) of cluster c. */
  predicate SameClusterPair<T(==)>(cs: seq<seq<T>>, c: int, i: int, j: int) {
    0 <= c < |cs| && 0 <= i < |cs[c]| && 0 <= j < |cs[c]| && cs[c][i] != cs[c][j]
  }

  /** `for indiv2 in cluster: if indiv1 is not indiv2 and d < minDist: minDist = d`:
      the least of m0 and the distances from x to its partners, None below every number. */
  method MinToPartners<T(==)>(cl: seq<T>, x: T, distance: (T, T) -> Option<real>, m0: Option<real>)
    returns (m: Option<real>)
    ensures m == m0 || exists j :: PartnerAt(cl, x, distance, j, m)
    ensures !Lt(m0, m)
    ensures forall j :: 0 <= j < |cl| && cl[j] != x ==> !Lt(distance(x, cl[j]), m)
  {
    m := m0;
    var j := 0;
    while j < |cl|
      invariant j <= |cl|
      invariant m == m0 || exists j' :: PartnerAt(cl, x, distance, j', m)
      invariant !Lt(m0, m)
      invariant forall j' :: 0 <= j' < j && cl[j'] != x ==> !Lt(distance(x, cl[j']), m)
    {
      if cl[j] != x {
        var d := distance(x, cl[j]);
        if Lt(d, m) {
          LtAsymmetric(d, m);
          NotLtTrans(m0, m, d);
          forall j' | 0 <= j' < j && cl[j'] != x ensures !Lt(distance(x, cl[j']), d) {
            NotLtTrans(distance(x, cl[j']), m, d);
          }
          assert PartnerAt(cl, x, distance, j, d);
          m := d;
        }
      }
      j := j + 1;
    }
  }

  /** `for indiv1 in cluster`: the least of m0 and the distances between
      two distinct members of the cluster. */
  method MinInCluster<T(==)>(cl: seq<T>, distance: (T, T) -> Option<real>, m0: Option<real>)
    returns (m: Option<real>)
    ensures m == m0 || exists i, j :: 0 <= i < |cl| && PartnerAt(cl, cl[i], distance, j, m)
    ensures !Lt(m0, m)
    ensures forall i, j :: 0 <= i < |cl| && 0 <= j < |cl| && cl[i] != cl[j] ==> !Lt(distance(cl[i], cl[j]), m)
  {
    m := m0;
    var i := 0;
    while i < |cl|
      invariant i <= |cl|
      invariant m == m0 || exists i', j :: 0 <= i' < |cl| && PartnerAt(cl, cl[i'], distance, j, m)
      invariant !Lt(m0, m)
      invariant forall i', j :: 0 <= i' < i && 0 <= j < |cl| && cl[i'] != cl[j] ==> !Lt(distance(cl[i'], cl[j]), m)
    {
      var m' := MinToPartners(cl, cl[i], distance, m);
      NotLtTrans(m0, m, m');
      forall i', j | 0 <= i' < i && 0 <= j < |cl| && cl[i'] != cl[j] ensures !Lt(distance(cl[i'], cl[j]), m') {
        NotLtTrans(distance(cl[i'], cl[j]), m, m');
      }
      if m' != m {
        var j :| PartnerAt(cl, cl[i], distance, j, m');
      }
      m := m';
      i := i + 1;
    }
  }

  /** The smallest distance between two distinct members of a same cluster,
      starting from `start`; None as soon as one distance is None. */
  method MinDistance<T(==)>(cs: seq<seq<T>>, distance: (T, T) -> Option<real>, start: real)
    returns (minDist: Option<real>)
    ensures minDist == Some(start)
            || exists c, i, j :: SameClusterPair(cs, c, i, j) && distance(cs[c][i], cs[c][j]) == minDist
    ensures !Lt(Some(start), minDist)
    ensures forall c, i, j :: SameClusterPair(cs, c, i, j) ==> !Lt(distance(cs[c][i], cs[c][j]), minDist)
  {
    minDist := Some(start);
    var c := 0;
    while c < |cs|
      invariant c <= |cs|
      invariant minDist == Some(start)
                || exists c', i, j :: SameClusterPair(cs, c', i, j) && distance(cs[c'][i], cs[c'][j]) == minDist
      invariant !Lt(Some(start), minDist)
      invariant forall c', i, j :: c' < c && SameClusterPair(cs, c', i, j) ==> !Lt(distance(cs[c'][i], cs[c'][j]), minDist)
    {
      var m' := MinInCluster(cs[c], distance, minDist);
      NotLtTrans(Some(start), minDist, m');
      forall c', i, j | c' < c && SameClusterPair(cs, c', i, j) ensures !Lt(distance(cs[c'][i], cs[c'][j]), m') {
        NotLtTrans(distance(cs[c'][i], cs[c'][j]), minDist, m');
      }
      if m' != minDist {
        var i, j :| 0 <= i < |cs[c]| && PartnerAt(cs[c], cs[c][i], distance, j, m');
        assert SameClusterPair(cs, c, i, j) && distance(cs[c][i], cs[c][j]) == m';
      }
      forall i, j | SameClusterPair(cs, c, i, j) ensures !Lt(distance(cs[c][i], cs[c][j]), m') {
        assert 0 <= i < |cs[c]| && 0 <= j < |cs[c]| && cs[c][i] != cs[c][j];
      }
      minDist := m';
      c := c + 1;
    }
  }

  /** `minInd = ps/sM; minInd = minInd - minInd/10`. */
  function MinPerCluster(ps: int, sM: int): int
    requires sM != 0
  {
    var q := FloorDiv(ps, sM);
    q - FloorDiv(q, 10)
  }

  /** `reduceInflDist`: no cluster is smaller than the bound. */
  method NoClusterBelow<T>(cs: seq<seq<T>>, minInd: int) returns (b: bool)
    ensures b <==> forall c :: 0 <= c < |cs| ==> |cs[c]| >= minInd
  {
    b := true;
    var c := 0;
    while c < |cs|
      invariant c <= |cs|
      invariant b <==> forall k :: 0 <= k < c ==> |cs[k]| >= minInd
    {
      if |cs[c]| < minInd {
        b := false;
      }
      c := c + 1;
    }
  }

  /** The influence distance after a generation other than the first, for
      the clusters the current distance gives in a population of ps: when the
      cluster count is inside [sm, sM] and no cluster is small, the distance
      moves half way down to the smallest distance inside a cluster. */
  method ReducedInflDist<T(==)>(cs: seq<seq<T>>, ps: int, inflDist: real, sm: int, sM: int,
                                distance: (T, T) -> Option<real>)
    returns (r: Result<real>, minDist: Option<real>)
    ensures !(sm <= |cs| <= sM) ==> r == Ok(inflDist)
    ensures sm <= |cs| <= sM && sM == 0 ==> r == Err(ZeroDivisionError)
    ensures sm <= |cs| <= sM && sM != 0 ==>
              (minDist == Some(inflDist)
               || exists c, i, j :: SameClusterPair(cs, c, i, j) && distance(cs[c][i], cs[c][j]) == minDist)
              && !Lt(Some(inflDist), minDist)
              && (forall c, i, j :: SameClusterPair(cs, c, i, j) ==> !Lt(distance(cs[c][i], cs[c][j]), minDist))
              && ((exists c :: 0 <= c < |cs| && |cs[c]| < MinPerCluster(ps, sM)) ==> r == Ok(inflDist))
              && ((forall c :: 0 <= c < |cs| ==> |cs[c]| >= MinPerCluster(ps, sM)) ==>
                    (minDist.None? ==> r == Err(TypeError))
                    && (minDist.Some? ==> r == Ok(minDist.value + (inflDist - minDist.value) / 2.0)))
    ensures r.Ok? ==> r.value <= inflDist
    ensures r.Ok? && minDist.Some? && sm <= |cs| <= sM ==> minDist.value <= r.value
  {
    minDist := None;
    if !(sm <= |cs| <= sM) {
      return Ok(inflDist), None;
    }
    if sM == 0 {
      return Err(ZeroDivisionError), None;
    }
    minDist := MinDistance(cs, distance, inflDist);
    var reduce := NoClusterBelow(cs, MinPerCluster(ps, sM));
    if !reduce {
      return Ok(inflDist), minDist;
    }
    if minDist.None? {
      return Err(TypeError), minDist;
    }
    r := Ok(minDist.value + (inflDist - minDist.value) / 2.0);
  }

  /** `optimizeInflDist` after the first generation: the population's
      clusters at the current influence distance decide the new one. */
  method OptimizeInflDist<T(==)>(population: Populations.Population<T>, distance: (T, T) -> Option<real>,
                                 inflDist: real, sm: int, sM: int)
    returns (r: Result<real>, clusters: seq<seq<nat>>, minDist: Option<real>)
    ensures |population.individuals| == 0 ==> r == Err(IndexError)
    ensures |population.individuals| > 0 ==>
              Clustering.Partition(clusters, |population.individuals|) && Clustering.Seeded(clusters)
              && Clustering.Chained(population.individuals, clusters, distance, inflDist)
              && Clustering.Separated(population.individuals, clusters, distance, inflDist)
              && (!(sm <= |clusters| <= sM) ==> r == Ok(inflDist))
    ensures r.Ok? ==> r.value <= inflDist
  {
    var members;
    members, clusters := population.GetClusters(distance, inflDist);
    if members.Err? {
      return Err(members.error), clusters, None;
    }
    r, minDist := ReducedInflDist(members.value, |population.individuals|, inflDist, sm, sM, distance);
  }
}
