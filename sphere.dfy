// The sphere benchmark: an individual is a point of [-5.12, 5.12]^30 whose
// fitness is the sum of its squared coordinates (smaller is better), with a
// crossover keeping the coordinate nearest zero and a mutation redrawing the
// coordinates of largest magnitude. The behaviour's getMaxFit is here too.

module Sphere {
  import opened Errors
  import opened PyMath
  import SelfOptimize

  /** __DIM and __BOUNDS. */
  const Dim: nat := 30
  const Lower: real := -5.12
  const Upper: real := 5.12

  function Abs(x: real): real {
    if x < 0.0 then -x else x
  }

  lemma SquareOfAbs(x: real)
    ensures x * x == Abs(x) * Abs(x) && x * x >= 0.0
  {
  }

  /** The sum of the squared coordinates. */
  function SumSquares(x: seq<real>): (s: real)
    ensures s >= 0.0
  {
    if |x| == 0 then 0.0
    else
      SquareOfAbs(x[|x| - 1]);
      SumSquares(x[..|x| - 1]) + x[|x| - 1] * x[|x| - 1]
  }

  lemma SumSquaresSnoc(x: seq<real>, i: nat)
    requires i < |x|
    ensures SumSquares(x[..i + 1]) == SumSquares(x[..i]) + x[i] * x[i]
  {
    assert x[..i + 1][..i] == x[..i];
  }

  // ---------------------------------------------------------------------
  // Duplicates
  // ---------------------------------------------------------------------

  /** The scan of isDuplication from index i: stop at the first coordinate that
      differs; reading past the end of the other's coordinates raises. */
  function SameFrom(a: seq<real>, b: seq<real>, i: nat): (r: Result<bool>)
    requires i <= |a| && i <= |b|
    ensures r == Ok(true) <==> |a| <= |b| && a[i..] == b[i..|a|]
    ensures r.Err? ==> r.error == IndexError && |b| < |a|
    ensures r.Err? <==> |b| < |a| && a[i..|b|] == b[i..]
    decreases |a| - i
  {
    if i == |a| then Ok(true)
    else if i >= |b| then Err(IndexError)
    else if a[i] != b[i] then Ok(false)
    else
      var r := SameFrom(a, b, i + 1);
      assert a[i..] == [a[i]] + a[i + 1..];
      assert |a| <= |b| ==> b[i..|a|] == [b[i]] + b[i + 1..|a|];
      assert |b| < |a| ==> a[i..|b|] == [a[i]] + a[i + 1..|b|];
      assert b[i..] == [b[i]] + b[i + 1..];
      r
  }

  /** isDuplication: the coordinates are equal one by one. */
  function IsDuplicationOf(a: seq<real>, b: seq<real>): (r: Result<bool>)
    ensures r == Ok(true) <==> |a| <= |b| && a == b[..|a|]
    ensures r.Err? <==> |b| < |a| && a[..|b|] == b
    ensures r.Err? ==> r.error == IndexError
  {
    var r := SameFrom(a, b, 0);
    assert a[0..] == a && b[0..] == b;
    r
  }

  /** Every point is a duplicate of itself. */
  lemma IsDuplicationReflexive(a: seq<real>)
    ensures IsDuplicationOf(a, a) == Ok(true)
  {
  }

  // ---------------------------------------------------------------------
  // Crossover
  // ---------------------------------------------------------------------

  /** The crossover of the coordinate lists: per coordinate, the parent value
      of smaller magnitude, parent1's on a tie. */
  method CrossoverCoordinates(a: seq<real>, b: seq<real>) returns (c: Result<seq<real>>)
    ensures c.Err? <==> |b| < |a|
    ensures c.Err? ==> c.error == IndexError
    ensures c.Ok? ==> |c.value| == |a|
    ensures c.Ok? ==> forall i :: 0 <= i < |a| ==>
              (Abs(a[i]) <= Abs(b[i]) ==> c.value[i] == a[i]) && (Abs(b[i]) < Abs(a[i]) ==> c.value[i] == b[i])
  {
    var x: seq<real> := [];
    var i := 0;
    while i < |a|
      invariant 0 <= i <= |a| && |x| == i && i <= |b|
      invariant forall k :: 0 <= k < i ==>
                  (Abs(a[k]) <= Abs(b[k]) ==> x[k] == a[k]) && (Abs(b[k]) < Abs(a[k]) ==> x[k] == b[k])
    {
      if i >= |b| {
        return Err(IndexError);
      }
      if Abs(a[i]) > Abs(b[i]) {
        x := x + [b[i]];
      } else {
        x := x + [a[i]];
      }
      i := i + 1;
    }
    c := Ok(x);
  }

  lemma SquareMono(u: real, v: real)
    requires Abs(u) <= Abs(v)
    ensures u * u <= v * v
  {
    SquareOfAbs(u);
    SquareOfAbs(v);
    var p, q := Abs(u), Abs(v);
    assert q * q - p * p == (q - p) * (q + p);
    MulNonneg(q - p, q + p);
  }

  lemma MulNonneg(a: real, b: real)
    requires a >= 0.0 && b >= 0.0
    ensures a * b >= 0.0
  {
  }

  /** A point whose every coordinate is at most as large in magnitude has at
      most the fitness. */
  lemma SumSquaresMono(c: seq<real>, a: seq<real>)
    requires |c| == |a|
    requires forall i :: 0 <= i < |c| ==> Abs(c[i]) <= Abs(a[i])
    ensures SumSquares(c) <= SumSquares(a)
  {
    PrefixSumSquaresMono(c, a, |c|);
    assert c[..|c|] == c && a[..|a|] == a;
  }

  lemma {:induction false} PrefixSumSquaresMono(c: seq<real>, a: seq<real>, n: nat)
    requires n <= |c| == |a|
    requires forall i :: 0 <= i < |c| ==> Abs(c[i]) <= Abs(a[i])
    ensures SumSquares(c[..n]) <= SumSquares(a[..n])
  {
    if n > 0 {
      PrefixSumSquaresMono(c, a, n - 1);
      SquareMono(c[n - 1], a[n - 1]);
      SumSquaresSnoc(c, n - 1);
      SumSquaresSnoc(a, n - 1);
    }
  }

  /** The child of a crossover is at least as good as each of its parents. */
  lemma CrossoverNoWorse(a: seq<real>, b: seq<real>, c: seq<real>)
    requires |a| <= |b| && |c| == |a|
    requires forall i :: 0 <= i < |a| ==>
               (Abs(a[i]) <= Abs(b[i]) ==> c[i] == a[i]) && (Abs(b[i]) < Abs(a[i]) ==> c[i] == b[i])
    ensures SumSquares(c) <= SumSquares(a) && SumSquares(c) <= SumSquares(b[..|a|])
  {
    SumSquaresMono(c, a);
    SumSquaresMono(c, b[..|a|]);
  }

  // ---------------------------------------------------------------------
  // Mutation
  // ---------------------------------------------------------------------

  /** `int(random() * (len - 1)) + 1`: how many coordinates a mutation redraws. */
  function NbMute(r: real, n: nat): int {
    Trunc(r * (n - 1) as real) + 1
  }

  lemma NbMuteBounds(r: real, n: nat)
    requires 0.0 <= r < 1.0
    ensures n >= 2 ==> 1 <= NbMute(r, n) <= n - 1
    ensures n < 2 ==> NbMute(r, n) == 1
  {
    var w := (n - 1) as real;
    if n >= 2 {
      assert 0.0 <= r * w;
      assert r * w < w by { assert w - r * w == (1.0 - r) * w; }
    } else if n == 1 {
      assert r * w == 0.0;
    } else {
      assert -1.0 < r * w <= 0.0;
    }
  }

  predicate Distinct(s: seq<int>) {
    forall i, j :: 0 <= i < j < |s| ==> s[i] != s[j]
  }

  predicate Indexes(s: seq<int>, n: int) {
    forall k :: 0 <= k < |s| ==> 0 <= s[k] < n
  }

  /** The listed index whose coordinate is smallest in magnitude, the first
      one on a tie. */
  method ArgMinAbs(x: seq<real>, toMute: seq<int>) returns (iMin: nat)
    requires |toMute| > 0 && Indexes(toMute, |x|)
    ensures iMin < |toMute|
    ensures forall j :: 0 <= j < |toMute| ==> Abs(x[toMute[iMin]]) <= Abs(x[toMute[j]])
    ensures forall j :: 0 <= j < iMin ==> Abs(x[toMute[iMin]]) < Abs(x[toMute[j]])
  {
    iMin := 0;
    var im := 0;
    while im < |toMute|
      invariant 0 <= im <= |toMute| && iMin < |toMute| && iMin <= im
      invariant forall j :: 0 <= j < im ==> Abs(x[toMute[iMin]]) <= Abs(x[toMute[j]])
      invariant forall j :: 0 <= j < iMin ==> Abs(x[toMute[iMin]]) < Abs(x[toMute[j]])
    {
      if Abs(x[toMute[im]]) < Abs(x[toMute[iMin]]) {
        iMin := im;
      }
      im := im + 1;
    }
  }

  /** No unlisted index below i has a coordinate larger in magnitude than a
      listed one. */
  ghost predicate TopByMagnitude(x: seq<real>, toMute: seq<int>, i: int)
    requires Indexes(toMute, |x|) && i <= |x|
  {
    forall k, j :: 0 <= k < i && k !in toMute && 0 <= j < |toMute| ==> Abs(x[k]) <= Abs(x[toMute[j]])
  }

  /** Dropping the listed index of smallest magnitude for a larger i keeps
      the listed indices the largest. */
  lemma ReplaceKeepsTop(x: seq<real>, toMute: seq<int>, iMin: nat, i: nat)
    requires i < |x| && Indexes(toMute, i) && Distinct(toMute) && iMin < |toMute|
    requires TopByMagnitude(x, toMute, i)
    requires forall j :: 0 <= j < |toMute| ==> Abs(x[toMute[iMin]]) <= Abs(x[toMute[j]])
    requires Abs(x[i]) > Abs(x[toMute[iMin]])
    ensures Indexes(toMute[iMin := i], i + 1) && Distinct(toMute[iMin := i])
    ensures TopByMagnitude(x, toMute[iMin := i], i + 1)
  {
    var m := toMute[iMin];
    var t := toMute[iMin := i];
    assert t[iMin] == i;
    forall k, j | 0 <= k < i + 1 && k !in t && 0 <= j < |t|
      ensures Abs(x[k]) <= Abs(x[t[j]])
    {
      assert k < i;
      if k != m {
        assert forall u :: 0 <= u < |toMute| && u != iMin ==> t[u] == toMute[u];
        assert k !in toMute;
        assert Abs(x[k]) <= Abs(x[m]);
      }
    }
  }

  /** While every index seen so far is listed, listing the next one too keeps
      the listed indices the largest. */
  lemma AppendKeepsTop(x: seq<real>, toMute: seq<int>, i: nat)
    requires i < |x| && |toMute| == i
    requires forall j :: 0 <= j < |toMute| ==> toMute[j] == j
    ensures Indexes(toMute + [i], |x|)
    ensures TopByMagnitude(x, toMute + [i], i + 1)
  {
    forall k | 0 <= k < i
      ensures k in toMute + [i]
    {
      assert (toMute + [i])[k] == k;
    }
  }

  /** Keeping the list when i is not larger keeps the listed indices the largest. */
  lemma KeepKeepsTop(x: seq<real>, toMute: seq<int>, iMin: nat, i: nat)
    requires i < |x| && Indexes(toMute, i) && iMin < |toMute|
    requires TopByMagnitude(x, toMute, i)
    requires forall j :: 0 <= j < |toMute| ==> Abs(x[toMute[iMin]]) <= Abs(x[toMute[j]])
    requires Abs(x[i]) <= Abs(x[toMute[iMin]])
    ensures TopByMagnitude(x, toMute, i + 1)
  {
  }

  /** The selection loop of mutation: keep the first nbMute indices, then let
      each later coordinate replace the listed one of smallest magnitude when
      it is larger. */
  method SelectToMute(x: seq<real>, nbMute: int) returns (toMute: seq<int>)
    requires nbMute >= 1
    ensures |toMute| == if nbMute <= |x| then nbMute else |x|
    ensures Distinct(toMute) && Indexes(toMute, |x|)
    ensures TopByMagnitude(x, toMute, |x|)
  {
    toMute := [];
    var i := 0;
    while i < |x|
      invariant 0 <= i <= |x|
      invariant |toMute| == if nbMute <= i then nbMute else i
      invariant Distinct(toMute) && Indexes(toMute, i)
      invariant TopByMagnitude(x, toMute, i)
      invariant i <= nbMute ==> forall j :: 0 <= j < |toMute| ==> toMute[j] == j
    {
      if |toMute| < nbMute {
        AppendKeepsTop(x, toMute, i);
        toMute := toMute + [i];
      } else {
        var iMin := ArgMinAbs(x, toMute);
        var m := toMute[iMin];
        if Abs(x[i]) > Abs(x[m]) {
          ReplaceKeepsTop(x, toMute, iMin, i);
          toMute := toMute[iMin := i];
        } else {
          KeepKeepsTop(x, toMute, iMin, i);
        }
      }
      i := i + 1;
    }
  }

  /** `uniform(-5.12, 5.12)` draws. */
  predicate InBounds(draws: seq<real>) {
    forall k :: 0 <= k < |draws| ==> Lower <= draws[k] <= Upper
  }

  /** The redraw of the selected coordinates; None means the draws ran out. */
  method RedrawCoordinates(x: seq<real>, toMute: seq<int>, draws: seq<real>) returns (c: Option<seq<real>>)
    requires Indexes(toMute, |x|) && InBounds(draws)
    ensures c.Some? <==> |toMute| <= |draws|
    ensures c.Some? ==> |c.value| == |x|
    ensures c.Some? ==> forall i :: 0 <= i < |x| && i !in toMute ==> c.value[i] == x[i]
    ensures c.Some? ==> forall i :: 0 <= i < |x| && i in toMute ==> Lower <= c.value[i] <= Upper
  {
    if |draws| < |toMute| {
      return None;
    }
    var v := x;
    var j := 0;
    while j < |toMute|
      invariant 0 <= j <= |toMute| && |v| == |x|
      invariant forall i :: 0 <= i < |x| && i !in toMute ==> v[i] == x[i]
      invariant forall i :: 0 <= i < |x| && i in toMute[..j] ==> Lower <= v[i] <= Upper
    {
      assert toMute[..j + 1] == toMute[..j] + [toMute[j]];
      v := v[toMute[j] := draws[j]];
      j := j + 1;
    }
    assert toMute[..j] == toMute;
    c := Some(v);
  }

  /** The mutation of the coordinate list: redraw the nbMute coordinates of
      largest magnitude. */
  method MutateCoordinates(x: seq<real>, r: real, draws: seq<real>) returns (c: Option<seq<real>>, toMute: seq<int>)
    requires 0.0 <= r < 1.0 && InBounds(draws)
    ensures |x| >= 2 ==> 1 <= |toMute| <= |x| - 1
    ensures |x| < 2 ==> |toMute| == |x|
    ensures Distinct(toMute) && Indexes(toMute, |x|) && TopByMagnitude(x, toMute, |x|)
    ensures c.Some? <==> |toMute| <= |draws|
    ensures c.Some? ==> |c.value| == |x|
    ensures c.Some? ==> forall i :: 0 <= i < |x| && i !in toMute ==> c.value[i] == x[i]
    ensures c.Some? ==> forall i :: 0 <= i < |x| && i in toMute ==> Lower <= c.value[i] <= Upper
  {
    var nbMute := NbMute(r, |x|);
    NbMuteBounds(r, |x|);
    toMute := SelectToMute(x, nbMute);
    c := RedrawCoordinates(x, toMute, draws);
  }

  // ---------------------------------------------------------------------
  // The individual
  // ---------------------------------------------------------------------

  class SphereIndiv {
    var x: seq<real>
    /** The class's own `__fitness`, distinct from the base class's. */
    var fitness: Option<real>

    constructor(x: seq<real>)
      ensures this.x == x && fitness == None
    {
      this.x := x;
      fitness := None;
    }

    function GetFitness(): Option<real>
      reads this
    {
      fitness
    }

    /** fitness: store and return the sum of the squared coordinates. */
    method Fitness() returns (f: real)
      modifies this`fitness
      ensures f == SumSquares(x) && fitness == Some(f) && f >= 0.0
    {
      var acc := 0.0;
      var i := 0;
      while i < |x|
        invariant 0 <= i <= |x| && acc == SumSquares(x[..i])
      {
        SumSquaresSnoc(x, i);
        acc := acc + x[i] * x[i];
        i := i + 1;
      }
      assert x[..i] == x;
      fitness := Some(acc);
      f := acc;
    }

    /** duplicate: a new individual with the same coordinates and fitness. */
    method Duplicate() returns (d: SphereIndiv)
      ensures fresh(d) && d.x == x && d.fitness == fitness
    {
      d := new SphereIndiv(x);
      d.fitness := fitness;
    }

    function IsDuplication(other: SphereIndiv): Result<bool>
      reads this, other
    {
      IsDuplicationOf(x, other.x)
    }

    /** isBetter: a smaller fitness, None below every number. */
    predicate IsBetter(other: SphereIndiv)
      reads this, other
    {
      SelfOptimize.Lt(fitness, other.fitness)
    }
  }

  /** isBetter is a strict order on individuals: never better than itself,
      never both ways, and transitive. */
  lemma IsBetterStrictOrder(a: SphereIndiv, b: SphereIndiv, c: SphereIndiv)
    ensures !a.IsBetter(a)
    ensures a.IsBetter(b) ==> !b.IsBetter(a)
    ensures a.IsBetter(b) && b.IsBetter(c) ==> a.IsBetter(c)
  {
  }

  /** crossover: a fresh individual from the coordinate crossover. */
  method Crossover(p1: SphereIndiv, p2: SphereIndiv) returns (r: Result<SphereIndiv>)
    ensures r.Err? <==> |p2.x| < |p1.x|
    ensures r.Ok? ==> fresh(r.value) && r.value.fitness == None
    ensures r.Ok? ==> SumSquares(r.value.x) <= SumSquares(p1.x) && SumSquares(r.value.x) <= SumSquares(p2.x[..|p1.x|])
  {
    var c := CrossoverCoordinates(p1.x, p2.x);
    if c.Err? {
      return Err(c.error);
    }
    CrossoverNoWorse(p1.x, p2.x, c.value);
    var child := new SphereIndiv(c.value);
    r := Ok(child);
  }

  /** mutation: a duplicate of the individual with its largest coordinates
      redrawn; None means the draws ran out. */
  method Mutation(indiv: SphereIndiv, r: real, draws: seq<real>) returns (child: Option<SphereIndiv>, toMute: seq<int>)
    requires 0.0 <= r < 1.0 && InBounds(draws)
    ensures child.Some? ==> fresh(child.value) && child.value.fitness == indiv.fitness
    ensures child.Some? ==> |child.value.x| == |indiv.x|
    ensures child.Some? <==> |toMute| <= |draws|
    ensures child.Some? ==> forall i :: 0 <= i < |indiv.x| && i !in toMute ==> child.value.x[i] == indiv.x[i]
    ensures child.Some? ==> forall i :: 0 <= i < |indiv.x| && i in toMute ==> Lower <= child.value.x[i] <= Upper
    ensures |indiv.x| >= 2 ==> 1 <= |toMute| <= |indiv.x| - 1
    ensures |indiv.x| < 2 ==> |toMute| == |indiv.x|
    ensures Distinct(toMute) && Indexes(toMute, |indiv.x|)
    ensures TopByMagnitude(indiv.x, toMute, |indiv.x|)
  {
    var newInd := indiv.Duplicate();
    var c;
    c, toMute := MutateCoordinates(indiv.x, r, draws);
    if c.None? {
      return None, toMute;
    }
    newInd.x := c.value;
    child := Some(newInd);
  }

  // ---------------------------------------------------------------------
  // The behaviour
  // ---------------------------------------------------------------------

  /** SphereBehav.getMaxFit: the largest fitness of the individuals, None if
      none has one. */
  method GetMaxFit(fits: seq<Option<real>>) returns (fitMax: Option<real>)
    ensures fitMax.None? <==> forall i :: 0 <= i < |fits| ==> fits[i].None?
    ensures fitMax.Some? ==> fitMax in fits
    ensures fitMax.Some? ==> forall i :: 0 <= i < |fits| && fits[i].Some? ==> fits[i].value <= fitMax.value
  {
    fitMax := None;
    var i := 0;
    while i < |fits|
      invariant 0 <= i <= |fits|
      invariant fitMax.None? <==> forall k :: 0 <= k < i ==> fits[k].None?
      invariant fitMax.Some? ==> fitMax in fits[..i]
      invariant fitMax.Some? ==> forall k :: 0 <= k < i && fits[k].Some? ==> fits[k].value <= fitMax.value
    {
      if fitMax.None? || SelfOptimize.Lt(fitMax, fits[i]) {
        fitMax := fits[i];
      }
      assert fits[..i + 1] == fits[..i] + [fits[i]];
      i := i + 1;
    }
    assert fits[..i] == fits;
  }
}
