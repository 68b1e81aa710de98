// The arithmetic and the tables of the standard behaviour
// (PYGA_StandardGenAlgBehavior): the stop rule, the split of the population
// between selection, crossover and mutation, the method tables that
// `selection` looks names up in and that ADD_METHOD extends, and the
// fitness statistics and scaling of the standard scaling methods.
// Parameters the behaviour reads with `getParam` are arguments here; the
// time elapsed since the start of the run is an argument too.

module StandardBehavior {
  import opened Errors
  import opened PyMath
  import opened Text
  import opened Individuals
  import Nsgaii

  // ----- stopCriteria -----

  /** `int(100 * timeDiff / endTime)`. */
  function TimePercent(elapsed: real, endTime: real): (p: int)
    requires endTime != 0.0
    ensures endTime > 0.0 && elapsed >= 0.0 ==> p >= 0
  {
    Trunc(100.0 * elapsed / endTime)
  }

  /** `int(100 * iGeneration / nbGen)` on integers, so floor division. */
  function GenPercent(iGeneration: int, nbGen: int): (p: int)
    requires nbGen != 0
  {
    FloorDiv(100 * iGeneration, nbGen)
  }

  /** `stopCriteria`: the run stops once the allowed time is used up (an
      END_TIME of 0 means no limit) or at generation NB_GENERATIONS (0 means
      no limit); the percentage reported is the larger of the two progress
      measures that apply, and 0 when none does. */
  function StopCriteria(endTime: real, elapsed: real, iGeneration: int, nbGen: int): (r: (int, bool))
    ensures r.1 <==> (endTime != 0.0 && elapsed >= endTime) || (nbGen != 0 && iGeneration == nbGen)
    ensures endTime != 0.0 ==> r.0 >= TimePercent(elapsed, endTime)
    ensures nbGen != 0 ==> r.0 >= GenPercent(iGeneration, nbGen)
    ensures endTime == 0.0 ==> r.0 >= 0
    ensures (endTime != 0.0 && r.0 == TimePercent(elapsed, endTime))
            || (nbGen != 0 && r.0 == GenPercent(iGeneration, nbGen))
            || (endTime == 0.0 && r.0 == 0)
  {
    var (percent, stop) :=
      if endTime != 0.0 then (TimePercent(elapsed, endTime), elapsed >= endTime) else (0, false);
    if nbGen != 0 then
      var genPercent := GenPercent(iGeneration, nbGen);
      (if genPercent > percent then genPercent else percent, stop || iGeneration == nbGen)
    else (percent, stop)
  }

  /** With a generation limit only, the run goes on below the limit with a
      percentage under 100, and stops at the limit with 100. */
  lemma GenerationLimit(iGeneration: int, nbGen: int)
    requires nbGen > 0 && 0 <= iGeneration <= nbGen
    ensures var (percent, stop) := StopCriteria(0.0, 0.0, iGeneration, nbGen);
            (stop <==> iGeneration == nbGen) && 0 <= percent <= 100
            && (percent == 100 <==> iGeneration == nbGen)
  {
    var q := GenPercent(iGeneration, nbGen);
    assert nbGen * q <= 100 * iGeneration < nbGen * q + nbGen;
    if q < 0 {
      MulMono(q, -1, nbGen);
    }
    if q > 100 {
      MulMono(101, q, nbGen);
    }
    if iGeneration < nbGen && q >= 100 {
      MulMono(100, q, nbGen);
    }
    if iGeneration == nbGen && q < 100 {
      MulMono(q + 1, 100, nbGen);
    }
  }

  /** Once the allowed time is used up the run stops with at least 100%. */
  lemma TimeLimit(endTime: real, elapsed: real, iGeneration: int, nbGen: int)
    requires endTime > 0.0 && elapsed >= endTime
    ensures var (percent, stop) := StopCriteria(endTime, elapsed, iGeneration, nbGen);
            stop && percent >= 100
  {
    var x := 100.0 * elapsed / endTime;
    assert x * endTime == 100.0 * elapsed;
    assert x >= 100.0;
  }

  // ----- selection: how many individuals each step produces -----

  /** `int(round(rate * ps / 100.))`: the individuals a rate in percent of
      the population asks for. */
  function RateCount(rate: real, ps: nat): (n: int)
    ensures rate >= 0.0 ==> n >= 0
  {
    RoundHalfAway(Portion(rate, ps as real))
  }

  /** Step 4 of `selection`: what crossover and mutation do not produce. */
  function NbToSelect(crossRate: real, muteRate: real, ps: nat): (n: int)
    ensures n + RateCount(crossRate, ps) + RateCount(muteRate, ps) == ps
  {
    ps - RateCount(crossRate, ps) - RateCount(muteRate, ps)
  }

  /** For rates in percent adding up to at most 100, selection asks for at
      most the whole population and, because both counts are rounded, for
      as little as -1. */
  lemma SplitBounds(crossRate: real, muteRate: real, ps: nat)
    requires crossRate >= 0.0 && muteRate >= 0.0 && crossRate + muteRate <= 100.0
    ensures 0 <= RateCount(crossRate, ps) <= ps && 0 <= RateCount(muteRate, ps) <= ps
    ensures -1 <= NbToSelect(crossRate, muteRate, ps) <= ps
  {
    var n := ps as real;
    var x := Portion(crossRate, n);
    var y := Portion(muteRate, n);
    PortionWithin(crossRate, n);
    PortionWithin(muteRate, n);
    PortionsAdd(crossRate, muteRate, n);
    RoundWithin(x, ps);
    RoundWithin(y, ps);
    assert RoundHalfAway(x) as real + RoundHalfAway(y) as real <= x + y + 1.0;
  }

  /** `rate * ps / 100.` */
  function Portion(rate: real, n: real): real {
    rate * n / 100.0
  }

  lemma PortionWithin(rate: real, n: real)
    requires 0.0 <= rate <= 100.0 && n >= 0.0
    ensures 0.0 <= Portion(rate, n) <= n
  {
    ScaleBelow(0.0, rate, n);
    ScaleBelow(rate, 100.0, n);
  }

  lemma PortionsAdd(a: real, b: real, n: real)
    requires 0.0 <= a && 0.0 <= b && a + b <= 100.0 && n >= 0.0
    ensures Portion(a, n) + Portion(b, n) <= n
  {
    ScaleBelow(a + b, 100.0, n);
    assert Portion(a, n) + Portion(b, n) == (a + b) * n / 100.0;
  }

  /** Rounding a value between 0 and a whole number stays between them. */
  lemma RoundWithin(x: real, k: nat)
    requires 0.0 <= x <= k as real
    ensures 0 <= RoundHalfAway(x) <= k
  {
  }

  lemma ScaleBelow(a: real, b: real, n: real)
    requires a <= b && n >= 0.0
    ensures a * n <= b * n
  {
    assert b * n - a * n == (b - a) * n;
  }

  /** Half the population crossed and half mutated in a population of one:
      each count rounds up to 1, so selection is asked for -1 individuals. */
  lemma SplitRoundsUp()
    ensures RateCount(50.0, 1) == 1 && NbToSelect(50.0, 50.0, 1) == -1
  {
    assert Portion(50.0, 1 as real) == 0.5;
  }

  /** `self.SELECTION_DICT[selectionName]`, and likewise for the scaling and
      sharing tables: a name the table lacks raises KeyError. */
  function Lookup(table: map<string, string>, name: string): (r: Result<string>)
    ensures r.Ok? <==> name in table
    ensures r.Ok? ==> r.value == table[name]
    ensures r.Err? ==> r.error == KeyError(name)
  {
    if name in table then Ok(table[name]) else Err(KeyError(name))
  }

  /** `selection`: the name of the selection method to call and the number
      of individuals to ask it for, the population size `ps` less the
      crossed and the mutated counts. */
  function Selection(selectionDict: map<string, string>, selectionName: string,
                     ps: nat, crossRate: real, muteRate: real): (r: Result<(string, int)>)
    ensures r.Err? <==> selectionName !in selectionDict
    ensures r.Ok? ==> r.value.0 == selectionDict[selectionName]
                      && r.value.1 + RateCount(crossRate, ps) + RateCount(muteRate, ps) == ps
  {
    match Lookup(selectionDict, selectionName)
    case Err(e) => Err(e)
    case Ok(methodName) => Ok((methodName, NbToSelect(crossRate, muteRate, ps)))
  }

  // ----- ADD_METHOD -----

  /** An argument of ADD_METHOD: a Python list of strings, or anything else. */
  datatype MethodArg = ListArg(items: seq<string>) | OtherArg

  /** The class attributes ADD_METHOD extends, indexed by the upper-cased
      label: POSSIBLE_<LABEL>_METHODS and <LABEL>_DICT. */
  datatype Tables = Tables(possible: map<string, seq<string>>, dicts: map<string, map<string, string>>)

  /** `paramWithMethods`: the labels of ALL_PARAMS that have a list of possible methods. */
  function WithMethods(allParams: seq<string>, possible: map<string, seq<string>>): (r: seq<string>)
    ensures forall p :: p in r <==> p in allParams && Upper(p) in possible
  {
    if allParams == [] then []
    else (if Upper(allParams[0]) in possible then [allParams[0]] else []) + WithMethods(allParams[1..], possible)
  }

  /** `str` of a Python 2 list of strings without quotes in them. */
  function ListRepr(s: seq<string>): string {
    "[" + Items(s) + "]"
  }

  function Items(s: seq<string>): string {
    if s == [] then ""
    else if |s| == 1 then "'" + s[0] + "'"
    else "'" + s[0] + "', " + Items(s[1..])
  }

  function NotAllowed(withMethods: seq<string>): string {
    "ERROR: add_method arguments must be in " + ListRepr(withMethods) + "."
  }

  const NotAPair := "ERROR: add_method arguments must be a list of [methodID, methodName]."

  /** One `key=[methodID, methodName]` argument: the upper-cased ID joins the
      possible methods, then the table maps it to the method name; a label
      without a table raises AttributeError after the first step. */
  function AddOne(t: Tables, key: string, id: string, name: string): (r: (Tables, Status))
    requires Upper(key) in t.possible
  {
    var upLabel := Upper(key);
    var possible := t.possible[upLabel := t.possible[upLabel] + [Upper(id)]];
    if upLabel in t.dicts then (Tables(possible, t.dicts[upLabel := t.dicts[upLabel][Upper(id) := name]]), Success)
    else (Tables(possible, t.dicts), Failure(AttributeError(upLabel + "_DICT")))
  }

  /** The arguments one after the other; the first bad one raises and the
      ones before it stay added. */
  function AddMethods(t: Tables, withMethods: seq<string>, kwargs: seq<(string, MethodArg)>): (r: (Tables, Status))
    requires forall p :: p in withMethods ==> Upper(p) in t.possible
    decreases |kwargs|
  {
    if kwargs == [] then (t, Success)
    else
      var (key, arg) := kwargs[0];
      if key !in withMethods then (t, Failure(BehaviorAddMethodError(NotAllowed(withMethods))))
      else if !arg.ListArg? || |arg.items| != 2 then (t, Failure(BehaviorAddMethodError(NotAPair)))
      else
        var (t2, st) := AddOne(t, key, arg.items[0], arg.items[1]);
        if st.Failure? then (t2, st) else AddMethods(t2, withMethods, kwargs[1..])
  }

  /** Whether an argument is accepted. */
  predicate GoodArg(t: Tables, withMethods: seq<string>, kw: (string, MethodArg)) {
    kw.0 in withMethods && kw.1.ListArg? && |kw.1.items| == 2 && Upper(kw.0) in t.dicts
  }

  /** ADD_METHOD only ever extends the lists of possible methods and adds no label. */
  lemma {:induction false} AddMethodsKeeps(t: Tables, withMethods: seq<string>, kwargs: seq<(string, MethodArg)>)
    requires forall p :: p in withMethods ==> Upper(p) in t.possible
    ensures var t2 := AddMethods(t, withMethods, kwargs).0;
            t2.possible.Keys == t.possible.Keys && t2.dicts.Keys == t.dicts.Keys
            && forall l :: l in t.possible ==> |t.possible[l]| <= |t2.possible[l]|
                                                && t2.possible[l][..|t.possible[l]|] == t.possible[l]
    decreases |kwargs|
  {
    if kwargs != [] {
      var (key, arg) := kwargs[0];
      if key in withMethods && arg.ListArg? && |arg.items| == 2 {
        var (t1, st1) := AddOne(t, key, arg.items[0], arg.items[1]);
        if st1 == Success {
          AddMethodsKeeps(t1, withMethods, kwargs[1..]);
          var t2 := AddMethods(t1, withMethods, kwargs[1..]).0;
          forall l | l in t.possible
            ensures |t.possible[l]| <= |t2.possible[l]| && t2.possible[l][..|t.possible[l]|] == t.possible[l]
          {
            assert t2.possible[l][..|t1.possible[l]|] == t1.possible[l];
            assert t1.possible[l][..|t.possible[l]|] == t.possible[l];
          }
        }
      }
    }
  }

  /** ADD_METHOD succeeds exactly when every argument names a label with
      methods and a table, with a list of two strings. */
  lemma {:induction false} AddMethodsAccepts(t: Tables, withMethods: seq<string>, kwargs: seq<(string, MethodArg)>)
    requires forall p :: p in withMethods ==> Upper(p) in t.possible
    ensures AddMethods(t, withMethods, kwargs).1 == Success
            <==> forall i :: 0 <= i < |kwargs| ==> GoodArg(t, withMethods, kwargs[i])
    decreases |kwargs|
  {
    if kwargs != [] {
      var (key, arg) := kwargs[0];
      if key in withMethods && arg.ListArg? && |arg.items| == 2 {
        var (t1, st1) := AddOne(t, key, arg.items[0], arg.items[1]);
        if st1 == Success {
          AddMethodsAccepts(t1, withMethods, kwargs[1..]);
          assert forall i :: 1 <= i < |kwargs| ==> kwargs[i] == kwargs[1..][i - 1];
          assert forall i :: 0 <= i < |kwargs| ==>
                   (GoodArg(t, withMethods, kwargs[i]) <==> GoodArg(t1, withMethods, kwargs[i]));
        } else {
          assert !GoodArg(t, withMethods, kwargs[0]);
        }
      } else {
        assert !GoodArg(t, withMethods, kwargs[0]);
      }
    }
  }

  /** After a successful ADD_METHOD every ID given is a possible method of its label. */
  lemma {:induction false} AddMethodsRegisters(t: Tables, withMethods: seq<string>, kwargs: seq<(string, MethodArg)>)
    requires forall p :: p in withMethods ==> Upper(p) in t.possible
    ensures var (t2, st) := AddMethods(t, withMethods, kwargs);
            st == Success ==> forall i :: 0 <= i < |kwargs| ==>
              kwargs[i].1.ListArg? && |kwargs[i].1.items| == 2 && Upper(kwargs[i].0) in t2.possible
              && Upper(kwargs[i].1.items[0]) in t2.possible[Upper(kwargs[i].0)]
    decreases |kwargs|
  {
    if kwargs != [] {
      var (key, arg) := kwargs[0];
      if key in withMethods && arg.ListArg? && |arg.items| == 2 {
        var (t1, st1) := AddOne(t, key, arg.items[0], arg.items[1]);
        if st1 == Success {
          AddMethodsRegisters(t1, withMethods, kwargs[1..]);
          AddMethodsKeeps(t1, withMethods, kwargs[1..]);
          var (t2, st) := AddMethods(t1, withMethods, kwargs[1..]);
          if st == Success {
            forall i | 0 <= i < |kwargs|
              ensures kwargs[i].1.ListArg? && |kwargs[i].1.items| == 2 && Upper(kwargs[i].0) in t2.possible
              ensures Upper(kwargs[i].1.items[0]) in t2.possible[Upper(kwargs[i].0)]
            {
              if i == 0 {
                var l := Upper(key);
                assert t1.possible[l][|t.possible[l]|] == Upper(arg.items[0]);
                assert t2.possible[l][..|t1.possible[l]|] == t1.possible[l];
                assert t2.possible[l][|t.possible[l]|] == Upper(arg.items[0]);
              } else {
                assert kwargs[i] == kwargs[1..][i - 1];
              }
            }
          }
        }
      }
    }
  }

  /** A single well-formed argument registers its method: the ID (upper-
      cased) is the last possible method of the label and names the method. */
  lemma AddSingleMethod(t: Tables, withMethods: seq<string>, key: string, id: string, name: string)
    requires forall p :: p in withMethods ==> Upper(p) in t.possible
    requires key in withMethods && Upper(key) in t.dicts
    ensures var (t2, st) := AddMethods(t, withMethods, [(key, ListArg([id, name]))]);
            st == Success
            && t2.possible == t.possible[Upper(key) := t.possible[Upper(key)] + [Upper(id)]]
            && Upper(key) in t2.dicts && Upper(id) in t2.dicts[Upper(key)]
            && t2.dicts[Upper(key)][Upper(id)] == name
            && forall l :: l in t.dicts && l != Upper(key) ==> l in t2.dicts && t2.dicts[l] == t.dicts[l]
  {
    var kwargs := [(key, ListArg([id, name]))];
    assert kwargs[1..] == [];
    var r := AddOne(t, key, id, name);
    assert r.1 == Success;
    assert AddMethods(t, withMethods, kwargs) == AddMethods(r.0, withMethods, []);
  }

  /** The method tables of the behaviour class, which ADD_METHOD changes in place. */
  class MethodTables {
    var possible: map<string, seq<string>>
    var dicts: map<string, map<string, string>>

    constructor (possible: map<string, seq<string>>, dicts: map<string, map<string, string>>)
      ensures this.possible == possible && this.dicts == dicts
    {
      this.possible := possible;
      this.dicts := dicts;
    }

    /** ADD_METHOD(**kwargs), the keyword arguments in the order given. */
    method AddMethod(allParams: seq<string>, kwargs: seq<(string, MethodArg)>) returns (status: Status)
      modifies this
      ensures var (t, st) := AddMethods(Tables(old(possible), old(dicts)), WithMethods(allParams, old(possible)), kwargs);
              possible == t.possible && dicts == t.dicts && status == st
    {
      var paramWithMethods := WithMethods(allParams, possible);
      ghost var t0 := Tables(possible, dicts);
      var i := 0;
      status := Success;
      while i < |kwargs|
        invariant 0 <= i <= |kwargs|
        invariant forall p :: p in paramWithMethods ==> Upper(p) in possible
        invariant AddMethods(Tables(possible, dicts), paramWithMethods, kwargs[i..]) == AddMethods(t0, paramWithMethods, kwargs)
      {
        assert kwargs[i..][0] == kwargs[i] && kwargs[i..][1..] == kwargs[i + 1..];
        var (key, arg) := kwargs[i];
        if key !in paramWithMethods {
          return Failure(BehaviorAddMethodError(NotAllowed(paramWithMethods)));
        }
        if !arg.ListArg? || |arg.items| != 2 {
          return Failure(BehaviorAddMethodError(NotAPair));
        }
        var methodID := Upper(arg.items[0]);
        var methodName := arg.items[1];
        var upLabel := Upper(key);
        possible := possible[upLabel := possible[upLabel] + [methodID]];
        if upLabel !in dicts {
          return Failure(AttributeError(upLabel + "_DICT"));
        }
        dicts := dicts[upLabel := dicts[upLabel][methodID := methodName]];
        i := i + 1;
      }
    }
  }

  // ----- fitness statistics -----

  /** Every individual has a fitness (`getFitness` is the optimised fitness). */
  predicate AllFit(pop: seq<Individual>)
    reads pop`optimised
  {
    forall i :: 0 <= i < |pop| ==> pop[i].optimised.Some?
  }

  function FitValues(pop: seq<Individual>): (v: seq<real>)
    requires AllFit(pop)
    reads pop`optimised
    ensures |v| == |pop| && forall i :: 0 <= i < |pop| ==> v[i] == pop[i].optimised.value
  {
    if pop == [] then [] else FitValues(pop[..|pop| - 1]) + [pop[|pop| - 1].optimised.value]
  }

  function Sum(v: seq<real>): real {
    if v == [] then 0.0 else Sum(v[..|v| - 1]) + v[|v| - 1]
  }

  function Mean(v: seq<real>): real
    requires |v| > 0
  {
    Sum(v) / |v| as real
  }

  /** The mean lies between any lower and upper bound of the values. */
  lemma MeanBounds(v: seq<real>, lo: real, hi: real)
    requires |v| > 0 && forall i :: 0 <= i < |v| ==> lo <= v[i] <= hi
    ensures lo <= Mean(v) <= hi
  {
    SumBounds(v, lo, hi);
    var n := |v| as real;
    assert Mean(v) * n == Sum(v);
    if Mean(v) < lo {
      ScaleBelow(Mean(v), lo, n);
    }
    if Mean(v) > hi {
      ScaleBelow(hi, Mean(v), n);
    }
  }

  lemma {:induction false} SumBounds(v: seq<real>, lo: real, hi: real)
    requires forall i :: 0 <= i < |v| ==> lo <= v[i] <= hi
    ensures |v| as real * lo <= Sum(v) <= |v| as real * hi
  {
    if v != [] {
      SumBounds(v[..|v| - 1], lo, hi);
      assert v[|v| - 1] >= lo;
    }
  }

  /** `__getMaxFitness`: the largest fitness, None standing below every number. */
  method GetMaxFitness(pop: seq<Individual>) returns (fitMax: Option<real>)
    ensures fitMax.None? <==> forall i :: 0 <= i < |pop| ==> pop[i].optimised.None?
    ensures fitMax.Some? ==>
              (exists i :: 0 <= i < |pop| && pop[i].optimised == fitMax)
              && forall i :: 0 <= i < |pop| && pop[i].optimised.Some? ==> pop[i].optimised.value <= fitMax.value
  {
    fitMax := None;
    for i := 0 to |pop|
      invariant fitMax.None? <==> forall j :: 0 <= j < i ==> pop[j].optimised.None?
      invariant fitMax.Some? ==>
                  (exists j :: 0 <= j < i && pop[j].optimised == fitMax)
                  && forall j :: 0 <= j < i && pop[j].optimised.Some? ==> pop[j].optimised.value <= fitMax.value
    {
      var f := pop[i].GetFitness();
      // `fitMax < f` is False when f is None
      if fitMax.None? || (f.Some? && fitMax.value < f.value) {
        fitMax := f;
      }
    }
  }

  lemma SumFitSnoc(pop: seq<Individual>, i: nat)
    requires i < |pop| && AllFit(pop[..i]) && pop[i].optimised.Some?
    ensures AllFit(pop[..i + 1])
    ensures Sum(FitValues(pop[..i + 1])) == Sum(FitValues(pop[..i])) + pop[i].optimised.value
  {
    assert pop[..i + 1][..i] == pop[..i];
  }

  const NoAverage := "ERROR: Average fitness cannot be computed for multi-objectives individuals..."

  /** `__getAverageFitness`: refused for multi-objective individuals; a
      missing fitness cannot be added (TypeError) and an empty population
      cannot be divided by. */
  method AverageFitness(pop: seq<Individual>, multiObj: bool) returns (r: Result<real>)
    ensures multiObj ==> r == Err(FitnessComputation(NoAverage))
    ensures !multiObj && !AllFit(pop) ==> r == Err(TypeError)
    ensures !multiObj && AllFit(pop) && |pop| == 0 ==> r == Err(ZeroDivisionError)
    ensures !multiObj && AllFit(pop) && |pop| > 0 ==> r == Ok(Mean(FitValues(pop)))
  {
    if multiObj {
      return Err(FitnessComputation(NoAverage));
    }
    var ok, fitSum := SumFitness(pop);
    if !ok {
      return Err(TypeError);
    }
    if |pop| == 0 {
      return Err(ZeroDivisionError);
    }
    MeanIs(FitValues(pop), |pop| as real);
    r := Ok(fitSum / |pop| as real);
  }

  /** The summing loop of `__getAverageFitness`; it stops (TypeError) at
      the first individual without a fitness. */
  method SumFitness(pop: seq<Individual>) returns (ok: bool, fitSum: real)
    ensures ok <==> AllFit(pop)
    ensures ok ==> fitSum == Sum(FitValues(pop))
  {
    fitSum := 0.0;
    for i := 0 to |pop|
      invariant AllFit(pop[..i]) && fitSum == Sum(FitValues(pop[..i]))
    {
      var f := pop[i].GetFitness();
      if f.None? {
        return false, fitSum;
      }
      SumFitSnoc(pop, i);
      fitSum := fitSum + f.value;
    }
    assert pop[..|pop|] == pop;
    ok := true;
  }

  // ----- linearScaling -----

  lemma FitValuesAre(pop: seq<Individual>, w: seq<real>)
    requires |w| == |pop| && forall j :: 0 <= j < |pop| ==> pop[j].optimised == Some(w[j])
    ensures AllFit(pop) && FitValues(pop) == w
  {
  }

  /** The scaled fitness a f + b. */
  function Scaled(f: real, a: real, b: real): real {
    a * f + b
  }

  /** f' = a f + b on every value. */
  function Affine(v: seq<real>, a: real, b: real): (w: seq<real>)
    ensures |w| == |v|
  {
    if v == [] then [] else Affine(v[..|v| - 1], a, b) + [Scaled(v[|v| - 1], a, b)]
  }

  lemma {:induction false} AffineAt(v: seq<real>, a: real, b: real, i: nat)
    requires i < |v|
    ensures Affine(v, a, b)[i] == Scaled(v[i], a, b)
  {
    if i < |v| - 1 {
      AffineAt(v[..|v| - 1], a, b, i);
    }
  }

  /** b added k times: k b without a product of a count and a real. */
  function Times(k: nat, b: real): real {
    if k == 0 then 0.0 else Times(k - 1, b) + b
  }

  lemma {:induction false} TimesIs(k: nat, b: real, n: real)
    requires n == k as real
    ensures Times(k, b) == n * b
  {
    if k > 0 {
      TimesIs(k - 1, b, n - 1.0);
    }
  }

  /** The sum of the scaled values. */
  lemma {:induction false} SumAffine(v: seq<real>, a: real, b: real)
    ensures Sum(Affine(v, a, b)) == a * Sum(v) + Times(|v|, b)
  {
    if v != [] {
      var w := Affine(v, a, b);
      SumAffine(v[..|v| - 1], a, b);
      assert w[..|w| - 1] == Affine(v[..|v| - 1], a, b);
    }
  }

  lemma Distrib(a: real, x: real, y: real)
    ensures a * (x + y) == a * x + a * y && (x + y) * a == x * a + y * a
  {
  }

  lemma KeepsMeanStep(total: real, n: real, a: real, m: real, s: real, mw: real)
    requires n > 0.0 && m == total / n && s == a * total + n * (m * (1.0 - a)) && mw == s / n
    ensures mw == m
  {
    assert m * n == total;
    assert s == total;
  }

  lemma MeanIs(w: seq<real>, n: real)
    requires |w| > 0 && n == |w| as real
    ensures Mean(w) == Sum(w) / n
  {
  }

  /** The fitnesses after `linearScaling` with rate a: b = favg (1 - a). */
  function LinearScaled(v: seq<real>, a: real): (w: seq<real>)
    requires |v| > 0
    ensures |w| == |v|
  {
    Affine(v, a, Shift(Mean(v), a))
  }

  /** The offset favg (1 - a) of linear scaling. */
  function Shift(favg: real, a: real): real {
    favg * (1.0 - a)
  }

  /** Linear scaling keeps the mean fitness. */
  lemma LinearScalingKeepsMean(v: seq<real>, a: real)
    requires |v| > 0
    ensures Mean(LinearScaled(v, a)) == Mean(v)
  {
    var n := |v| as real;
    var b := Shift(Mean(v), a);
    var w := Affine(v, a, b);
    SumAffine(v, a, b);
    TimesIs(|v|, b, n);
    MeanIs(v, n);
    MeanIs(w, n);
    KeepsMeanStep(Sum(v), n, a, Mean(v), Sum(w), Mean(w));
  }

  /** `linearScaling`: nothing happens for a rate of 1; otherwise the mean
      fitness is taken first (so its errors leave every fitness as it was)
      and each fitness f becomes scaleRate f + favg (1 - scaleRate).  The
      individuals are distinct objects: one listed twice would be scaled twice. */
  method LinearScaling(pop: seq<Individual>, multiObj: bool, scaleRate: real) returns (status: Status)
    requires Nsgaii.DistinctIndividuals(pop)
    modifies pop`optimised
    ensures scaleRate == 1.0 ==> status == Success
    ensures scaleRate != 1.0 && multiObj ==> status == Failure(FitnessComputation(NoAverage))
    ensures scaleRate != 1.0 && !multiObj && !old(AllFit(pop)) ==> status == Failure(TypeError)
    ensures scaleRate != 1.0 && !multiObj && old(AllFit(pop)) && |pop| == 0 ==> status == Failure(ZeroDivisionError)
    ensures status.Failure? || scaleRate == 1.0 ==>
              forall i :: 0 <= i < |pop| ==> pop[i].optimised == old(pop[i].optimised)
    ensures scaleRate != 1.0 && !multiObj && old(AllFit(pop)) && |pop| > 0 ==>
              status == Success && AllFit(pop)
              && FitValues(pop) == LinearScaled(old(FitValues(pop)), scaleRate)
  {
    if scaleRate == 1.0 {
      return Success;
    }
    var favg := AverageFitness(pop, multiObj);
    if favg.Err? {
      return Failure(favg.error);
    }
    ScaleAround(pop, scaleRate, favg.value);
    status := Success;
  }

  /** f' = a f + favg (1 - a) for every individual, favg the mean fitness. */
  method ScaleAround(pop: seq<Individual>, a: real, favg: real)
    requires Nsgaii.DistinctIndividuals(pop) && AllFit(pop) && |pop| > 0 && favg == Mean(FitValues(pop))
    modifies pop`optimised
    ensures AllFit(pop) && FitValues(pop) == LinearScaled(old(FitValues(pop)), a)
  {
    ghost var v := FitValues(pop);
    var b := Shift(favg, a);
    ScaleEach(pop, a, b, v);
    forall j | 0 <= j < |pop|
      ensures pop[j].optimised == Some(Affine(v, a, b)[j])
    {
      AffineAt(v, a, b, j);
    }
    FitValuesAre(pop, Affine(v, a, b));
  }

  /** The loop of `linearScaling`: each fitness f becomes a f + b. */
  method ScaleEach(pop: seq<Individual>, a: real, b: real, ghost v: seq<real>)
    requires Nsgaii.DistinctIndividuals(pop) && |v| == |pop|
    requires forall j :: 0 <= j < |pop| ==> pop[j].optimised == Some(v[j])
    modifies pop`optimised
    ensures forall j :: 0 <= j < |pop| ==> pop[j].optimised == Some(Scaled(v[j], a, b))
  {
    for i := 0 to |pop|
      invariant forall j :: 0 <= j < i ==> pop[j].optimised == Some(Scaled(v[j], a, b))
      invariant forall j :: i <= j < |pop| ==> pop[j].optimised == Some(v[j])
    {
      var f := pop[i].GetFitness().value;
      assert f == v[i];
      label before:
      pop[i].SetOptimizedFitness(Some(Scaled(f, a, b)));
      forall j | 0 <= j < |pop| && j != i
        ensures pop[j].optimised == old@before(pop[j].optimised)
      {
        assert pop[j] != pop[i];
      }
    }
  }

  // ----- basicSharing -----

  /** `basicSharing` as written: with a non-zero rate its first step,
      `indiv.getOptimisedFitness()`, raises AttributeError, because no
      individual class defines that method; so it never changes a fitness. */
  function SharingAsWritten(n: nat, shareRate: real): (st: Status)
    ensures st.Failure? <==> shareRate != 0.0 && n > 0
    ensures st.Failure? ==> st.error == AttributeError("getOptimisedFitness")
  {
    if shareRate != 0.0 && n > 0 then Failure(AttributeError("getOptimisedFitness")) else Success
  }

  /** The shared fitness as written: divided by the density itself. */
  function SharedAsWritten(f: real, density: real): real {
    if density != 0.0 then f / density else f
  }

  /** A density below 1 raises the fitness it should lower. */
  lemma SharedAsWrittenRaises()
    ensures SharedAsWritten(1.0, 0.5) == 2.0 > 1.0
  {
  }

  /** The shared fitness f / (1 + density), the individual counting itself
      in its niche: it is never above a non-negative fitness and falls as the
      niche fills. */
  function Shared(f: real, density: real): (g: real)
    requires density != -1.0
    ensures density == 0.0 ==> g == f
    ensures f >= 0.0 && density >= 0.0 ==> 0.0 <= g <= f
  {
    if density == 0.0 then f
    else
      SharedBelow(f, density);
      f / (1.0 + density)
  }

  lemma SharedBelow(f: real, d: real)
    requires d != -1.0
    ensures f >= 0.0 && d >= 0.0 ==> 0.0 <= f / (1.0 + d) <= f
  {
    if f >= 0.0 && d >= 0.0 {
      var g := f / (1.0 + d);
      assert g * (1.0 + d) == f;
      Distrib(g, 1.0, d);
      if g < 0.0 {
        ScaleBelow(g, 0.0, 1.0 + d);
      } else {
        ScaleBelow(0.0, g, d);
      }
    }
  }

  lemma SharedAntitone(f: real, d1: real, d2: real)
    requires f >= 0.0 && 0.0 <= d1 <= d2
    ensures Shared(f, d2) <= Shared(f, d1)
  {
    var g1, g2 := f / (1.0 + d1), f / (1.0 + d2);
    assert Shared(f, d1) == g1 && Shared(f, d2) == g2;
    assert g1 * (1.0 + d1) == f && g2 * (1.0 + d2) == f;
    assert 0.0 <= g2 by {
      if g2 < 0.0 {
        ScaleBelow(g2, 0.0, 1.0 + d2);
      }
    }
    ScaleBelow(1.0 + d1, 1.0 + d2, g2);
    if g1 < g2 {
      ScaleBelow(g1, g2, 1.0 + d1);
      assert false;
    }
  }

  /** The influence of a neighbour at distance d: `1 - (d / D) ** shareRate`
      within the influence distance D (`influence` stands for that float
      expression), 0 beyond it. */
  function Influence(d: real, inflDist: real, influence: real -> real): real {
    if d <= inflDist then influence(d) else 0.0
  }

  /** The density around `x`: the influences of the other individuals. */
  function Density(pop: seq<Individual>, x: Individual, distance: (Individual, Individual) -> real,
                   inflDist: real, influence: real -> real): real
  {
    if pop == [] then 0.0
    else Density(pop[..|pop| - 1], x, distance, inflDist, influence)
         + (if pop[|pop| - 1] != x then Influence(distance(x, pop[|pop| - 1]), inflDist, influence) else 0.0)
  }

  /** Non-negative influences give a non-negative density. */
  lemma {:induction false} DensityNonNegative(pop: seq<Individual>, x: Individual, distance: (Individual, Individual) -> real,
                                              inflDist: real, influence: real -> real)
    requires forall d :: d <= inflDist ==> influence(d) >= 0.0
    ensures Density(pop, x, distance, inflDist, influence) >= 0.0
  {
    if pop != [] {
      DensityNonNegative(pop[..|pop| - 1], x, distance, inflDist, influence);
    }
  }

  /** One individual's new fitness: unchanged without neighbours, otherwise
      shared, which a missing fitness or a density of -1 cannot be. */
  function SharedOf(f: Option<real>, density: real): (r: Result<Option<real>>)
    ensures density >= 0.0 && f.Some? && f.value >= 0.0 ==> r.Ok? && r.value.Some? && 0.0 <= r.value.value <= f.value
  {
    if density == 0.0 then Ok(f)
    else if f.None? then Err(TypeError)
    else if density == -1.0 then Err(ZeroDivisionError)
    else Ok(Some(Shared(f.value, density)))
  }

  /** The list `indivNewFit` for the first k individuals, or the error of the
      first one that cannot be shared. */
  function SharedFits(pop: seq<Individual>, k: nat, distance: (Individual, Individual) -> real,
                      inflDist: real, influence: real -> real): (r: Result<seq<Option<real>>>)
    requires k <= |pop|
    reads pop`optimised
    ensures r.Ok? ==> |r.value| == k
  {
    if k == 0 then Ok([])
    else match SharedFits(pop, k - 1, distance, inflDist, influence)
      case Err(e) => Err(e)
      case Ok(fits) =>
        match SharedOf(pop[k - 1].optimised, Density(pop, pop[k - 1], distance, inflDist, influence))
        case Err(e) => Err(e)
        case Ok(f) => Ok(fits + [f])
  }

  /** With non-negative influences, sharing succeeds on non-negative
      fitnesses and never raises one. */
  lemma {:induction false} SharingLowers(pop: seq<Individual>, k: nat, distance: (Individual, Individual) -> real,
                                         inflDist: real, influence: real -> real)
    requires k <= |pop|
    requires forall d :: d <= inflDist ==> influence(d) >= 0.0
    requires forall i :: 0 <= i < |pop| ==> pop[i].optimised.Some? && pop[i].optimised.value >= 0.0
    ensures var r := SharedFits(pop, k, distance, inflDist, influence);
            r.Ok? && forall i :: 0 <= i < k ==>
              r.value[i].Some? && 0.0 <= r.value[i].value <= pop[i].optimised.value
  {
    if k > 0 {
      SharingLowers(pop, k - 1, distance, inflDist, influence);
      DensityNonNegative(pop, pop[k - 1], distance, inflDist, influence);
    }
  }

  /** Once a fitness cannot be shared, the whole list cannot. */
  lemma SharedFitsErr(pop: seq<Individual>, k: nat, m: nat, distance: (Individual, Individual) -> real,
                      inflDist: real, influence: real -> real)
    requires k <= m <= |pop| && SharedFits(pop, k, distance, inflDist, influence).Err?
    ensures SharedFits(pop, m, distance, inflDist, influence) == SharedFits(pop, k, distance, inflDist, influence)
    decreases m
  {
    if m > k {
      SharedFitsErr(pop, k, m - 1, distance, inflDist, influence);
    }
  }

  /** The inner loop: the density of the population around `x`. */
  method DensityAround(pop: seq<Individual>, x: Individual, distance: (Individual, Individual) -> real,
                       inflDist: real, influence: real -> real) returns (density: real)
    ensures density == Density(pop, x, distance, inflDist, influence)
  {
    density := 0.0;
    for i := 0 to |pop|
      invariant density == Density(pop[..i], x, distance, inflDist, influence)
    {
      assert pop[..i + 1][..i] == pop[..i];
      var indiv2 := pop[i];
      if indiv2 != x {
        var dist := distance(x, indiv2);
        var infl := if dist <= inflDist then influence(dist) else 0.0;
        density := density + infl;
      }
    }
    assert pop[..|pop|] == pop;
  }

  /** The first loop of `basicSharing`: every new fitness from the old ones. */
  method ComputeSharedFits(pop: seq<Individual>, distance: (Individual, Individual) -> real,
                           inflDist: real, influence: real -> real) returns (r: Result<seq<Option<real>>>)
    ensures r == SharedFits(pop, |pop|, distance, inflDist, influence)
  {
    var indivNewFit: seq<Option<real>> := [];
    for i := 0 to |pop|
      invariant SharedFits(pop, i, distance, inflDist, influence) == Ok(indivNewFit)
    {
      var density := DensityAround(pop, pop[i], distance, inflDist, influence);
      var f := SharedOf(pop[i].GetFitness(), density);
      if f.Err? {
        SharedFitsErr(pop, i + 1, |pop|, distance, inflDist, influence);
        return Err(f.error);
      }
      indivNewFit := indivNewFit + [f.value];
    }
    r := Ok(indivNewFit);
  }

  /** The second loop: each individual gets its own new fitness. */
  method StoreFits(pop: seq<Individual>, fits: seq<Option<real>>)
    requires Nsgaii.DistinctIndividuals(pop) && |fits| == |pop|
    modifies pop`optimised
    ensures forall i :: 0 <= i < |pop| ==> pop[i].optimised == fits[i]
  {
    for i := 0 to |pop|
      invariant forall j :: 0 <= j < i ==> pop[j].optimised == fits[j]
    {
      pop[i].SetOptimizedFitness(fits[i]);
    }
  }

  /** `basicSharing`, corrected to call `getFitness` and to divide by
      1 + density: with a rate of 0 nothing happens; otherwise every new
      fitness is computed from the old ones before any is stored.  The
      individuals are distinct objects, so each gets its own new fitness. */
  method BasicSharing(pop: seq<Individual>, shareRate: real, distance: (Individual, Individual) -> real,
                      inflDist: real, influence: real -> real) returns (status: Status)
    requires Nsgaii.DistinctIndividuals(pop)
    modifies pop`optimised
    ensures var r := old(SharedFits(pop, |pop|, distance, inflDist, influence));
            if shareRate == 0.0 || r.Err? then
              status == (if shareRate == 0.0 then Success else Failure(r.error))
              && forall i :: 0 <= i < |pop| ==> pop[i].optimised == old(pop[i].optimised)
            else status == Success && forall i :: 0 <= i < |pop| ==> pop[i].optimised == r.value[i]
  {
    if shareRate == 0.0 {
      return Success;
    }
    var indivNewFit := ComputeSharedFits(pop, distance, inflDist, influence);
    if indivNewFit.Err? {
      return Failure(indivNewFit.error);
    }
    StoreFits(pop, indivNewFit.value);
    status := Success;
  }
}
