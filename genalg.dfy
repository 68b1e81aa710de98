// The driver of the genetic algorithm (PYGA_GenAlg): it checks the classes
// it is built from, evaluates the initial population, then repeats
// self-optimisation, fitness optimisation, selection and reproduction until
// the behaviour's stop criteria fire.  The behaviour's operations are the
// callbacks of a `Behaviour` value; the population is the list of its
// individuals; what the driver calls, in order, is recorded as events.

module GenAlgDriver {
  import opened Errors
  import opened PyMath
  import opened Text

  /** The behaviour's operations, as the driver sees them.  Callbacks that
      depend on the behaviour's parameters receive the generation number. */
  datatype Behaviour<!T> = Behaviour(
    initial: seq<T>,                              // initPopulation
    optimise: (nat, seq<T>) -> seq<T>,            // scaling or sharing of the fitness
    select: (nat, seq<T>) -> seq<T>,              // selection
    reproduce: (nat, seq<T>, seq<T>) -> seq<T>,   // reproduction(population, selected)
    computeObjectives: seq<T> -> nat,             // the number of individuals evaluated
    stopCriteria: (seq<T>, nat) -> (int, bool))   // (percent, stop)

  /** A call the driver makes, with the generation number it passes. */
  datatype Event =
    | InitPopulation
    | SetCurrentGeneration(gen: nat)
    | StartOfGeneration(gen: nat)
    | SelfOptimize(gen: nat)
    | Optimise(gen: nat)
    | Selection(gen: nat)
    | Reproduction(gen: nat)
    | Evaluation(gen: nat)
    | EndOfGeneration(gen: nat, endOfRun: bool)

  // ----- the run as a function of the behaviour -----

  /** `reproducedPopulation + selectedPopulation` after optimising the population. */
  function Next<T>(b: Behaviour<T>, gen: nat, pop: seq<T>): seq<T> {
    var optimised := b.optimise(gen, pop);
    var selected := b.select(gen, optimised);
    b.reproduce(gen, optimised, selected) + selected
  }

  /** The population after k iterations. */
  function PopulationAt<T>(b: Behaviour<T>, k: nat): seq<T> {
    if k == 0 then b.initial else Next(b, k - 1, PopulationAt(b, k - 1))
  }

  /** The generation number the evaluation after k iterations passes to
      `stopCriteria`: 0 for the first one, then the number of the iteration
      just done, which is one less than CURRENT_GENERATION. */
  function StopGeneration(k: nat): nat {
    if k == 0 then 0 else k - 1
  }

  function Verdict<T>(b: Behaviour<T>, k: nat): (int, bool) {
    b.stopCriteria(PopulationAt(b, k), StopGeneration(k))
  }

  predicate Stops<T>(b: Behaviour<T>, k: nat) {
    Verdict(b, k).1
  }

  /** The evaluations counted over the first evaluation and k iterations. */
  function Evaluations<T>(b: Behaviour<T>, k: nat): nat {
    (if k == 0 then 0 else Evaluations(b, k - 1)) + b.computeObjectives(PopulationAt(b, k))
  }

  /** The calls of iteration iGen, in the order `__oneIteration` makes them. */
  function IterationEvents(iGen: nat, endOfRun: bool): seq<Event> {
    [SetCurrentGeneration(iGen + 1), StartOfGeneration(iGen), SelfOptimize(iGen), Optimise(iGen),
     Selection(iGen), Reproduction(iGen), Evaluation(iGen), EndOfGeneration(iGen, endOfRun)]
  }

  /** The calls of a run that stops after k iterations. */
  function RunEvents<T>(b: Behaviour<T>, k: nat): seq<Event> {
    if k == 0 then [InitPopulation, Evaluation(0)]
    else RunEvents(b, k - 1) + IterationEvents(k - 1, Stops(b, k))
  }

  lemma {:induction false} RunEventsLength<T>(b: Behaviour<T>, k: nat)
    ensures |RunEvents(b, k)| == 2 + 8 * k
  {
    if k > 0 {
      RunEventsLength(b, k - 1);
    }
  }

  /** The calls of iteration i, which ends the run when the evaluation after it stops. */
  function IterationOf<T>(b: Behaviour<T>, i: nat): seq<Event> {
    IterationEvents(i, Stops(b, i + 1))
  }

  /** A longer run begins with the calls of a shorter one. */
  lemma {:induction false} RunEventsExtend<T>(b: Behaviour<T>, i: nat, k: nat)
    requires i <= k
    ensures |RunEvents(b, i)| <= |RunEvents(b, k)|
    ensures forall m :: 0 <= m < |RunEvents(b, i)| ==> RunEvents(b, k)[m] == RunEvents(b, i)[m]
  {
    if i < k {
      RunEventsExtend(b, i, k - 1);
      assert RunEvents(b, k) == RunEvents(b, k - 1) + IterationEvents(k - 1, Stops(b, k));
    }
  }

  /** Iteration i's calls sit at positions 2 + 8i .. 2 + 8i + 7 of the run, in
      `__oneIteration`'s order. */
  lemma RunEventsAt<T>(b: Behaviour<T>, k: nat, i: nat)
    requires i < k
    ensures |RunEvents(b, k)| == 2 + 8 * k
    ensures forall m :: 0 <= m < 8 ==> RunEvents(b, k)[2 + 8 * i + m] == IterationOf(b, i)[m]
  {
    RunEventsLength(b, k);
    RunEventsLength(b, i);
    RunEventsExtend(b, i + 1, k);
    assert RunEvents(b, i + 1) == RunEvents(b, i) + IterationOf(b, i);
  }

  /** In a run that stops at the first k whose evaluation says so, only the
      last iteration tells `endOfGeneration` that the run ends. */
  lemma EndOfRunOnlyLast<T>(b: Behaviour<T>, k: nat, i: nat)
    requires Stops(b, k) && forall j: nat :: j < k ==> !Stops(b, j)
    requires i < k
    ensures |RunEvents(b, k)| == 2 + 8 * k
    ensures RunEvents(b, k)[2 + 8 * i + 7] == EndOfGeneration(i, i == k - 1)
  {
    RunEventsAt(b, k, i);
    assert RunEvents(b, k)[2 + 8 * i + 7] == IterationOf(b, i)[7];
    assert Stops(b, i + 1) <==> i == k - 1;
  }

  /** `stopCriteria` receives 0 after the initialisation and after the first
      iteration, then the iteration number, which lags CURRENT_GENERATION by one. */
  lemma StopCriteriaLags<T>(b: Behaviour<T>, k: nat, i: nat)
    requires i < k
    ensures |RunEvents(b, k)| == 2 + 8 * k
    ensures RunEvents(b, k)[1] == Evaluation(0)
    ensures RunEvents(b, k)[2 + 8 * i] == SetCurrentGeneration(i + 1)
    ensures RunEvents(b, k)[2 + 8 * i + 6] == Evaluation(i)
    ensures StopGeneration(i + 1) == i
  {
    RunEventsAt(b, k, i);
    assert RunEvents(b, k)[2 + 8 * i + 0] == IterationOf(b, i)[0];
    assert RunEvents(b, k)[2 + 8 * i + 6] == IterationOf(b, i)[6];
    RunEventsExtend(b, 0, k);
  }

  /** The total evaluation count is never below the first evaluation and grows with every iteration. */
  lemma {:induction false} EvaluationsGrow<T>(b: Behaviour<T>, j: nat, k: nat)
    requires j <= k
    ensures Evaluations(b, j) <= Evaluations(b, k)
    ensures b.computeObjectives(b.initial) <= Evaluations(b, k)
    decreases k
  {
    if k > j {
      EvaluationsGrow(b, j, k - 1);
    } else if k > 0 {
      EvaluationsGrow(b, 0, k - 1);
    }
  }

  /** The individuals that selection keeps are the tail of the next population, after the children. */
  lemma SelectedLast<T>(b: Behaviour<T>, k: nat)
    ensures var optimised := b.optimise(k, PopulationAt(b, k));
            var selected := b.select(k, optimised);
            var children := b.reproduce(k, optimised, selected);
            |PopulationAt(b, k + 1)| == |children| + |selected|
            && PopulationAt(b, k + 1)[..|children|] == children
            && PopulationAt(b, k + 1)[|children|..] == selected
  {
  }

  /** No evaluation before the one after k iterations stops the run. */
  ghost predicate RunsPast<T>(b: Behaviour<T>, k: nat) {
    forall j: nat :: j < k ==> !Stops(b, j)
  }

  lemma RunsPastNext<T>(b: Behaviour<T>, k: nat)
    requires RunsPast(b, k) && !Stops(b, k)
    ensures RunsPast(b, k + 1)
  {
  }

  /** One more iteration, unfolded. */
  lemma Advance<T>(b: Behaviour<T>, k: nat)
    requires k > 0
    ensures PopulationAt(b, k) == Next(b, k - 1, PopulationAt(b, k - 1))
    ensures Verdict(b, k) == b.stopCriteria(PopulationAt(b, k), k - 1)
    ensures Evaluations(b, k) == Evaluations(b, k - 1) + b.computeObjectives(PopulationAt(b, k))
    ensures RunEvents(b, k) == RunEvents(b, k - 1) + IterationEvents(k - 1, Verdict(b, k).1)
  {
  }

  // ----- the driver -----

  class GenAlg<T> {
    const behaviour: Behaviour<T>
    /** The individual class's CURRENT_GENERATION. */
    var currentGeneration: nat
    var population: seq<T>
    var events: seq<Event>

    constructor (behaviour: Behaviour<T>)
      ensures this.behaviour == behaviour && currentGeneration == 0 && population == [] && events == []
    {
      this.behaviour := behaviour;
      currentGeneration := 0;
      population := [];
      events := [];
    }

    /** `__evaluation`: compute the objectives, then ask the stop criteria,
        with the generation number given. */
    method Evaluate(iGeneration: nat) returns (percent: int, continueEvolution: bool, nbEval: nat)
      modifies this
      ensures population == old(population) && currentGeneration == old(currentGeneration)
      ensures events == old(events) + [Evaluation(iGeneration)]
      ensures nbEval == behaviour.computeObjectives(population)
      ensures (percent, !continueEvolution) == behaviour.stopCriteria(population, iGeneration)
    {
      nbEval := behaviour.computeObjectives(population);
      var verdict := behaviour.stopCriteria(population, iGeneration);
      percent := verdict.0;
      continueEvolution := !verdict.1;
      events := events + [Evaluation(iGeneration)];
    }

    /** `__oneIteration`. */
    method OneIteration(iGen: nat) returns (nbEval: nat, percent: int, continueEvolution: bool)
      modifies this
      ensures currentGeneration == iGen + 1
      ensures population == Next(behaviour, iGen, old(population))
      ensures nbEval == behaviour.computeObjectives(population)
      ensures (percent, !continueEvolution) == behaviour.stopCriteria(population, iGen)
      ensures events == old(events) + IterationEvents(iGen, !continueEvolution)
    {
      currentGeneration := iGen + 1;
      events := events + [SetCurrentGeneration(iGen + 1), StartOfGeneration(iGen), SelfOptimize(iGen)];
      var optimised := behaviour.optimise(iGen, population);
      events := events + [Optimise(iGen)];
      var selected := behaviour.select(iGen, optimised);
      events := events + [Selection(iGen)];
      var reproduced := behaviour.reproduce(iGen, optimised, selected);
      events := events + [Reproduction(iGen)];
      population := reproduced + selected;
      ghost var before := events;
      percent, continueEvolution, nbEval := Evaluate(iGen);
      events := events + [EndOfGeneration(iGen, !continueEvolution)];
      assert events == before + [Evaluation(iGen), EndOfGeneration(iGen, !continueEvolution)];
    }

    /** The state after the first evaluation and k iterations of a run
        that started from generation gen0 with the calls events0 made. */
    ghost predicate RanFor(k: nat, gen0: nat, events0: seq<Event>, nbEval: nat, percent: int, continueEvolution: bool)
      reads this
    {
      currentGeneration == (if k == 0 then gen0 else k)
      && population == PopulationAt(behaviour, k)
      && events == events0 + RunEvents(behaviour, k)
      && nbEval == Evaluations(behaviour, k)
      && percent == Verdict(behaviour, k).0
      && continueEvolution == !Stops(behaviour, k)
    }

    /** The initialisation and the first evaluation of `run`. */
    method Start() returns (nbEval: nat, percent: int, continueEvolution: bool)
      modifies this
      ensures RanFor(0, old(currentGeneration), old(events), nbEval, percent, continueEvolution)
    {
      events := events + [InitPopulation];
      population := behaviour.initial;
      percent, continueEvolution, nbEval := Evaluate(0);
    }

    /** One turn of `run`'s loop: an iteration and the running evaluation count. */
    method Step(k: nat, ghost gen0: nat, ghost events0: seq<Event>, nbEval: nat, percent: int)
      returns (nbEval': nat, percent': int, continueEvolution': bool)
      requires RanFor(k, gen0, events0, nbEval, percent, true)
      modifies this
      ensures RanFor(k + 1, gen0, events0, nbEval', percent', continueEvolution')
    {
      var curNbEval;
      curNbEval, percent', continueEvolution' := OneIteration(k);
      nbEval' := nbEval + curNbEval;
      Advance(behaviour, k + 1);
    }

    /** `run`: the first evaluation, then one iteration while the evaluation
        says to continue.  The run ends only when the stop criteria fire,
        so some evaluation must say so. */
    method Run() returns (generations: nat, nbEval: nat, percent: int)
      requires exists k: nat :: Stops(behaviour, k)
      modifies this
      ensures Stops(behaviour, generations) && forall k: nat :: k < generations ==> !Stops(behaviour, k)
      ensures currentGeneration == if generations == 0 then old(currentGeneration) else generations
      ensures population == PopulationAt(behaviour, generations)
      ensures nbEval == Evaluations(behaviour, generations)
      ensures percent == Verdict(behaviour, generations).0
      ensures events == old(events) + RunEvents(behaviour, generations)
    {
      ghost var last: nat :| Stops(behaviour, last);
      ghost var gen0, events0 := currentGeneration, events;
      var continueEvolution;
      nbEval, percent, continueEvolution := Start();
      generations := 0;
      while continueEvolution
        invariant generations <= last
        invariant RunsPast(behaviour, generations)
        invariant RanFor(generations, gen0, events0, nbEval, percent, continueEvolution)
        decreases last - generations
      {
        assert !Stops(behaviour, generations);
        RunsPastNext(behaviour, generations);
        nbEval, percent, continueEvolution := Step(generations, gen0, events0, nbEval, percent);
        generations := generations + 1;
      }
    }
  }

  /** The constructor's class checks, in order: the first class that does not
      derive from its base raises a CreationError naming it; otherwise the
      driver starts at generation 0 with an empty population. */
  method Create<T>(individualIsSubclass: bool, behaviorIsSubclass: bool, populationIsSubclass: bool,
                   behaviour: Behaviour<T>) returns (r: Result<GenAlg<T>>)
    ensures !individualIsSubclass ==>
              r == Err(CreationError("ERROR: individual class must inherit from PYGA_Individual"))
    ensures individualIsSubclass && !behaviorIsSubclass ==>
              r == Err(CreationError("ERROR: behavior class must inherit from PYGA_GenAlgBehavior"))
    ensures individualIsSubclass && behaviorIsSubclass && !populationIsSubclass ==>
              r == Err(CreationError("ERROR: population class must inherit from PYGA_Population"))
    ensures r.Ok? <==> individualIsSubclass && behaviorIsSubclass && populationIsSubclass
    ensures r.Ok? ==> fresh(r.value) && r.value.behaviour == behaviour && r.value.currentGeneration == 0
                      && r.value.population == [] && r.value.events == []
  {
    if !individualIsSubclass {
      return Err(CreationError("ERROR: individual class must inherit from PYGA_Individual"));
    }
    if !behaviorIsSubclass {
      return Err(CreationError("ERROR: behavior class must inherit from PYGA_GenAlgBehavior"));
    }
    if !populationIsSubclass {
      return Err(CreationError("ERROR: population class must inherit from PYGA_Population"));
    }
    var g := new GenAlg(behaviour);
    r := Ok(g);
  }

  // ----- the evolution time -----

  /** `unicode(n)` of an integer. */
  function IntToString(n: int): (s: string)
    ensures n >= 0 ==> s == NatToString(n)
    ensures n < 0 ==> s == "-" + NatToString(-n)
  {
    if n >= 0 then NatToString(n) else "-" + NatToString(-n)
  }

  /** Minutes and seconds below 10 get a leading "0". */
  function TwoDigits(n: nat): (s: string)
    requires n < 60
    ensures |s| == 2 && forall k :: 0 <= k < 2 ==> '0' <= s[k] <= '9'
  {
    if n < 10 then "0" + NatToString(n)
    else
      assert |NatToString(n / 10)| == 1;
      NatToString(n)
  }

  /** `int(t / 3600)`, `int((t / 60) % 60)` and `int(t % 60)`. */
  function Hours(t: real): int {
    Trunc(t / 3600.0)
  }

  function Minutes(t: real): (m: nat)
    ensures m < 60
  {
    Trunc(FloatMod(t / 60.0, 60.0))
  }

  function Seconds(t: real): (s: nat)
    ensures s < 60
  {
    Trunc(FloatMod(t, 60.0))
  }

  /** The H:MM:SS text of an evolution time of t seconds. */
  function DurationText(t: real): (text: string)
    ensures |text| == |IntToString(Hours(t))| + 6
    ensures text[|text| - 6] == ':' && text[|text| - 3] == ':'
  {
    IntToString(Hours(t)) + ":" + TwoDigits(Minutes(t)) + ":" + TwoDigits(Seconds(t))
  }

  lemma FloorMinus(x: real, k: int)
    ensures (x - k as real).Floor == x.Floor - k
  {
  }

  /** For a non-negative time the three fields add up to its whole seconds. */
  lemma DurationFields(t: real)
    requires t >= 0.0
    ensures Hours(t) >= 0
    ensures Hours(t) * 3600 + Minutes(t) * 60 + Seconds(t) == t.Floor
  {
    var q := t / 60.0;
    var h := (q / 60.0).Floor;
    assert q / 60.0 == t / 3600.0;
    assert Hours(t) == h;
    assert FloatMod(q, 60.0) == q - h as real * 60.0;
    FloorMinus(q, h * 60);
    assert Minutes(t) == q.Floor - h * 60;
    var m := q.Floor;
    assert FloatMod(t, 60.0) == t - m as real * 60.0;
    FloorMinus(t, m * 60);
    assert Seconds(t) == t.Floor - m * 60;
  }
}
