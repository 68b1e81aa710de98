// `computeObjectives` of the population (PYGA_Population), serial branch:
// count the individuals that need a computation, evaluate each individual
// in list order, then, for a multi-objective class, rank the population
// with NSGA-II.  What `fitness` and `objectives` of an individual return
// are the functions `fitOf` and `objOf` of the individual.

module Evaluation {
  import opened Errors
  import opened MultiObj
  import opened Individuals
  import Nsgaii
  import Clustering
  import Populations

  /** The number of positions whose individual needs a computation. */
  function NeedingCount(pop: seq<Individual>): (n: nat)
    reads pop`fitness, pop`objectives
    ensures n <= |pop|
  {
    if pop == [] then 0
    else NeedingCount(pop[..|pop| - 1]) + (if pop[|pop| - 1].NeedCompute() then 1 else 0)
  }

  /** No individual needs a computation exactly when the count is 0. */
  lemma {:induction false} NeedingCountZero(pop: seq<Individual>)
    ensures NeedingCount(pop) == 0 <==> forall i :: 0 <= i < |pop| ==> !pop[i].NeedCompute()
  {
    if pop != [] {
      NeedingCountZero(pop[..|pop| - 1]);
      assert forall i :: 0 <= i < |pop| - 1 ==> pop[..|pop| - 1][i] == pop[i];
    }
  }

  /** The first loop of `computeObjectives`. */
  method CountNeeding(pop: seq<Individual>) returns (nbIndivToComp: nat)
    ensures nbIndivToComp == NeedingCount(pop)
  {
    nbIndivToComp := 0;
    for i := 0 to |pop|
      invariant nbIndivToComp == NeedingCount(pop[..i])
    {
      assert pop[..i + 1][..i] == pop[..i];
      if pop[i].NeedCompute() {
        nbIndivToComp := nbIndivToComp + 1;
      }
    }
    assert pop[..|pop|] == pop;
  }

  /** What one individual's `computeObjectives` leaves, seen from the state
      before the loop: computed values where a computation was needed,
      the old values otherwise. */
  twostate predicate Settled(x: Individual, fitOf: Individual -> real, objOf: Individual -> seq<real>)
    reads x`fitness, x`optimised, x`objectives
  {
    if old(x.NeedCompute()) then
      if x.multiObj then x.fitness == None && x.optimised == None && x.objectives == Some(objOf(x))
      else x.fitness == Some(fitOf(x)) && x.optimised == Some(fitOf(x)) && x.objectives == old(x.objectives)
    else
      x.fitness == old(x.fitness) && x.optimised == old(x.optimised) && x.objectives == old(x.objectives)
  }

  twostate predicate Untouched(x: Individual)
    reads x`fitness, x`optimised, x`objectives
  {
    x.fitness == old(x.fitness) && x.optimised == old(x.optimised) && x.objectives == old(x.objectives)
  }

  /** The serial loop: `indiv.computeObjectives(self)` for each individual
      in list order.  An individual listed twice is computed at its first
      position and then no longer needs a computation. */
  method EvaluateAll(pop: seq<Individual>, fitOf: Individual -> real, objOf: Individual -> seq<real>)
    returns (nbIndivEvaluated: nat)
    modifies pop`fitness, pop`optimised, pop`objectives
    ensures forall i :: 0 <= i < |pop| ==> Settled(pop[i], fitOf, objOf) && !pop[i].NeedCompute()
  {
    nbIndivEvaluated := 0;
    for i := 0 to |pop|
      invariant forall t :: 0 <= t < |pop| && pop[t] in pop[..i] ==>
                  Settled(pop[t], fitOf, objOf) && !pop[t].NeedCompute()
      invariant forall t :: 0 <= t < |pop| && pop[t] !in pop[..i] ==> Untouched(pop[t])
    {
      var x := pop[i];
      ghost var seen := x in pop[..i];
      label before:
      var computed := x.ComputeObjectives(fitOf(x), objOf(x));
      if computed {
        nbIndivEvaluated := nbIndivEvaluated + 1;
      }
      assert pop[..i + 1] == pop[..i] + [x];
      forall t | 0 <= t < |pop| && pop[t] != x
        ensures pop[t].fitness == old@before(pop[t].fitness) && pop[t].optimised == old@before(pop[t].optimised)
        ensures pop[t].objectives == old@before(pop[t].objectives)
      {
      }
    }
    assert pop[..|pop|] == pop;
  }

  /** `computeObjectives` of the population with `max_process == 1`: the
      count taken before any computation, every individual computed once,
      and, for a multi-objective class, every individual given its front. */
  method ComputeObjectives(population: Populations.Population<Individual>, p: Profile,
                           fitOf: Individual -> real, objOf: Individual -> seq<real>)
    returns (nbIndivToComp: nat, ghost fronts: seq<seq<nat>>)
    requires forall i :: 0 <= i < |population.individuals| ==>
               population.individuals[i].multiObj == population.multiObj
    requires population.multiObj ==>
               forall i :: 0 <= i < |population.individuals| ==>
                 var x := population.individuals[i];
                 Fits(p, objOf(x)) && (x.objectives.Some? ==> Fits(p, x.objectives.value))
    modifies population.individuals`fitness, population.individuals`optimised, population.individuals`objectives
    modifies population.individuals`front, population.individuals`frontMembers
    ensures nbIndivToComp == old(NeedingCount(population.individuals))
    ensures forall i :: 0 <= i < |population.individuals| ==>
              Settled(population.individuals[i], fitOf, objOf) && !population.individuals[i].NeedCompute()
    ensures !population.multiObj ==> fronts == []
    ensures population.multiObj ==>
              var pop: seq<Individual> := population.individuals;
              Nsgaii.Evaluated(p, pop) && Clustering.Partition(fronts, |pop|)
              && Nsgaii.Layered(p, Nsgaii.ObjectivesOf(pop), fronts) && Nsgaii.HasFronts(pop, fronts)
  {
    var pop: seq<Individual> := population.individuals;
    nbIndivToComp := CountNeeding(pop);
    var nbIndivEvaluated := EvaluateAll(pop, fitOf, objOf);
    fronts := [];
    if population.multiObj {
      assert Nsgaii.Evaluated(p, pop) by {
        forall i | 0 <= i < |pop|
          ensures pop[i].objectives.Some? && Fits(p, pop[i].objectives.value)
        {
          assert Settled(pop[i], fitOf, objOf);
        }
      }
      fronts := Nsgaii.NsgaiiFitness(p, pop);
    }
  }
}
