// The individual of the genetic algorithm (PYGA_Individual) together with
// the state its multi-objective and NSGA-II subclasses add
// (PYGA_StandardMultiObjIndividual, PYGA_StandardMultiObjIndividual_NSGAII).
// The three classes are folded into one: `multiObj` is the class-level
// MULTI_OBJ flag, and the objective vector, the Pareto-front index, the
// members of that front and the crowding distance are the subclasses' fields.

module Individuals {
  import opened Errors
  import opened Text
  import opened ParamManager
  import GenAlgBehavior

  /** A float that may be `float('inf')` or `float('-inf')`. */
  datatype ExtReal = NegInf | Fin(r: real) | PosInf

  /** `<` on such floats. */
  predicate ExtLess(a: ExtReal, b: ExtReal) {
    match (a, b)
    case (NegInf, NegInf) => false
    case (NegInf, _) => true
    case (Fin(x), Fin(y)) => x < y
    case (Fin(_), PosInf) => true
    case (_, _) => false
  }

  /** Python 2 `<` between two values that may be None: None is below every number. */
  predicate NoneFirstLess<X>(a: Option<X>, b: Option<X>, less: (X, X) -> bool) {
    match (a, b)
    case (None, Some(_)) => true
    case (Some(x), Some(y)) => less(x, y)
    case (_, _) => false
  }

  lemma ExtLessOrder(a: ExtReal, b: ExtReal, c: ExtReal)
    ensures !ExtLess(a, a)
    ensures ExtLess(a, b) ==> !ExtLess(b, a)
    ensures ExtLess(a, b) && ExtLess(b, c) ==> ExtLess(a, c)
    ensures ExtLess(NegInf, PosInf) && (a != NegInf ==> ExtLess(NegInf, a)) && (a != PosInf ==> ExtLess(a, PosInf))
  {
  }

  class Individual {
    var fitness: Option<real>
    var optimised: Option<real>
    const birth: int
    const multiObj: bool
    /** PYGA_StandardMultiObjIndividual.__objectives */
    var objectives: Option<seq<real>>
    /** PYGA_StandardMultiObjIndividual_NSGAII.__iParetoFront, __ParetoFront, __crowdingDist */
    var front: Option<nat>
    var frontMembers: seq<Individual>
    var crowding: Option<ExtReal>

    /** `PYGA_Individual.__init__`: nothing computed yet, born in the current generation. */
    constructor (currentGeneration: int)
      ensures fitness == None && optimised == None && birth == currentGeneration && !multiObj
      ensures objectives == None && front == None && frontMembers == [] && crowding == None
      ensures NeedCompute()
    {
      birth := currentGeneration;
      multiObj := false;
      fitness, optimised := None, None;
      objectives, front, frontMembers, crowding := None, None, [], None;
    }

    /** The constructors of the multi-objective and NSGA-II classes, once the
        class-variable check of `NewMultiObj` has passed. */
    constructor MultiObj(currentGeneration: int)
      ensures fitness == None && optimised == None && birth == currentGeneration && multiObj
      ensures objectives == None && front == None && frontMembers == [] && crowding == None
      ensures NeedCompute()
    {
      birth := currentGeneration;
      multiObj := true;
      fitness, optimised := None, None;
      objectives, front, frontMembers, crowding := None, None, [], None;
    }

    /** `needCompute`, with the multi-objective override. */
    predicate NeedCompute()
      reads this`fitness, this`objectives
    {
      if multiObj then objectives.None? else fitness.None?
    }

    /** The serial branch of `computeObjectives`: `fit` is what `fitness`
        returns; for a multi-objective individual `objectives` returns nothing
        and stores `objs` through `setObj`, so the fitness becomes None. */
    method ComputeObjectives(fit: real, objs: seq<real>) returns (computed: bool)
      modifies this`fitness, this`optimised, this`objectives
      ensures computed == old(NeedCompute())
      ensures !computed ==> fitness == old(fitness) && optimised == old(optimised) && objectives == old(objectives)
      ensures computed && !multiObj ==>
                fitness == Some(fit) && optimised == Some(fit) && objectives == old(objectives)
      ensures computed && multiObj ==> fitness == None && optimised == None && objectives == Some(objs)
      ensures !NeedCompute()
    {
      computed := NeedCompute();
      if computed {
        var result := None;
        if multiObj {
          SetObj(Some(objs));
        } else {
          result := Some(fit);
        }
        fitness := result;
        optimised := fitness;
      }
    }

    /** `getFitness`: the optimised fitness. */
    function GetFitness(): Option<real>
      reads this`optimised
    {
      optimised
    }

    function GetBirthGeneration(): int {
      birth
    }

    /** `setOptimizedFitness` changes the optimised fitness only. */
    method SetOptimizedFitness(newFit: Option<real>)
      modifies this`optimised
      ensures GetFitness() == newFit
      ensures NeedCompute() == old(NeedCompute()) && fitness == old(fitness)
    {
      optimised := newFit;
    }

    function GetObj(): Option<seq<real>>
      reads this`objectives
    {
      objectives
    }

    /** `setObj` followed by `getObj` gives the stored objectives back. */
    method SetObj(obj: Option<seq<real>>)
      modifies this`objectives
      ensures GetObj() == obj
      ensures multiObj ==> (NeedCompute() <==> obj.None?)
    {
      objectives := obj;
    }
  }

  /** The multi-objective constructor: the base constructor runs first, then
      every name of NEEDED_VAR must be defined by the class. */
  method NewMultiObj(currentGeneration: int, definesNbObjectives: bool, definesObjTypes: bool)
    returns (r: Result<Individual>)
    ensures r.Ok? <==> definesNbObjectives && definesObjTypes
    ensures !definesNbObjectives ==>
              r == Err(Exception("ERROR: MultiObjectives Individual class must define NB_OBJECTIVES"))
    ensures definesNbObjectives && !definesObjTypes ==>
              r == Err(Exception("ERROR: MultiObjectives Individual class must define OBJ_TYPES"))
    ensures r.Ok? ==> fresh(r.value) && r.value.multiObj && r.value.birth == currentGeneration
                      && r.value.NeedCompute() && r.value.fitness == None && r.value.optimised == None
  {
    if !definesNbObjectives {
      return Err(Exception("ERROR: MultiObjectives Individual class must define NB_OBJECTIVES"));
    }
    if !definesObjTypes {
      return Err(Exception("ERROR: MultiObjectives Individual class must define OBJ_TYPES"));
    }
    var x := new Individual.MultiObj(currentGeneration);
    r := Ok(x);
  }

  /** `getParam` of the individual class: the parameter the keyword names in
      the behaviour, or an Exception when no parameter has that keyword. */
  method GetParam(behavior: GenAlgBehavior.Behavior, keyword: string,
                  cats: seq<string>, order: map<string, seq<string>>) returns (r: Result<Value>)
    requires behavior.manager.Valid() && behavior.manager.HashOrder(cats, order)
    ensures var found := LastMatch(behavior.manager.params, behavior.manager.Entries(cats, order), Upper(keyword));
            (found.None? ==> r == Err(Exception("Unknown parameter " + keyword)))
            && (found.Some? ==> r == behavior.GetParam(found.value))
  {
    var found := behavior.GetParamFromKeyword(keyword, cats, order);
    if found.None? {
      return Err(Exception("Unknown parameter " + keyword));
    }
    r := behavior.GetParam(found.value);
  }

  // ----- the defaults a derived individual may override -----

  /** `isDuplication`: `self == otherIndiv`, which is identity without `__eq__`. */
  function DefaultIsDuplication(a: Individual, b: Individual): bool {
    a == b
  }

  /** `canBeCrossed`: `parent1 != parent2`. */
  function DefaultCanBeCrossed(p1: Individual, p2: Individual): bool {
    p1 != p2
  }

  /** `canBeMuted`: `indiv is not None`. */
  function DefaultCanBeMuted(x: Individual?): bool {
    x != null
  }

  /** `distance`: None. */
  function DefaultDistance(a: Individual, b: Individual): Option<real> {
    None
  }

  /** `individualSearchSpaceInfo`: `(None, None)`. */
  function DefaultSearchSpaceInfo(): (Option<real>, Option<real>) {
    (None, None)
  }

  /** The defaults agree: duplication is an equivalence, exactly the
      non-duplicated pairs can be crossed, anything present can be mutated,
      and no distance is known. */
  lemma DefaultsAgree(a: Individual, b: Individual)
    ensures DefaultIsDuplication(a, a)
    ensures DefaultIsDuplication(a, b) <==> DefaultIsDuplication(b, a)
    ensures DefaultCanBeCrossed(a, b) <==> !DefaultIsDuplication(a, b)
    ensures !DefaultCanBeCrossed(a, a) && DefaultCanBeMuted(a) && !DefaultCanBeMuted(null)
    ensures DefaultDistance(a, b).None? && DefaultSearchSpaceInfo() == (None, None)
  {
  }

  // ----- the operations a derived individual must define -----

  datatype Operation =
    | Generate
    | SaveIndividual
    | LoadIndividual
    | ParseIndividual
    | Fitness
    | Objectives
    | ComputeMultiObjFitness
    | IsBetter
    | Crossover
    | Mutation

  function OperationName(op: Operation): string {
    match op
    case Generate => "generate"
    case SaveIndividual => "saveIndividual"
    case LoadIndividual => "loadIndividual"
    case ParseIndividual => "parseIndividual"
    case Fitness => "fitness"
    case Objectives => "objectives"
    case ComputeMultiObjFitness => "computeMultiObjFitness"
    case IsBetter => "isBetter"
    case Crossover => "crossover"
    case Mutation => "mutation"
  }

  /** What the base class does for each of them: raise, naming the operation. */
  function BaseOperation(op: Operation): (e: Error)
    ensures e.MethodMustBeOverloaded?
    ensures Message(e) == "ERROR: This method (Individual." + OperationName(op) + ") must be defined in derived class."
  {
    BaseOperationError("Individual", OperationName(op))
  }

  /** The error of a base operation tells which operation was called. */
  lemma BaseOperationNamesIt(a: Operation, b: Operation)
    ensures Message(BaseOperation(a)) == Message(BaseOperation(b)) <==> a == b
  {
    BaseOperationErrorNamesIt("Individual", OperationName(a), OperationName(b));
    OperationNameInjective(a, b);
  }

  /** Two operations have the same name only when they are the same. */
  lemma OperationNameInjective(a: Operation, b: Operation)
    ensures OperationName(a) == OperationName(b) ==> a == b
  {
  }
}
