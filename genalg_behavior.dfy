// The base behaviour of the genetic algorithm (PYGA_GenAlgBehavior): the
// class-level list of every parameter label read from the parameter files,
// the construction of a behaviour's parameter manager from that list, the
// parameter accessors, and the operations a derived behaviour must define.

module GenAlgBehavior {
  import opened Errors
  import opened Text
  import opened ParamManager
  import Populations

  // ----- the class-level ALL_PARAMS list -----

  /** The labels known after reading the `Parameter` entries of one file, in
      order, into `known`, and whether a label was met twice.  The labels read
      before the repeated one stay recorded. */
  function LoadLabels(known: seq<string>, labels: seq<string>): (r: (seq<string>, Status))
    decreases |labels|
  {
    if labels == [] then (known, Success)
    else if labels[0] in known then
      (known, Failure(ParametersError("ERROR: Parameter " + labels[0] + " defined twice.")))
    else LoadLabels(known + [labels[0]], labels[1..])
  }

  /** Reading a file succeeds exactly when its labels are new and pairwise
      distinct; the list then grows by the file's labels and stays free of
      repetitions either way. */
  lemma LoadLabelsSpec(known: seq<string>, labels: seq<string>)
    requires NoDup(known)
    ensures NoDup(LoadLabels(known, labels).0)
    ensures LoadLabels(known, labels).1 == Success <==> NoDup(known + labels)
    ensures LoadLabels(known, labels).1 == Success ==> LoadLabels(known, labels).0 == known + labels
    ensures LoadLabels(known, labels).1.Failure? ==>
              exists k :: 0 <= k < |labels| && labels[k] in known + labels[..k]
                          && LoadLabels(known, labels).0 == known + labels[..k]
                          && LoadLabels(known, labels).1.error
                             == ParametersError("ERROR: Parameter " + labels[k] + " defined twice.")
  {
    LoadLabelsSuccess(known, labels);
    LoadLabelsFailure(known, labels);
  }

  lemma {:induction false} LoadLabelsSuccess(known: seq<string>, labels: seq<string>)
    requires NoDup(known)
    ensures NoDup(LoadLabels(known, labels).0)
    ensures LoadLabels(known, labels).1 == Success <==> NoDup(known + labels)
    ensures LoadLabels(known, labels).1 == Success ==> LoadLabels(known, labels).0 == known + labels
    decreases |labels|
  {
    if labels != [] {
      var x := labels[0];
      if x in known {
        var i :| 0 <= i < |known| && known[i] == x;
        assert (known + labels)[i] == (known + labels)[|known|];
      } else {
        NoDupSnoc(known, x);
        LoadLabelsSuccess(known + [x], labels[1..]);
        assert known + [x] + labels[1..] == known + labels;
      }
    }
  }

  lemma {:induction false} LoadLabelsFailure(known: seq<string>, labels: seq<string>)
    ensures LoadLabels(known, labels).1.Failure? ==>
              exists k :: 0 <= k < |labels| && labels[k] in known + labels[..k]
                          && LoadLabels(known, labels).0 == known + labels[..k]
                          && LoadLabels(known, labels).1.error
                             == ParametersError("ERROR: Parameter " + labels[k] + " defined twice.")
    decreases |labels|
  {
    if labels != [] {
      var x := labels[0];
      if x in known {
        assert labels[..0] == [];
        assert known + labels[..0] == known;
      } else {
        LoadLabelsFailure(known + [x], labels[1..]);
        var r := LoadLabels(known + [x], labels[1..]);
        if r.1.Failure? {
          var k :| 0 <= k < |labels[1..]| && labels[1..][k] in known + [x] + labels[1..][..k]
                   && r.0 == known + [x] + labels[1..][..k]
                   && r.1.error == ParametersError("ERROR: Parameter " + labels[1..][k] + " defined twice.");
          assert labels[..k + 1] == [x] + labels[1..][..k];
          assert known + [x] + labels[1..][..k] == known + labels[..k + 1];
          assert labels[k + 1] == labels[1..][k];
        }
      }
    }
  }

  /** Reading the same non-empty file a second time fails on its first label:
      a second behaviour cannot be built while the list still holds the labels
      of the first. */
  lemma SecondLoadFails(known: seq<string>, labels: seq<string>)
    requires NoDup(known) && |labels| > 0
    requires LoadLabels(known, labels).1 == Success
    ensures var again := LoadLabels(LoadLabels(known, labels).0, labels);
            again.0 == known + labels
            && again.1 == Failure(ParametersError("ERROR: Parameter " + labels[0] + " defined twice."))
  {
    LoadLabelsSpec(known, labels);
    assert (known + labels)[|known|] == labels[0];
  }

  /** `PYGA_GenAlgBehavior.ALL_PARAMS`, shared by every behaviour. */
  class Registry {
    var allParams: seq<string>

    ghost predicate Valid()
      reads this
    {
      NoDup(allParams)
    }

    constructor ()
      ensures Valid() && allParams == []
    {
      allParams := [];
    }

    /** `clearAllParams` */
    method ClearAllParams()
      modifies this
      ensures Valid() && allParams == []
    {
      allParams := [];
    }

    /** `addParamFile`, given the labels of the file's `Parameter` entries in
        order; the setting of the class attributes the file describes is not
        part of this model.  A repetition raises once the earlier labels are
        recorded. */
    method AddParamFile(labels: seq<string>) returns (status: Status)
      requires Valid()
      modifies this
      ensures Valid()
      ensures (allParams, status) == LoadLabels(old(allParams), labels)
    {
      LoadLabelsSpec(allParams, labels);
      ghost var goal := LoadLabels(allParams, labels);
      var i := 0;
      while i < |labels|
        invariant 0 <= i <= |labels|
        invariant NoDup(allParams)
        invariant LoadLabels(allParams, labels[i..]) == goal
      {
        assert labels[i..][0] == labels[i];
        if labels[i] in allParams {
          return Failure(ParametersError("ERROR: Parameter " + labels[i] + " defined twice."));
        }
        NoDupSnoc(allParams, labels[i]);
        assert labels[i..][1..] == labels[i + 1..];
        allParams := allParams + [labels[i]];
        i := i + 1;
      }
      status := Success;
    }
  }

  // ----- a behaviour and its parameter manager -----

  /** The class attributes a parameter file defines for one label:
      `<LABEL>_CATEGORY`, `_KEYWORDS`, `_DESCRIPTION`, `_CHECK_METHOD`,
      `_DEFAULT_VALUE`, the optional `_CHANGE_METHOD`, and the optional pair
      `_NONE_VALUE`/`_NONE_DESCRIPTION` (both are dropped when either is missing). */
  datatype Decl = Decl(
    category: string,
    keywords: seq<string>,
    description: string,
    check: Value -> Option<Error>,
    defaultValue: Value,
    change: Option<string>,
    none: Option<(Value, string)>)

  /** The operations a derived behaviour must define. */
  datatype Operation =
    | InitPopulation
    | StopCriteria
    | StartOfGeneration
    | EndOfGeneration
    | Selection
    | Reproduction
    | SelfOptimize
    | Optimise

  function OperationName(op: Operation): string {
    match op
    case InitPopulation => "initPopulation"
    case StopCriteria => "stopCriteria"
    case StartOfGeneration => "startOfGeneration"
    case EndOfGeneration => "endOfGeneration"
    case Selection => "selection"
    case Reproduction => "reproduction"
    case SelfOptimize => "selfOptimize"
    case Optimise => "optimise"
  }

  /** What the base class does for each of them: raise, naming the operation. */
  function BaseOperation(op: Operation): (e: Error)
    ensures e.MethodMustBeOverloaded?
    ensures Message(e) == "ERROR: This method (GenAlgBehavior." + OperationName(op) + ") must be defined in derived class."
  {
    BaseOperationError("GenAlgBehavior", OperationName(op))
  }

  /** The error of a base operation tells which operation was called. */
  lemma BaseOperationNamesIt(a: Operation, b: Operation)
    ensures Message(BaseOperation(a)) == Message(BaseOperation(b)) <==> a == b
  {
    BaseOperationErrorNamesIt("GenAlgBehavior", OperationName(a), OperationName(b));
    OperationNameInjective(a, b);
  }

  /** Two operations have the same name only when they are the same. */
  lemma OperationNameInjective(a: Operation, b: Operation)
    ensures OperationName(a) == OperationName(b) ==> a == b
  {
  }

  /** The value `getParam` hands out: upper-cased when the behaviour class
      lists possible methods for the parameter; `upper` of a non-string
      raises AttributeError. */
  function Cased(upperLabels: set<string>, pname: string, v: Value): (r: Result<Value>)
  {
    if Upper(pname) !in upperLabels then Ok(v)
    else if v.VStr? then Ok(VStr(Upper(v.s)))
    else Err(AttributeError("upper"))
  }

  class Behavior {
    const manager: Manager
    /** The labels `L`, upper-cased, for which the class has `POSSIBLE_L_METHODS`. */
    const possibleMethods: set<string>

    constructor (manager: Manager, possibleMethods: set<string>)
      ensures this.manager == manager && this.possibleMethods == possibleMethods
    {
      this.manager := manager;
      this.possibleMethods := possibleMethods;
    }

    /** `getParamFromKeyword`, delegated to the manager. */
    method GetParamFromKeyword(keyword: string, cats: seq<string>, order: map<string, seq<string>>)
      returns (found: Option<string>)
      requires manager.Valid() && manager.HashOrder(cats, order)
      ensures found == LastMatch(manager.params, manager.Entries(cats, order), Upper(keyword))
    {
      found := manager.GetParamFromKeyword(keyword, cats, order);
    }

    /** `getParam`: the manager's value, upper-cased for parameters that
        select a method by name. */
    function GetParam(pname: string): (r: Result<Value>)
      reads this, manager
      requires manager.Valid()
      ensures pname !in manager.ids ==> r == manager.GetParam(pname)
      ensures Upper(pname) !in possibleMethods ==> r == manager.GetParam(pname)
      ensures r.Ok? ==> pname in manager.ids
      ensures r.Ok? && Upper(pname) in possibleMethods ==> r.value.VStr? && IsUpper(r.value.s)
    {
      match manager.GetParam(pname)
      case Err(e) => Err(e)
      case Ok(v) =>
        var r := Cased(possibleMethods, pname, v);
        if r.Ok? && r.value.VStr? && Upper(pname) in possibleMethods then
          UpperIdempotent(r.value.s);
          UpperIdempotent(v.s);
          r
        else r
    }

    /** `setParameters`, delegated to the manager. */
    method SetParameters(kwargs: seq<(string, Value)>) returns (status: Status, notified: seq<(string, Value)>)
      requires manager.Valid()
      modifies manager`params
      ensures manager.Valid()
      ensures var r := ApplySettings(old(manager.params), manager.categoryOf, manager.keywordMap, manager.ids, kwargs);
              manager.params == r.params && notified == r.notified && status == r.status
    {
      status, notified := manager.SetParameters(kwargs);
    }

    /** `getParameters`, delegated to the manager. */
    method GetParameters(cats: seq<string>, order: map<string, seq<string>>) returns (all: map<string, Value>)
      requires manager.Valid() && manager.HashOrder(cats, order)
      ensures all == Collect(manager.params, manager.Entries(cats, order))
    {
      all := manager.GetAllParameters(cats, order);
    }

    /** `createPopulation`: a new, empty population of the configured class;
        `multiObj` is MULTI_OBJ of the configured individual class. */
    method CreatePopulation<T(==)>(multiObj: bool) returns (p: Populations.Population<T>)
      ensures fresh(p) && p.Valid()
      ensures p.individuals == [] && p.uncaught == [] && p.multiObj == multiObj
    {
      p := new Populations.Population(multiObj);
    }
  }

  /** `__addParam` for every label of `labels`, in order, into `m`; a label
      whose attributes are missing raises AttributeError for
      `<LABEL>_CATEGORY`, the first one looked up. */
  method AddAll(m: Manager, labels: seq<string>, decls: map<string, Decl>) returns (status: Status)
    requires m.Valid() && NoDup(labels) && m.ids == []
    modifies m
    ensures m.Valid()
    ensures status == Success <==> forall l :: l in labels ==> l in decls
    ensures status.Failure? ==> exists l :: l in labels && l !in decls && status.error == AttributeError(Upper(l) + "_CATEGORY")
    ensures status == Success ==> m.ids == labels
    ensures status == Success ==>
              forall l :: l in labels ==> m.GetParam(l) == Ok(decls[l].defaultValue)
  {
    var i := 0;
    while i < |labels|
      invariant 0 <= i <= |labels|
      invariant m.Valid()
      invariant m.ids == labels[..i]
      invariant forall l :: l in labels[..i] ==> l in decls
      invariant forall l :: l in labels[..i] ==> m.GetParam(l) == Ok(decls[l].defaultValue)
    {
      var l := labels[i];
      if l !in decls {
        return Failure(AttributeError(Upper(l) + "_CATEGORY"));
      }
      assert l !in m.ids by {
        assert forall a, b :: 0 <= a < b < |labels| ==> labels[a] != labels[b];
      }
      TakeSnoc(labels, i);
      AddLabel(m, l, decls[l]);
      i := i + 1;
    }
    assert labels[..i] == labels;
    status := Success;
  }

  /** `__addParam` for one new label: its default becomes its value and
      the values already registered stay. */
  method AddLabel(m: Manager, l: string, d: Decl)
    requires m.Valid() && l !in m.ids
    modifies m
    ensures m.Valid() && m.ids == old(m.ids) + [l]
    ensures m.GetParam(l) == Ok(d.defaultValue)
    ensures forall n :: n in old(m.ids) ==> m.GetParam(n) == old(m.GetParam(n))
  {
    var noneValue, noneDescription := VNone, None;
    if d.none.Some? {
      noneValue, noneDescription := d.none.value.0, Some(d.none.value.1);
    }
    m.AddParam(d.category, l, d.keywords, d.description, d.check, d.defaultValue, d.change,
               noneValue, noneDescription);
  }

  /** The constructor: read the base parameter file into the shared list,
      then build a manager holding every label the list knows. */
  method NewBehavior(registry: Registry, baseLabels: seq<string>, decls: map<string, Decl>,
                     possibleMethods: set<string>) returns (status: Status, b: Behavior?)
    requires registry.Valid()
    modifies registry
    ensures registry.Valid()
    ensures registry.allParams == LoadLabels(old(registry.allParams), baseLabels).0
    ensures LoadLabels(old(registry.allParams), baseLabels).1.Failure? ==>
              status == LoadLabels(old(registry.allParams), baseLabels).1
    ensures status == Success <==>
              LoadLabels(old(registry.allParams), baseLabels).1 == Success
              && forall l :: l in registry.allParams ==> l in decls
    ensures status == Success ==>
              b != null && fresh(b.manager) && b.manager.Valid() && b.possibleMethods == possibleMethods
              && b.manager.ids == registry.allParams
              && forall l :: l in registry.allParams ==> b.manager.GetParam(l) == Ok(decls[l].defaultValue)
  {
    status := registry.AddParamFile(baseLabels);
    if status.Failure? {
      return status, null;
    }
    var m := new Manager();
    status := AddAll(m, registry.allParams, decls);
    if status.Failure? {
      return status, null;
    }
    b := new Behavior(m, possibleMethods);
  }
}
