# PyGenAlg evolution engine in Dafny

A model of the evolution engine of PyGenAlg, a genetic-algorithm framework written in Python 2. The model covers:

- the parameter registry (`PYPM_ParamManager`);
- the base behaviour and its parameter accessors (`PYGA_GenAlgBehavior`);
- the individual contract, with its multi-objective and NSGA-II state (`PYGA_Individual` and its standard subclasses);
- Pareto dominance, NSGA-II non-dominated ranking and crowding distance;
- the population and its services: the list of individuals and of uncaught parents, duplication percentage, the best individuals, clustering by influence distance, and objective computation;
- the standard behaviour (`PYGA_StandardGenAlgBehavior`):
  - the stop rule and the split of the population between selection, crossover and mutation;
  - the crossover, mutation and reproduction drivers with duplicate avoidance;
  - the best and ranking selections;
  - linear scaling and basic sharing;
  - the self-optimisation of the crossover rate, the mutation rate and the influence distance;
  - the method tables;
- the generational driver (`PYGA_GenAlg`);
- the standard vector individual for NSGA-II;
- the individuals of the example programs: object placement on a grid, the sphere benchmark, and the two-gene examples.

One Dafny module models one source file. Where the source updates objects in place, the model does too: `Populations.Population`, `Individuals.Individual`, `ParamManager.Manager`, `GenAlgDriver.GenAlg` and the example individuals are classes whose methods name what they modify. Loops become `while` loops proved against specification functions. The code that only computes becomes functions and lemmas.

Modelling conventions:

- **Python 2 semantics.**
  - Integer `/` and `//` are floor division (`PyMath.FloorDiv`).
  - `int(x)` truncates toward zero (`PyMath.Trunc`).
  - `round` rounds halves away from zero (`PyMath.RoundHalfAway`).
  - `None` orders below every number, so a missing fitness is never better than a present one (`SelfOptimize.Lt`, `Individuals.NoneFirstLess`).
  - Dictionaries are iterated in hash order, which the language leaves unspecified. Operations that visit a dictionary take the visiting order as a parameter (`ParamManager.Manager.HashOrder`). The order in which keys were first set is proved to be one such order (`ParamManager.Manager.InsertionOrder`).
- **Errors.** Raised exceptions are returned as values of `Result`, `Status` or an outcome datatype. Each exception class of `PYGA_Exceptions` and each Python built-in exception the code can raise is a constructor of `Errors.Error`.
- **Callbacks.** The individual class's operations are function parameters: `isBetter`, `isDuplication`, `distance`, `dominate`, `fitness` and `objectives`. So is the behaviour's `createPopulation`.
- **Randomness and time.** `random` draws and the clock are parameters: oracle sequences of the values drawn. When an oracle runs out, the outcome is `OutOfDraws`. Where the source recurses for ever, the outcome is `Diverges`.
- **Numbers.** Floats are exact reals. Integers are unbounded.

## Model

| member | source | states |
|---|---|---|
| ParamManager.Store | sources/PyParamManager/PYPM_ParamManager.py:110 | storing a value changes that one parameter's value and nothing else: same categories and names, same checks, same change method |
| ParamManager.ApplySettings | sources/PyParamManager/PYPM_ParamManager.py:90-113 | the keyword arguments are handled in order; the set of categories and names never changes |
| ParamManager.ApplyUnknown | sources/PyParamManager/PYPM_ParamManager.py:94-98 | an upper-cased key that is no keyword raises the "Unkown parameter" exception listing every parameter id, and nothing is stored or notified |
| ParamManager.ApplyRejected | sources/PyParamManager/PYPM_ParamManager.py:104-108 | a check that raises stops the loop with that error, before the value is stored |
| ParamManager.ApplyAccepted | sources/PyParamManager/PYPM_ParamManager.py:104-113 | an accepted value is stored, then the change method (if any) is notified with it, then the remaining arguments are handled |
| ParamManager.RunSettings | sources/PyParamManager/PYPM_ParamManager.py:92-113 | the loop of setParameters computes exactly the outcome of ApplySettings |
| ParamManager.SameChecksTrans | sources/PyParamManager/PYPM_ParamManager.py:110 | storing values twice still keeps every check |
| ParamManager.AllAcceptedCons | sources/PyParamManager/PYPM_ParamManager.py:92-108 | all arguments are accepted iff the first one is and the rest are |
| ParamManager.AllAcceptedSameChecks | sources/PyParamManager/PYPM_ParamManager.py:108-110 | whether a value is accepted does not depend on the values already stored |
| ParamManager.ApplySettingsSuccess | sources/PyParamManager/PYPM_ParamManager.py:92-113 | setParameters succeeds iff every key is a keyword and every check accepts its value; no check is ever replaced |
| ParamManager.RejectedValueNotStored | sources/PyParamManager/PYPM_ParamManager.py:105-110 | a key whose check raises leaves every record as it was and fails |
| ParamManager.SetThenGet | sources/PyParamManager/PYPM_ParamManager.py:104-113 | after one accepted setting the parameter holds the new value and the change method, and only it, is notified |
| ParamManager.EntriesOf | sources/PyParamManager/PYPM_ParamManager.py:117-118 | the visited (category, name) pairs all come from the listed categories and their names |
| ParamManager.LastMatchSpec | sources/PyParamManager/PYPM_ParamManager.py:115-121 | the search finds None iff no visited record has the keyword, and otherwise the last visited record that has it |
| ParamManager.Collect | sources/PyParamManager/PYPM_ParamManager.py:123-128 | the built map has exactly the visited names as keys |
| ParamManager.CollectUnique | sources/PyParamManager/PYPM_ParamManager.py:123-128 | a name that every visited record carrying it holds under one category maps to that category's record's value |
| ParamManager.PrintInfoLines | sources/PyParamManager/PYPM_ParamManager.py:158-172 | the printout of a dictionary holding no None has one line per entry at every depth |
| ParamManager.PrintEntryLines | sources/PyParamManager/PYPM_ParamManager.py:160-171 | a dictionary entry gives a heading line plus its own lines one tab deeper; a list or string entry gives one line |
| ParamManager.SettingLine | sources/PyParamManager/PYPM_ParamManager.py:168-169 | a `[description, value]` entry is printed as exactly one "- description = value" line |
| ParamManager.HeadingLine | sources/PyParamManager/PYPM_ParamManager.py:162-165 | a dictionary entry's heading "item information:" (with "- " below depth 0) is exactly one line |
| ParamManager.FindKeywordIn | sources/PyParamManager/PYPM_ParamManager.py:118-120 | the inner loop ends with the last match among the records visited so far |
| ParamManager.FindKeyword | sources/PyParamManager/PYPM_ParamManager.py:116-121 | the nested loops return the LastMatch of the upper-cased keyword over the records in the visiting order given |
| ParamManager.CollectValuesIn | sources/PyParamManager/PYPM_ParamManager.py:126-127 | the inner loop extends the map with the values of one category |
| ParamManager.CollectValues | sources/PyParamManager/PYPM_ParamManager.py:124-128 | the nested loops build exactly Collect over the records in the visiting order given |
| ParamManager.BindKeywords | sources/PyParamManager/PYPM_ParamManager.py:41-42 | every keyword of the list now leads to (category, name); the other bindings are unchanged |
| ParamManager.AddKeepsShaped | sources/PyParamManager/PYPM_ParamManager.py:44-54 | a category is listed once and a name once per category after addParam |
| ParamManager.AddKeepsIndexed | sources/PyParamManager/PYPM_ParamManager.py:39-55 | every id has a category, each id is listed once |
| ParamManager.AddKeepsLinked | sources/PyParamManager/PYPM_ParamManager.py:39-55 | every keyword and every category link still leads to a stored record |
| ParamManager.AddKeepsConsistent | sources/PyParamManager/PYPM_ParamManager.py:39-55 | addParam keeps the whole registry invariant |
| ParamManager.Manager.constructor | sources/PyParamManager/PYPM_ParamManager.py:14-33 | a new manager has no category, record, keyword or id |
| ParamManager.Manager.Entries | sources/PyParamManager/PYPM_ParamManager.py:117-118 | in any visiting order Python 2's hash order may give, the visited pairs are stored records, and every stored record is visited |
| ParamManager.Manager.AddPossibleNoneCategory | sources/PyParamManager/PYPM_ParamManager.py:59-64 | the list of the category is created when missing, and the label is appended even when already present |
| ParamManager.Manager.AddParam | sources/PyParamManager/PYPM_ParamManager.py:35-57 | keywords are bound only when the name is new; the record is always rewritten; the category is the latest one; a non-None noneValue records the name under its category |
| ParamManager.Manager.Register | sources/PyParamManager/PYPM_ParamManager.py:38-55 | steps 1 to 3 of addParam, keeping the registry invariant |
| ParamManager.Manager.GetParam | sources/PyParamManager/PYPM_ParamManager.py:66-76 | an unknown label raises "ERROR: Unknown parameter <label>."; otherwise the stored value is returned |
| ParamManager.Manager.SetParameters | sources/PyParamManager/PYPM_ParamManager.py:90-113 | the new records, the notifications and the outcome are those of ApplySettings, and the invariant is kept |
| ParamManager.Manager.GetParamFromKeyword | sources/PyParamManager/PYPM_ParamManager.py:115-121 | for the visiting order given (any order listing each category and each of its names once), the last parameter whose keywords contain the upper-cased keyword, or None |
| ParamManager.Manager.GetAllParameters | sources/PyParamManager/PYPM_ParamManager.py:123-128 | for the visiting order given, every name maps to its value, the later-visited record winning |
| ParamManager.EntriesOfComplete | sources/PyParamManager/PYPM_ParamManager.py:117-118 | every name listed under a visited category is visited |
| ParamManager.Manager.InsertionOrder | sources/PyParamManager/PYPM_ParamManager.py:44-48 | the order categories and names were added in is one of the visiting orders Python 2 may use |
| ParamManager.Manager.KeywordOfOneRecord | sources/PyParamManager/PYPM_ParamManager.py:115-121 | a keyword that exactly one record carries finds that record's name in every visiting order |
| ParamManager.Manager.NameOfOneCategory | sources/PyParamManager/PYPM_ParamManager.py:123-128 | a name stored under one category only maps to its value in every visiting order |
| ParamManager.Put | sources/PyParamManager/PYPM_ParamManager.py:143 | after `d[k] = n`, `d[k]` is n and every other key is unchanged; a new key goes last |
| ParamManager.PutPut | sources/PyParamManager/PYPM_ParamManager.py:143 | a second assignment to the same key overrides the first |
| ParamManager.PutAt | sources/PyParamManager/PYPM_ParamManager.py:143 | assigning through the key path changes only the dictionary it leads to, which stays a dictionary, and no other top-level key |
| ParamManager.PutAtPutAt | sources/PyParamManager/PYPM_ParamManager.py:139-144 | two none-descriptions written to the same key and path leave only the second |
| ParamManager.PyEqReflexive | sources/PyParamManager/PYPM_ParamManager.py:142 | Python `==` holds between a value and itself |
| ParamManager.BoolIntRealEqual | sources/PyParamManager/PYPM_ParamManager.py:142 | `True == 1 == 1.0` and `'1' != 1` under Python `==` |
| ParamManager.NoneLabelsStuck | sources/PyParamManager/PYPM_ParamManager.py:139-144 | an exception in the none tests ends them with that exception |
| ParamManager.LevelsStuck | sources/PyParamManager/PYPM_ParamManager.py:136-150 | an exception at one level ends the walk down the category with it |
| ParamManager.FillStuck | sources/PyParamManager/PYPM_ParamManager.py:153-154 | an exception while adding the parameters ends the loop with it |
| ParamManager.BuildStuck | sources/PyParamManager/PYPM_ParamManager.py:132-154 | an exception for one category ends the build with it |
| ParamManager.RunNoneLabels | sources/PyParamManager/PYPM_ParamManager.py:139-144 | the none-test loop computes exactly NoneLabels: unknown labels raise the getParam exception, an assignment into a non-dictionary raises TypeError |
| ParamManager.RunFill | sources/PyParamManager/PYPM_ParamManager.py:152-154 | the closing loop computes exactly Fill |
| ParamManager.RunCategory | sources/PyParamManager/PYPM_ParamManager.py:133-154 | one category's pass computes exactly AddCategory: split on dots, none tests per prefix, descent (AttributeError on `.keys()` of a non-dictionary), then its parameters unless replaced |
| ParamManager.RunBuild | sources/PyParamManager/PYPM_ParamManager.py:131-154 | the loop over the categories computes exactly Build |
| ParamManager.LastNone | sources/PyParamManager/PYPM_ParamManager.py:139-144 | the chosen parameter is listed and holds its none value |
| ParamManager.NoneLabelsSpec | sources/PyParamManager/PYPM_ParamManager.py:139-144 | with known parameters and a dictionary at hand, the none tests raise nothing, change nothing when no parameter holds its none value, and otherwise leave `paramDict[cat]` set to the last such parameter's none-description |
| ParamManager.FillSpec | sources/PyParamManager/PYPM_ParamManager.py:152-154 | with a dictionary at hand, every parameter of the category becomes `[description, value]` in it and the other keys, there and at the top, stay as they were |
| ParamManager.NoneCategory | sources/PyParamManager/PYPM_ParamManager.py:136-152 | a dotless category whose possible-None parameter holds its none value becomes, at the top, the last such none-description and none of its parameters is added |
| ParamManager.PlainCategory | sources/PyParamManager/PYPM_ParamManager.py:136-154 | a dotless category with no parameter at its none value becomes a dictionary holding every one of its parameters as `[description, value]`; the other top-level keys stay |
| ParamManager.DeeperNoneStaysUp | sources/PyParamManager/PYPM_ParamManager.py:136-150 | once a prefix `x` is replaced, the description of `x.y` is written under `y` in the same (top) dictionary, not inside `x` |
| ParamManager.NoneTextUnprintable | sources/PyParamManager/PYPM_ParamManager.py:168-171 | a None none-description in the dictionary makes it unprintable (`'- ' + None` raises TypeError) |
| ParamManager.Manager.GetPrintInformation | sources/PyParamManager/PYPM_ParamManager.py:130-156 | the loops compute PrintInformation: the build's exception, TypeError for a None description, or the printout of the built dictionary |
| ParamManager.RunLevel | sources/PyParamManager/PYPM_ParamManager.py:137-150 | one pass over a part of the category computes exactly Level: the none tests of the prefix, then the step into `paramDict[cat]`, created when missing, or AttributeError when `paramDict` is not a dictionary |
| ParamManager.FillStep | sources/PyParamManager/PYPM_ParamManager.py:152-154 | one more parameter written keeps every earlier one at `[description, value]` and every other key as it was |
| GenAlgBehavior.LoadLabelsSpec | sources/PyGenAlg/core/PYGA_GenAlgBehavior.py:114-117 | loading labels succeeds iff the known list and the new labels together repeat nothing, and then appends them all; on failure the first repeated label is named in a ParametersError and the labels before it stay recorded |
| GenAlgBehavior.LoadLabelsSuccess | sources/PyGenAlg/core/PYGA_GenAlgBehavior.py:114-115 | the success half of LoadLabelsSpec, by induction over the labels |
| GenAlgBehavior.LoadLabelsFailure | sources/PyGenAlg/core/PYGA_GenAlgBehavior.py:116-117 | the failure half of LoadLabelsSpec, by induction over the labels |
| GenAlgBehavior.SecondLoadFails | sources/PyGenAlg/core/PYGA_GenAlgBehavior.py:114-117 | reading the same parameter file twice raises "defined twice" for its first label |
| GenAlgBehavior.Registry.constructor | sources/PyGenAlg/core/PYGA_GenAlgBehavior.py:80 | ALL_PARAMS starts empty |
| GenAlgBehavior.Registry.ClearAllParams | sources/PyGenAlg/core/PYGA_GenAlgBehavior.py:84-87 | clearAllParams empties the shared list |
| GenAlgBehavior.Registry.AddParamFile | sources/PyGenAlg/core/PYGA_GenAlgBehavior.py:99-117 | the shared list and the outcome are those of LoadLabels, and the list keeps no duplicate |
| GenAlgBehavior.BaseOperation | sources/PyGenAlg/core/PYGA_GenAlgBehavior.py:176-297 | every base operation raises MethodMustBeOverloaded whose message names "GenAlgBehavior.<operation>" |
| GenAlgBehavior.BaseOperationNamesIt | sources/PyGenAlg/core/PYGA_GenAlgBehavior.py:187-297 | two base operations give the same message iff they are the same operation |
| GenAlgBehavior.Behavior.constructor | sources/PyGenAlg/core/PYGA_GenAlgBehavior.py:131 | the behaviour keeps its manager and its POSSIBLE_<LABEL>_METHODS set |
| GenAlgBehavior.Behavior.GetParamFromKeyword | sources/PyGenAlg/core/PYGA_GenAlgBehavior.py:299-301 | the manager's answer for the visiting order given: the last parameter whose keywords hold the upper-cased keyword |
| GenAlgBehavior.Behavior.GetParam | sources/PyGenAlg/core/PYGA_GenAlgBehavior.py:303-310 | an unknown label raises as the manager does; a label without POSSIBLE_<LABEL>_METHODS gives the stored value unchanged; otherwise the value comes back in upper case |
| GenAlgBehavior.Behavior.SetParameters | sources/PyGenAlg/core/PYGA_GenAlgBehavior.py:312-317 | delegates to the manager: records, notifications and outcome are those of ApplySettings |
| GenAlgBehavior.Behavior.GetParameters | sources/PyGenAlg/core/PYGA_GenAlgBehavior.py:319-321 | the manager's getAllParameters for the visiting order given |
| GenAlgBehavior.Behavior.CreatePopulation | sources/PyGenAlg/core/PYGA_GenAlgBehavior.py:172-174 | a fresh population with no member and no uncaught member |
| GenAlgBehavior.AddAll | sources/PyGenAlg/core/PYGA_GenAlgBehavior.py:136-148 | adding every label succeeds iff each has its declaration, and then every label is registered with its default value; otherwise AttributeError names `<LABEL>_CATEGORY` of a label without one |
| GenAlgBehavior.AddLabel | sources/PyGenAlg/core/PYGA_GenAlgBehavior.py:139-166 | `__addParam` registers one new label with its default value and leaves the other values alone |
| GenAlgBehavior.NewBehavior | sources/PyGenAlg/core/PYGA_GenAlgBehavior.py:119-137 | the constructor first loads the base parameter file into ALL_PARAMS, raising its error if any; it succeeds iff that load does and every known label is declared, and then the manager holds exactly ALL_PARAMS with default values |
| Individuals.ExtLessOrder | sources/PyGenAlg/standards/PYGA_StandardMultiObjIndividual_NSGAII.py:146-147 | `<` on floats extended with ±inf is a strict order with -inf below and +inf above every other value |
| Individuals.Individual.constructor | sources/PyGenAlg/core/PYGA_Individual.py:88-92 | a new individual has no fitness and no optimised fitness, is born in CURRENT_GENERATION, and needs computing |
| Individuals.Individual.MultiObj | sources/PyGenAlg/standards/PYGA_StandardMultiObjIndividual.py:35-45 | a new multi-objective individual has no objectives, no front and no crowding distance, and needs computing |
| Individuals.Individual.ComputeObjectives | sources/PyGenAlg/core/PYGA_Individual.py:214-225 | returns whether computation was needed; if so a single-objective individual stores the result as both fitness and optimised fitness and a multi-objective one stores its objectives; otherwise nothing changes; afterwards nothing needs computing |
| Individuals.Individual.SetOptimizedFitness | sources/PyGenAlg/core/PYGA_Individual.py:232-242 | getFitness returns the new value; the fitness and needCompute are unchanged |
| Individuals.Individual.SetObj | sources/PyGenAlg/standards/PYGA_StandardMultiObjIndividual.py:50-56 | getObj returns what setObj stored; a multi-objective individual needs computing iff its objectives are None |
| Individuals.NewMultiObj | sources/PyGenAlg/standards/PYGA_StandardMultiObjIndividual.py:35-45 | construction succeeds iff the class defines NB_OBJECTIVES and OBJ_TYPES; the first missing one is named in the exception |
| Individuals.GetParam | sources/PyGenAlg/core/PYGA_Individual.py:73-86 | a keyword that names no parameter raises "Unknown parameter <keyword>"; otherwise the behaviour's value of the parameter found in the visiting order given |
| Individuals.DefaultsAgree | sources/PyGenAlg/core/PYGA_Individual.py:260-304 | the default isDuplication is identity; canBeCrossed is its negation; canBeMuted holds for an individual and not for None; the distance is None and the search-space info is (None, None) |
| Individuals.BaseOperation | sources/PyGenAlg/core/PYGA_Individual.py:95-314 | every operation a derived individual must define raises MethodMustBeOverloaded naming "Individual.<operation>" |
| Individuals.BaseOperationNamesIt | sources/PyGenAlg/core/PYGA_Individual.py:105-314 | two base operations give the same message iff they are the same operation |
| MultiObj.Dominate | sources/PyGenAlg/standards/PYGA_StandardMultiObjIndividual.py:80-93 | with at least one objective, an objective vector that is None raises TypeError and one shorter than NB_OBJECTIVES, or too short an OBJ_TYPES, raises IndexError, whichever the loop reads first; otherwise the loop with the `better` and `equal` flags returns true iff the first vector is no worse on every objective ("max" larger, otherwise smaller) and differs on at least one; with no objective it returns false |
| MultiObj.DominatesIrreflexive | sources/PyGenAlg/standards/PYGA_StandardMultiObjIndividual.py:80-93 | no vector dominates itself |
| MultiObj.DominatesAsymmetric | sources/PyGenAlg/standards/PYGA_StandardMultiObjIndividual.py:80-93 | two vectors never dominate each other |
| MultiObj.DominatesTransitive | sources/PyGenAlg/standards/PYGA_StandardMultiObjIndividual.py:80-93 | dominance is transitive |
| MultiObj.DominatesByValue | sources/PyGenAlg/standards/PYGA_StandardMultiObjIndividual.py:84-92 | dominance looks only at the first NB_OBJECTIVES values: vectors equal there are dominated alike and do not dominate each other |
| MultiObj.RangeCount | sources/PyGenAlg/standards/PYGA_StandardMultiObjIndividual.py:75 | the positions of a list of n members are each listed once |
| MultiObj.RangePermutation | sources/PyGenAlg/standards/PYGA_StandardMultiObjIndividual.py:75 | a permutation of the positions lists each of them exactly once and nothing else |
| MultiObj.InsertByKeyCount | sources/PyGenAlg/standards/PYGA_StandardMultiObjIndividual.py:75 | an insertion step adds the new position and loses nothing |
| MultiObj.SortUpToCount | sources/PyGenAlg/standards/PYGA_StandardMultiObjIndividual.py:75 | sorting the first m positions permutes them |
| MultiObj.InsertSorted | sources/PyGenAlg/standards/PYGA_StandardMultiObjIndividual.py:75 | an insertion step keeps the order ascending on the key |
| MultiObj.InsertStable | sources/PyGenAlg/standards/PYGA_StandardMultiObjIndividual.py:75 | an insertion step keeps positions with equal keys in population order |
| MultiObj.SortUpToSpec | sources/PyGenAlg/standards/PYGA_StandardMultiObjIndividual.py:75 | the insertion sort of the first m positions is ascending and stable |
| MultiObj.SortUpToBelow | sources/PyGenAlg/standards/PYGA_StandardMultiObjIndividual.py:75 | sorting the first m positions lists only positions below m |
| MultiObj.SortPopSpec | sources/PyGenAlg/standards/PYGA_StandardMultiObjIndividual.py:74-75 | sortPop returns every member exactly once, ascending on objective `obj`, with equal keys in population order |
| Nsgaii.DomTransitive | sources/PyGenAlg/standards/PYGA_StandardMultiObjIndividual.py:80-93 | dominance between members is transitive |
| Nsgaii.UndominatedMember | sources/PyGenAlg/standards/PYGA_StandardMultiObjIndividual_NSGAII.py:111-132 | a member stays in the front iff it is in the input and nobody compared with it dominates it |
| Nsgaii.UndominatedByNone | sources/PyGenAlg/standards/PYGA_StandardMultiObjIndividual_NSGAII.py:114 | before any comparison the front is the whole input |
| Nsgaii.KeepAppend | sources/PyGenAlg/standards/PYGA_StandardMultiObjIndividual_NSGAII.py:119-131 | removing the members one member dominates works piece by piece |
| Nsgaii.KeepUndominated | sources/PyGenAlg/standards/PYGA_StandardMultiObjIndividual_NSGAII.py:116-131 | comparing with one more member removes exactly the members it dominates |
| Nsgaii.DropDominated | sources/PyGenAlg/standards/PYGA_StandardMultiObjIndividual_NSGAII.py:118-131 | the inner loop keeps, in order, the front members the current member does not dominate, and appends the others to `ruled`, losing nothing |
| Nsgaii.ParetoFront | sources/PyGenAlg/standards/PYGA_StandardMultiObjIndividual_NSGAII.py:111-132 | the front is exactly the members nobody in the input dominates, in input order; front and ruled together are the input; each ruled member is dominated by an input member |
| Nsgaii.UndominatedBounded | sources/PyGenAlg/standards/PYGA_StandardMultiObjIndividual_NSGAII.py:111-132 | the front holds only positions of the input |
| Nsgaii.MaximalExists | sources/PyGenAlg/standards/PYGA_StandardMultiObjIndividual_NSGAII.py:111-132 | following dominators from a member ends at a member nobody dominates |
| Nsgaii.DominatorsShrink | sources/PyGenAlg/standards/PYGA_StandardMultiObjIndividual_NSGAII.py:111-132 | a dominator of a member has fewer dominators than the member |
| Nsgaii.DominatorInFront | sources/PyGenAlg/standards/PYGA_StandardMultiObjIndividual_NSGAII.py:111-132 | a dominated member is dominated by a member of the front |
| Nsgaii.FrontNonEmpty | sources/PyGenAlg/standards/PYGA_StandardMultiObjIndividual_NSGAII.py:99-102 | the front of a non-empty input is non-empty, so every round of NSGAII_fitness removes a member and the loop ends |
| Nsgaii.RankStepEarlier | sources/PyGenAlg/standards/PYGA_StandardMultiObjIndividual_NSGAII.py:99-108 | each member of a new front is dominated by a member of the front before it |
| Nsgaii.RankStepRest | sources/PyGenAlg/standards/PYGA_StandardMultiObjIndividual_NSGAII.py:99-108 | no member left for later rounds dominates a member of the fronts so far |
| Nsgaii.RankStepOrdered | sources/PyGenAlg/standards/PYGA_StandardMultiObjIndividual_NSGAII.py:99-108 | no member of a front is dominated by a member of the same or a later front |
| Nsgaii.RankStepLater | sources/PyGenAlg/standards/PYGA_StandardMultiObjIndividual_NSGAII.py:99-108 | each member left over is dominated by a member of the newest front |
| Nsgaii.RankStep | sources/PyGenAlg/standards/PYGA_StandardMultiObjIndividual_NSGAII.py:99-108 | one round of NSGAII_fitness keeps the ranking invariant |
| Nsgaii.Fronts | sources/PyGenAlg/standards/PYGA_StandardMultiObjIndividual_NSGAII.py:91-108 | the loop over `ruled` ends with non-empty fronts that partition the population, numbered from 0; the first front is the undominated members; the fronts are in NSGA-II order |
| Nsgaii.FrontsStep | sources/PyGenAlg/standards/PYGA_StandardMultiObjIndividual_NSGAII.py:99-108 | one round keeps the loop invariant of NSGAII_fitness |
| Nsgaii.BookStep | sources/PyGenAlg/standards/PYGA_StandardMultiObjIndividual_NSGAII.py:101-102 | every position is in a front or still in `ruled`, once |
| Nsgaii.PartitionFromMultiset | sources/PyGenAlg/standards/PYGA_StandardMultiObjIndividual_NSGAII.py:99-108 | fronts whose members are each position once form a partition |
| Nsgaii.DominatedFromEarlier | sources/PyGenAlg/standards/PYGA_StandardMultiObjIndividual_NSGAII.py:99-108 | a member of a later front is dominated by a member of every earlier front |
| Nsgaii.SameObjectivesSameFront | sources/PyGenAlg/standards/PYGA_StandardMultiObjIndividual_NSGAII.py:99-108 | members with the same objective values get the same front index |
| Nsgaii.Column | sources/PyGenAlg/standards/PYGA_StandardMultiObjIndividual_NSGAII.py:144 | the key of each member is its objective `obj` |
| Nsgaii.CrowdingStep | sources/PyGenAlg/standards/PYGA_StandardMultiObjIndividual_NSGAII.py:143-159 | one objective: the last in sorted order gets -inf, with two or more members the first gets +inf, and the interior members gain (next - previous) / (max - min) unless max == min |
| Nsgaii.SpreadOver | sources/PyGenAlg/standards/PYGA_StandardMultiObjIndividual_NSGAII.py:146-159 | the same, once the sorted order is known |
| Nsgaii.SetEnds | sources/PyGenAlg/standards/PYGA_StandardMultiObjIndividual_NSGAII.py:146-147 | the minimum gets +inf, then the maximum -inf (so a single member ends at -inf); the interior is unchanged |
| Nsgaii.AddGains | sources/PyGenAlg/standards/PYGA_StandardMultiObjIndividual_NSGAII.py:152-159 | each interior member gains its Gain; the two ends keep their values |
| Nsgaii.PositionsDistinct | sources/PyGenAlg/standards/PYGA_StandardMultiObjIndividual_NSGAII.py:144 | two places of the sorted order hold different members |
| Nsgaii.StepNonNegative | sources/PyGenAlg/standards/PYGA_StandardMultiObjIndividual_NSGAII.py:149-157 | one objective keeps every distance an infinity or a finite value >= 0 |
| Nsgaii.CrowdingDistances | sources/PyGenAlg/standards/PYGA_StandardMultiObjIndividual_NSGAII.py:135-159 | the result is the last state of a trace that starts with every distance at 0 and applies, objective by objective, the full step (min +inf, max -inf overwriting earlier values, interior members gaining (next - previous) / (max - min), skipped when max == min); every distance stays an infinity or >= 0 |
| Nsgaii.NextObjective | sources/PyGenAlg/standards/PYGA_StandardMultiObjIndividual_NSGAII.py:142-159 | the distances after objective `obj` are the full step (endpoints and interior gains) applied to those left by the earlier objectives |
| Nsgaii.Zeros | sources/PyGenAlg/standards/PYGA_StandardMultiObjIndividual_NSGAII.py:139-140 | every distance is reset to 0.0 |
| Nsgaii.ObjectiveStep | sources/PyGenAlg/standards/PYGA_StandardMultiObjIndividual_NSGAII.py:143-159 | one objective sets the endpoints, adds each interior member's gain to its earlier distance, and keeps every distance non-negative |
| Nsgaii.ObjectivesOf | sources/PyGenAlg/standards/PYGA_StandardMultiObjIndividual.py:50-51 | the objective vectors of the individuals, in order |
| Nsgaii.FrontMembers | sources/PyGenAlg/standards/PYGA_StandardMultiObjIndividual_NSGAII.py:104-106 | the individuals at the positions of a front |
| Nsgaii.NsgaiiFitness | sources/PyGenAlg/standards/PYGA_StandardMultiObjIndividual_NSGAII.py:52-108 | every individual gets the index of its front and the members of its front; the fronts partition the population, are non-empty and in NSGA-II order, and front 0 holds the undominated members |
| Nsgaii.WrittenAll | sources/PyGenAlg/standards/PYGA_StandardMultiObjIndividual_NSGAII.py:104-106 | once every front is written, each member knows its front index and its front |
| Nsgaii.WriteFront | sources/PyGenAlg/standards/PYGA_StandardMultiObjIndividual_NSGAII.py:104-106 | the inner loop writes front k to its members and keeps the earlier fronts |
| Nsgaii.FrontsApartHold | sources/PyGenAlg/standards/PYGA_StandardMultiObjIndividual_NSGAII.py:104-106 | an individual held at two positions is in one front, so the writes agree |
| Nsgaii.FirstFrontIndex | sources/PyGenAlg/standards/PYGA_StandardMultiObjIndividual_NSGAII.py:106 | an individual has front index 0 iff its position is in the first front |
| Nsgaii.FrontOf | sources/PyGenAlg/standards/PYGA_StandardMultiObjIndividual_NSGAII.py:99-106 | each position of a partition has a front |
| Nsgaii.ComputeCrowding | sources/PyGenAlg/standards/PYGA_StandardMultiObjIndividual_NSGAII.py:135-159 | on distinct individuals, each stores the distance at its position of the trace's last state, the trace running over the front's objective vectors |
| Nsgaii.StoreCrowding | sources/PyGenAlg/standards/PYGA_StandardMultiObjIndividual_NSGAII.py:140-157 | each individual stores the distance of its position |
| Nsgaii.FrontLessTotal | sources/PyGenAlg/standards/PYGA_StandardMultiObjIndividual_NSGAII.py:61-64 | neither front index is below the other iff they are equal (None included) |
| Nsgaii.BetterStrictOrder | sources/PyGenAlg/standards/PYGA_StandardMultiObjIndividual_NSGAII.py:59-71 | the order isBetter decides (lower front index, then smaller crowding distance) is irreflexive, asymmetric and transitive |
| Nsgaii.IsBetter | sources/PyGenAlg/standards/PYGA_StandardMultiObjIndividual_NSGAII.py:59-71 | a lower front index wins and a higher one loses; on a tie the smaller crowding distance wins, the distances of the front being computed first (each member storing the last state of a crowding trace over the front) when one is None and the front has more than one member; otherwise the distance of every member of the front is left as it was |
| Nsgaii.GetBestIndividuals | sources/PyGenAlg/standards/PYGA_StandardMultiObjIndividual_NSGAII.py:74-80 | the loop keeps exactly the individuals with front index 0, in population order |
| Nsgaii.FirstFrontMember | sources/PyGenAlg/standards/PYGA_StandardMultiObjIndividual_NSGAII.py:76-80 | an individual is kept iff it is in the population with front index 0 |
| Nsgaii.BestAreUndominated | sources/PyGenAlg/standards/PYGA_StandardMultiObjIndividual_NSGAII.py:74-108 | after NSGAII_fitness, getBestIndividuals returns the individuals nobody dominates, in population order |
| Nsgaii.FirstFrontUndominated | sources/PyGenAlg/standards/PYGA_StandardMultiObjIndividual_NSGAII.py:74-108 | a position is in front 0 iff nobody dominates its individual |
| Nsgaii.FirstFrontPrefix | sources/PyGenAlg/standards/PYGA_StandardMultiObjIndividual_NSGAII.py:76-80 | the kept individuals of a prefix of the population are those of its undominated positions |
| Nsgaii.StepDetermined | sources/PyGenAlg/standards/PYGA_StandardMultiObjIndividual_NSGAII.py:143-159 | the endpoint and interior rules of one objective leave no choice: two results agree |
| Nsgaii.TraceDetermined | sources/PyGenAlg/standards/PYGA_StandardMultiObjIndividual_NSGAII.py:139-159 | two traces over the same objectives agree at every step, so the crowding distances are fully determined |
| Populations.LastIndexOf | sources/PyGenAlg/core/PYGA_Population.py:138-143 | the position the identity scan settles on is -1 exactly when the individual is absent, and otherwise holds it with no later occurrence |
| Populations.FindLast | sources/PyGenAlg/core/PYGA_Population.py:138-143 | the `for` loop over the members ends on the last identical position, or -1 |
| Populations.RemoveAtSpec | sources/PyGenAlg/core/PYGA_Population.py:146 | `list.pop(i)` shortens the list by one, drops exactly that element from its multiset and shifts the later elements down |
| Populations.RemoveFirstSpec | sources/PyGenAlg/core/PYGA_Population.py:147-151 | taking out the first equal entry (`index` then `pop`, or nothing when `index` raises) removes one copy when present and leaves the list unchanged when absent |
| Populations.RemoveFirstMultiset | sources/PyGenAlg/core/PYGA_Population.py:147-151 | removing the first equal entry takes one copy out of the multiset (none if absent) |
| Populations.RemoveFirstAbsent | sources/PyGenAlg/core/PYGA_Population.py:150-151 | when `index` raises, the swallowed exception leaves the uncaught list as it was |
| Populations.RemoveFirstLength | sources/PyGenAlg/core/PYGA_Population.py:148-149 | a present entry shortens the list by exactly one |
| Populations.RemoveLastSpec | sources/PyGenAlg/core/PYGA_Population.py:138-146 | removing the last identical member takes one copy out of the multiset and shortens the list by one |
| Populations.RemoveEachSpec | sources/PyGenAlg/core/PYGA_Population.py:267-270 | removing a sub-multiset of members one after another leaves the multiset difference, and the length drops by their number |
| Populations.RemoveEachFirstSpec | sources/PyGenAlg/core/PYGA_Population.py:267-270 | the uncaught list loses one copy of each removed member that it holds |
| Populations.Picked | sources/PyGenAlg/core/PYGA_Population.py:268 | the members `random.sample` returns are the members at the sampled positions, in draw order |
| Populations.PickedSubMultiset | sources/PyGenAlg/core/PYGA_Population.py:268 | a sample of distinct positions is a sub-multiset of the population |
| Populations.RemoveStep | sources/PyGenAlg/core/PYGA_Population.py:269-270 | one turn of the removal loop removes a member that is still present and leaves the rest of the sample removable |
| Populations.GrownSpec | sources/PyGenAlg/core/PYGA_Population.py:101-117 | the initial population keeps the members it started with, never exceeds the requested size, takes only generated candidates, holds no duplicate pair when duplication is refused, and without that check is the first candidates in order |
| Populations.GrowPopulation | sources/PyGenAlg/core/PYGA_Population.py:101-117 | the generation loop, with its inner duplicate scan, yields exactly the specified initial population; it reports running out exactly when the candidates end before the target, and otherwise holds exactly `max(nbIndividuals, 0)` members |
| Populations.FirstOffered | sources/PyGenAlg/core/PYGA_Population.py:104-116 | the first candidate offered below the target is kept, or duplicates a kept member |
| Populations.GrownKeeps | sources/PyGenAlg/core/PYGA_Population.py:103-116 | every candidate is kept, or duplicates a kept member (only when duplicates are refused), or came after the target was reached |
| Populations.GrownShort | sources/PyGenAlg/core/PYGA_Population.py:103-116 | a population short of the target has been offered every candidate (each kept or a duplicate of a kept member), and without the duplicate check holds all of them |
| Populations.DuplicateCountBound | sources/PyGenAlg/core/PYGA_Population.py:222-236 | at most one duplicate is counted per scanned member, and the last member is never counted |
| Populations.DuplicationPercentBound | sources/PyGenAlg/core/PYGA_Population.py:237 | the duplication percentage lies between 0 and `100*(n-1)/n`, so never above 100 |
| Populations.CountDuplicates | sources/PyGenAlg/core/PYGA_Population.py:222-236 | the nested loops count the members that have a later duplicate |
| Populations.ChampionSpec | sources/PyGenAlg/core/PYGA_Population.py:337-341 | the single-objective scan finds nothing exactly for an empty population, otherwise a member that no member beats when `isBetter` is a strict order |
| Populations.ChampionMember | sources/PyGenAlg/core/PYGA_Population.py:337-341 | the scan's result is None exactly for an empty population and is otherwise a member |
| Populations.ChampionBest | sources/PyGenAlg/core/PYGA_Population.py:337-341 | no member beats the champion when `isBetter` is a strict order |
| Populations.ScanChampion | sources/PyGenAlg/core/PYGA_Population.py:336-341 | the loop keeps the first member not beaten by any later one, as specified |
| Populations.FirstBeaten | sources/PyGenAlg/core/PYGA_Population.py:349-353 | the insertion position is the first ranked member the new one beats, or the end |
| Populations.RankedSpec | sources/PyGenAlg/core/PYGA_Population.py:347-356 | the insertion ranking is a permutation of the population, best first when `isBetter` is a strict order |
| Populations.InsertRankedPerm | sources/PyGenAlg/core/PYGA_Population.py:349-355 | one insertion adds exactly the new member |
| Populations.InsertRankedOrder | sources/PyGenAlg/core/PYGA_Population.py:349-355 | one insertion keeps a best-first ranking best first |
| Populations.InsertIntoRanking | sources/PyGenAlg/core/PYGA_Population.py:349-355 | the inner `enumerate` loop with its `added` flag inserts as specified |
| Populations.RankByInsertion | sources/PyGenAlg/core/PYGA_Population.py:347-356 | the outer loop builds the specified ranking |
| Populations.FirstOther | sources/PyGenAlg/core/PYGA_Population.py:295-299 | the redraw loop yields a member different from the first parent, and finds none exactly when every draw is the first parent |
| Populations.DrawnParents | sources/PyGenAlg/core/PYGA_Population.py:274-299 | both parents drawn are members of the population or of its uncaught list |
| Populations.DrawnParentsDistinct | sources/PyGenAlg/core/PYGA_Population.py:282-299 | the two parents differ when the population holds no individual twice |
| Populations.TakeParentsValid | sources/PyGenAlg/core/PYGA_Population.py:302-315 | taking both parents out of the uncaught list, and refilling it when empty, keeps it within the population |
| Populations.DrawOther | sources/PyGenAlg/core/PYGA_Population.py:295-299 | the `while parent2 == parent1` loop draws the specified second parent |
| Populations.DrawParents | sources/PyGenAlg/core/PYGA_Population.py:274-299 | the size check, the choice of list and the draws give the specified parents or the error |
| Populations.Population.constructor | sources/PyGenAlg/core/PYGA_Population.py:73-88 | a new population is empty, with an empty uncaught list |
| Populations.Population.GenerateInitPop | sources/PyGenAlg/core/PYGA_Population.py:90-124 | both lists restart empty and end equal to the grown initial population; without running out it holds exactly `max(nbIndividuals, 0)` members, and it runs out only short of the target after every candidate was offered |
| Populations.Population.AddIndividual | sources/PyGenAlg/core/PYGA_Population.py:130-132 | the individual is appended to both lists |
| Populations.Population.RemoveIndividual | sources/PyGenAlg/core/PYGA_Population.py:137-151 | an absent individual raises the PopulationError with the source's message and changes nothing; otherwise the last identical member and the first equal uncaught entry go |
| Populations.Population.Duplicate | sources/PyGenAlg/core/PYGA_Population.py:207-211 | a fresh population with the same members, all of them uncaught |
| Populations.Population.Merge | sources/PyGenAlg/core/PYGA_Population.py:216-219 | every member of the other population is appended to both lists |
| Populations.Population.Plus | sources/PyGenAlg/core/PYGA_Population.py:475-478 | a fresh population holding this population's members followed by the other's, all uncaught |
| Populations.Population.GetDuplicationPercent | sources/PyGenAlg/core/PYGA_Population.py:222-238 | an empty population raises ZeroDivisionError; otherwise the integer percentage of members with a later duplicate |
| Populations.Population.GetClusters | sources/PyGenAlg/core/PYGA_Population.py:240-265 | an empty population raises IndexError; otherwise the clusters partition the population, each chained from its seed and mutually out of reach |
| Populations.Population.RemoveRandomIndiv | sources/PyGenAlg/core/PYGA_Population.py:267-270 | a count outside 0..size raises ValueError and changes nothing; otherwise exactly the sampled members are removed, from both lists |
| Populations.Population.GetRandomParents | sources/PyGenAlg/core/PYGA_Population.py:274-317 | the returned parents are the specified draw, and the uncaught list loses both and is refilled when emptied |
| Populations.Population.GetRandomIndividual | sources/PyGenAlg/core/PYGA_Population.py:323-324 | the sampled member, or ValueError for an empty population |
| Populations.Population.GetBestIndividual | sources/PyGenAlg/core/PYGA_Population.py:329-357 | the multi-objective best set, the single champion when at most one is asked, or the first `nbBest` of the insertion ranking |
| Clustering.Members | sources/PyGenAlg/core/PYGA_Population.py:241-262 | each cluster of individuals lists the members at the cluster's positions, in joining order |
| Clustering.Scan | sources/PyGenAlg/core/PYGA_Population.py:249-254 | the scan for one treated member adds, in increasing order, unclassified positions within the influence distance, and leaves out none that are |
| Clustering.Clusters | sources/PyGenAlg/core/PYGA_Population.py:240-265 | the clusters partition the positions, each starts at the first unclassified position, every member but the seed joined near an earlier member, and no member is near a member of a later cluster |
| Clustering.TreatChain | sources/PyGenAlg/core/PYGA_Population.py:247-254 | treating the queue until it is empty closes the current cluster: none of its members is near an unclassified position |
| Clustering.FirstUnclustered | sources/PyGenAlg/core/PYGA_Population.py:257-261 | the next seed is the lowest unclassified position |
| Clustering.Pigeonhole | sources/PyGenAlg/core/PYGA_Population.py:244-259 | distinct classified positions below the size number at most the size, and reach it exactly when every position is classified, so the outer loop stops exactly when all are clustered |
| Clustering.Started | sources/PyGenAlg/core/PYGA_Population.py:241-243 | the first individual alone as the first cluster, classified and queued, starts the invariant |
| Clustering.Treated | sources/PyGenAlg/core/PYGA_Population.py:247-254 | treating one queued member keeps the clusters a chained, seeded partition of the classified positions |
| Clustering.Seed | sources/PyGenAlg/core/PYGA_Population.py:257-264 | opening a cluster at the next seed keeps the invariant, with the finished cluster closed |
| Clustering.Finished | sources/PyGenAlg/core/PYGA_Population.py:244-265 | once every position is classified, the clusters are a seeded, chained, separated partition |
| Clustering.OneClusterWhenAllNear | sources/PyGenAlg/core/PYGA_Individual.py:275-289 | with the default distance, None for every pair and so within any influence distance, the population is one cluster holding everybody |
| Clustering.SecondSeedApart | sources/PyGenAlg/core/PYGA_Population.py:256-262 | the seed of a second cluster is not near the first seed |
| Clustering.SingletonsWhenNoneNear | sources/PyGenAlg/core/PYGA_Population.py:251-254 | when every distance exceeds the influence distance, every cluster is its seed alone |
| Evaluation.NeedingCount | sources/PyGenAlg/core/PYGA_Population.py:365-368 | the number of individuals still needing a computation is at most the population size |
| Evaluation.NeedingCountZero | sources/PyGenAlg/core/PYGA_Population.py:365-368 | the count is 0 exactly when no individual needs a computation |
| Evaluation.CountNeeding | sources/PyGenAlg/core/PYGA_Population.py:365-368 | the first loop of `computeObjectives` counts the individuals that need a computation |
| Evaluation.EvaluateAll | sources/PyGenAlg/core/PYGA_Population.py:370-378 | the sequential evaluation loop leaves every individual holding the values computed for it and no longer needing a computation |
| Evaluation.ComputeObjectives | sources/PyGenAlg/core/PYGA_Population.py:364-425 | the returned count is the number that needed a computation before the call; afterwards every individual is evaluated, and a multi-objective population has its fronts assigned as a layered partition |
| StandardBehavior.TimePercent | sources/PyGenAlg/standards/PYGA_StandardGenAlgBehavior.py:96-97 | the time percentage `int(100 * timeDiff / endTime)`, truncated toward zero, is non-negative for a positive time limit |
| StandardBehavior.StopCriteria | sources/PyGenAlg/standards/PYGA_StandardGenAlgBehavior.py:87-109 | the run stops exactly when the time limit is set and used up or the generation limit is set and reached; the percentage is the larger of the measures that apply, and 0 when none does |
| StandardBehavior.GenerationLimit | sources/PyGenAlg/standards/PYGA_StandardGenAlgBehavior.py:101-107 | with only a generation limit, the run stops exactly at the limit and the percentage stays within 0..100, reaching 100 exactly at the limit |
| StandardBehavior.TimeLimit | sources/PyGenAlg/standards/PYGA_StandardGenAlgBehavior.py:94-99 | once the allowed time is used up, the run stops with at least 100 percent |
| StandardBehavior.RateCount | sources/PyGenAlg/standards/PYGA_StandardGenAlgBehavior.py:135-138 | `int(round(rate*ps/100.))` is non-negative for a non-negative rate |
| StandardBehavior.NbToSelect | sources/PyGenAlg/standards/PYGA_StandardGenAlgBehavior.py:139-140 | the individuals to select, crossed and mutated add up to the population size |
| StandardBehavior.SplitBounds | sources/PyGenAlg/standards/PYGA_StandardGenAlgBehavior.py:133-140 | for rates adding up to at most 100 percent each count lies within 0..size, and the number to select is at least -1 |
| StandardBehavior.SplitRoundsUp | sources/PyGenAlg/standards/PYGA_StandardGenAlgBehavior.py:133-140 | rates of 50 and 50 percent on a population of one ask selection for -1 individuals, because both counts round half away from zero |
| StandardBehavior.Lookup | sources/PyGenAlg/standards/PYGA_StandardGenAlgBehavior.py:130-430 | looking a name up in a method table succeeds exactly when the name is a key, and raises KeyError naming it otherwise |
| StandardBehavior.Selection | sources/PyGenAlg/standards/PYGA_StandardGenAlgBehavior.py:127-146 | selection fails exactly when the selection name is unknown; otherwise it calls the named method for the size minus the crossed and mutated counts |
| StandardBehavior.WithMethods | sources/PyGenAlg/standards/PYGA_StandardGenAlgBehavior.py:441-445 | `paramWithMethods` holds exactly the labels of ALL_PARAMS with a list of possible methods |
| StandardBehavior.AddMethodsKeeps | sources/PyGenAlg/standards/PYGA_StandardGenAlgBehavior.py:447-456 | ADD_METHOD adds no label and only appends to each list of possible methods |
| StandardBehavior.AddMethodsAccepts | sources/PyGenAlg/standards/PYGA_StandardGenAlgBehavior.py:447-451 | ADD_METHOD raises nothing exactly when every argument names a label with methods and a table, and is a list of two items |
| StandardBehavior.AddMethodsRegisters | sources/PyGenAlg/standards/PYGA_StandardGenAlgBehavior.py:453-456 | after a successful ADD_METHOD every upper-cased method ID is a possible method of its label |
| StandardBehavior.AddSingleMethod | sources/PyGenAlg/standards/PYGA_StandardGenAlgBehavior.py:453-456 | one well-formed argument appends the upper-cased ID to the label's possible methods and maps it to the method name, leaving other tables as they were |
| StandardBehavior.MethodTables.constructor | sources/PyGenAlg/standards/PYGA_StandardGenAlgBehavior.py:440 | the tables hold the class attributes given |
| StandardBehavior.MethodTables.AddMethod | sources/PyGenAlg/standards/PYGA_StandardGenAlgBehavior.py:439-456 | the loop over the keyword arguments changes the tables and reports exactly as the specification of ADD_METHOD says |
| StandardBehavior.FitValues | sources/PyGenAlg/standards/PYGA_StandardGenAlgBehavior.py:658-659 | the fitness values read off the population, one per individual, in order |
| StandardBehavior.MeanBounds | sources/PyGenAlg/standards/PYGA_StandardGenAlgBehavior.py:651-660 | the average fitness lies between any lower and upper bound of the fitnesses |
| StandardBehavior.SumBounds | sources/PyGenAlg/standards/PYGA_StandardGenAlgBehavior.py:657-659 | the fitness sum lies between size times a lower bound and size times an upper bound |
| StandardBehavior.GetMaxFitness | sources/PyGenAlg/standards/PYGA_StandardGenAlgBehavior.py:464-473 | the maximum is None exactly when no individual has a fitness; otherwise it is one of the fitnesses and no fitness exceeds it |
| StandardBehavior.SumFitSnoc | sources/PyGenAlg/standards/PYGA_StandardGenAlgBehavior.py:658-659 | one turn of the summing loop adds the next fitness |
| StandardBehavior.AverageFitness | sources/PyGenAlg/standards/PYGA_StandardGenAlgBehavior.py:651-660 | a multi-objective class raises FitnessComputation with the source's message, a missing fitness TypeError, an empty population ZeroDivisionError; otherwise the result is the mean fitness |
| StandardBehavior.SumFitness | sources/PyGenAlg/standards/PYGA_StandardGenAlgBehavior.py:657-659 | the loop succeeds exactly when every individual has a fitness, and then sums them |
| StandardBehavior.FitValuesAre | sources/PyGenAlg/standards/PYGA_StandardGenAlgBehavior.py:682-684 | fitnesses set value by value are read back as those values |
| StandardBehavior.Affine | sources/PyGenAlg/standards/PYGA_StandardGenAlgBehavior.py:670-684 | the scaled values are as many as the fitnesses |
| StandardBehavior.AffineAt | sources/PyGenAlg/standards/PYGA_StandardGenAlgBehavior.py:684 | each scaled value is `a*f + b` of its fitness |
| StandardBehavior.SumAffine | sources/PyGenAlg/standards/PYGA_StandardGenAlgBehavior.py:670-684 | the scaled values sum to a times the fitness sum plus n times b |
| StandardBehavior.LinearScaled | sources/PyGenAlg/standards/PYGA_StandardGenAlgBehavior.py:679-684 | linear scaling yields one fitness per individual |
| StandardBehavior.LinearScalingKeepsMean | sources/PyGenAlg/standards/PYGA_StandardGenAlgBehavior.py:670-684 | with `b = favg*(1 - a)`, linear scaling keeps the average fitness, as the source's comment demands |
| StandardBehavior.LinearScaling | sources/PyGenAlg/standards/PYGA_StandardGenAlgBehavior.py:663-685 | a rate of 1 changes nothing; otherwise the average's errors are raised with every fitness unchanged, or every fitness becomes the linear scaling of the old ones |
| StandardBehavior.ScaleAround | sources/PyGenAlg/standards/PYGA_StandardGenAlgBehavior.py:679-684 | scaling around the mean fitness sets the linearly scaled fitnesses |
| StandardBehavior.ScaleEach | sources/PyGenAlg/standards/PYGA_StandardGenAlgBehavior.py:683-684 | the loop sets each individual's fitness to `a*f + b` of its own old fitness |
| StandardBehavior.SharingAsWritten | sources/PyGenAlg/standards/PYGA_StandardGenAlgBehavior.py:712-716 | as written, a non-zero rate on a non-empty population raises AttributeError at `getOptimisedFitness`, so sharing never changes a fitness |
| StandardBehavior.SharedAsWrittenRaises | sources/PyGenAlg/standards/PYGA_StandardGenAlgBehavior.py:733-734 | dividing by a density below 1, as written, raises the fitness that sharing should lower |
| StandardBehavior.Shared | sources/PyGenAlg/standards/PYGA_StandardGenAlgBehavior.py:733-734 | the shared fitness is unchanged without neighbours and otherwise lies between 0 and a non-negative fitness |
| StandardBehavior.SharedBelow | sources/PyGenAlg/standards/PYGA_StandardGenAlgBehavior.py:733-734 | dividing a non-negative fitness by 1 plus a non-negative density keeps it between 0 and itself |
| StandardBehavior.SharedAntitone | sources/PyGenAlg/standards/PYGA_StandardGenAlgBehavior.py:718-734 | the fuller the niche, the lower the shared fitness |
| StandardBehavior.DensityNonNegative | sources/PyGenAlg/standards/PYGA_StandardGenAlgBehavior.py:718-730 | non-negative influences add up to a non-negative density |
| StandardBehavior.SharedOf | sources/PyGenAlg/standards/PYGA_StandardGenAlgBehavior.py:716-734 | the new fitness of one individual, with a non-negative density and fitness, is a fitness between 0 and the old one |
| StandardBehavior.SharedFits | sources/PyGenAlg/standards/PYGA_StandardGenAlgBehavior.py:714-734 | the computed list has one fitness per treated individual |
| StandardBehavior.SharingLowers | sources/PyGenAlg/standards/PYGA_StandardGenAlgBehavior.py:714-737 | with non-negative influences and fitnesses, sharing succeeds and never raises a fitness |
| StandardBehavior.SharedFitsErr | sources/PyGenAlg/standards/PYGA_StandardGenAlgBehavior.py:715-734 | once one fitness cannot be shared, the whole computation fails with that error |
| StandardBehavior.DensityAround | sources/PyGenAlg/standards/PYGA_StandardGenAlgBehavior.py:718-730 | the inner loop sums the influences of the other individuals within the influence distance |
| StandardBehavior.ComputeSharedFits | sources/PyGenAlg/standards/PYGA_StandardGenAlgBehavior.py:714-734 | the first loop computes the specified list of new fitnesses |
| StandardBehavior.StoreFits | sources/PyGenAlg/standards/PYGA_StandardGenAlgBehavior.py:736-737 | the second loop gives each individual its own new fitness |
| StandardBehavior.BasicSharing | sources/PyGenAlg/standards/PYGA_StandardGenAlgBehavior.py:712-737 | a zero rate changes nothing; an error raised while computing leaves every fitness unchanged; otherwise every individual gets its shared fitness |
| Offspring.ScanDuplicate | sources/PyGenAlg/standards/PYGA_StandardGenAlgBehavior.py:221-231 | the `while not duplicated and i < size` scans report a duplicate exactly when the new individual duplicates some member of the list |
| Offspring.ScreenedSnoc | sources/PyGenAlg/standards/PYGA_StandardGenAlgBehavior.py:219-233 | adding a checked offspring that duplicates nothing so far keeps every checked offspring free of duplicates |
| Offspring.ScreenedUnchecked | sources/PyGenAlg/standards/PYGA_StandardGenAlgBehavior.py:219-253 | offspring added without the check leave the checked ones screened |
| Offspring.Unchecked | sources/PyGenAlg/standards/PYGA_StandardGenAlgBehavior.py:219-253 | n offspring added without a check carry n unchecked marks |
| Offspring.FromBroodsGrow | sources/PyGenAlg/standards/PYGA_StandardGenAlgBehavior.py:216-253 | children taken from one crossover keep every offspring a child of some crossover |
| Offspring.TrimmedSpec | sources/PyGenAlg/standards/PYGA_StandardGenAlgBehavior.py:257-259 | removing the surplus sample leaves exactly that many fewer offspring, all of them earlier offspring |
| Offspring.CheckedOrForcedGrow | sources/PyGenAlg/standards/PYGA_StandardGenAlgBehavior.py:231-233 | offspring added through the check keep every unchecked offspring accounted for |
| Offspring.CheckedOrForcedForce | sources/PyGenAlg/standards/PYGA_StandardGenAlgBehavior.py:235-253 | when duplication cannot be avoided the children of the extra crossover are added unchecked and accounted for |
| Offspring.FlattenNext | sources/PyGenAlg/standards/PYGA_StandardGenAlgBehavior.py:216-220 | without the duplication check the offspring are the children of the crossovers, in order |
| Offspring.TryBrood | sources/PyGenAlg/standards/PYGA_StandardGenAlgBehavior.py:214-234 | one crossover's children: without the check all are appended; with it the children before the first duplicate are checked free of duplicates and appended, up to the target, and the crossover reports a duplicate exactly when one was met |
| Offspring.RetryCrossover | sources/PyGenAlg/standards/PYGA_StandardGenAlgBehavior.py:194-231 | the retry loop runs at most `nbTryMax` crossovers, every one before the last having brought a duplicate, and reports a duplicate exactly when the last one did; it stops before `nbTryMax` tries only on a crossover without a duplicate or when every crossover outcome is used, and records each crossover's contribution |
| Offspring.CrossRound | sources/PyGenAlg/standards/PYGA_StandardGenAlgBehavior.py:193-250 | one round of the outer loop is complete: up to `nbTryMax` crossovers of which only the last brought no duplicate, or `nbTryMax` that each brought one followed by exactly one forced crossover; otherwise the crossover outcomes ran out inside the round, with no crossover of the round forced |
| Offspring.Crossover | sources/PyGenAlg/standards/PYGA_StandardGenAlgBehavior.py:186-256 | a negative target raises ValueError, 0 gives nothing, a positive target with a negative try count never ends, fewer than two parents raise; otherwise the result is bred, or the crossover outcomes ran out inside an unfinished round; bred gives exactly the target number of offspring, the crossovers' children with the sampled surplus removed, made in complete rounds each of which forces one crossover exactly when its `nbTryMax` tries all brought a duplicate |
| Offspring.ScanAsWritten | sources/PyGenAlg/standards/PYGA_StandardGenAlgBehavior.py:279-293 | the nested `for ... break` loops as written scan the earlier mutants only when `newPop` has a member |
| Offspring.MutationCheckSkipped | sources/PyGenAlg/standards/PYGA_StandardGenAlgBehavior.py:279-293 | with an empty `newPop` the written check lets through a mutant equal to an earlier mutant, which the intended check rejects |
| Offspring.ScanBoth | sources/PyGenAlg/standards/PYGA_StandardGenAlgBehavior.py:279-293 | the corrected check reports a duplicate exactly when the mutant duplicates a member of `newPop` or an earlier mutant |
| Offspring.RetryMutation | sources/PyGenAlg/standards/PYGA_StandardGenAlgBehavior.py:276-293 | the retry loop runs between 1 and `nbTryMax` mutations unless the mutants run out, every try before the kept one being a checked duplicate; it keeps the last mutant, and stops early only on a mutant that passes the check or when every mutant is used, each of them a checked duplicate |
| Offspring.RoundsSnoc | sources/PyGenAlg/standards/PYGA_StandardGenAlgBehavior.py:265-294 | a round whose earlier tries were all checked duplicates and whose kept mutant is its last try extends the record of the rounds |
| Offspring.Mutation | sources/PyGenAlg/standards/PYGA_StandardGenAlgBehavior.py:262-303 | a negative target raises ValueError, 0 gives nothing, an empty population raises ValueError, a try count of at most 0 leaves `newIndiv` unbound; otherwise the result is bred, or the mutants ran out inside a round whose every try was a checked duplicate; bred gives exactly the target number of mutants, each the first try of its round that passes the corrected check (ScanBoth), or the last try; each kept one free of duplicates when checked |
| Offspring.Reproduction | sources/PyGenAlg/standards/PYGA_StandardGenAlgBehavior.py:148-172 | the offspring are the mutants followed by the crossed individuals, each part as large as its rate asks, and with the individuals to select they make up the population size; a result that is not bred is the crossover's own, or the mutation's when the crossover bred; with non-negative counts, a positive try count and enough parents it is bred unless the crossovers or the mutants ran out |
| Offspring.BredFromBroods | sources/PyGenAlg/standards/PYGA_StandardGenAlgBehavior.py:257-259 | what is left after the trimming still comes from the crossovers |
| Offspring.Kept | sources/PyGenAlg/standards/PYGA_StandardGenAlgBehavior.py:229-233 | how many checked children fit under the target: never more than were checked, never past the target |
| Offspring.BroughtDuplicatesSnoc | sources/PyGenAlg/standards/PYGA_StandardGenAlgBehavior.py:194-234 | one more crossover that brought a duplicate extends the run of duplicate crossovers |
| Offspring.DrawsSnoc | sources/PyGenAlg/standards/PYGA_StandardGenAlgBehavior.py:194-253 | one more crossover, checked or forced after a run of `nbTryMax` duplicate crossovers, extends the record of all crossovers |
| Offspring.TryOnce | sources/PyGenAlg/standards/PYGA_StandardGenAlgBehavior.py:214-234 | one try of the retry loop records its crossover's contribution and reports a duplicate exactly when its checked loop stopped early |
| Offspring.ForceOne | sources/PyGenAlg/standards/PYGA_StandardGenAlgBehavior.py:235-253 | the forced crossover appends all its children unchecked and is recorded as forced |
| Offspring.RetryStep | sources/PyGenAlg/standards/PYGA_StandardGenAlgBehavior.py:197-231 | one pass of the retry loop adds one crossover to the record, keeps the earlier offspring and marks, and reports a duplicate exactly when the crossover's checked loop stopped early |
| Offspring.CrossLoop | sources/PyGenAlg/standards/PYGA_StandardGenAlgBehavior.py:193-251 | the outer loop ends with at least the target number of offspring after complete rounds, or with every crossover outcome used inside an unfinished round; it records every crossover drawn; with a target of at most 0 it draws nothing |
| Offspring.ForceRound | sources/PyGenAlg/standards/PYGA_StandardGenAlgBehavior.py:232-248 | a round whose `nbTryMax` crossovers all brought a duplicate ends with one forced crossover, which completes the round |
| Offspring.RetryProgress | sources/PyGenAlg/standards/PYGA_StandardGenAlgBehavior.py:193-231 | the offspring after the retries of a round keep the crossover record: the children of the crossovers drawn so far without the check, each unchecked one a forced child with it |
| Offspring.RoundSucceeded | sources/PyGenAlg/standards/PYGA_StandardGenAlgBehavior.py:197-231 | a round whose last try brought no duplicate, the earlier ones each one, is complete and forces nothing |
| Offspring.RoundForced | sources/PyGenAlg/standards/PYGA_StandardGenAlgBehavior.py:232-248 | `nbTryMax` tries that each brought a duplicate, then the forced crossover, form a complete round |
| Offspring.RoundRanOut | sources/PyGenAlg/standards/PYGA_StandardGenAlgBehavior.py:193-231 | a round that used the last crossover outcome while every try brought a duplicate is unfinished |
| Offspring.CompleteRoundsSnoc | sources/PyGenAlg/standards/PYGA_StandardGenAlgBehavior.py:193-251 | a complete round appended to the complete rounds keeps the record of rounds |
| Offspring.CompleteRoundsGrow | sources/PyGenAlg/standards/PYGA_StandardGenAlgBehavior.py:193-251 | further crossovers leave the earlier complete rounds as they were |
| Offspring.AfterRound | sources/PyGenAlg/standards/PYGA_StandardGenAlgBehavior.py:193-251 | one more pass of the outer loop appends its round when complete and keeps the earlier rounds |
| Offspring.TrimSurplus | sources/PyGenAlg/standards/PYGA_StandardGenAlgBehavior.py:253-255 | `removeRandomIndiv` of the surplus leaves exactly the target number of offspring, all from the crossed ones, and a negative target raises ValueError |
| Selections.WorstOf | sources/PyGenAlg/standards/PYGA_StandardGenAlgBehavior.py:497-503 | the worst member found by the scan is a member of the full set |
| Selections.WorstOfIsWorst | sources/PyGenAlg/standards/PYGA_StandardGenAlgBehavior.py:497-503 | when `isBetter` is a strict order, the worst member found is better than no member |
| Selections.FindWorst | sources/PyGenAlg/standards/PYGA_StandardGenAlgBehavior.py:497-503 | the `for ind in bestPop` loop finds nothing exactly for an empty set, and otherwise the specified worst member |
| Selections.FindDuplicate | sources/PyGenAlg/standards/PYGA_StandardGenAlgBehavior.py:490-511 | the scan over the set reports exactly whether some selected member duplicates the individual |
| Selections.KeptSpec | sources/PyGenAlg/standards/PYGA_StandardGenAlgBehavior.py:486-516 | an individual is added while the set is not full, replaces the worst member when the set is full and it beats that member, and is otherwise passed over, as is a duplicate when duplicates are avoided |
| Selections.BestOfFromPopulation | sources/PyGenAlg/standards/PYGA_StandardGenAlgBehavior.py:485-516 | the selected set is a sub-multiset of the population |
| Selections.BestOfSize | sources/PyGenAlg/standards/PYGA_StandardGenAlgBehavior.py:486-516 | the set never exceeds the requested count nor the population, and with duplicates allowed it holds exactly the smaller of the two |
| Selections.BestOfDistinct | sources/PyGenAlg/standards/PYGA_StandardGenAlgBehavior.py:489-513 | with duplicate avoidance no selected member duplicates an earlier one |
| Selections.AppendDistinct | sources/PyGenAlg/standards/PYGA_StandardGenAlgBehavior.py:489-491 | adding a member that duplicates no selected one keeps the set free of duplicates |
| Selections.RemoveAtDistinct | sources/PyGenAlg/standards/PYGA_StandardGenAlgBehavior.py:512 | removing the worst member keeps the set free of duplicates |
| Selections.DuplicatesKept | sources/PyGenAlg/standards/PYGA_StandardGenAlgBehavior.py:477-520 | on the population 1, 1, 2 with two to select, allowing duplicates keeps both 1s, while avoiding them keeps one 1 and the 2 |
| Selections.FirstPassAsWritten | sources/PyGenAlg/standards/PYGA_StandardGenAlgBehavior.py:483-516 | with `noDupl` the written fill branch iterates the empty set and adds nothing, so the first pass selects nothing; without it the pass is the specified selection with duplicates allowed |
| Selections.FirstPass | sources/PyGenAlg/standards/PYGA_StandardGenAlgBehavior.py:483-516 | the corrected pass selects the specified set, avoiding duplicates when asked |
| Selections.BestSelectionAsWritten | sources/PyGenAlg/standards/PYGA_StandardGenAlgBehavior.py:477-520 | as written a positive count always falls back on the selection with duplicates allowed, whatever `noDupl` says, and a count above the population size makes the fallback call itself for ever |
| Selections.BestSelection | sources/PyGenAlg/standards/PYGA_StandardGenAlgBehavior.py:477-520 | the corrected selection returns exactly the requested count of population members, free of duplicates when the pass with avoidance found enough of them, and otherwise falls back on duplicates allowed |
| Selections.FirstNotBeaten | sources/PyGenAlg/standards/PYGA_StandardGenAlgBehavior.py:605-607 | the `while` loop steps past every ranked member the individual is better than, up to the first it is not |
| Selections.InsertWorstFirst | sources/PyGenAlg/standards/PYGA_StandardGenAlgBehavior.py:605-608 | one insertion adds one position to the ranking |
| Selections.WorstFirst | sources/PyGenAlg/standards/PYGA_StandardGenAlgBehavior.py:604-608 | the ranking holds one position per individual |
| Selections.WorstFirstPermutes | sources/PyGenAlg/standards/PYGA_StandardGenAlgBehavior.py:604-608 | the ranking lists every position of the population exactly once |
| Selections.InsertWorstFirstCount | sources/PyGenAlg/standards/PYGA_StandardGenAlgBehavior.py:608 | one insertion adds exactly the new position |
| Selections.WorstFirstOrdered | sources/PyGenAlg/standards/PYGA_StandardGenAlgBehavior.py:604-608 | when `isBetter` is a strict weak order, no ranked member is better than a later one |
| Selections.InsertOrdered | sources/PyGenAlg/standards/PYGA_StandardGenAlgBehavior.py:605-608 | one insertion keeps the ranking from the worst to the best |
| Selections.InsertInRanking | sources/PyGenAlg/standards/PYGA_StandardGenAlgBehavior.py:605-608 | the inner loop and `insert` give the specified insertion |
| Selections.RankWorstFirst | sources/PyGenAlg/standards/PYGA_StandardGenAlgBehavior.py:603-608 | the `enumerate` loop builds the specified ranking |
| Selections.RankSum | sources/PyGenAlg/standards/PYGA_StandardGenAlgBehavior.py:610 | `sum(xrange(n + 1))` is n(n + 1)/2 and at least n |
| Selections.BuildWheel | sources/PyGenAlg/standards/PYGA_StandardGenAlgBehavior.py:611-621 | the wheel has one slot per ranked position, each as wide as its rank over the rank sum, each starting where the previous one ends, from 0 up to 1 |
| Selections.LinkedBelow | sources/PyGenAlg/standards/PYGA_StandardGenAlgBehavior.py:611-621 | slots of the wheel come in increasing order and do not overlap |
| Selections.LinkedCovers | sources/PyGenAlg/standards/PYGA_StandardGenAlgBehavior.py:611-621 | a draw from the start of the wheel to its end falls in some slot |
| Selections.WheelPartition | sources/PyGenAlg/standards/PYGA_StandardGenAlgBehavior.py:611-628 | a draw in [0, 1) falls in exactly one slot of the wheel |
| Selections.FindSlot | sources/PyGenAlg/standards/PYGA_StandardGenAlgBehavior.py:627-629 | the `for prob in proba` scan finds nothing exactly when no slot holds the draw, and otherwise the last slot holding it |
| Selections.RemoveChosen | sources/PyGenAlg/standards/PYGA_StandardGenAlgBehavior.py:634 | `proba.remove` takes the selected slot out, leaving slots of positions not yet chosen |
| Selections.Spin | sources/PyGenAlg/standards/PYGA_StandardGenAlgBehavior.py:623-634 | a count above the wheel never ends; otherwise the i-th chosen position is the one whose slot (the last holding the draw) the i-th successful draw landed in among the slots still left, every draw in between falling in no slot; a completed selection is the population's members at those positions |
| Selections.RankingSelection | sources/PyGenAlg/standards/PYGA_StandardGenAlgBehavior.py:596-635 | a count of at most 0 selects nothing, a count above the population size never ends; otherwise the ranking and the wheel are as specified and the i-th selected member is the one the i-th successful draw landed on among the slots still left |
| Selections.LeftNone | sources/PyGenAlg/standards/PYGA_StandardGenAlgBehavior.py:623-634 | before any choice, every slot is left |
| Selections.LeftAbsent | sources/PyGenAlg/standards/PYGA_StandardGenAlgBehavior.py:634 | choosing a position the wheel no longer holds changes nothing |
| Selections.LeftFrom | sources/PyGenAlg/standards/PYGA_StandardGenAlgBehavior.py:634 | every slot left comes from the wheel |
| Selections.LeftChoose | sources/PyGenAlg/standards/PYGA_StandardGenAlgBehavior.py:634 | choosing one more position removes exactly its slot from those left |
| Selections.SpinTraceHit | sources/PyGenAlg/standards/PYGA_StandardGenAlgBehavior.py:627-634 | a draw that lands extends the trace with its position as the next choice |
| Selections.HitLands | sources/PyGenAlg/standards/PYGA_StandardGenAlgBehavior.py:627-632 | the draw that lands marks the slot it fell in among those left |
| Selections.HitMisses | sources/PyGenAlg/standards/PYGA_StandardGenAlgBehavior.py:627-632 | the draws before a hit that landed nowhere stay misses |
| Selections.SpinTraceMiss | sources/PyGenAlg/standards/PYGA_StandardGenAlgBehavior.py:627-632 | a draw that falls in no slot left extends the trace as a miss |
| Selections.SpinTraceCut | sources/PyGenAlg/standards/PYGA_StandardGenAlgBehavior.py:623-634 | the trace up to the last hit is the trace of the completed selection |
| Selections.SpinOnce | sources/PyGenAlg/standards/PYGA_StandardGenAlgBehavior.py:624-634 | one draw of the `while` loop: it lands and chooses exactly the position of its slot, or misses and changes nothing |
| Selections.WorstFirstRanks | sources/PyGenAlg/standards/PYGA_StandardGenAlgBehavior.py:604-608 | the ranking has one entry per individual, each a position of the population, no two the same |
| SelfOptimize.StableRate | sources/PyGenAlg/standards/PYGA_StandardGenAlgBehavior.py:361-363 | the stability rate `int((cM + cm)/2)` is half of `maxRepro`, rounded down |
| SelfOptimize.LineBelowAnchors | sources/PyGenAlg/standards/PYGA_StandardGenAlgBehavior.py:365-366 | the line used below the band, in Python 2 floor division, passes through (1, cm) and the stability point (sm, cS) |
| SelfOptimize.LineAboveAnchors | sources/PyGenAlg/standards/PYGA_StandardGenAlgBehavior.py:367-368 | the line used above the band passes through the stability point (sM, cS) and (ps, cM) |
| SelfOptimize.CrossoverRate | sources/PyGenAlg/standards/PYGA_StandardGenAlgBehavior.py:358-368 | the crossover rate is the stability rate inside the band of cluster counts, 10 at one cluster below it and `maxRepro - 10` at ps clusters above it; it divides by zero exactly when the band starts at 1 or ends at ps and the count lies beyond that end, and never for counts 1..ps |
| SelfOptimize.MutationRate | sources/PyGenAlg/standards/PYGA_StandardGenAlgBehavior.py:388-398 | the mirror image: `maxRepro - 10` at one cluster, the stability rate in the band, 10 at ps clusters, with the same zero divisions |
| SelfOptimize.RatesContinuous | sources/PyGenAlg/standards/PYGA_StandardGenAlgBehavior.py:363-398 | both rates meet the stability rate where their lines reach the band |
| SelfOptimize.DuplicatedMutationRate | sources/PyGenAlg/standards/PYGA_StandardGenAlgBehavior.py:379 | `min(90, duplPercent*3)` is one of the two and at most both |
| SelfOptimize.ClusterCount | sources/PyGenAlg/standards/PYGA_StandardGenAlgBehavior.py:354-384 | a population of n > 0 individuals has between 1 and n clusters, so the rate lines see counts 1..ps |
| SelfOptimize.OptimizeCrossover | sources/PyGenAlg/standards/PYGA_StandardGenAlgBehavior.py:345-373 | an empty population divides by zero; above 20% duplication the new crossover rate is 0; otherwise the population's clusters give the rate, which is then always defined |
| SelfOptimize.OptimizeMutation | sources/PyGenAlg/standards/PYGA_StandardGenAlgBehavior.py:375-405 | an empty population divides by zero; above 20% duplication the new mutation rate is `min(90, 3 times the percentage)`; otherwise the clusters give the rate, always defined |
| SelfOptimize.NotLtTrans | sources/PyGenAlg/standards/PYGA_StandardGenAlgBehavior.py:330 | not being below, with None least, is transitive, so keeping the minimum is sound |
| SelfOptimize.LtAsymmetric | sources/PyGenAlg/standards/PYGA_StandardGenAlgBehavior.py:330 | Python 2 `<` between distances, None least, is asymmetric |
| SelfOptimize.MinToPartners | sources/PyGenAlg/standards/PYGA_StandardGenAlgBehavior.py:329-331 | the `for indiv2` loop keeps the least of the starting value and the distances to every other member |
| SelfOptimize.MinInCluster | sources/PyGenAlg/standards/PYGA_StandardGenAlgBehavior.py:328-331 | the `for indiv1` loop keeps the least distance between two distinct members of the cluster |
| SelfOptimize.MinDistance | sources/PyGenAlg/standards/PYGA_StandardGenAlgBehavior.py:323-331 | `minDist` ends as the least of the influence distance and every distance between two distinct members of one cluster, None as soon as one distance is None |
| SelfOptimize.NoClusterBelow | sources/PyGenAlg/standards/PYGA_StandardGenAlgBehavior.py:332-337 | `reduceInflDist` stays true exactly when no cluster is smaller than `minInd` |
| SelfOptimize.ReducedInflDist | sources/PyGenAlg/standards/PYGA_StandardGenAlgBehavior.py:321-338 | outside the band the distance is kept; `sM` of 0 divides by zero; a cluster below `minInd` keeps it; otherwise it moves half way down to the least distance inside a cluster, a None distance raising TypeError; a new distance never exceeds the old one nor falls below the least distance |
| SelfOptimize.OptimizeInflDist | sources/PyGenAlg/standards/PYGA_StandardGenAlgBehavior.py:312-343 | after the first generation an empty population raises IndexError; otherwise the population's clusters at the current distance decide the new distance, which never exceeds the old one |
| GenAlgDriver.RunEventsLength | sources/PyGenAlg/core/PYGA_GenAlg.py:130-164 | a run of k iterations makes 2 + 8k behaviour calls: initialisation, the first evaluation, then eight calls per iteration |
| GenAlgDriver.RunEventsExtend | sources/PyGenAlg/core/PYGA_GenAlg.py:158-164 | a longer run begins with the calls of a shorter one |
| GenAlgDriver.RunEventsAt | sources/PyGenAlg/core/PYGA_GenAlg.py:280-305 | iteration i's calls come at positions 2 + 8i to 2 + 8i + 7, in `__oneIteration`'s order |
| GenAlgDriver.EndOfRunOnlyLast | sources/PyGenAlg/core/PYGA_GenAlg.py:302-304 | in a run that stops at the first evaluation saying so, only the last iteration tells `endOfGeneration` that the run ends |
| GenAlgDriver.StopCriteriaLags | sources/PyGenAlg/core/PYGA_GenAlg.py:155-302 | the stop criteria receive 0 after the initialisation and after the first iteration, then the iteration number, one less than CURRENT_GENERATION |
| GenAlgDriver.EvaluationsGrow | sources/PyGenAlg/core/PYGA_GenAlg.py:155-163 | the evaluation count reported never decreases over the run and is never below the first evaluation's count |
| GenAlgDriver.SelectedLast | sources/PyGenAlg/core/PYGA_GenAlg.py:296-300 | the next population is the children followed by the selected individuals |
| GenAlgDriver.RunsPastNext | sources/PyGenAlg/core/PYGA_GenAlg.py:160-164 | an evaluation that does not stop the run lets the loop go on |
| GenAlgDriver.Advance | sources/PyGenAlg/core/PYGA_GenAlg.py:160-164 | one more turn of the loop is one more iteration, one more stop verdict and its evaluation count added |
| GenAlgDriver.GenAlg.constructor | sources/PyGenAlg/core/PYGA_GenAlg.py:114-123 | a new driver starts at generation 0 with an empty population and no calls made |
| GenAlgDriver.GenAlg.Evaluate | sources/PyGenAlg/core/PYGA_GenAlg.py:249-278 | `__evaluation` computes the objectives, returns their count, and asks the stop criteria with the generation given, continuing exactly when they do not stop |
| GenAlgDriver.GenAlg.OneIteration | sources/PyGenAlg/core/PYGA_GenAlg.py:280-305 | `__oneIteration` sets CURRENT_GENERATION to iGen + 1, makes its eight calls in order and replaces the population by the next one |
| GenAlgDriver.GenAlg.Start | sources/PyGenAlg/core/PYGA_GenAlg.py:146-156 | the initialisation and the first evaluation establish the run's state after zero iterations |
| GenAlgDriver.GenAlg.Step | sources/PyGenAlg/core/PYGA_GenAlg.py:160-164 | one turn of the loop keeps the run's state, one iteration further |
| GenAlgDriver.GenAlg.Run | sources/PyGenAlg/core/PYGA_GenAlg.py:130-164 | `run` stops after the first iteration whose evaluation says so, with the population, the summed evaluation count, the percentage and the calls of exactly those iterations |
| GenAlgDriver.Create | sources/PyGenAlg/core/PYGA_GenAlg.py:106-123 | a class that does not inherit as required raises the CreationError with the source's message, checked in the source's order; otherwise a new driver at generation 0 |
| GenAlgDriver.IntToString | sources/PyGenAlg/core/PYGA_GenAlg.py:174-181 | `unicode` of an integer is its decimal digits, with a minus sign when negative |
| GenAlgDriver.TwoDigits | sources/PyGenAlg/core/PYGA_GenAlg.py:176-181 | minutes and seconds are written with two digits |
| GenAlgDriver.Minutes | sources/PyGenAlg/core/PYGA_GenAlg.py:172 | `int((t / 60) % 60)` lies in 0..59 |
| GenAlgDriver.Seconds | sources/PyGenAlg/core/PYGA_GenAlg.py:173 | `int(t % 60)` lies in 0..59 |
| GenAlgDriver.DurationText | sources/PyGenAlg/core/PYGA_GenAlg.py:171-182 | the evolution time reads hours, colon, two digits, colon, two digits |
| GenAlgDriver.DurationFields | sources/PyGenAlg/core/PYGA_GenAlg.py:171-173 | for a non-negative time the hours, minutes and seconds add up to its whole seconds |
| VectorIndividuals.Pow10 | sources/PyGenAlg/standards/PYGA_StandardVectorMultiObjIndividual_NSGAII.py:30 | a power of ten with a non-negative exponent is at least 1 |
| VectorIndividuals.Tolerance | sources/PyGenAlg/standards/PYGA_StandardVectorMultiObjIndividual_NSGAII.py:30 | `pow(10, -epsilon)` lies in (0, 1] |
| VectorIndividuals.FloatCmp | sources/PyGenAlg/standards/PYGA_StandardVectorMultiObjIndividual_NSGAII.py:29-33 | FLOATCMP is 0 exactly when the values are within the tolerance, -1 exactly when they are not and the first is smaller, 1 exactly when the second is |
| VectorIndividuals.FloatCmpAntisymmetric | sources/PyGenAlg/standards/PYGA_StandardVectorMultiObjIndividual_NSGAII.py:29-33 | exchanging the operands negates the comparison |
| VectorIndividuals.FloatCmpReflexive | sources/PyGenAlg/standards/PYGA_StandardVectorMultiObjIndividual_NSGAII.py:29-33 | every value compares equal to itself |
| VectorIndividuals.DuplicationFrom | sources/PyGenAlg/standards/PYGA_StandardVectorMultiObjIndividual_NSGAII.py:108-114 | the scan from index i reports a duplicate exactly when every later variable compares equal, and raises IndexError only when the other individual has fewer variables |
| VectorIndividuals.IsDuplication | sources/PyGenAlg/standards/PYGA_StandardVectorMultiObjIndividual_NSGAII.py:108-114 | an individual duplicates another exactly when the other has at least as many variables and each of its own compares equal; reading past the other's end raises IndexError |
| VectorIndividuals.DuplicationReflexive | sources/PyGenAlg/standards/PYGA_StandardVectorMultiObjIndividual_NSGAII.py:108-114 | an individual is a duplicate of itself |
| VectorIndividuals.DuplicationSymmetric | sources/PyGenAlg/standards/PYGA_StandardVectorMultiObjIndividual_NSGAII.py:108-114 | between individuals with as many variables, duplication is symmetric |
| VectorIndividuals.DomainOf | sources/PyGenAlg/standards/PYGA_StandardVectorMultiObjIndividual_NSGAII.py:144-146 | a variable without a domain gets `[-sys.maxint-1, sys.maxint]`, both ends closed |
| VectorIndividuals.RejectedOutsideDomain | sources/PyGenAlg/standards/PYGA_StandardVectorMultiObjIndividual_NSGAII.py:158-161 | the redraw condition holds exactly when the draw lies outside the domain |
| VectorIndividuals.Cast | sources/PyGenAlg/standards/PYGA_StandardVectorMultiObjIndividual_NSGAII.py:163 | `float` keeps the value; `int` truncates it toward zero to an integer less than 1 away |
| VectorIndividuals.GenerateValue | sources/PyGenAlg/standards/PYGA_StandardVectorMultiObjIndividual_NSGAII.py:142-163 | the value is the first draw inside the domain, cast to the variable type, every earlier draw lying outside it, the first draw negated on the sign coin only when draws may be negative; a float value lies in its domain, an int value is integral |
| VectorIndividuals.Padded | sources/PyGenAlg/standards/PYGA_StandardVectorMultiObjIndividual_NSGAII.py:62-69 | a default or domain list of the right length is kept, and any other is replaced by NB_VARIABLES Nones, at least one |
| VectorIndividuals.PaddedLength | sources/PyGenAlg/standards/PYGA_StandardVectorMultiObjIndividual_NSGAII.py:62-69 | after the normalisation there is an entry per variable |
| VectorIndividuals.PaddedIdempotent | sources/PyGenAlg/standards/PYGA_StandardVectorMultiObjIndividual_NSGAII.py:62-69 | normalising twice is normalising once |
| VectorIndividuals.Halve | sources/PyGenAlg/standards/PYGA_StandardVectorMultiObjIndividual_NSGAII.py:192 | the one-variable crossover averages the parents: true division of floats, floor division of ints |
| VectorIndividuals.FromFirstBounds | sources/PyGenAlg/standards/PYGA_StandardVectorMultiObjIndividual_NSGAII.py:178 | `1 + int(random()*(nbVar - 2))` takes at least one variable from each parent |
| VectorIndividuals.IndexInRange | sources/PyGenAlg/standards/PYGA_StandardVectorMultiObjIndividual_NSGAII.py:182-208 | `int(random()*nbVar)` is a valid variable index |
| VectorIndividuals.Indices | sources/PyGenAlg/standards/PYGA_StandardVectorMultiObjIndividual_NSGAII.py:182-184 | one index per draw |
| VectorIndividuals.FirstOccurrences | sources/PyGenAlg/standards/PYGA_StandardVectorMultiObjIndividual_NSGAII.py:180-186 | the draw-again-while-chosen loop keeps no more indices than were drawn |
| VectorIndividuals.FirstOccurrencesDistinct | sources/PyGenAlg/standards/PYGA_StandardVectorMultiObjIndividual_NSGAII.py:180-186 | the kept indices are distinct and are exactly those drawn |
| VectorIndividuals.FirstOccurrencesSnoc | sources/PyGenAlg/standards/PYGA_StandardVectorMultiObjIndividual_NSGAII.py:182-185 | a new draw is kept exactly when it was not chosen before |
| VectorIndividuals.VectorClass.constructor | sources/PyGenAlg/standards/PYGA_StandardVectorMultiObjIndividual_NSGAII.py:36-51 | the class attributes as given |
| VectorIndividuals.VectorClass.Normalise | sources/PyGenAlg/standards/PYGA_StandardVectorMultiObjIndividual_NSGAII.py:62-69 | the constructor's first half replaces both class lists by their normalised forms |
| VectorIndividuals.VectorClass.FillVariables | sources/PyGenAlg/standards/PYGA_StandardVectorMultiObjIndividual_NSGAII.py:71-77 | a fresh individual has one variable per NB_VARIABLES, each its default when it has one and otherwise a generated value |
| VectorIndividuals.VectorClass.New | sources/PyGenAlg/standards/PYGA_StandardVectorMultiObjIndividual_NSGAII.py:60-79 | the constructor normalises the class lists, then copies the given values or fills every variable |
| VectorIndividuals.VectorClass.Generate | sources/PyGenAlg/standards/PYGA_StandardVectorMultiObjIndividual_NSGAII.py:96-104 | the defaults and ranges are first padded to the number of variables, as `generate` does through `normalise`; then every variable of a generated individual is drawn again, whatever its default, and is admissible for its domain and type |
| VectorIndividuals.VectorClass.Crossover | sources/PyGenAlg/standards/PYGA_StandardVectorMultiObjIndividual_NSGAII.py:173-198 | no variable raises IndexError; one variable gives the average; otherwise the child takes the chosen distinct indices, as many as drawn for the first parent, from the first parent and every other from the second, a short parent raising IndexError |
| VectorIndividuals.VectorClass.Mutation | sources/PyGenAlg/standards/PYGA_StandardVectorMultiObjIndividual_NSGAII.py:201-211 | a parent with fewer variables raises IndexError; otherwise the child copies the parent everywhere but one drawn index, which gets a fresh admissible value |
| VectorIndividuals.ChooseFromFirst | sources/PyGenAlg/standards/PYGA_StandardVectorMultiObjIndividual_NSGAII.py:180-186 | step 2 of the crossover copies the first parent's variable at each distinct chosen index, up to the count asked |
| VectorIndividuals.Redraw | sources/PyGenAlg/standards/PYGA_StandardVectorMultiObjIndividual_NSGAII.py:183-184 | the inner loop yields the next index not yet chosen |
| VectorIndividuals.TakeFromSecond | sources/PyGenAlg/standards/PYGA_StandardVectorMultiObjIndividual_NSGAII.py:188-190 | every index not chosen takes the second parent's variable |
| VectorIndividuals.CopyVariables | sources/PyGenAlg/standards/PYGA_StandardVectorMultiObjIndividual_NSGAII.py:205-206 | the mutation starts from a copy of the parent's variables, or raises when the parent has fewer |
| VectorIndividuals.MutationKeepsOthers | sources/PyGenAlg/standards/PYGA_StandardVectorMultiObjIndividual_NSGAII.py:108-211 | a mutant whose new value compares equal to the old one is a duplicate of its parent |
| Positionning.Overlap | tests/positionning/positionning_indiv.py:93-112 | the cells two ranges of a conflict share never outnumber the first range |
| Positionning.ColHits | tests/positionning/positionning_indiv.py:99-112 | the columns of the first object that lie under the second number at most its width |
| Positionning.RowHits | tests/positionning/positionning_indiv.py:99-112 | the rows of the first object that lie under the second number at most its height |
| Positionning.ColHitsOverlap | tests/positionning/positionning_indiv.py:99-112 | the column count of the conflict loop is the size of the intersection of the two column ranges x .. x + w - 1 |
| Positionning.RowHitsOverlap | tests/positionning/positionning_indiv.py:99-112 | the row count of the conflict loop is the size of the intersection of the two row ranges y - h + 1 .. y |
| Positionning.ConflictIsOverlap | tests/positionning/positionning_indiv.py:93-112 | a conflict is the number of grid cells both footprints cover: the product of the column and row intersections |
| Positionning.ConflictSymmetric | tests/positionning/positionning_indiv.py:93-112 | two objects conflict on as many cells whichever is taken first |
| Positionning.ConflictBounded | tests/positionning/positionning_indiv.py:93-112 | a conflict never exceeds the first object's area w1 * h1 |
| Positionning.Conflict | tests/positionning/positionning_indiv.py:93-112 | the nested counting loop of `__conflict` returns the number of shared cells |
| Positionning.Fitness | tests/positionning/positionning_indiv.py:62-68 | fitness is the sum of the conflicts over the index pairs i1 < i2, and is never negative |
| Positionning.RowTotalZero | tests/positionning/positionning_indiv.py:62-68 | the conflicts of one object with the later ones sum to zero exactly when each is zero |
| Positionning.TotalZero | tests/positionning/positionning_indiv.py:62-68 | the fitness is zero exactly when no two objects share a cell |
| Positionning.InSpaceIffCellsInGrid | tests/positionning/positionning_indiv.py:77-91 | an object is not out of space exactly when every cell of its rectangle lies on the W x H grid |
| Positionning.GenerateAnchor | tests/positionning/positionning_indiv.py:220-231 | `__generateAnchor` uses at most 101 draws, each on the grid; it returns the first acceptable draw, or the 101st draw when none of the first 100 is; an empty grid raises ValueError from randint |
| Positionning.Generate | tests/positionning/positionning_indiv.py:54-60 | generate anchors one position per object, every one on the grid; it raises ValueError exactly for an empty grid and a non-empty object list, and ends without a result only once every anchor draw is used |
| Positionning.Crossover | tests/positionning/positionning_indiv.py:132-143 | the two children swap the parents' positions exactly at the exchanged indices and keep them elsewhere, so at every index the pair of children's positions is the pair of parents'; no objects make `randint(0, -1)` raise ValueError |
| Positionning.SwapMutation | tests/positionning/positionning_indiv.py:184-194 | the swap branch exchanges two distinct positions only when both objects stay in space, and every earlier drawn pair was rejected; fewer than two objects make `random.sample` raise ValueError |
| Positionning.MutedIndexes | tests/positionning/positionning_indiv.py:155-172 | the list of objects to move holds exactly nbMuted valid indices; it is missing only when the coins (conflict mode) or the index draws are all used |
| Positionning.Moved | tests/positionning/positionning_indiv.py:173-182 | a moved object takes each coordinate from its old anchor or from the fresh one: x only when r <= 0.3, y only when 0.3 < r <= 0.6 |
| Positionning.MoveListed | tests/positionning/positionning_indiv.py:173-183 | only the listed objects move, each coordinate either kept or drawn from the grid; it ends without a result only when the components or the anchor draws run out |
| Positionning.Mutation | tests/positionning/positionning_indiv.py:153-195 | a mutant has as many positions as its parent; the swap branch exchanges two positions that both stay in space and ends without a result only after every given pair was rejected; the other branch changes coordinates only to grid values and ends without a result only when the coins, index draws, components or anchor draws run out |
| Positionning.PositionningIndiv.constructor | tests/positionning/positionning_indiv.py:31-34 | a new individual has no positions and no fitness |
| Positionning.PositionningIndiv.Duplicate | tests/positionning/positionning_indiv.py:121-126 | duplicate returns a new individual holding the same positions and no fitness; unset positions raise a TypeError |
| Positionning.IsBetterStrictOrder | tests/positionning/positionning_indiv.py:128-129 | isBetter (a smaller fitness, None below every number) is irreflexive, asymmetric and transitive |
| Sphere.SquareOfAbs | tests/benchmark/Sphere_indiv.py:40-44 | a squared coordinate is the square of its magnitude and is never negative |
| Sphere.SumSquares | tests/benchmark/Sphere_indiv.py:40-44 | the sum of the squared coordinates is never negative |
| Sphere.SumSquaresSnoc | tests/benchmark/Sphere_indiv.py:42-43 | each step of the fitness loop adds the square of the next coordinate |
| Sphere.SphereIndiv.Fitness | tests/benchmark/Sphere_indiv.py:40-44 | fitness stores and returns the sum of the squared coordinates, which is at least zero |
| Sphere.SameFrom | tests/benchmark/Sphere_indiv.py:52-59 | the scan from index i answers True exactly when every remaining coordinate equals the other's, and raises IndexError exactly when they agree up to the end of a shorter other list |
| Sphere.IsDuplicationOf | tests/benchmark/Sphere_indiv.py:52-59 | isDuplication is True exactly when the coordinates are equal one by one, False at the first difference, and raises IndexError when the other point is a shorter matching prefix |
| Sphere.IsDuplicationReflexive | tests/benchmark/Sphere_indiv.py:52-59 | every point is a duplicate of itself |
| Sphere.CrossoverCoordinates | tests/benchmark/Sphere_indiv.py:65-73 | the child takes, coordinate by coordinate, the parent value of smaller magnitude, parent1's on a tie; a shorter parent2 raises IndexError |
| Sphere.SquareMono | tests/benchmark/Sphere_indiv.py:70-73 | a value of smaller magnitude has a smaller square |
| Sphere.SumSquaresMono | tests/benchmark/Sphere_indiv.py:65-73 | a point whose every coordinate is no larger in magnitude has no larger fitness |
| Sphere.PrefixSumSquaresMono | tests/benchmark/Sphere_indiv.py:65-73 | the same holds for every prefix of the two points |
| Sphere.CrossoverNoWorse | tests/benchmark/Sphere_indiv.py:65-73 | the crossover child's fitness is at most that of each parent |
| Sphere.Crossover | tests/benchmark/Sphere_indiv.py:65-73 | crossover returns a new individual with no fitness that is no worse than either parent, or raises when parent2 is shorter |
| Sphere.NbMuteBounds | tests/benchmark/Sphere_indiv.py:78 | `int(random() * (n - 1)) + 1` lies between 1 and n - 1 for two or more coordinates |
| Sphere.ArgMinAbs | tests/benchmark/Sphere_indiv.py:83-86 | the inner loop finds the first listed index whose coordinate is smallest in magnitude |
| Sphere.ReplaceKeepsTop | tests/benchmark/Sphere_indiv.py:87-88 | replacing the smallest listed coordinate by a larger one keeps the listed coordinates the largest seen |
| Sphere.AppendKeepsTop | tests/benchmark/Sphere_indiv.py:81-82 | filling the list with the first indices keeps them the largest seen |
| Sphere.KeepKeepsTop | tests/benchmark/Sphere_indiv.py:83-88 | not replacing when the new coordinate is no larger keeps the listed coordinates the largest seen |
| Sphere.SelectToMute | tests/benchmark/Sphere_indiv.py:78-88 | the mutation selects min(nbMute, n) distinct indices, and no unselected coordinate is larger in magnitude than a selected one |
| Sphere.RedrawCoordinates | tests/benchmark/Sphere_indiv.py:89-90 | exactly the selected coordinates are redrawn, each within [-5.12, 5.12] |
| Sphere.MutateCoordinates | tests/benchmark/Sphere_indiv.py:76-90 | between 1 and n - 1 distinct coordinates of largest magnitude are selected (all of them when there are fewer than two); the result exists exactly when there are draws for each selected one, and then the selected ones are redrawn within the bounds and the others kept |
| Sphere.SphereIndiv.constructor | tests/benchmark/Sphere_indiv.py:24-27 | a new individual holds the given coordinates and no fitness |
| Sphere.SphereIndiv.Duplicate | tests/benchmark/Sphere_indiv.py:46-50 | duplicate returns a new individual with the same coordinates and fitness |
| Sphere.IsBetterStrictOrder | tests/benchmark/Sphere_indiv.py:61-62 | isBetter (a smaller own fitness, None below every number) is irreflexive, asymmetric and transitive |
| Sphere.Mutation | tests/benchmark/Sphere_indiv.py:76-91 | mutation returns a duplicate, fitness kept, exactly when there are draws for each selected coordinate; the selected coordinates, between 1 and n - 1 (all of them when there are fewer than two) and the largest in magnitude, are redrawn within the bounds and the others unchanged |
| Sphere.GetMaxFit | tests/benchmark/Sphere_indiv.py:102-107 | getMaxFit returns the largest fitness present, and None exactly when no individual has one |
| TwoGene.Objective | tests/simple_test/Individual.py:26-27 | f is (x0 + x1 - 1) ** 2: never negative, zero exactly when the two genes sum to 1; fewer than two genes raise IndexError |
| TwoGene.Product | tests/simple_test/Individual.py:26-27 | the product of two positive reals is positive |
| TwoGene.Square | tests/simple_test/Individual.py:26-27 | a square is never negative and is zero exactly at zero |
| TwoGene.Abs | tests/simple_test/Individual.py:111-112 | abs returns the value or its negation, never negative |
| TwoGene.Distance | tests/simple_test/Individual.py:111-112 | distance is the absolute difference of the two fitnesses, zero exactly when they are equal; a missing fitness raises TypeError |
| TwoGene.DistanceSymmetric | tests/behavTest/Individual.py:93-94 | the distance does not depend on the order of the two individuals |
| TwoGene.DistanceTriangle | tests/simple_test/Individual.py:111-112 | the distance satisfies the triangle inequality |
| TwoGene.IsBetterOrder | tests/simple_test/Individual.py:116-117 | isBetter is a strict order on fitnesses with None below every number, and between two numbers it is `<` |
| TwoGene.BaseChoice | tests/simple_test/Individual.py:126-143 | the (parent, index) the crossover picks holds the largest of the four parent genes, with the tie rules of the two comparisons |
| TwoGene.Children | tests/simple_test/Individual.py:123-150 | the children cross the parents around the largest gene, and the first child holds that gene; a parent with fewer than two genes raises IndexError |
| TwoGene.ChildrenKeepGenes | tests/simple_test/Individual.py:144-150 | the two children together hold exactly the four parent genes |
| TwoGene.FirstParentKept | tests/simple_test/Individual.py:144-150 | the genes of the children built around parent1 are the parents' genes rearranged |
| TwoGene.SecondParentKept | tests/simple_test/Individual.py:144-150 | the genes of the children built around parent2 are the parents' genes rearranged |
| TwoGene.PairMultiset | tests/simple_test/Individual.py:144-150 | a two-gene list holds the same genes as the pair |
| TwoGene.MutateGenes | tests/simple_test/Individual.py:157-166 | mutation redraws gene int(r * 2) until it differs from the old value and keeps the other; fewer than two genes raise IndexError |
| TwoGene.Individual.constructor | tests/simple_test/Individual.py:38-40 | a new individual has genes [0, 0] and no fitness |
| TwoGene.Individual.SetValue | tests/simple_test/Individual.py:51-52 | setValue replaces the genes |
| TwoGene.Individual.Duplicate | tests/simple_test/Individual.py:57-61 | duplicate returns a new individual with the first two genes copied and no fitness; fewer than two genes raise IndexError |
| TwoGene.Crossover | tests/simple_test/Individual.py:123-150 | the two-child crossover returns two distinct new individuals with no fitness, holding the two children |
| TwoGene.CrossoverOne | tests/behavTest/Individual.py:105-129 | the one-child crossover returns a new individual with no fitness holding the first child |
| TwoGene.Mutation | tests/simple_test/Individual.py:157-166 | mutation returns a duplicate with exactly one gene changed and the other kept |
| PyMath.FloorDiv | sources/PyGenAlg/standards/PYGA_StandardGenAlgBehavior.py:365-368 | Python 2 integer `/` rounds the quotient down for either sign of the divisor |
| PyMath.Trunc | sources/PyGenAlg/core/PYGA_GenAlg.py:171-173 | `int(x)` truncates toward zero |
| PyMath.RoundHalfAway | sources/PyGenAlg/standards/PYGA_StandardGenAlgBehavior.py:135-138 | Python 2 `round(x)` is within one half of x and rounds halves away from zero |
| PyMath.FloatMod | sources/PyGenAlg/core/PYGA_GenAlg.py:172-173 | float `x % 60` lies in [0, 60) and differs from x by a whole multiple of the modulus |
| Errors.Message | sources/PyGenAlg/core/PYGA_Exceptions.py:45-55 | the text of a must-be-overloaded error names the method in its fixed sentence |
| Errors.OverloadedMessageNamesMethod | sources/PyGenAlg/core/PYGA_Exceptions.py:51-55 | two such errors print the same text exactly when they name the same method |
| Errors.BaseOperationError | sources/PyGenAlg/core/PYGA_Exceptions.py:51-55 | the error a base class raises for an operation is MethodMustBeOverloaded, printed as "This method (<class>.<operation>) must be defined in derived class." |
| Errors.BaseOperationErrorNamesIt | sources/PyGenAlg/core/PYGA_Exceptions.py:51-55 | errors for operations of one class print the same text exactly when the operations are the same |
| Text.UpperChar | sources/PyParamManager/PYPM_ParamManager.py:94 | `upper()` maps a lower-case ASCII letter to its capital and leaves other characters alone |
| Text.Upper | sources/PyParamManager/PYPM_ParamManager.py:94 | `upper()` keeps the length and upper-cases each character |
| Text.UpperIdempotent | sources/PyParamManager/PYPM_ParamManager.py:94 | upper-cased text has no lower-case letter, and upper-casing twice is upper-casing once |
| Text.UpperOfUpper | sources/PyParamManager/PYPM_ParamManager.py:119 | upper-casing text that is already upper case leaves it unchanged |
| Text.Tabs | sources/PyParamManager/PYPM_ParamManager.py:165-171 | `'\t' * tab` is tab tab characters |
| Text.NatToString | sources/PyGenAlg/core/PYGA_GenAlg.py:174-182 | `unicode(n)` of a natural number is a non-empty string of decimal digits without a leading zero |
| Text.NewlinesAppend | sources/PyParamManager/PYPM_ParamManager.py:165-171 | the line breaks of a concatenation are those of its parts |
| Text.TabsNoNewline | sources/PyParamManager/PYPM_ParamManager.py:165-171 | an indentation holds no line break |
| Text.SplitDots | sources/PyParamManager/PYPM_ParamManager.py:133 | `split('.')` gives at least one piece, no piece holds a dot, and dotless text is its own single piece |
| Text.JoinSplit | sources/PyParamManager/PYPM_ParamManager.py:133-137 | `'.'.join` of the pieces of `split('.')` gives back the text, so the deepest prefix is the category itself |

## Left out

### Concurrency, I/O and dynamic dispatch

- Parallel evaluation in `PYGA_Population.computeObjectives` (`multiprocessing` workers and queues): only the serial branch is modelled. Concurrency is outside this model.
- Saving and loading populations and individuals (`savePopulation`, `loadPopulation`, `saveIndividual`, `loadIndividual`, and the generations file of the driver): file I/O.
- Reading the XML parameter files in `PYGA_GenAlgBehavior.addParamFile` (lxml): file I/O. The model takes, in order, the labels a file declares. Setting the class attributes the file describes is not modelled.
- `saveParameters` and `loadParameters` of the parameter manager: file I/O.
- `printLog`, the banner, `printColisions`, and the printed messages of the driver and the behaviours: console output. The time text of the run is modelled (`GenAlgDriver.DurationText`); its printing is not.
- `__str__` of every class: text rendering for display only.
- `eval`/`exec`:
  - the method names the source resolves with `eval` in `selfOptimize`, `selection`, `scaling` and `sharing` are modelled as table lookups;
  - the call by name itself is not.
- `__contains__`, `__getitem__` and `__del__` of the population: Python protocol methods. The model uses Dafny's sequence operations directly.
- `GenAlg.getBestIndividual`, `getPopulation`, `setParameters` and `getParameters` (`PYGA_GenAlg.py:189-203`): one-line delegations to the population and the behaviour, which are modelled there.
- `PYGA_PopulationError` for a missing population file: file I/O.

### Floating point and randomness

- Floats are exact reals: no rounding, no NaN, no infinities except the crowding distance's `float('inf')`, which is the `ExtReal` datatype.
- `random`:
  - each draw is an oracle sequence given to the operation;
  - which parents `getRandomIndividual` draws is not modelled: the drivers take the results of the individual class's `crossover` and `mutation` as given sequences;
  - the `canBeCrossed`/`canBeMuted` redraws of parents are not modelled.
- `rouletteSelection`, `exponentialScaling` and the gen-0 branch of `optimizeInflDist` use `pow` on floats and random real draws. No exact-real model of `pow` is available here. `rouletteSelection` also calls `getOptimisedFitness`, which no class defines.
- StandardBehavior.BasicSharing: a `None` distance between two individuals is not modelled. The distance callback returns a real, and the same holds for `StandardBehavior.SharedFits`. In Python 2 a `None` distance makes `None / D` raise `TypeError`.
- `StandardBehavior.BasicSharing`: the influence `1 - (d / D) ** shareRate` is a function parameter, because `**` with a real exponent has no exact-real model.
- `clusteredSharing`: its body does nothing.
- The `Optimize*` functions of `SelfOptimize` return the new value. The caller stores it with `setParameters`, which the parameter registry models.
- `sys.maxint` in the vector individual is the 64-bit value `2 ** 63 - 1`.

### Termination

- `GenAlgDriver.GenAlg.Run` requires that the stop criteria eventually fire: with `nb_generations` and `end_time` both unbounded, the source runs for ever.
- `Selections.BestSelectionAsWritten` and `Selections.BestSelection` return `Diverges` where Python recurses until it raises a recursion-depth `RuntimeError`.
- Populations.Population.GenerateInitPop and Populations.GrowPopulation take the individuals `generate` returns as a finite oracle sequence and report `ranOut` when it ends short of the target. Python calls `generate` again and again; it never ends when `generate` cannot yield enough individuals that duplicate no member.
- The redraw loops of the example individuals (positionning anchors, the two-gene and vector mutations) end with `OutOfDraws` only when the oracle runs out, which their contracts state. No other bound is imposed.

### Requirements the model adds

- Populations.Population.Merge: requires `other != this`. Merging a population into itself never ends in Python, because the loop over `other` keeps growing; the only caller, `__add__` (`PYGA_Population.py:475-478`), merges into a fresh duplicate.

- `StandardBehavior.LinearScaling` and `StandardBehavior.BasicSharing` require the listed individuals to be distinct objects. The population never holds the same object twice; one listed twice would be scaled twice.
- `Nsgaii.NsgaiiFitness`, `Nsgaii.ComputeCrowding` and `Nsgaii.IsBetter` (when it computes crowding distances) require every individual to have its objectives computed, with at least NB_OBJECTIVES values, and OBJ_TYPES that long (`Nsgaii.Evaluated`, `Nsgaii.ObjectivesFit`). On other individuals Python raises TypeError or IndexError part-way through, after some fronts or distances are already written; `MultiObj.Dominate` models those errors for one comparison.
- `Nsgaii` crowding requires the front members to be distinct objects. With the same object listed twice, Python's last write of the crowding distance wins; the model does not follow that.

### Example individuals

- Vector individual:
  - definition domains given as strings are modelled only through the parsed `Domain` value; the string parsing is left out;
  - `blank`, `getVariables`, `objectives` and `computeObj` are accessors or abstract hooks that subclasses define.
- Positionning:
  - `distance` uses `sqrt`, which has no exact-real model;
  - `getAllObjectRect` only builds plotting data;
  - the non-`canTouch` branch of `__conflict` is dead code, because `__canTouch` is always True;
  - `generate` and `crossover` work on the positions only, as lists, and `PositionningIndiv` holds them for `duplicate` and `isBetter`.
- `Positionning.Fitness` returns the conflict count as an integer. Python accumulates it into the float `0.0`, which gives the same value.
- `Positionning.MutedIndexes` states how many indices it lists and that each one is valid. It does not state which member of a conflicting pair each coin picks.
- `Positionning.Mutation` states for the anchor branch that coordinates change only to grid values. That only the listed objects move is stated by `Positionning.MoveListed`.
- Sphere:
  - `generate` draws 30 uniform coordinates (random draws only);
  - `biasCrossoverSelection` and the roulette helpers use random real draws, like `rouletteSelection`.
- `Sphere.SphereIndiv.constructor` takes the coordinates. The Python constructor sets them to `None` and `generate` fills them right after.
- Two-gene examples:
  - `generate`, `saveIndividual` and `loadIndividual` are random draws and file I/O;
  - the counting loop in the simple example's `fitness` has no effect;
  - the `SLEEP` delay of the behaviour example is a clock effect;
  - negative indices of `__getitem__` are not modelled, since the crossover reads only indices 0 and 1.

### Runtime types of the vector individual

- VectorIndividuals.Halve: the model divides floats exactly and ints by floor division, after the variable's declared type. Python 2 divides after the runtime types of the two values. Int values of a float variable are floor-divided and then cast to float: parents 1 and 2 give 1.0, where the model gives 1.5. Float values of an int variable are divided exactly and then truncated: parents 0.5 and 1.5 give 1, where the model gives 0; parents -1.5 and -1.5 give -1, where the model gives -2.
- VectorIndividuals.VectorClass.Crossover: carries Halve's difference for one-variable individuals.

### Printing the parameters

- ParamManager.ListRepr: quotes every label with `'` and escapes nothing. Python's `repr` of a string switches to `"` quotes when the label holds a `'`, and escapes backslashes and control characters. The labels the library registers are plain identifiers, for which the two texts agree.
- ParamManager.Manager.GetPrintInformation: entries of the printed dictionary come in the order their keys were first set, and a category's parameters are added in registration order. Python 2 visits both in hash order, so the printed text may list the same entries in another order. The `paramDict` reference of the source is modelled as a key path into the dictionary; this is exact, because no dictionary is shared between two keys.

## Findings

| source | as written | input that shows it | evidently intended | confidence | as-written member | corrected member |
|---|---|---|---|---|---|---|
| sources/PyGenAlg/standards/PYGA_StandardGenAlgBehavior.py:279-293 | the scan of the earlier mutants is nested inside the loop over `newPop`, so with an empty `newPop` a mutant is never checked against the other mutants | empty `newPop`, one earlier mutant equal to the new one: the duplicate is accepted | a mutant is rejected when it duplicates a member of `newPop` or an earlier mutant | not executed | Offspring.ScanAsWritten, Offspring.MutationCheckSkipped | Offspring.ScanBoth |
| sources/PyGenAlg/standards/PYGA_StandardGenAlgBehavior.py:489-513 | with duplicate avoidance the fill step loops over the still-empty `bestPop`, so nothing is ever added, and selection always falls back on duplicates allowed | population `[1, 1, 2]`, two to select, equal values duplicates: as written both 1s are kept | keep the best members with no duplicates, falling back on duplicates only when there are not enough distinct members | not executed | Selections.BestSelectionAsWritten, Selections.FirstPassAsWritten, Selections.DuplicatesKept | Selections.BestSelection, Selections.BestOfDistinct |
| sources/PyGenAlg/standards/PYGA_StandardGenAlgBehavior.py:716-718 | `basicSharing` calls `getOptimisedFitness`, which no class defines (the base class defines `getFitness` and `setOptimizedFitness`) | any non-zero share rate on a non-empty population raises AttributeError | read the optimised fitness with `getFitness` | not executed | StandardBehavior.SharingAsWritten | StandardBehavior.BasicSharing |
| sources/PyGenAlg/standards/PYGA_StandardGenAlgBehavior.py:733-734 | the shared fitness is the fitness divided by the density itself | fitness 1 and density 0.5 give 2, so sharing raises the fitness it should lower | the Goldberg–Richardson niche count lets the individual count in its own niche, which gives `raw / (1 + Σ influence)` | not executed | StandardBehavior.SharedAsWritten, StandardBehavior.SharedAsWrittenRaises | StandardBehavior.Shared, StandardBehavior.SharingLowers |

