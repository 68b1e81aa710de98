// The standard vector individual for NSGA-II: an individual whose genome is a
// fixed number of variables, each drawn from its own definition domain, with a
// tolerant float comparison, a uniform crossover and a one-variable mutation.
// The class attributes a subclass overrides (number of variables, defaults,
// domains, variable type, sign of the random draws) are the fields of
// `VectorClass`; random draws are oracle sequences passed in.

module VectorIndividuals {
  import opened Errors
  import opened PyMath

  // ---------------------------------------------------------------------
  // Tolerant comparison of two variables
  // ---------------------------------------------------------------------

  /** The default `epsilon` of the comparison. */
  const Epsilon: nat := 20

  function Pow10(e: nat): (p: real)
    ensures p >= 1.0
  {
    if e == 0 then 1.0 else 10.0 * Pow10(e - 1)
  }

  /** `pow(10, -epsilon)`. */
  function Tolerance(eps: nat): (t: real)
    ensures 0.0 < t <= 1.0
  {
    1.0 / Pow10(eps)
  }

  function Abs(x: real): real {
    if x < 0.0 then -x else x
  }

  predicate Close(a: real, b: real, eps: nat) {
    Abs(a - b) < Tolerance(eps)
  }

  /** FLOATCMP: 0 when the two values are within the tolerance, otherwise the
      sign of their order. */
  function FloatCmp(a: real, b: real, eps: nat): (c: int)
    ensures c == 0 <==> Close(a, b, eps)
    ensures c == -1 <==> !Close(a, b, eps) && a < b
    ensures c == 1 <==> !Close(a, b, eps) && b < a
  {
    if Close(a, b, eps) then 0 else if a < b then -1 else 1
  }

  /** Exchanging the operands negates the comparison. */
  lemma FloatCmpAntisymmetric(a: real, b: real, eps: nat)
    ensures FloatCmp(a, b, eps) == -FloatCmp(b, a, eps)
  {
    assert Abs(a - b) == Abs(b - a);
  }

  /** Every value compares equal to itself. */
  lemma FloatCmpReflexive(a: real, eps: nat)
    ensures FloatCmp(a, a, eps) == 0
  {
  }

  // ---------------------------------------------------------------------
  // Duplicate detection
  // ---------------------------------------------------------------------

  /** The variables of `mine` from index i on all compare equal to those of
      `other`. */
  ghost predicate SameFrom(mine: seq<real>, other: seq<real>, i: nat) {
    (i < |mine| ==> |mine| <= |other|) && forall k :: i <= k < |mine| ==> FloatCmp(mine[k], other[k], Epsilon) == 0
  }

  function DuplicationFrom(mine: seq<real>, other: seq<real>, i: nat): (r: Result<bool>)
    requires i <= |mine|
    ensures r == Ok(true) <==> SameFrom(mine, other, i)
    ensures r.Err? ==> r.error == IndexError && |other| < |mine|
    decreases |mine| - i
  {
    if i == |mine| then Ok(true)
    else if i >= |other| then Err(IndexError)
    else if FloatCmp(mine[i], other[i], Epsilon) != 0 then Ok(false)
    else DuplicationFrom(mine, other, i + 1)
  }

  /** isDuplication: every variable compares equal to the other individual's
      variable at the same index; the scan stops at the first that does not,
      and reading past the end of the other's variables raises. */
  function IsDuplication(mine: seq<real>, other: seq<real>): (r: Result<bool>)
    ensures r == Ok(true) <==>
              |mine| <= |other| && forall k :: 0 <= k < |mine| ==> FloatCmp(mine[k], other[k], Epsilon) == 0
    ensures r.Err? ==> r.error == IndexError && |other| < |mine|
    ensures |mine| <= |other| ==> r.Ok?
  {
    DuplicationFrom(mine, other, 0)
  }

  /** An individual is a duplicate of itself. */
  lemma DuplicationReflexive(vars: seq<real>)
    ensures IsDuplication(vars, vars) == Ok(true)
  {
    forall k | 0 <= k < |vars| ensures FloatCmp(vars[k], vars[k], Epsilon) == 0 {
      FloatCmpReflexive(vars[k], Epsilon);
    }
  }

  /** Between individuals with as many variables, duplication is symmetric. */
  lemma DuplicationSymmetric(a: seq<real>, b: seq<real>)
    requires |a| == |b|
    ensures IsDuplication(a, b) == IsDuplication(b, a)
  {
    forall k | 0 <= k < |a| ensures FloatCmp(a[k], b[k], Epsilon) == -FloatCmp(b[k], a[k], Epsilon) {
      FloatCmpAntisymmetric(a[k], b[k], Epsilon);
    }
    assert IsDuplication(a, b).Ok? && IsDuplication(b, a).Ok?;
    assert IsDuplication(a, b) == Ok(true) <==> IsDuplication(b, a) == Ok(true);
    assert IsDuplication(a, b).value == IsDuplication(b, a).value;
  }

  // ---------------------------------------------------------------------
  // Definition domains and random values
  // ---------------------------------------------------------------------

  /** A definition domain such as '[a,b]', ']a,b]', '[a,b[' or ']a,b[',
      already read into its bounds and the closedness of each end. */
  datatype Domain = Domain(lo: real, hi: real, includeFirst: bool, includeLast: bool)

  /** `sys.maxint` on a 64-bit build. */
  const MaxInt: int := 0x7FFF_FFFF_FFFF_FFFF

  /** The domain used for a variable without one: all machine integers. */
  function DomainOf(range: Option<Domain>): (d: Domain)
    ensures range.Some? ==> d == range.value
    ensures range.None? ==> d.includeFirst && d.includeLast && d.lo == -(MaxInt + 1) as real && d.hi == MaxInt as real
  {
    match range
    case None => Domain(-(MaxInt + 1) as real, MaxInt as real, true, true)
    case Some(d) => d
  }

  /** The condition on which a drawn value is drawn again. */
  predicate Rejected(d: Domain, x: real) {
    (x == d.lo && !d.includeFirst) || (x == d.hi && !d.includeLast) || x < d.lo || x > d.hi
  }

  /** Membership of the domain, written the other way round. */
  predicate InDomain(d: Domain, x: real) {
    d.lo <= x <= d.hi && (x == d.lo ==> d.includeFirst) && (x == d.hi ==> d.includeLast)
  }

  /** A draw is redrawn exactly when it lies outside its domain. */
  lemma RejectedOutsideDomain(d: Domain, x: real)
    ensures Rejected(d, x) <==> !InDomain(d, x)
  {
  }

  /** VARIABLES_TYPE: float (the default) or int. */
  datatype VarType = Float | Int

  /** `VARIABLES_TYPE(x)`. */
  function Cast(t: VarType, x: real): (y: real)
    ensures t == Float ==> y == x
    ensures t == Int ==> y == y.Floor as real && Abs(y) <= Abs(x) && Abs(x - y) < 1.0
  {
    if t == Int then Trunc(x) as real else x
  }

  /** The k-th value the generator tries: the first draw is negated when the
      sign coin says so, the redraws never are. */
  function Candidate(draws: seq<real>, k: nat, flip: bool): real
    requires k < |draws|
  {
    if k == 0 && flip then -draws[0] else draws[k]
  }

  /** Whether the first draw is negated: only when draws may be negative and
      the coin `random() < 0.5` came up. */
  function Flip(onlyPositive: bool, coin: bool): bool {
    !onlyPositive && coin
  }

  /** What a generated value satisfies: a float lies in its domain, an int is
      integral. */
  predicate Admissible(range: Option<Domain>, t: VarType, x: real) {
    (t == Float ==> InDomain(DomainOf(range), x)) && (t == Int ==> x == x.Floor as real)
  }

  /** __generateRandomVarValue: draw (and possibly negate) a value, draw again
      while it falls outside the domain, then cast it. `used` is the number of
      draws taken; None means the draws ran out. */
  method GenerateValue(range: Option<Domain>, t: VarType, flip: bool, draws: seq<real>)
    returns (v: Option<real>, used: nat)
    ensures used <= |draws|
    ensures v.Some? ==> 1 <= used && InDomain(DomainOf(range), Candidate(draws, used - 1, flip))
    ensures v.Some? ==> v.value == Cast(t, Candidate(draws, used - 1, flip))
    ensures v.Some? ==> forall k :: 0 <= k < used - 1 ==> Rejected(DomainOf(range), Candidate(draws, k, flip))
    ensures v.None? ==> used == |draws| && forall k :: 0 <= k < |draws| ==> Rejected(DomainOf(range), Candidate(draws, k, flip))
    ensures v.Some? ==> Admissible(range, t, v.value)
  {
    var d := DomainOf(range);
    if |draws| == 0 {
      return None, 0;
    }
    var x := Candidate(draws, 0, flip);
    used := 1;
    while Rejected(d, x)
      invariant 1 <= used <= |draws|
      invariant x == Candidate(draws, used - 1, flip)
      invariant forall k :: 0 <= k < used - 1 ==> Rejected(d, Candidate(draws, k, flip))
      decreases |draws| - used
    {
      if used == |draws| {
        return None, used;
      }
      x := draws[used];
      used := used + 1;
    }
    v := Some(Cast(t, x));
  }

  // ---------------------------------------------------------------------
  // Class attributes
  // ---------------------------------------------------------------------

  function Count(n: int): nat {
    if n > 0 then n else 0
  }

  /** The constructor's normalisation of DEFAULT_VARIABLES_VALUE and
      VARIABLES_RANGES: a list of the wrong length is replaced by Nones. */
  function Padded<X>(s: seq<Option<X>>, n: int): (r: seq<Option<X>>)
    ensures |s| == n ==> r == s
    ensures |s| != n ==> |r| == (if n >= 1 then n else 1) && forall i :: 0 <= i < |r| ==> r[i].None?
  {
    if |s| == n then s else [None] + seq(if n >= 1 then n - 1 else 0, _ => None)
  }

  /** After the normalisation there is an entry per variable. */
  lemma PaddedLength<X>(s: seq<Option<X>>, n: int)
    requires n >= 1
    ensures |Padded(s, n)| == n
  {
  }

  /** Normalising twice is normalising once. */
  lemma {:induction false} PaddedIdempotent<X>(s: seq<Option<X>>, n: int)
    ensures Padded(Padded(s, n), n) == Padded(s, n)
  {
    if |s| != n && n < 1 {
      assert Padded(s, n) == [None];
    }
  }

  /** The outcome of a reproduction: the child's variables, an exception, or
      the random draws running out. */
  datatype Offspring = Made(variables: seq<real>) | Raised(error: Error) | OutOfDraws

  /** `(a + b) / 2` cast to the variable type: true division of floats, floor
      division of ints. */
  function Halve(t: VarType, a: real, b: real): (m: real)
    ensures t == Float ==> m + m == a + b
    ensures t == Int ==> m == FloorDiv(a.Floor + b.Floor, 2) as real
  {
    if t == Int then FloorDiv(a.Floor + b.Floor, 2) as real else (a + b) / 2.0
  }

  /** `1 + int(random() * (nbVar - 2))`: how many variables the child takes
      from its first parent. */
  function FromFirst(r: real, nbVar: int): int {
    1 + Trunc(r * (nbVar - 2) as real)
  }

  /** At least one variable comes from each parent; only for two variables
      can the first parent give all but one. */
  lemma FromFirstBounds(r: real, nbVar: int)
    requires 0.0 <= r < 1.0 && nbVar > 1
    ensures 1 <= FromFirst(r, nbVar) <= nbVar - 1
    ensures nbVar >= 3 ==> FromFirst(r, nbVar) <= nbVar - 2
  {
    var w := (nbVar - 2) as real;
    if nbVar >= 3 {
      FractionBound(r, w);
    } else {
      assert w == 0.0;
    }
  }

  /** `int(random() * nbVar)` for a draw in [0, 1). */
  function IndexOf(p: real, nbVar: int): int {
    Trunc(p * nbVar as real)
  }

  lemma IndexInRange(p: real, nbVar: int)
    requires 0.0 <= p < 1.0 && nbVar >= 1
    ensures 0 <= IndexOf(p, nbVar) < nbVar
  {
    FractionBound(p, nbVar as real);
  }

  function Indices(picks: seq<real>, nbVar: int): (ix: seq<int>)
    ensures |ix| == |picks|
    ensures forall k :: 0 <= k < |picks| ==> ix[k] == IndexOf(picks[k], nbVar)
  {
    seq(|picks|, k requires 0 <= k < |picks| => IndexOf(picks[k], nbVar))
  }

  predicate Distinct(s: seq<int>) {
    forall i, j :: 0 <= i < j < |s| ==> s[i] != s[j]
  }

  /** The values of s in the order they first appear: what the
      draw-again-while-already-chosen loop keeps of a stream of indices. */
  function FirstOccurrences(s: seq<int>): (r: seq<int>)
    ensures |r| <= |s|
  {
    if |s| == 0 then []
    else
      var d := FirstOccurrences(s[..|s| - 1]);
      if s[|s| - 1] in d then d else d + [s[|s| - 1]]
  }

  /** The kept indices are distinct, and are exactly those drawn. */
  lemma {:induction false} FirstOccurrencesDistinct(s: seq<int>)
    ensures Distinct(FirstOccurrences(s))
    ensures forall x :: x in FirstOccurrences(s) <==> x in s
  {
    if |s| > 0 {
      var p := s[..|s| - 1];
      FirstOccurrencesDistinct(p);
      assert s == p + [s[|s| - 1]];
    }
  }

  lemma FirstOccurrencesSnoc(s: seq<int>, k: nat)
    requires k < |s|
    ensures FirstOccurrences(s[..k + 1]) ==
              if s[k] in FirstOccurrences(s[..k]) then FirstOccurrences(s[..k])
              else FirstOccurrences(s[..k]) + [s[k]]
  {
    assert s[..k + 1][..k] == s[..k];
  }

  /** The class attributes of one subclass of the vector individual. */
  class VectorClass {
    const nbVariables: int
    const varType: VarType
    const onlyPositive: bool
    var defaults: seq<Option<real>>
    var ranges: seq<Option<Domain>>

    constructor(nbVariables: int, varType: VarType, onlyPositive: bool,
                defaults: seq<Option<real>>, ranges: seq<Option<Domain>>)
      ensures this.nbVariables == nbVariables && this.varType == varType && this.onlyPositive == onlyPositive
      ensures this.defaults == defaults && this.ranges == ranges
    {
      this.nbVariables := nbVariables;
      this.varType := varType;
      this.onlyPositive := onlyPositive;
      this.defaults := defaults;
      this.ranges := ranges;
    }

    /** Every variable has a default entry and a domain entry. */
    ghost predicate Normalised()
      reads this
    {
      nbVariables <= 0 || (|defaults| == nbVariables && |ranges| == nbVariables)
    }

    /** The first half of the constructor: normalise the class attributes. */
    method Normalise()
      modifies this
      ensures defaults == Padded(old(defaults), nbVariables)
      ensures ranges == Padded(old(ranges), nbVariables)
      ensures Normalised()
    {
      defaults := Padded(defaults, nbVariables);
      ranges := Padded(ranges, nbVariables);
    }

    /** What variable i of a fresh individual holds: its default when it has
        one and defaults are used, otherwise a generated value. */
    ghost predicate Filled(i: nat, x: real, useDefaults: bool)
      reads this
      requires i < |defaults| && i < |ranges|
    {
      if useDefaults && defaults[i].Some? then x == defaults[i].value
      else Admissible(ranges[i], varType, x)
    }

    /** The variable loop of the constructor (useDefaults) and of generate
        (every variable drawn). `coins` are the sign draws, `draws` the values
        of RANDOM_METHOD; None means a stream ran out. */
    method FillVariables(useDefaults: bool, coins: seq<bool>, draws: seq<real>)
      returns (r: Option<seq<real>>, usedCoins: nat, usedDraws: nat)
      requires Normalised()
      ensures usedCoins <= |coins| && usedDraws <= |draws|
      ensures r.Some? ==> |r.value| == Count(nbVariables)
      ensures r.Some? ==> forall i :: 0 <= i < |r.value| ==> Filled(i, r.value[i], useDefaults)
    {
      var vars: seq<real> := [];
      usedCoins, usedDraws := 0, 0;
      var i := 0;
      while i < nbVariables
        invariant 0 <= i == |vars| <= Count(nbVariables)
        invariant usedCoins <= |coins| && usedDraws <= |draws|
        invariant forall k :: 0 <= k < i ==> Filled(k, vars[k], useDefaults)
      {
        if useDefaults && defaults[i].Some? {
          vars := vars + [defaults[i].value];
        } else {
          var flip := false;
          if !onlyPositive {
            if usedCoins == |coins| {
              return None, usedCoins, usedDraws;
            }
            flip := coins[usedCoins];
            usedCoins := usedCoins + 1;
          }
          var v, used := GenerateValue(ranges[i], varType, flip, draws[usedDraws..]);
          usedDraws := usedDraws + used;
          if v.None? {
            return None, usedCoins, usedDraws;
          }
          vars := vars + [v.value];
        }
        i := i + 1;
      }
      r := Some(vars);
    }

    /** The constructor: normalise the class attributes, then copy the given
        values or fill every variable from its default or a draw. */
    method New(values: Option<seq<real>>, coins: seq<bool>, draws: seq<real>) returns (r: Option<seq<real>>)
      modifies this
      ensures defaults == Padded(old(defaults), nbVariables) && ranges == Padded(old(ranges), nbVariables)
      ensures values.Some? ==> r == values
      ensures values.None? && r.Some? ==> |r.value| == Count(nbVariables)
      ensures values.None? && r.Some? ==> forall i :: 0 <= i < |r.value| ==> Filled(i, r.value[i], true)
    {
      Normalise();
      if values.Some? {
        return values;
      }
      var c, d;
      r, c, d := FillVariables(true, coins, draws);
    }

    /** generate: a fresh individual, built by the constructor (which first
        normalises the class attributes), whose every variable is then drawn
        again, whatever its default. */
    method Generate(coins: seq<bool>, draws: seq<real>) returns (r: Option<seq<real>>)
      modifies this
      ensures defaults == Padded(old(defaults), nbVariables) && ranges == Padded(old(ranges), nbVariables)
      ensures r.Some? ==> |r.value| == Count(nbVariables)
      ensures r.Some? ==> forall i :: 0 <= i < |r.value| ==> Admissible(ranges[i], varType, r.value[i])
    {
      Normalise();
      var made, c, d := FillVariables(true, coins, draws);
      if made.None? {
        return None;
      }
      var c2, d2;
      r, c2, d2 := FillVariables(false, coins[c..], draws[d..]);
    }

    /** __simple_crossover: with several variables, a random number of them
        (chosen by index draws, redrawn while already chosen) come from the
        first parent and the rest from the second; with one variable the
        child holds the mean of the parents'. `blank` holds the variables of
        the fresh individual the child starts from. */
    method Crossover(blank: seq<real>, p1: seq<real>, p2: seq<real>, r: real, picks: seq<real>)
      returns (child: Offspring, chosen: seq<int>, used: nat)
      requires |blank| == Count(nbVariables)
      requires 0.0 <= r < 1.0
      requires forall k :: 0 <= k < |picks| ==> 0.0 <= picks[k] < 1.0
      ensures nbVariables <= 0 ==> child == Raised(IndexError)
      ensures nbVariables == 1 && (|p1| == 0 || |p2| == 0) ==> child == Raised(IndexError)
      ensures nbVariables == 1 && |p1| > 0 && |p2| > 0 ==> child == Made([Halve(varType, p1[0], p2[0])])
      ensures child.Raised? ==> child.error == IndexError && (nbVariables <= 0 || |p1| < nbVariables || |p2| < nbVariables)
      ensures nbVariables > 1 && child.Made? ==>
                used <= |picks| && chosen == FirstOccurrences(Indices(picks, nbVariables)[..used])
                && |chosen| == FromFirst(r, nbVariables) && Distinct(chosen)
                && (forall j :: 0 <= j < |chosen| ==> 0 <= chosen[j] < nbVariables)
      ensures nbVariables > 1 && child.Made? ==>
                |child.variables| == nbVariables
                && (forall i :: 0 <= i < nbVariables && i in chosen ==> i < |p1| && child.variables[i] == p1[i])
                && (forall i :: 0 <= i < nbVariables && i !in chosen ==> i < |p2| && child.variables[i] == p2[i])
      ensures child.OutOfDraws? ==>
                nbVariables > 1 && |FirstOccurrences(Indices(picks, nbVariables))| < FromFirst(r, nbVariables)
    {
      chosen, used := [], 0;
      var nb := nbVariables;
      if nb <= 0 {
        return Raised(IndexError), chosen, used;
      }
      if nb == 1 {
        if |p1| == 0 || |p2| == 0 {
          return Raised(IndexError), chosen, used;
        }
        return Made(blank[0 := Halve(varType, p1[0], p2[0])]), chosen, used;
      }
      var count := FromFirst(r, nb);
      FromFirstBounds(r, nb);
      var ix := Indices(picks, nb);
      forall k | 0 <= k < |ix| ensures 0 <= ix[k] < nb {
        IndexInRange(picks[k], nb);
      }
      var vars, stop;
      vars, chosen, used, stop := ChooseFromFirst(blank, p1, count, ix);
      FirstOccurrencesDistinct(ix[..used]);
      if stop.Some? {
        return stop.value, chosen, used;
      }
      var rest := TakeFromSecond(vars, p2, chosen);
      if rest.None? {
        return Raised(IndexError), chosen, used;
      }
      child := Made(rest.value);
    }

    /** __simple_mutation: copy the individual's variables into a fresh one,
        then draw a fresh value for one index chosen at random. */
    method Mutation(blank: seq<real>, parent: seq<real>, pick: real, coin: bool, draws: seq<real>)
      returns (child: Offspring, index: int)
      requires Normalised()
      requires |blank| == Count(nbVariables)
      requires 0.0 <= pick < 1.0
      ensures nbVariables <= 0 || |parent| < nbVariables <==> child == Raised(IndexError)
      ensures !child.Raised? ==> index == IndexOf(pick, nbVariables) && 0 <= index < nbVariables
      ensures child.Made? ==> |child.variables| == nbVariables
      ensures child.Made? ==> forall i :: 0 <= i < nbVariables && i != index ==> child.variables[i] == parent[i]
      ensures child.Made? ==> Admissible(ranges[index], varType, child.variables[index])
      ensures child.OutOfDraws? ==>
                forall k :: 0 <= k < |draws| ==>
                  Rejected(DomainOf(ranges[index]), Candidate(draws, k, Flip(onlyPositive, coin)))
    {
      index := 0;
      var copy := CopyVariables(blank, parent);
      if copy.None? || nbVariables <= 0 {
        return Raised(IndexError), index;
      }
      var vars := copy.value;
      index := IndexOf(pick, nbVariables);
      IndexInRange(pick, nbVariables);
      var v, used := GenerateValue(ranges[index], varType, Flip(onlyPositive, coin), draws);
      if v.None? {
        return OutOfDraws, index;
      }
      child := Made(vars[index := v.value]);
    }
  }

  /** Step 2 of the crossover: draw indices until `count` distinct ones are
      chosen, copying the first parent's variable at each. `stop` is set when
      the draws run out or the first parent is too short. */
  method ChooseFromFirst(vars0: seq<real>, p1: seq<real>, count: int, ix: seq<int>)
    returns (vars: seq<real>, chosen: seq<int>, used: nat, stop: Option<Offspring>)
    requires forall k :: 0 <= k < |ix| ==> 0 <= ix[k] < |vars0|
    ensures used <= |ix| && chosen == FirstOccurrences(ix[..used])
    ensures forall j :: 0 <= j < |chosen| ==> 0 <= chosen[j] < |vars0|
    ensures stop.None? ==> |chosen| == count || count <= 0
    ensures stop.None? ==> |vars| == |vars0|
    ensures stop.None? ==> forall k :: 0 <= k < |vars0| && k in chosen ==> k < |p1| && vars[k] == p1[k]
    ensures stop.None? ==> forall k :: 0 <= k < |vars0| && k !in chosen ==> vars[k] == vars0[k]
    ensures stop == Some(OutOfDraws) ==> |FirstOccurrences(ix)| < count
    ensures stop.Some? && stop.value != OutOfDraws ==> stop.value == Raised(IndexError) && |p1| < |vars0|
  {
    chosen, used, vars, stop := [], 0, vars0, None;
    while |chosen| < count
      invariant used <= |ix| && |vars| == |vars0|
      invariant chosen == FirstOccurrences(ix[..used])
      invariant |chosen| == 0 || |chosen| <= count
      invariant forall j :: 0 <= j < |chosen| ==> 0 <= chosen[j] < |vars0|
      invariant forall k :: 0 <= k < |vars0| && k in chosen ==> k < |p1| && vars[k] == p1[k]
      invariant forall k :: 0 <= k < |vars0| && k !in chosen ==> vars[k] == vars0[k]
      decreases |ix| - used
    {
      if used == |ix| {
        assert ix[..used] == ix;
        return vars, chosen, used, Some(OutOfDraws);
      }
      FirstOccurrencesSnoc(ix, used);
      var iVar := ix[used];
      used := used + 1;
      var next;
      next, used := Redraw(ix, used, chosen);
      if next.None? {
        assert ix[..used] == ix;
        return vars, chosen, used, Some(OutOfDraws);
      }
      iVar := next.value;
      chosen := chosen + [iVar];
      if iVar >= |p1| {
        return vars, chosen, used, Some(Raised(IndexError));
      }
      vars := vars[iVar := p1[iVar]];
    }
  }

  /** The inner loop of step 2: while the last drawn index is already chosen,
      draw another. None means the draws ran out. */
  method Redraw(ix: seq<int>, used0: nat, chosen: seq<int>) returns (next: Option<int>, used: nat)
    requires 1 <= used0 <= |ix|
    requires chosen == FirstOccurrences(ix[..used0 - 1])
    ensures used0 <= used <= |ix|
    ensures next.Some? ==> next.value == ix[used - 1] && next.value !in chosen
    ensures next.Some? ==> FirstOccurrences(ix[..used]) == chosen + [next.value]
    ensures next.None? ==> used == |ix| && FirstOccurrences(ix) == chosen
  {
    used := used0;
    FirstOccurrencesSnoc(ix, used - 1);
    var iVar := ix[used - 1];
    while iVar in chosen
      invariant used0 <= used <= |ix|
      invariant iVar == ix[used - 1]
      invariant FirstOccurrences(ix[..used - 1]) == chosen
      invariant FirstOccurrences(ix[..used]) == if iVar in chosen then chosen else chosen + [iVar]
      decreases |ix| - used
    {
      if used == |ix| {
        assert ix[..used] == ix;
        return None, used;
      }
      FirstOccurrencesSnoc(ix, used);
      iVar := ix[used];
      used := used + 1;
    }
    next := Some(iVar);
  }

  /** Step 3 of the crossover: every index not chosen takes the second
      parent's variable. None means the second parent is too short. */
  method TakeFromSecond(vars0: seq<real>, p2: seq<real>, chosen: seq<int>) returns (vars: Option<seq<real>>)
    ensures vars.None? ==> |p2| < |vars0|
    ensures vars.Some? ==> |vars.value| == |vars0|
    ensures vars.Some? ==> forall k :: 0 <= k < |vars0| && k in chosen ==> vars.value[k] == vars0[k]
    ensures vars.Some? ==> forall k :: 0 <= k < |vars0| && k !in chosen ==> k < |p2| && vars.value[k] == p2[k]
  {
    var v := vars0;
    var i := 0;
    while i < |vars0|
      invariant 0 <= i <= |vars0| && |v| == |vars0|
      invariant forall k :: 0 <= k < |vars0| && k in chosen ==> v[k] == vars0[k]
      invariant forall k :: i <= k < |vars0| ==> v[k] == vars0[k]
      invariant forall k :: 0 <= k < i && k !in chosen ==> k < |p2| && v[k] == p2[k]
    {
      if i !in chosen {
        if i >= |p2| {
          return None;
        }
        v := v[i := p2[i]];
      }
      i := i + 1;
    }
    vars := Some(v);
  }

  /** Step 1 of the mutation: copy every variable of the individual into the
      fresh one. None means the individual has fewer variables. */
  method CopyVariables(blank: seq<real>, parent: seq<real>) returns (vars: Option<seq<real>>)
    ensures vars.Some? <==> |blank| <= |parent|
    ensures vars.Some? ==> vars.value == parent[..|blank|]
  {
    var v := blank;
    var i := 0;
    while i < |blank|
      invariant 0 <= i <= |blank| && |v| == |blank|
      invariant i <= |parent| && forall k :: 0 <= k < i ==> v[k] == parent[k]
    {
      if i >= |parent| {
        return None;
      }
      v := v[i := parent[i]];
      i := i + 1;
    }
    vars := Some(v);
  }

  /** A mutated child is a duplicate of its parent everywhere but at the
      mutated index. */
  lemma MutationKeepsOthers(parent: seq<real>, child: seq<real>, index: int)
    requires |child| <= |parent|
    requires forall i :: 0 <= i < |child| && i != index ==> child[i] == parent[i]
    requires 0 <= index < |child| && FloatCmp(child[index], parent[index], Epsilon) == 0
    ensures IsDuplication(child, parent) == Ok(true)
  {
    forall k | 0 <= k < |child| ensures FloatCmp(child[k], parent[k], Epsilon) == 0 {
      if k != index {
        FloatCmpReflexive(child[k], Epsilon);
      }
    }
  }
}
