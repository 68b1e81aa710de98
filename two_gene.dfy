/** The two-gene individual of the simple and behaviour examples: two reals
    whose fitness is (x0 + x1 - 1)^2, a crossover that keeps the largest of
    the four parent genes, and a mutation that redraws one gene until it
    changes. Both examples share the genes, fitness, duplicate, isBetter and
    mutation; the simple example's crossover makes two children, the
    behaviour example's makes the first of them only. */
module TwoGene {
  import opened Errors
  import opened PyMath
  import SelfOptimize

  // ---------------------------------------------------------------------
  // Fitness, distance and comparison
  // ---------------------------------------------------------------------

  /** f: the square of how far the gene sum is from 1; an individual with
      fewer than two genes raises IndexError. */
  function Objective(v: seq<real>): (r: Result<real>)
    ensures r.Ok? <==> |v| >= 2
    ensures r.Err? ==> r.error == IndexError
    ensures r.Ok? ==> r.value >= 0.0 && (r.value == 0.0 <==> v[0] + v[1] == 1.0)
  {
    if |v| < 2 then Err(IndexError) else Ok(Square(v[0] + v[1] - 1.0))
  }

  function Product(x: real, y: real): (p: real)
    ensures x > 0.0 && y > 0.0 ==> p > 0.0
  {
    x * y
  }

  /** x ** 2, zero exactly at zero. */
  function Square(x: real): (s: real)
    ensures s >= 0.0
    ensures s == 0.0 <==> x == 0.0
  {
    if x < 0.0 then Product(-x, -x) else Product(x, x)
  }

  function Abs(x: real): (a: real)
    ensures a >= 0.0 && (a == x || a == -x)
  {
    if x < 0.0 then -x else x
  }

  /** distance: the absolute difference of the fitnesses; subtracting None
      raises TypeError. */
  function Distance(a: Option<real>, b: Option<real>): (d: Result<real>)
    ensures d.Err? <==> a.None? || b.None?
    ensures d.Err? ==> d.error == TypeError
    ensures d.Ok? ==> d.value >= 0.0 && (d.value == 0.0 <==> a == b)
  {
    if a.None? || b.None? then Err(TypeError)
    else Ok(Abs(a.value - b.value))
  }

  /** The distance does not depend on the order of the two individuals. */
  lemma DistanceSymmetric(a: Option<real>, b: Option<real>)
    ensures Distance(a, b) == Distance(b, a)
  {
  }

  /** The distance satisfies the triangle inequality. */
  lemma DistanceTriangle(a: real, b: real, c: real)
    ensures Distance(Some(a), Some(c)).value
            <= Distance(Some(a), Some(b)).value + Distance(Some(b), Some(c)).value
  {
  }

  /** isBetter is "smaller fitness", with None (not yet computed) below every
      number, as Python 2 orders None: a strict order. */
  lemma IsBetterOrder(a: Option<real>, b: Option<real>, c: Option<real>, x: real, y: real)
    ensures !SelfOptimize.Lt(a, a)
    ensures SelfOptimize.Lt(a, b) && SelfOptimize.Lt(b, c) ==> SelfOptimize.Lt(a, c)
    ensures SelfOptimize.Lt(None, Some(x)) && !SelfOptimize.Lt(Some(x), None)
    ensures SelfOptimize.Lt(Some(x), Some(y)) <==> x < y
  {
  }

  // ---------------------------------------------------------------------
  // Crossover
  // ---------------------------------------------------------------------

  /** parents[parent][index], the parents seen as a list of two. */
  function Gene(p1: seq<real>, p2: seq<real>, parent: int, index: int): real
    requires |p1| >= 2 && |p2| >= 2 && 0 <= parent < 2 && 0 <= index < 2
  {
    if parent == 0 then p1[index] else p2[index]
  }

  function Max(a: real, b: real): real {
    if a < b then b else a
  }

  /** The gene at (parent, index) is at least every one of the four. */
  predicate IsMaxGene(p1: seq<real>, p2: seq<real>, parent: int, index: int)
    requires |p1| >= 2 && |p2| >= 2 && 0 <= parent < 2 && 0 <= index < 2
  {
    forall q, i :: 0 <= q < 2 && 0 <= i < 2 ==> Gene(p1, p2, q, i) <= Gene(p1, p2, parent, index)
  }

  /** The (baseParent, baseIndex) choice of both crossovers: a largest gene,
      taken from the second parent only when it beats the first strictly;
      within the first parent a tie goes to index 0, within the second to
      index 1. */
  function BaseChoice(p1: seq<real>, p2: seq<real>): (c: (int, int))
    requires |p1| >= 2 && |p2| >= 2
    ensures 0 <= c.0 < 2 && 0 <= c.1 < 2
    ensures IsMaxGene(p1, p2, c.0, c.1)
    ensures c.0 == 1 <==> Max(p2[0], p2[1]) > Max(p1[0], p1[1])
    ensures c.0 == 0 ==> (c.1 == 1 <==> p1[0] < p1[1])
    ensures c.0 == 1 ==> (c.1 == 0 <==> p2[0] > p2[1])
  {
    var baseIndex := if p1[0] < p1[1] then 1 else 0;
    if p2[0] > p1[baseIndex] && p2[0] > p2[1] then (1, 0)
    else if p2[1] > p1[baseIndex] then (1, 1)
    else (0, baseIndex)
  }

  /** The genes of the two children: the first keeps the largest gene at its
      own index and the other parent's gene at the other index; the second
      holds the two genes left over, each moved to the other index. A parent
      with fewer than two genes raises IndexError. */
  function Children(p1: seq<real>, p2: seq<real>): (r: Result<(seq<real>, seq<real>)>)
    ensures r.Err? <==> |p1| < 2 || |p2| < 2
    ensures r.Err? ==> r.error == IndexError
    ensures r.Ok? ==> r.value == ([p1[0], p2[1]], [p1[1], p2[0]]) || r.value == ([p2[0], p1[1]], [p2[1], p1[0]])
    ensures r.Ok? ==> forall q, i :: 0 <= q < 2 && 0 <= i < 2 ==>
              Gene(p1, p2, q, i) <= Max(r.value.0[0], r.value.0[1])
  {
    if |p1| < 2 || |p2| < 2 then Err(IndexError)
    else
      var (bp, bi) := BaseChoice(p1, p2);
      if bi == 0 then Ok(([Gene(p1, p2, bp, 0), Gene(p1, p2, 1 - bp, 1)], [Gene(p1, p2, bp, 1), Gene(p1, p2, 1 - bp, 0)]))
      else Ok(([Gene(p1, p2, 1 - bp, 0), Gene(p1, p2, bp, 1)], [Gene(p1, p2, 1 - bp, 1), Gene(p1, p2, bp, 0)]))
  }

  /** The two children hold exactly the four parent genes. */
  lemma ChildrenKeepGenes(p1: seq<real>, p2: seq<real>)
    requires |p1| >= 2 && |p2| >= 2
    ensures multiset(Children(p1, p2).value.0) + multiset(Children(p1, p2).value.1)
            == multiset(p1[..2]) + multiset(p2[..2])
  {
    var r := Children(p1, p2).value;
    var a, b, c, d := p1[0], p1[1], p2[0], p2[1];
    assert p1[..2] == [a, b] && p2[..2] == [c, d];
    if r == ([a, d], [b, c]) {
      FirstParentKept(a, b, c, d);
    } else {
      SecondParentKept(a, b, c, d);
    }
  }

  lemma FirstParentKept(a: real, b: real, c: real, d: real)
    ensures multiset([a, d]) + multiset([b, c]) == multiset([a, b]) + multiset([c, d])
  {
    PairMultiset(a, b);
    PairMultiset(c, d);
    PairMultiset(a, d);
    PairMultiset(b, c);
  }

  lemma SecondParentKept(a: real, b: real, c: real, d: real)
    ensures multiset([c, b]) + multiset([d, a]) == multiset([a, b]) + multiset([c, d])
  {
    PairMultiset(a, b);
    PairMultiset(c, d);
    PairMultiset(c, b);
    PairMultiset(d, a);
  }

  lemma PairMultiset(x: real, y: real)
    ensures multiset([x, y]) == multiset{x, y}
  {
  }

  // ---------------------------------------------------------------------
  // Mutation
  // ---------------------------------------------------------------------

  /** What mutation yields: the child's genes and the redrawn index, the
      error raised, or no draw different from the old gene. */
  datatype Mutated = Made(genes: seq<real>, index: int) | Raised(error: Error) | OutOfDraws

  /** The redraw loop of mutation: the genes of the duplicate, gene
      int(r * 2) redrawn from `draws` until it differs from its old value. */
  method MutateGenes(v: seq<real>, r: real, draws: seq<real>) returns (m: Mutated, used: nat)
    requires 0.0 <= r < 1.0
    ensures m.Raised? <==> |v| < 2
    ensures m.Raised? ==> m.error == IndexError
    ensures m.Made? ==> m.index == Trunc(r * 2.0) && 0 <= m.index < 2
    ensures m.Made? ==> 0 < used <= |draws| && forall k :: 0 <= k < used - 1 ==> draws[k] == v[m.index]
    ensures m.Made? ==> m.genes == v[..2][m.index := draws[used - 1]] && m.genes[m.index] != v[m.index]
    ensures m.OutOfDraws? ==> |v| >= 2 && forall k :: 0 <= k < |draws| ==> draws[k] == v[Trunc(r * 2.0)]
  {
    if |v| < 2 {
      return Raised(IndexError), 0;
    }
    var genes := [v[0], v[1]];
    var i := Trunc(r * 2.0);
    var oldValue := genes[i];
    used := 0;
    while genes[i] == oldValue
      invariant 0 <= used <= |draws|
      invariant genes == v[..2][i := if used == 0 then oldValue else draws[used - 1]]
      invariant forall k :: 0 <= k < used ==> draws[k] == oldValue || k == used - 1
      invariant used > 0 && genes[i] == oldValue ==> draws[used - 1] == oldValue
      decreases |draws| - used
    {
      if used == |draws| {
        return OutOfDraws, used;
      }
      genes := genes[i := draws[used]];
      used := used + 1;
    }
    m := Made(genes, i);
  }

  // ---------------------------------------------------------------------
  // The individual
  // ---------------------------------------------------------------------

  class Individual {
    /** The genes, `__value`. */
    var value: seq<real>
    /** The fitness the base class keeps (getFitness). */
    var fitness: Option<real>

    /** A new individual has genes [0, 0] and no fitness. */
    constructor()
      ensures value == [0.0, 0.0] && fitness == None
    {
      value := [0.0, 0.0];
      fitness := None;
    }

    method SetValue(v: seq<real>)
      modifies this`value
      ensures value == v
    {
      value := v;
    }

    /** duplicate: a new individual with the first two genes copied and no
        fitness. */
    method Duplicate() returns (d: Result<Individual>)
      ensures d.Err? <==> |value| < 2
      ensures d.Err? ==> d.error == IndexError
      ensures d.Ok? ==> fresh(d.value) && d.value.value == value[..2] && d.value.fitness == None
    {
      if |value| < 2 {
        return Err(IndexError);
      }
      var n := new Individual();
      n.value := n.value[0 := value[0]];
      n.value := n.value[1 := value[1]];
      d := Ok(n);
    }

    /** isBetter: a smaller fitness, None below every number. */
    predicate IsBetter(other: Individual)
      reads this, other
    {
      SelfOptimize.Lt(fitness, other.fitness)
    }
  }

  /** The two-child crossover: two fresh individuals holding Children. */
  method Crossover(parent1: Individual, parent2: Individual) returns (r: Result<(Individual, Individual)>)
    ensures r.Err? <==> Children(parent1.value, parent2.value).Err?
    ensures r.Err? ==> r.error == IndexError
    ensures r.Ok? ==> fresh(r.value.0) && fresh(r.value.1) && r.value.0 != r.value.1
    ensures r.Ok? ==> (r.value.0.value, r.value.1.value) == Children(parent1.value, parent2.value).value
    ensures r.Ok? ==> r.value.0.fitness == None && r.value.1.fitness == None
  {
    var p1, p2 := parent1.value, parent2.value;
    if |p1| < 2 || |p2| < 2 {
      return Err(IndexError);
    }
    var (bp, bi) := BaseChoice(p1, p2);
    var newInd1 := new Individual();
    newInd1.value := newInd1.value[bi := Gene(p1, p2, bp, bi)];
    newInd1.value := newInd1.value[1 - bi := Gene(p1, p2, 1 - bp, 1 - bi)];
    var newInd2 := new Individual();
    newInd2.value := newInd2.value[bi := Gene(p1, p2, bp, 1 - bi)];
    newInd2.value := newInd2.value[1 - bi := Gene(p1, p2, 1 - bp, bi)];
    var children := Children(p1, p2).value;
    assert newInd1.value == children.0;
    assert newInd2.value == children.1;
    r := Ok((newInd1, newInd2));
  }

  /** The one-child crossover: a fresh individual holding the first child. */
  method CrossoverOne(parent1: Individual, parent2: Individual) returns (r: Result<Individual>)
    ensures r.Err? <==> Children(parent1.value, parent2.value).Err?
    ensures r.Err? ==> r.error == IndexError
    ensures r.Ok? ==> fresh(r.value) && r.value.fitness == None
    ensures r.Ok? ==> r.value.value == Children(parent1.value, parent2.value).value.0
  {
    var newInd := new Individual();
    var p1, p2 := parent1.value, parent2.value;
    if |p1| < 2 || |p2| < 2 {
      return Err(IndexError);
    }
    var (bp, bi) := BaseChoice(p1, p2);
    newInd.value := newInd.value[bi := Gene(p1, p2, bp, bi)];
    newInd.value := newInd.value[1 - bi := Gene(p1, p2, 1 - bp, 1 - bi)];
    r := Ok(newInd);
  }

  /** mutation: a duplicate with one gene redrawn until it changes; None with
      the outcome when the duplicate raised or the draws ran out. */
  method Mutation(individual: Individual, r: real, draws: seq<real>) returns (child: Option<Individual>, m: Mutated)
    requires 0.0 <= r < 1.0
    ensures child.Some? <==> m.Made?
    ensures m.Raised? <==> |individual.value| < 2
    ensures m.Raised? ==> m.error == IndexError
    ensures child.Some? ==> fresh(child.value) && child.value.value == m.genes && child.value.fitness == None
    ensures m.Made? ==> 0 <= m.index < 2 && |m.genes| == 2
    ensures m.Made? ==> m.genes[m.index] != individual.value[m.index]
    ensures m.Made? ==> m.genes[1 - m.index] == individual.value[1 - m.index]
    ensures m.OutOfDraws? ==> forall k :: 0 <= k < |draws| ==> draws[k] == individual.value[Trunc(r * 2.0)]
  {
    var d := individual.Duplicate();
    if d.Err? {
      return None, Raised(d.error);
    }
    var used;
    m, used := MutateGenes(individual.value, r, draws);
    if m.Made? {
      d.value.value := m.genes;
      child := Some(d.value);
    } else {
      child := None;
    }
  }
}
