// The "best" and "ranking" selection methods of the standard behaviour
// (PYGA_StandardGenAlgBehavior). The population a selection builds is
// modelled by its member list; `isBetter` and `isDuplication` are function
// parameters (the population argument of `isBetter` is fixed for one call);
// the values returned by `random.random()` are an oracle sequence `draws`.

module Selections {
  import opened Errors
  import Populations
  import Clustering
  import MultiObj

  /** What a selection method returns: the selected members, `Diverges` when
      the call never returns, `OutOfDraws` when the given draws run out first. */
  datatype Pick<T> = Selected(members: seq<T>) | Diverges | OutOfDraws

  // ----- bestSelection -----

  /** The scan for the worst member of a full set: `worstInd` moves on to
      every member it is better than. */
  function WorstOf<T>(s: seq<T>, isBetter: (T, T) -> bool): (w: T)
    requires s != []
    ensures w in s
  {
    if |s| == 1 then s[0]
    else
      var w := WorstOf(s[..|s| - 1], isBetter);
      if isBetter(w, s[|s| - 1]) then s[|s| - 1] else w
  }

  /** When `isBetter` is a strict order, no member is worse than the worst one. */
  lemma {:induction false} WorstOfIsWorst<T>(s: seq<T>, isBetter: (T, T) -> bool)
    requires s != [] && Populations.StrictOrderOn(s, isBetter)
    ensures forall x :: x in s ==> !isBetter(WorstOf(s, isBetter), x)
  {
    if |s| > 1 {
      var init := s[..|s| - 1];
      var last := s[|s| - 1];
      assert s == init + [last];
      assert Populations.StrictOrderOn(init, isBetter);
      WorstOfIsWorst(init, isBetter);
      var w := WorstOf(init, isBetter);
      if isBetter(w, last) {
        forall x | x in s ensures !isBetter(last, x) {
          if x in init {
            assert !isBetter(w, x);
          }
        }
      } else {
        forall x | x in s ensures !isBetter(w, x) {
          if x != last {
            assert x in init;
          }
        }
      }
    }
  }

  /** The loop `for ind in bestPop` that finds `worstInd`. */
  method FindWorst<T>(s: seq<T>, isBetter: (T, T) -> bool) returns (worst: Option<T>)
    ensures s == [] <==> worst.None?
    ensures s != [] ==> worst.value == WorstOf(s, isBetter)
  {
    worst := None;
    for i := 0 to |s|
      invariant i == 0 <==> worst.None?
      invariant i > 0 ==> worst.value == WorstOf(s[..i], isBetter)
    {
      assert s[..i + 1][..i] == s[..i];
      if worst.None? || isBetter(worst.value, s[i]) {
        worst := Some(s[i]);
      }
    }
    assert s[..|s|] == s;
  }

  /** `individual.isDuplication` is true of `x` for some selected member. */
  predicate DuplicatedBy<T>(s: seq<T>, x: T, isDuplication: (T, T) -> bool) {
    exists i :: 0 <= i < |s| && isDuplication(s[i], x)
  }

  /** No selected member duplicates an earlier one. */
  predicate NoneDuplicated<T>(s: seq<T>, isDuplication: (T, T) -> bool) {
    forall i, j :: 0 <= i < j < |s| ==> !isDuplication(s[i], s[j])
  }

  method FindDuplicate<T>(s: seq<T>, x: T, isDuplication: (T, T) -> bool) returns (duplicated: bool)
    ensures duplicated <==> DuplicatedBy(s, x, isDuplication)
  {
    duplicated := false;
    for i := 0 to |s|
      invariant duplicated <==> exists j :: 0 <= j < i && isDuplication(s[j], x)
    {
      if isDuplication(s[i], x) {
        duplicated := true;
      }
    }
  }

  /** One step of the loop over the population: the set is filled up to `n`;
      once full, a member gets in only when it is better than the worst
      selected member, which it replaces. With `avoid`, a member that a
      selected one duplicates is passed over. */
  function Kept<T(==)>(best: seq<T>, x: T, n: int, avoid: bool,
                       isBetter: (T, T) -> bool, isDuplication: (T, T) -> bool): seq<T>
    requires 0 < n
  {
    if avoid && DuplicatedBy(best, x, isDuplication) then best
    else if |best| < n then best + [x]
    else
      var w := WorstOf(best, isBetter);
      if isBetter(x, w) then Populations.RemoveLast(best, w) + [x] else best
  }

  /** The set the loop over the population builds. */
  function BestOf<T(==)>(pop: seq<T>, n: int, avoid: bool,
                         isBetter: (T, T) -> bool, isDuplication: (T, T) -> bool): seq<T>
    requires 0 < n
  {
    if pop == [] then []
    else Kept(BestOf(pop[..|pop| - 1], n, avoid, isBetter, isDuplication), pop[|pop| - 1], n, avoid, isBetter, isDuplication)
  }

  /** Admission into the set: a member that is not passed over is added to a
      set that is not full; a full set changes only when the member is better
      than its worst one, which then leaves it. */
  lemma KeptSpec<T>(best: seq<T>, x: T, n: int, avoid: bool,
                    isBetter: (T, T) -> bool, isDuplication: (T, T) -> bool)
    requires 0 < n
    ensures avoid && DuplicatedBy(best, x, isDuplication) ==> Kept(best, x, n, avoid, isBetter, isDuplication) == best
    ensures !(avoid && DuplicatedBy(best, x, isDuplication)) && |best| < n ==>
              Kept(best, x, n, avoid, isBetter, isDuplication) == best + [x]
    ensures |best| >= n && !isBetter(x, WorstOf(best, isBetter)) ==>
              Kept(best, x, n, avoid, isBetter, isDuplication) == best
    ensures !(avoid && DuplicatedBy(best, x, isDuplication)) && |best| >= n && isBetter(x, WorstOf(best, isBetter)) ==>
              |Kept(best, x, n, avoid, isBetter, isDuplication)| == |best|
              && multiset(Kept(best, x, n, avoid, isBetter, isDuplication))
                 == multiset(best) - multiset{WorstOf(best, isBetter)} + multiset{x}
  {
    if |best| >= n {
      Populations.RemoveLastSpec(best, WorstOf(best, isBetter));
    }
  }

  /** The set is always drawn from the population. */
  lemma {:induction false} BestOfFromPopulation<T>(pop: seq<T>, n: int, avoid: bool,
                                                   isBetter: (T, T) -> bool, isDuplication: (T, T) -> bool)
    requires 0 < n
    ensures multiset(BestOf(pop, n, avoid, isBetter, isDuplication)) <= multiset(pop)
  {
    if pop != [] {
      var init := pop[..|pop| - 1];
      var x := pop[|pop| - 1];
      assert pop == init + [x];
      BestOfFromPopulation(init, n, avoid, isBetter, isDuplication);
      var b := BestOf(init, n, avoid, isBetter, isDuplication);
      if |b| >= n && !(avoid && DuplicatedBy(b, x, isDuplication)) {
        var w := WorstOf(b, isBetter);
        if isBetter(x, w) {
          Populations.RemoveLastSpec(b, w);
          assert multiset(b) - multiset{w} <= multiset(init);
        }
      }
    }
  }

  /** The set holds at most `n` members and at most all of the population; with duplicates allowed it holds
      `n`, or all of them when the population is smaller. */
  lemma {:induction false} BestOfSize<T>(pop: seq<T>, n: int, avoid: bool,
                                         isBetter: (T, T) -> bool, isDuplication: (T, T) -> bool)
    requires 0 < n
    ensures |BestOf(pop, n, avoid, isBetter, isDuplication)| <= n
    ensures |BestOf(pop, n, avoid, isBetter, isDuplication)| <= |pop|
    ensures !avoid ==> |BestOf(pop, n, avoid, isBetter, isDuplication)| == if |pop| < n then |pop| else n
  {
    if pop != [] {
      var init := pop[..|pop| - 1];
      var x := pop[|pop| - 1];
      BestOfSize(init, n, avoid, isBetter, isDuplication);
      var b := BestOf(init, n, avoid, isBetter, isDuplication);
      if |b| >= n {
        Populations.RemoveLastSpec(b, WorstOf(b, isBetter));
      }
    }
  }

  /** With duplicate avoidance no selected member duplicates an earlier one. */
  lemma {:induction false} BestOfDistinct<T>(pop: seq<T>, n: int, isBetter: (T, T) -> bool, isDuplication: (T, T) -> bool)
    requires 0 < n
    ensures NoneDuplicated(BestOf(pop, n, true, isBetter, isDuplication), isDuplication)
  {
    if pop != [] {
      var init := pop[..|pop| - 1];
      var x := pop[|pop| - 1];
      BestOfDistinct(init, n, isBetter, isDuplication);
      var b := BestOf(init, n, true, isBetter, isDuplication);
      if !DuplicatedBy(b, x, isDuplication) {
        if |b| < n {
          AppendDistinct(b, x, isDuplication);
        } else {
          var w := WorstOf(b, isBetter);
          if isBetter(x, w) {
            var k := Populations.LastIndexOf(b, w);
            RemoveAtDistinct(b, k, isDuplication);
            Populations.RemoveAtSpec(b, k);
            var rest := Populations.RemoveAt(b, k);
            assert !DuplicatedBy(rest, x, isDuplication) by {
              forall i | 0 <= i < |rest| ensures !isDuplication(rest[i], x) {
                if i < k {
                  assert rest[i] == b[i];
                } else {
                  assert rest[i] == b[i + 1];
                }
              }
            }
            AppendDistinct(rest, x, isDuplication);
          }
        }
      }
    }
  }

  lemma AppendDistinct<T>(s: seq<T>, x: T, isDuplication: (T, T) -> bool)
    requires NoneDuplicated(s, isDuplication) && !DuplicatedBy(s, x, isDuplication)
    ensures NoneDuplicated(s + [x], isDuplication)
  {
    var t := s + [x];
    forall i, j | 0 <= i < j < |t| ensures !isDuplication(t[i], t[j]) {
      if j < |s| {
        assert t[i] == s[i] && t[j] == s[j];
      } else {
        assert t[i] == s[i];
      }
    }
  }

  lemma RemoveAtDistinct<T>(s: seq<T>, k: nat, isDuplication: (T, T) -> bool)
    requires k < |s| && NoneDuplicated(s, isDuplication)
    ensures NoneDuplicated(Populations.RemoveAt(s, k), isDuplication)
  {
    Populations.RemoveAtSpec(s, k);
    var t := Populations.RemoveAt(s, k);
    forall i, j | 0 <= i < j < |t| ensures !isDuplication(t[i], t[j]) {
      var ii := if i < k then i else i + 1;
      var jj := if j < k then j else j + 1;
      assert t[i] == s[ii] && t[j] == s[jj];
    }
  }

  function Less(a: int, b: int): bool {
    a < b
  }

  function Same(a: int, b: int): bool {
    a == b
  }

  /** With the population `[1, 1, 2]`, two members to select, smaller values
      better and equal values duplicates, the pass without duplicate
      avoidance keeps both 1s, while duplicate avoidance keeps a 1 and the 2. */
  lemma DuplicatesKept()
    ensures BestOf([1, 1, 2], 2, false, Less, Same) == [1, 1]
    ensures BestOf([1, 1, 2], 2, true, Less, Same) == [1, 2]
  {
    var less, same := Less, Same;
    assert [1, 1, 2][..2] == [1, 1] && [1, 1][..1] == [1] && [1][..0] == [];
    assert BestOf([1], 2, false, less, same) == [1];
    assert BestOf([1, 1], 2, false, less, same) == [1, 1];
    assert WorstOf([1, 1], less) == 1;
    assert BestOf([1], 2, true, less, same) == [1];
    assert DuplicatedBy([1], 1, same);
    assert BestOf([1, 1], 2, true, less, same) == [1];
    assert !DuplicatedBy([1], 2, same);
  }

  /** The first pass of `bestSelection` as written: with `noDupl` the fill
      branch loops over the still empty `bestPop`, so it adds nothing and
      the set stays empty; the full branch is then never reached. */
  method FirstPassAsWritten<T(==)>(pop: seq<T>, n: int, noDupl: bool,
                                   isBetter: (T, T) -> bool, isDuplication: (T, T) -> bool)
    returns (best: seq<T>)
    ensures n <= 0 || noDupl ==> best == []
    ensures 0 < n && !noDupl ==> best == BestOf(pop, n, false, isBetter, isDuplication)
  {
    best := [];
    if n > 0 {
      for i := 0 to |pop|
        invariant noDupl ==> best == []
        invariant !noDupl ==> best == BestOf(pop[..i], n, false, isBetter, isDuplication)
      {
        assert pop[..i + 1][..i] == pop[..i];
        var x := pop[i];
        if |best| < n {
          if noDupl {
            // `for indiv in bestPop: if not indiv.isDuplication(individual): add`
            best := best + Copies(MissedBy(best, x, isDuplication), x);
          } else {
            best := best + [x];
          }
        } else {
          var worst := FindWorst(best, isBetter);
          if isBetter(x, worst.value) {
            best := Populations.RemoveLast(best, worst.value) + [x];
          }
        }
      }
      assert pop[..|pop|] == pop;
    }
  }

  /** `x` once for every member of `s`. */
  function Copies<T>(s: seq<T>, x: T): seq<T> {
    seq(|s|, k => x)
  }

  /** The members of `s` that do not duplicate `x`. */
  function MissedBy<T>(s: seq<T>, x: T, isDuplication: (T, T) -> bool): seq<T> {
    if s == [] then []
    else MissedBy(s[..|s| - 1], x, isDuplication) + (if isDuplication(s[|s| - 1], x) then [] else [s[|s| - 1]])
  }

  /** The first pass of `bestSelection` with the evidently intended
      duplicate check: a member that a selected one duplicates is not added
      and does not replace the worst one. */
  method FirstPass<T(==)>(pop: seq<T>, n: int, noDupl: bool,
                          isBetter: (T, T) -> bool, isDuplication: (T, T) -> bool)
    returns (best: seq<T>)
    ensures n <= 0 ==> best == []
    ensures 0 < n ==> best == BestOf(pop, n, noDupl, isBetter, isDuplication)
  {
    best := [];
    if n > 0 {
      for i := 0 to |pop|
        invariant best == BestOf(pop[..i], n, noDupl, isBetter, isDuplication)
      {
        assert pop[..i + 1][..i] == pop[..i];
        var x := pop[i];
        var duplicated := false;
        if |best| < n {
          if noDupl {
            duplicated := FindDuplicate(best, x, isDuplication);
          }
          if !duplicated {
            best := best + [x];
          }
        } else {
          var worst := FindWorst(best, isBetter);
          if isBetter(x, worst.value) {
            if noDupl {
              duplicated := FindDuplicate(best, x, isDuplication);
            }
            if !duplicated {
              best := Populations.RemoveLast(best, worst.value) + [x];
            }
          }
        }
      }
      assert pop[..|pop|] == pop;
    }
  }

  /** `noDupl`, or the configured DEL_DUPLICATED_INDIV parameter when it is None. */
  function Avoids(noDupl: Option<bool>, delDuplicated: bool): bool {
    if noDupl.Some? then noDupl.value else delDuplicated
  }

  /** `bestSelection(population, nbIndSelected, noDupl)` as written: the
      duplicate check never lets a member in, so a positive count always
      falls back on the call with duplicates allowed, whatever `noDupl`
      says; when the count exceeds the population that call falls back on
      itself for ever. */
  method BestSelectionAsWritten<T(==)>(pop: seq<T>, n: int, noDupl: Option<bool>, delDuplicated: bool,
                                       isBetter: (T, T) -> bool, isDuplication: (T, T) -> bool)
    returns (r: Pick<T>)
    ensures n <= 0 ==> r == Selected([])
    ensures 0 < n <= |pop| ==> r == Selected(BestOf(pop, n, false, isBetter, isDuplication))
    ensures n > |pop| ==> r == Diverges
  {
    var best := FirstPassAsWritten(pop, n, Avoids(noDupl, delDuplicated), isBetter, isDuplication);
    if n > 0 {
      BestOfSize(pop, n, false, isBetter, isDuplication);
    }
    if |best| < n {
      // Duplication could not be avoided: `bestSelection(population, nbIndSelected, False)`.
      var again := FirstPassAsWritten(pop, n, false, isBetter, isDuplication);
      if |again| < n {
        // That call makes the very same call again, and so on.
        return Diverges;
      }
      best := again;
    }
    r := Selected(best);
  }

  /** `bestSelection` with the evidently intended duplicate check. The
      result holds exactly the requested number of members of the
      population; no member duplicates an earlier one when the pass with
      duplicate avoidance found enough of them, and otherwise the selection
      falls back on duplicates allowed. */
  method BestSelection<T(==)>(pop: seq<T>, n: int, noDupl: Option<bool>, delDuplicated: bool,
                              isBetter: (T, T) -> bool, isDuplication: (T, T) -> bool)
    returns (r: Pick<T>)
    ensures n <= 0 ==> r == Selected([])
    ensures r.Selected? ==> |r.members| == (if n < 0 then 0 else n) && multiset(r.members) <= multiset(pop)
    ensures 0 < n && Avoids(noDupl, delDuplicated) && |BestOf(pop, n, true, isBetter, isDuplication)| == n ==>
              r == Selected(BestOf(pop, n, true, isBetter, isDuplication))
              && NoneDuplicated(r.members, isDuplication)
    ensures 0 < n <= |pop| && !(Avoids(noDupl, delDuplicated) && |BestOf(pop, n, true, isBetter, isDuplication)| == n) ==>
              r == Selected(BestOf(pop, n, false, isBetter, isDuplication))
    ensures n > |pop| ==> r == Diverges
  {
    var avoid := Avoids(noDupl, delDuplicated);
    var best := FirstPass(pop, n, avoid, isBetter, isDuplication);
    if n > 0 {
      BestOfSize(pop, n, avoid, isBetter, isDuplication);
      BestOfSize(pop, n, false, isBetter, isDuplication);
      BestOfFromPopulation(pop, n, avoid, isBetter, isDuplication);
      BestOfFromPopulation(pop, n, false, isBetter, isDuplication);
      BestOfDistinct(pop, n, isBetter, isDuplication);
    }
    if |best| < n {
      // Duplication could not be avoided: `bestSelection(population, nbIndSelected, False)`.
      var again := FirstPass(pop, n, false, isBetter, isDuplication);
      if |again| < n {
        // That call makes the very same call again, and so on.
        return Diverges;
      }
      best := again;
    }
    r := Selected(best);
  }

  // ----- rankingSelection -----

  /** Where the ranking inserts position `ip`: past every ranked member
      that `population[ip]` is better than, up to the first it is not. */
  function FirstNotBeaten<T>(pop: seq<T>, order: seq<nat>, ip: nat, isBetter: (T, T) -> bool): (i: nat)
    requires ip < |pop| && MultiObj.Bounded(order, |pop|)
    ensures i <= |order|
    ensures forall j :: 0 <= j < i ==> isBetter(pop[ip], pop[order[j]])
    ensures i < |order| ==> !isBetter(pop[ip], pop[order[i]])
  {
    if order == [] || !isBetter(pop[ip], pop[order[0]]) then 0
    else 1 + FirstNotBeaten(pop, order[1..], ip, isBetter)
  }

  function InsertWorstFirst<T>(pop: seq<T>, order: seq<nat>, ip: nat, isBetter: (T, T) -> bool): (r: seq<nat>)
    requires ip < |pop| && MultiObj.Bounded(order, |pop|)
    ensures |r| == |order| + 1 && MultiObj.Bounded(r, |pop|)
  {
    var i := FirstNotBeaten(pop, order, ip, isBetter);
    order[..i] + [ip] + order[i..]
  }

  /** The ranking of the first `m` positions that `rankingSelection` builds,
      each member represented by its position `ip`. */
  function WorstFirst<T>(pop: seq<T>, m: nat, isBetter: (T, T) -> bool): (order: seq<nat>)
    requires m <= |pop|
    ensures |order| == m && MultiObj.Bounded(order, |pop|)
  {
    if m == 0 then [] else InsertWorstFirst(pop, WorstFirst(pop, m - 1, isBetter), m - 1, isBetter)
  }

  /** `isBetter` is a strict weak order on the members: a strict order in
      which being incomparable is transitive too. */
  ghost predicate StrictWeakOrderOn<T>(s: seq<T>, r: (T, T) -> bool) {
    Populations.StrictOrderOn(s, r)
    && forall x, y, z :: x in s && y in s && z in s && !r(x, y) && !r(y, z) ==> !r(x, z)
  }

  /** No ranked member is better than a later one. */
  ghost predicate WorstToBest<T>(pop: seq<T>, order: seq<nat>, isBetter: (T, T) -> bool)
    requires MultiObj.Bounded(order, |pop|)
  {
    forall a, b :: 0 <= a < b < |order| ==> !isBetter(pop[order[a]], pop[order[b]])
  }

  /** The ranking holds each position of the population exactly once. */
  lemma WorstFirstRanks<T>(pop: seq<T>, isBetter: (T, T) -> bool)
    ensures |WorstFirst(pop, |pop|, isBetter)| == |pop|
    ensures forall i :: 0 <= i < |WorstFirst(pop, |pop|, isBetter)| ==> WorstFirst(pop, |pop|, isBetter)[i] < |pop|
    ensures forall i, j :: 0 <= i < j < |WorstFirst(pop, |pop|, isBetter)| ==>
              WorstFirst(pop, |pop|, isBetter)[i] != WorstFirst(pop, |pop|, isBetter)[j]
  {
    WorstFirstPermutes(pop, |pop|, isBetter);
    MultiObj.RangePermutation(WorstFirst(pop, |pop|, isBetter), |pop|);
  }

  /** The ranking lists every position once. */
  lemma {:induction false} WorstFirstPermutes<T>(pop: seq<T>, m: nat, isBetter: (T, T) -> bool)
    requires m <= |pop|
    ensures multiset(WorstFirst(pop, m, isBetter)) == multiset(MultiObj.Range(m))
  {
    if m > 0 {
      WorstFirstPermutes(pop, m - 1, isBetter);
      var o := WorstFirst(pop, m - 1, isBetter);
      assert multiset(WorstFirst(pop, m, isBetter)) == multiset(o) + multiset{(m - 1) as nat} by {
        assert WorstFirst(pop, m, isBetter) == InsertWorstFirst(pop, o, m - 1, isBetter);
        InsertWorstFirstCount(pop, o, m - 1, isBetter);
      }
      RangeSnoc(m);
    }
  }

  lemma {:induction false} RangeSnoc(m: nat)
    requires m > 0
    ensures multiset(MultiObj.Range(m)) == multiset(MultiObj.Range(m - 1)) + multiset{(m - 1) as nat}
  {
    assert MultiObj.Range(m) == MultiObj.Range(m - 1) + [m - 1];
  }

  lemma {:induction false} InsertWorstFirstCount<T>(pop: seq<T>, order: seq<nat>, ip: nat, isBetter: (T, T) -> bool)
    requires ip < |pop| && MultiObj.Bounded(order, |pop|)
    ensures multiset(InsertWorstFirst(pop, order, ip, isBetter)) == multiset(order) + multiset{ip}
  {
    var i := FirstNotBeaten(pop, order, ip, isBetter);
    assert order == order[..i] + order[i..];
  }

  /** When `isBetter` is a strict weak order, the ranking goes from the
      worst member to the best. */
  lemma {:induction false} WorstFirstOrdered<T>(pop: seq<T>, m: nat, isBetter: (T, T) -> bool)
    requires m <= |pop| && StrictWeakOrderOn(pop, isBetter)
    ensures WorstToBest(pop, WorstFirst(pop, m, isBetter), isBetter)
  {
    if m > 0 {
      WorstFirstOrdered(pop, m - 1, isBetter);
      InsertOrdered(pop, WorstFirst(pop, m - 1, isBetter), m - 1, isBetter);
    }
  }

  lemma InsertOrdered<T>(pop: seq<T>, order: seq<nat>, ip: nat, isBetter: (T, T) -> bool)
    requires ip < |pop| && MultiObj.Bounded(order, |pop|) && StrictWeakOrderOn(pop, isBetter)
    requires WorstToBest(pop, order, isBetter)
    ensures WorstToBest(pop, InsertWorstFirst(pop, order, ip, isBetter), isBetter)
  {
    var i := FirstNotBeaten(pop, order, ip, isBetter);
    var q := InsertWorstFirst(pop, order, ip, isBetter);
    assert q == order[..i] + [ip] + order[i..];
    forall a, b | 0 <= a < b < |q| ensures !isBetter(pop[q[a]], pop[q[b]]) {
      if b < i {
        assert q[a] == order[a] && q[b] == order[b];
      } else if b == i {
        assert q[b] == ip && q[a] == order[a];
        assert isBetter(pop[ip], pop[order[a]]);
        assert pop[ip] in pop && pop[order[a]] in pop;
      } else if a < i {
        assert q[a] == order[a] && q[b] == order[b - 1];
      } else if a == i {
        assert q[a] == ip && q[b] == order[b - 1];
        assert !isBetter(pop[ip], pop[order[i]]);
        if b - 1 > i {
          assert !isBetter(pop[order[i]], pop[order[b - 1]]);
          assert pop[ip] in pop && pop[order[i]] in pop && pop[order[b - 1]] in pop;
        }
      } else {
        assert q[a] == order[a - 1] && q[b] == order[b - 1];
      }
    }
  }

  /** The inner loop of the ranking: `while i < len(sortedPop) and
      indiv.isBetter(sortedPop[i][0])`, then the insertion. */
  method InsertInRanking<T>(pop: seq<T>, order: seq<nat>, ip: nat, isBetter: (T, T) -> bool) returns (r: seq<nat>)
    requires ip < |pop| && MultiObj.Bounded(order, |pop|)
    ensures r == InsertWorstFirst(pop, order, ip, isBetter)
  {
    var i := 0;
    while i < |order| && isBetter(pop[ip], pop[order[i]])
      invariant 0 <= i <= |order|
      invariant forall j :: 0 <= j < i ==> isBetter(pop[ip], pop[order[j]])
    {
      i := i + 1;
    }
    assert i == FirstNotBeaten(pop, order, ip, isBetter);
    r := order[..i] + [ip] + order[i..];
  }

  /** The loop `for ip, indiv in enumerate(population)` that ranks the population. */
  method RankWorstFirst<T>(pop: seq<T>, isBetter: (T, T) -> bool) returns (order: seq<nat>)
    ensures order == WorstFirst(pop, |pop|, isBetter)
  {
    order := [];
    for ip := 0 to |pop|
      invariant order == WorstFirst(pop, ip, isBetter)
    {
      order := InsertInRanking(pop, order, ip, isBetter);
    }
  }

  /** `sum(xrange(n + 1))`. */
  function RankSum(n: nat): (s: nat)
    ensures s * 2 == n * (n + 1) && s >= n
  {
    if n == 0 then 0 else RankSum(n - 1) + n
  }

  /** An entry `[prevProba, nextProba, ip]` of the wheel. */
  datatype Slot = Slot(lo: real, hi: real, ip: nat)

  /** A draw falls in a slot when `prob[0] <= pickedProba < prob[1]`. */
  predicate Holds(slot: Slot, x: real) {
    slot.lo <= x < slot.hi
  }

  /** Each slot starts where the previous one ends. */
  predicate Linked(wheel: seq<Slot>) {
    (forall k :: 0 <= k < |wheel| ==> wheel[k].lo < wheel[k].hi)
    && forall k :: 0 <= k < |wheel| - 1 ==> wheel[k].hi == wheel[k + 1].lo
  }

  /** `float(a) / d`, for a positive `d`. */
  function Ratio(a: nat, d: nat): real {
    if d == 0 then 0.0 else a as real / d as real
  }

  lemma RatioAdd(a: nat, b: nat, d: nat)
    ensures Ratio(a, d) + Ratio(b, d) == Ratio(a + b, d)
  {
  }

  lemma RatioPositive(a: nat, d: nat)
    requires a > 0 && d > 0
    ensures Ratio(a, d) > 0.0
  {
  }

  lemma LinkedSnoc(wheel: seq<Slot>, slot: Slot)
    requires Linked(wheel) && slot.lo < slot.hi
    requires wheel != [] ==> wheel[|wheel| - 1].hi == slot.lo
    ensures Linked(wheel + [slot])
  {
  }

  lemma RatioOne(d: nat)
    requires d > 0
    ensures Ratio(d, d) == 1.0
  {
  }

  /** The loop that builds the wheel: rank `k + 1` (counted from the worst)
      gets a slot of width (k + 1) / rankSum, the slots are linked, and
      together they cover [0, 1) in exact arithmetic. */
  method BuildWheel(order: seq<nat>, rankSum: nat) returns (proba: seq<Slot>)
    requires rankSum == RankSum(|order|)
    ensures |proba| == |order| && Linked(proba)
    ensures forall k :: 0 <= k < |proba| ==>
              proba[k].ip == order[k] && proba[k].hi - proba[k].lo == Ratio(k + 1, rankSum)
    ensures proba != [] ==> proba[0].lo == 0.0 && proba[|proba| - 1].hi == 1.0
  {
    proba := [];
    var prevProba := 0.0;
    for rank := 0 to |order|
      invariant |proba| == rank
      invariant prevProba == Ratio(RankSum(rank), rankSum)
      invariant rank > 0 ==> proba[rank - 1].hi == prevProba
      invariant Linked(proba)
      invariant forall k :: 0 <= k < rank ==>
                  proba[k].ip == order[k] && proba[k].hi - proba[k].lo == Ratio(k + 1, rankSum)
      invariant proba != [] ==> proba[0].lo == 0.0
    {
      assert rankSum > 0;
      var width := (rank + 1) as real / rankSum as real;
      assert width == Ratio(rank + 1, rankSum) && width > 0.0 by {
        RatioPositive(rank + 1, rankSum);
      }
      var nextProba := prevProba + width;
      assert nextProba == Ratio(RankSum(rank + 1), rankSum) by {
        RatioAdd(RankSum(rank), rank + 1, rankSum);
      }
      var slot := Slot(prevProba, nextProba, order[rank]);
      LinkedSnoc(proba, slot);
      proba := proba + [slot];
      prevProba := nextProba;
    }
    if proba != [] {
      RatioOne(rankSum);
    }
  }

  /** Linked slots are in increasing order and do not overlap. */
  lemma {:induction false} LinkedBelow(wheel: seq<Slot>, j: nat, k: nat)
    requires Linked(wheel) && j < k < |wheel|
    ensures wheel[j].hi <= wheel[k].lo
    decreases k - j
  {
    if j + 1 < k {
      LinkedBelow(wheel, j + 1, k);
    }
  }

  /** A draw between the start of the first linked slot and the end of the
      last one falls in one of them. */
  lemma {:induction false} LinkedCovers(wheel: seq<Slot>, x: real)
    requires wheel != [] && Linked(wheel) && wheel[0].lo <= x < wheel[|wheel| - 1].hi
    ensures exists k :: 0 <= k < |wheel| && Holds(wheel[k], x)
  {
    var last := |wheel| - 1;
    if x < wheel[last].lo {
      var init := wheel[..last];
      assert Linked(init);
      LinkedCovers(init, x);
      var k :| 0 <= k < |init| && Holds(init[k], x);
      assert Holds(wheel[k], x);
    } else {
      assert Holds(wheel[last], x);
    }
  }

  /** On the wheel of a non-empty population, every draw in [0, 1) falls in
      exactly one slot. */
  lemma WheelPartition(wheel: seq<Slot>, x: real)
    requires wheel != [] && Linked(wheel) && wheel[0].lo == 0.0 && wheel[|wheel| - 1].hi == 1.0
    requires 0.0 <= x < 1.0
    ensures exists k :: 0 <= k < |wheel| && Holds(wheel[k], x)
    ensures forall j, k :: 0 <= j < k < |wheel| && Holds(wheel[j], x) ==> !Holds(wheel[k], x)
  {
    LinkedCovers(wheel, x);
    forall j, k | 0 <= j < k < |wheel| && Holds(wheel[j], x) ensures !Holds(wheel[k], x) {
      LinkedBelow(wheel, j, k);
    }
  }

  /** The loop `for prob in proba` that finds the slot of a draw: the last
      slot the draw falls in, if any. */
  method FindSlot(proba: seq<Slot>, x: real) returns (k: Option<nat>)
    ensures k.None? <==> forall j :: 0 <= j < |proba| ==> !Holds(proba[j], x)
    ensures k.Some? ==> k.value < |proba| && Holds(proba[k.value], x)
                        && forall j :: k.value < j < |proba| ==> !Holds(proba[j], x)
  {
    k := None;
    for i := 0 to |proba|
      invariant k.None? <==> forall j :: 0 <= j < i ==> !Holds(proba[j], x)
      invariant k.Some? ==> k.value < i && Holds(proba[k.value], x)
                            && forall j :: k.value < j < i ==> !Holds(proba[j], x)
    {
      if Holds(proba[i], x) {
        k := Some(i);
      }
    }
  }

  /** The slots `proba` still holds: slots of the wheel, none of a chosen
      position, no two of the same position. */
  ghost predicate Remaining(proba: seq<Slot>, wheel: seq<Slot>, chosen: seq<nat>) {
    (forall k :: 0 <= k < |proba| ==> proba[k] in wheel && proba[k].ip !in chosen)
    && forall j, k :: 0 <= j < k < |proba| ==> proba[j].ip != proba[k].ip
  }

  /** Position `ip` was chosen by a draw that fell in its slot of the wheel. */
  ghost predicate DrawnIn(wheel: seq<Slot>, draws: seq<real>, ip: nat) {
    exists s, j :: 0 <= s < |wheel| && 0 <= j < |draws| && wheel[s].ip == ip && Holds(wheel[s], draws[j])
  }

  /** `proba.remove(selectedProba)` takes out the first equal entry, which
      is the selected one since no two entries are of the same position. */
  lemma RemoveChosen(proba: seq<Slot>, wheel: seq<Slot>, chosen: seq<nat>, k: nat)
    requires k < |proba| && Remaining(proba, wheel, chosen)
    ensures Populations.RemoveFirst(proba, proba[k]) == Populations.RemoveAt(proba, k)
    ensures Remaining(Populations.RemoveAt(proba, k), wheel, chosen + [proba[k].ip])
  {
    RemoveFirstAt(proba, k);
    RestFromWheel(proba, wheel, chosen, k);
    RestApart(proba, k);
  }

  lemma RestFromWheel(proba: seq<Slot>, wheel: seq<Slot>, chosen: seq<nat>, k: nat)
    requires k < |proba| && Remaining(proba, wheel, chosen)
    ensures forall i :: 0 <= i < |Populations.RemoveAt(proba, k)| ==>
              Populations.RemoveAt(proba, k)[i] in wheel && Populations.RemoveAt(proba, k)[i].ip !in chosen + [proba[k].ip]
  {
    var rest := Populations.RemoveAt(proba, k);
    Populations.RemoveAtSpec(proba, k);
    forall i | 0 <= i < |rest| ensures rest[i] in wheel && rest[i].ip !in chosen + [proba[k].ip] {
      var ii := if i < k then i else i + 1;
      assert rest[i] == proba[ii];
      assert proba[ii].ip != proba[k].ip;
    }
  }

  lemma RestApart(proba: seq<Slot>, k: nat)
    requires k < |proba| && forall j, k :: 0 <= j < k < |proba| ==> proba[j].ip != proba[k].ip
    ensures forall i, j :: 0 <= i < j < |Populations.RemoveAt(proba, k)| ==>
              Populations.RemoveAt(proba, k)[i].ip != Populations.RemoveAt(proba, k)[j].ip
  {
    var rest := Populations.RemoveAt(proba, k);
    Populations.RemoveAtSpec(proba, k);
    forall i, j | 0 <= i < j < |rest| ensures rest[i].ip != rest[j].ip {
      var ii := if i < k then i else i + 1;
      var jj := if j < k then j else j + 1;
      assert rest[i] == proba[ii] && rest[j] == proba[jj];
    }
  }

  lemma {:induction false} RemoveFirstAt<T>(s: seq<T>, k: nat)
    requires k < |s| && forall j :: 0 <= j < k ==> s[j] != s[k]
    ensures Populations.RemoveFirst(s, s[k]) == Populations.RemoveAt(s, k)
  {
    if k > 0 {
      RemoveFirstAt(s[1..], k - 1);
      assert Populations.RemoveAt(s, k) == [s[0]] + Populations.RemoveAt(s[1..], k - 1);
    }
  }

  /** The slots of the wheel whose position is not yet chosen, in wheel
      order: what `proba` holds once the positions of `chosen` have been
      removed. */
  function Left(wheel: seq<Slot>, chosen: seq<nat>): (rest: seq<Slot>)
    ensures |rest| <= |wheel|
  {
    if wheel == [] then []
    else (if wheel[0].ip in chosen then [] else [wheel[0]]) + Left(wheel[1..], chosen)
  }

  /** The loop over `proba` selects `ip`: the last slot holding the draw is of position `ip`. */
  ghost predicate Lands(proba: seq<Slot>, x: real, ip: nat) {
    exists k :: 0 <= k < |proba| && Holds(proba[k], x) && proba[k].ip == ip
                && forall j :: k < j < |proba| ==> !Holds(proba[j], x)
  }

  /** No slot of `proba` holds the draw. */
  ghost predicate Misses(proba: seq<Slot>, x: real) {
    forall j :: 0 <= j < |proba| ==> !Holds(proba[j], x)
  }

  /** The first draw after the one that chose the `i`-th position. */
  function NextDraw(hits: seq<nat>, i: nat): nat
    requires i <= |hits|
  {
    if i == 0 then 0 else hits[i - 1] + 1
  }

  /** The draws of the wheel loop: `hits[i]` is the draw that chose
      `chosen[i]`, on the slots left by the earlier choices, and every draw
      between two hits falls in no slot then left; the draws from
      `NextDraw(hits, |hits|)` up to `upTo` fell in no slot either. */
  ghost predicate SpinTrace(wheel: seq<Slot>, draws: seq<real>, chosen: seq<nat>, hits: seq<nat>, upTo: nat) {
    |hits| == |chosen| && NextDraw(hits, |hits|) <= upTo <= |draws|
    && (forall i :: 0 <= i < |hits| ==> hits[i] < upTo)
    && (forall i, j :: 0 <= i < j < |hits| ==> hits[i] < hits[j])
    && (forall i :: 0 <= i < |hits| ==> Lands(Left(wheel, chosen[..i]), draws[hits[i]], chosen[i]))
    && (forall i :: 0 <= i < |hits| ==>
          forall d :: NextDraw(hits, i) <= d < hits[i] ==> Misses(Left(wheel, chosen[..i]), draws[d]))
    && forall d :: NextDraw(hits, |hits|) <= d < upTo ==> Misses(Left(wheel, chosen), draws[d])
  }

  /** Nothing is left out before any position is chosen. */
  lemma {:induction false} LeftNone(wheel: seq<Slot>)
    ensures Left(wheel, []) == wheel
  {
    if wheel != [] {
      LeftNone(wheel[1..]);
    }
  }

  /** Choosing a position no slot is of leaves nothing else out. */
  lemma {:induction false} LeftAbsent(wheel: seq<Slot>, chosen: seq<nat>, x: nat)
    requires forall k :: 0 <= k < |wheel| ==> wheel[k].ip != x
    ensures Left(wheel, chosen + [x]) == Left(wheel, chosen)
  {
    if wheel != [] {
      LeftAbsent(wheel[1..], chosen, x);
    }
  }

  /** Every slot left is a slot of the wheel. */
  lemma {:induction false} LeftFrom(wheel: seq<Slot>, chosen: seq<nat>, k: nat) returns (t: nat)
    requires k < |Left(wheel, chosen)|
    ensures t < |wheel| && Left(wheel, chosen)[k] == wheel[t]
  {
    var tail := wheel[1..];
    if wheel[0].ip in chosen {
      assert Left(wheel, chosen) == Left(tail, chosen);
      t := LeftFrom(tail, chosen, k);
      t := t + 1;
    } else if k == 0 {
      t := 0;
    } else {
      assert Left(wheel, chosen) == [wheel[0]] + Left(tail, chosen);
      t := LeftFrom(tail, chosen, k - 1);
      t := t + 1;
    }
  }

  /** Choosing the position of the `k`-th slot left takes exactly that slot
      out, when no two slots are of the same position. */
  lemma {:induction false} LeftChoose(wheel: seq<Slot>, chosen: seq<nat>, k: nat)
    requires forall i, j :: 0 <= i < j < |wheel| ==> wheel[i].ip != wheel[j].ip
    requires k < |Left(wheel, chosen)|
    ensures Left(wheel, chosen + [Left(wheel, chosen)[k].ip]) == Populations.RemoveAt(Left(wheel, chosen), k)
  {
    var proba := Left(wheel, chosen);
    var x := proba[k].ip;
    var tail := wheel[1..];
    TailApart(wheel);
    if wheel[0].ip in chosen {
      assert proba == Left(tail, chosen);
      LeftChoose(tail, chosen, k);
    } else if k == 0 {
      assert proba == [wheel[0]] + Left(tail, chosen);
      forall i | 0 <= i < |tail| ensures tail[i].ip != x {
        assert tail[i] == wheel[i + 1];
      }
      LeftAbsent(tail, chosen, x);
    } else {
      assert proba == [wheel[0]] + Left(tail, chosen);
      var rest := Left(tail, chosen);
      assert x == rest[k - 1].ip;
      var t := LeftFrom(tail, chosen, k - 1);
      assert tail[t] == wheel[t + 1];
      LeftChoose(tail, chosen, k - 1);
      RemoveAtCons(wheel[0], rest, k);
    }
  }

  /** The slots after the first are of distinct positions too. */
  lemma TailApart(wheel: seq<Slot>)
    requires wheel != [] && forall i, j :: 0 <= i < j < |wheel| ==> wheel[i].ip != wheel[j].ip
    ensures forall i, j :: 0 <= i < j < |wheel[1..]| ==> wheel[1..][i].ip != wheel[1..][j].ip
  {
    var tail := wheel[1..];
    forall i, j | 0 <= i < j < |tail| ensures tail[i].ip != tail[j].ip {
      assert tail[i] == wheel[i + 1] && tail[j] == wheel[j + 1];
    }
  }

  /** Removing a later position keeps the head. */
  lemma RemoveAtCons<T>(x: T, s: seq<T>, k: nat)
    requires 0 < k <= |s|
    ensures Populations.RemoveAt([x] + s, k) == [x] + Populations.RemoveAt(s, k - 1)
  {
    assert ([x] + s)[..k] == [x] + s[..k - 1];
    assert ([x] + s)[k + 1..] == s[k..];
  }

  /** The loop `while selectedPop.size() < nbIndSelected` of the ranking
      selection: a draw that falls in a slot still on the wheel selects its
      position, and the slot leaves the wheel; any other draw selects
      nothing.  Once every slot has left the wheel no draw selects anything,
      so asking for more members than there are slots never ends. */
  method Spin<T>(pop: seq<T>, wheel: seq<Slot>, n: int, draws: seq<real>)
    returns (r: Pick<T>, chosen: seq<nat>, ghost hits: seq<nat>)
    requires 0 < n
    requires forall k :: 0 <= k < |wheel| ==> wheel[k].ip < |pop|
    requires forall j, k :: 0 <= j < k < |wheel| ==> wheel[j].ip != wheel[k].ip
    ensures r.Diverges? <==> n > |wheel|
    ensures |chosen| <= |wheel| && Clustering.NoDup(chosen)
    ensures forall i :: 0 <= i < |chosen| ==> chosen[i] < |pop| && DrawnIn(wheel, draws, chosen[i])
    ensures r.Selected? ==> |chosen| == n && r.members == Populations.Picked(pop, chosen)
    ensures r.Selected? ==> SpinTrace(wheel, draws, chosen, hits, NextDraw(hits, |hits|))
    ensures r.OutOfDraws? ==> |chosen| < n && SpinTrace(wheel, draws, chosen, hits, |draws|)
  {
    chosen, hits := [], [];
    if n > |wheel| {
      return Diverges, chosen, hits;
    }
    var proba := wheel;
    LeftNone(wheel);
    var d := 0;
    while |chosen| < n
      invariant 0 <= d <= |draws| && |chosen| <= n
      invariant Remaining(proba, wheel, chosen) && |chosen| + |proba| == |wheel| && Clustering.NoDup(chosen)
      invariant proba == Left(wheel, chosen)
      invariant forall i :: 0 <= i < |chosen| ==> chosen[i] < |pop| && DrawnIn(wheel, draws, chosen[i])
      invariant SpinTrace(wheel, draws, chosen, hits, d)
      decreases |draws| - d
    {
      if d == |draws| {
        return OutOfDraws, chosen, hits;
      }
      proba, chosen, hits := SpinOnce(pop, wheel, draws, proba, chosen, hits, d);
      d := d + 1;
    }
    SpinTraceCut(wheel, draws, chosen, hits, d);
    r := Selected(Populations.Picked(pop, chosen));
  }

  /** The trace ends with the last hit as well as at any later draw. */
  lemma SpinTraceCut(wheel: seq<Slot>, draws: seq<real>, chosen: seq<nat>, hits: seq<nat>, d: nat)
    requires SpinTrace(wheel, draws, chosen, hits, d)
    ensures SpinTrace(wheel, draws, chosen, hits, NextDraw(hits, |hits|))
  {
    forall i | 0 <= i < |hits|
      ensures hits[i] < NextDraw(hits, |hits|)
    {
      if i < |hits| - 1 {
        assert hits[i] < hits[|hits| - 1];
      }
    }
  }

  /** One pass of the wheel loop, on draw `d`. */
  method SpinOnce<T>(pop: seq<T>, wheel: seq<Slot>, draws: seq<real>, proba: seq<Slot>, chosen: seq<nat>,
                     ghost hits: seq<nat>, d: nat)
    returns (proba': seq<Slot>, chosen': seq<nat>, ghost hits': seq<nat>)
    requires d < |draws|
    requires forall k :: 0 <= k < |wheel| ==> wheel[k].ip < |pop|
    requires forall j, k :: 0 <= j < k < |wheel| ==> wheel[j].ip != wheel[k].ip
    requires Remaining(proba, wheel, chosen) && |chosen| + |proba| == |wheel| && Clustering.NoDup(chosen)
    requires proba == Left(wheel, chosen)
    requires forall i :: 0 <= i < |chosen| ==> chosen[i] < |pop| && DrawnIn(wheel, draws, chosen[i])
    requires SpinTrace(wheel, draws, chosen, hits, d)
    ensures |chosen| <= |chosen'| <= |chosen| + 1
    ensures Remaining(proba', wheel, chosen') && |chosen'| + |proba'| == |wheel| && Clustering.NoDup(chosen')
    ensures proba' == Left(wheel, chosen')
    ensures forall i :: 0 <= i < |chosen'| ==> chosen'[i] < |pop| && DrawnIn(wheel, draws, chosen'[i])
    ensures SpinTrace(wheel, draws, chosen', hits', d + 1)
  {
    proba', chosen', hits' := proba, chosen, hits;
    var pickedProba := draws[d];
    var k := FindSlot(proba, pickedProba);
    if k.Some? {
      var slot := proba[k.value];
      ChooseKeeps(|pop|, wheel, draws, proba, chosen, d, k.value);
      RemoveChosen(proba, wheel, chosen, k.value);
      LeftChoose(wheel, chosen, k.value);
      SpinTraceHit(wheel, draws, chosen, hits, d, k.value);
      chosen', hits' := chosen + [slot.ip], hits + [d];
      proba' := Populations.RemoveFirst(proba, slot);
    } else {
      SpinTraceMiss(wheel, draws, chosen, hits, d);
    }
  }

  /** The position of the slot a draw fell in joins the chosen positions:
      it is new, and drawn in its slot of the wheel. */
  lemma ChooseKeeps(np: nat, wheel: seq<Slot>, draws: seq<real>, proba: seq<Slot>, chosen: seq<nat>, d: nat, k: nat)
    requires d < |draws| && k < |proba| && Holds(proba[k], draws[d])
    requires forall k :: 0 <= k < |wheel| ==> wheel[k].ip < np
    requires Remaining(proba, wheel, chosen) && Clustering.NoDup(chosen)
    requires forall i :: 0 <= i < |chosen| ==> chosen[i] < np && DrawnIn(wheel, draws, chosen[i])
    ensures Clustering.NoDup(chosen + [proba[k].ip])
    ensures forall i :: 0 <= i < |chosen + [proba[k].ip]| ==>
              (chosen + [proba[k].ip])[i] < np && DrawnIn(wheel, draws, (chosen + [proba[k].ip])[i])
  {
    var slot := proba[k];
    var chosen' := chosen + [slot.ip];
    assert slot in wheel && slot.ip !in chosen;
    var s :| 0 <= s < |wheel| && wheel[s] == slot;
    assert DrawnIn(wheel, draws, slot.ip) by {
      assert wheel[s].ip == slot.ip && Holds(wheel[s], draws[d]);
    }
    forall i | 0 <= i < |chosen'| ensures chosen'[i] < np && DrawnIn(wheel, draws, chosen'[i]) {
      if i < |chosen| {
        assert chosen'[i] == chosen[i];
      }
    }
    forall i, j | 0 <= i < j < |chosen'| ensures chosen'[i] != chosen'[j] {
      if j < |chosen| {
        assert chosen'[i] == chosen[i] && chosen'[j] == chosen[j];
      } else {
        assert chosen'[j] == slot.ip && chosen'[i] == chosen[i];
      }
    }
  }

  /** A draw that lands on the `k`-th slot left extends the trace by a hit. */
  lemma SpinTraceHit(wheel: seq<Slot>, draws: seq<real>, chosen: seq<nat>, hits: seq<nat>, d: nat, k: nat)
    requires SpinTrace(wheel, draws, chosen, hits, d) && d < |draws|
    requires k < |Left(wheel, chosen)| && Holds(Left(wheel, chosen)[k], draws[d])
    requires forall j :: k < j < |Left(wheel, chosen)| ==> !Holds(Left(wheel, chosen)[j], draws[d])
    ensures SpinTrace(wheel, draws, chosen + [Left(wheel, chosen)[k].ip], hits + [d], d + 1)
  {
    var chosen', hits' := chosen + [Left(wheel, chosen)[k].ip], hits + [d];
    assert Lands(Left(wheel, chosen), draws[d], Left(wheel, chosen)[k].ip);
    HitLands(wheel, draws, chosen, hits, d, Left(wheel, chosen)[k].ip);
    HitMisses(wheel, draws, chosen, hits, d, Left(wheel, chosen)[k].ip);
    assert NextDraw(hits', |hits'|) == d + 1;
  }

  /** The choices so far, each landed by its draw, stay so when one more
      draw lands. */
  lemma HitLands(wheel: seq<Slot>, draws: seq<real>, chosen: seq<nat>, hits: seq<nat>, d: nat, ip: nat)
    requires |hits| == |chosen| && d < |draws| && forall i :: 0 <= i < |hits| ==> hits[i] < |draws|
    requires forall i :: 0 <= i < |hits| ==> Lands(Left(wheel, chosen[..i]), draws[hits[i]], chosen[i])
    requires Lands(Left(wheel, chosen), draws[d], ip)
    ensures forall i :: 0 <= i < |hits + [d]| ==>
              Lands(Left(wheel, (chosen + [ip])[..i]), draws[(hits + [d])[i]], (chosen + [ip])[i])
  {
    var chosen', hits' := chosen + [ip], hits + [d];
    forall i | 0 <= i < |hits'|
      ensures Lands(Left(wheel, chosen'[..i]), draws[hits'[i]], chosen'[i])
    {
      assert chosen'[..i] == chosen[..i];
      if i < |hits| {
        assert hits'[i] == hits[i] && chosen'[i] == chosen[i];
      } else {
        assert chosen[..i] == chosen && hits'[i] == d && chosen'[i] == ip;
      }
    }
  }

  /** The misses between the choices so far stay misses when one more
      draw lands, and the draws that chose stay in increasing order. */
  lemma HitMisses(wheel: seq<Slot>, draws: seq<real>, chosen: seq<nat>, hits: seq<nat>, d: nat, ip: nat)
    requires SpinTrace(wheel, draws, chosen, hits, d) && d < |draws|
    ensures forall i :: 0 <= i < |hits + [d]| ==>
              forall e :: NextDraw(hits + [d], i) <= e < (hits + [d])[i] ==>
                Misses(Left(wheel, (chosen + [ip])[..i]), draws[e])
    ensures forall i, j :: 0 <= i < j < |hits + [d]| ==> (hits + [d])[i] < (hits + [d])[j]
  {
    var chosen', hits' := chosen + [ip], hits + [d];
    forall i | 0 <= i < |hits'|
      ensures forall e :: NextDraw(hits', i) <= e < hits'[i] ==> Misses(Left(wheel, chosen'[..i]), draws[e])
    {
      assert chosen'[..i] == chosen[..i];
      if i < |hits| {
        assert hits'[i] == hits[i] && NextDraw(hits', i) == NextDraw(hits, i);
        forall e | NextDraw(hits, i) <= e < hits[i] ensures Misses(Left(wheel, chosen[..i]), draws[e]) {
        }
      } else {
        assert chosen[..i] == chosen && hits'[i] == d && NextDraw(hits', i) == NextDraw(hits, |hits|);
        forall e | NextDraw(hits, |hits|) <= e < d ensures Misses(Left(wheel, chosen), draws[e]) {
        }
      }
    }
    forall i, j | 0 <= i < j < |hits'| ensures hits'[i] < hits'[j] {
      if j < |hits| {
        assert hits'[i] == hits[i] && hits'[j] == hits[j];
      } else {
        assert hits'[i] == hits[i] && hits'[j] == d;
      }
    }
  }

  /** A draw that falls in no slot left extends the trace by a miss. */
  lemma SpinTraceMiss(wheel: seq<Slot>, draws: seq<real>, chosen: seq<nat>, hits: seq<nat>, d: nat)
    requires SpinTrace(wheel, draws, chosen, hits, d) && d < |draws|
    requires Misses(Left(wheel, chosen), draws[d])
    ensures SpinTrace(wheel, draws, chosen, hits, d + 1)
  {
  }

  /** `rankingSelection(population, nbIndSelected)`: the population is
      ranked from the worst member to the best, rank `k + 1` gets a slot of
      width (k + 1) / (n (n + 1) / 2) on a wheel of linked slots covering
      [0, 1), and draws then select distinct members until there are
      enough of them; `order` is the ranking and `wheel` the initial wheel. */
  method RankingSelection<T>(pop: seq<T>, n: int, isBetter: (T, T) -> bool, draws: seq<real>)
    returns (r: Pick<T>, chosen: seq<nat>, order: seq<nat>, wheel: seq<Slot>, ghost hits: seq<nat>)
    ensures n <= 0 ==> r == Selected([]) && chosen == []
    ensures Clustering.NoDup(chosen) && forall i :: 0 <= i < |chosen| ==> chosen[i] < |pop|
    ensures r.Selected? ==> |chosen| == (if n < 0 then 0 else n) && r.members == Populations.Picked(pop, chosen)
    ensures r.Diverges? <==> n > |pop|
    ensures n > 0 ==> order == WorstFirst(pop, |pop|, isBetter) && |wheel| == |pop|
    ensures n > 0 ==> forall k :: 0 <= k < |wheel| ==>
              wheel[k].ip == order[k] && wheel[k].hi - wheel[k].lo == Ratio(k + 1, RankSum(|pop|))
    ensures n > 0 ==> Linked(wheel) && (wheel != [] ==> wheel[0].lo == 0.0 && wheel[|wheel| - 1].hi == 1.0)
    ensures n > 0 ==> forall i :: 0 <= i < |chosen| ==> DrawnIn(wheel, draws, chosen[i])
    ensures n > 0 && r.Selected? ==> SpinTrace(wheel, draws, chosen, hits, NextDraw(hits, |hits|))
    ensures n > 0 && r.OutOfDraws? ==> |chosen| < n && SpinTrace(wheel, draws, chosen, hits, |draws|)
  {
    r, chosen, order, wheel, hits := Selected([]), [], [], [], [];
    if n > 0 {
      order := RankWorstFirst(pop, isBetter);
      WorstFirstRanks(pop, isBetter);
      var rankSum := RankSum(|pop|);
      wheel := BuildWheel(order, rankSum);
      forall k | 0 <= k < |wheel| ensures wheel[k].ip < |pop| {
        assert wheel[k].ip == order[k];
      }
      forall j, k | 0 <= j < k < |wheel| ensures wheel[j].ip != wheel[k].ip {
        assert wheel[j].ip == order[j] && wheel[k].ip == order[k];
      }
      r, chosen, hits := Spin(pop, wheel, n, draws);
    }
  }
}
