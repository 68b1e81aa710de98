// The population of the genetic algorithm (PYGA_Population): the list of
// individuals and the list of those not yet drawn as parents, both updated
// in place.  Individuals have no `__eq__`, so every comparison the
// population makes (`is`, `==`, `list.index`, `in`) is object identity,
// which is Dafny's `==` on the element type.  The individual class's
// callbacks (`isBetter`, `isDuplication`, `distance`) are function
// parameters, and each `random.sample` draw is given as the positions it
// picks.

module Populations {
  import opened Errors
  import opened PyMath
  import Clustering

  // ----- list operations by identity -----

  /** The position of the last element identical to `x`, or -1. */
  function LastIndexOf<T(==)>(s: seq<T>, x: T): (i: int)
    ensures -1 <= i < |s|
    ensures i >= 0 ==> s[i] == x
    ensures forall j :: i < j < |s| ==> s[j] != x
    ensures i >= 0 <==> x in s
  {
    if s == [] then -1
    else if s[|s| - 1] == x then |s| - 1
    else
      var i := LastIndexOf(s[..|s| - 1], x);
      assert s == s[..|s| - 1] + [s[|s| - 1]];
      i
  }

  function RemoveAt<T>(s: seq<T>, i: nat): seq<T>
    requires i < |s|
  {
    s[..i] + s[i + 1..]
  }

  /** Removing one position drops exactly that element and keeps the order of the others. */
  lemma RemoveAtSpec<T>(s: seq<T>, i: nat)
    requires i < |s|
    ensures |RemoveAt(s, i)| == |s| - 1
    ensures multiset(RemoveAt(s, i)) == multiset(s) - multiset{s[i]}
    ensures forall j :: 0 <= j < i ==> RemoveAt(s, i)[j] == s[j]
    ensures forall j :: i <= j < |s| - 1 ==> RemoveAt(s, i)[j] == s[j + 1]
  {
    assert s == s[..i] + [s[i]] + s[i + 1..];
  }

  /** `list.pop(list.index(x))` with the ValueError ignored: the first
      identical element goes, if any. */
  function RemoveFirst<T(==)>(s: seq<T>, x: T): seq<T> {
    if s == [] then []
    else if s[0] == x then s[1..]
    else [s[0]] + RemoveFirst(s[1..], x)
  }

  /** The first identical element is the one that goes: one occurrence
      fewer, nothing else changed, and the list is untouched without one. */
  lemma RemoveFirstSpec<T>(s: seq<T>, x: T)
    ensures multiset(RemoveFirst(s, x)) == multiset(s) - multiset{x}
    ensures x !in s ==> RemoveFirst(s, x) == s
    ensures x in s ==> |RemoveFirst(s, x)| == |s| - 1
  {
    RemoveFirstMultiset(s, x);
    RemoveFirstAbsent(s, x);
    RemoveFirstLength(s, x);
  }

  lemma {:induction false} RemoveFirstMultiset<T>(s: seq<T>, x: T)
    ensures multiset(RemoveFirst(s, x)) == multiset(s) - multiset{x}
  {
    if s != [] {
      var t := s[1..];
      assert s == [s[0]] + t;
      assert multiset(s) == multiset{s[0]} + multiset(t);
      if s[0] != x {
        RemoveFirstMultiset(t, x);
        assert RemoveFirst(s, x) == [s[0]] + RemoveFirst(t, x);
        MultisetMinusOther(multiset(t), s[0], x);
      }
    }
  }

  lemma MultisetMinusOther<T>(m: multiset<T>, y: T, x: T)
    requires y != x
    ensures multiset{y} + (m - multiset{x}) == (multiset{y} + m) - multiset{x}
  {
  }

  lemma {:induction false} RemoveFirstAbsent<T>(s: seq<T>, x: T)
    ensures x !in s ==> RemoveFirst(s, x) == s
  {
    if s != [] {
      RemoveFirstAbsent(s[1..], x);
      assert s == [s[0]] + s[1..];
    }
  }

  lemma {:induction false} RemoveFirstLength<T>(s: seq<T>, x: T)
    ensures x in s ==> |RemoveFirst(s, x)| == |s| - 1
  {
    if s != [] {
      RemoveFirstLength(s[1..], x);
      assert s == [s[0]] + s[1..];
    }
  }

  /** `removeIndividual` on a list: the last identical element goes. */
  function RemoveLast<T(==)>(s: seq<T>, x: T): seq<T> {
    if x in s then RemoveAt(s, LastIndexOf(s, x)) else s
  }

  lemma RemoveLastSpec<T>(s: seq<T>, x: T)
    ensures multiset(RemoveLast(s, x)) == multiset(s) - multiset{x}
    ensures x in s ==> |RemoveLast(s, x)| == |s| - 1
  {
    if x in s {
      RemoveAtSpec(s, LastIndexOf(s, x));
    }
  }

  /** Removing, one after the other, each of `xs` by its last occurrence. */
  function RemoveEach<T(==)>(s: seq<T>, xs: seq<T>): seq<T>
    decreases |xs|
  {
    if xs == [] then s else RemoveEach(RemoveLast(s, xs[0]), xs[1..])
  }

  /** Likewise, each by its first occurrence, ignoring the missing ones. */
  function RemoveEachFirst<T(==)>(s: seq<T>, xs: seq<T>): seq<T>
    decreases |xs|
  {
    if xs == [] then s else RemoveEachFirst(RemoveFirst(s, xs[0]), xs[1..])
  }

  lemma {:induction false} RemoveEachSpec<T>(s: seq<T>, xs: seq<T>)
    requires multiset(xs) <= multiset(s)
    ensures multiset(RemoveEach(s, xs)) == multiset(s) - multiset(xs)
    ensures |RemoveEach(s, xs)| == |s| - |xs|
    decreases |xs|
  {
    if xs != [] {
      assert xs == [xs[0]] + xs[1..];
      assert xs[0] in multiset(s);
      RemoveLastSpec(s, xs[0]);
      RemoveEachSpec(RemoveLast(s, xs[0]), xs[1..]);
    }
  }

  lemma {:induction false} RemoveEachFirstSpec<T>(s: seq<T>, xs: seq<T>)
    ensures multiset(RemoveEachFirst(s, xs)) == multiset(s) - multiset(xs)
    decreases |xs|
  {
    if xs != [] {
      assert xs == [xs[0]] + xs[1..];
      RemoveFirstSpec(s, xs[0]);
      RemoveEachFirstSpec(RemoveFirst(s, xs[0]), xs[1..]);
    }
  }

  // ----- random.sample -----

  /** What `random.sample(range(n), k)` may return: k distinct positions below n. */
  predicate IsSample(picks: seq<nat>, k: nat, n: nat) {
    |picks| == k
    && (forall i :: 0 <= i < |picks| ==> picks[i] < n)
    && (forall i, j :: 0 <= i < j < |picks| ==> picks[i] != picks[j])
  }

  function Picked<T>(s: seq<T>, picks: seq<nat>): (r: seq<T>)
    requires forall i :: 0 <= i < |picks| ==> picks[i] < |s|
    ensures |r| == |picks| && forall i :: 0 <= i < |picks| ==> r[i] == s[picks[i]]
  {
    if picks == [] then [] else [s[picks[0]]] + Picked(s, picks[1..])
  }

  /** The members at distinct positions form a sub-multiset of the list. */
  lemma {:induction false} PickedSubMultiset<T>(s: seq<T>, picks: seq<nat>)
    requires IsSample(picks, |picks|, |s|)
    ensures multiset(Picked(s, picks)) <= multiset(s)
    decreases |s|
  {
    if s != [] && picks != [] {
      var last := |s| - 1;
      var init := s[..last];
      assert s == init + [s[last]];
      if k :| 0 <= k < |picks| && picks[k] == last {
        var rest := RemoveAt(picks, k);
        DropPick(picks, k, |s|);
        PickedSubMultiset(init, rest);
        PickedPrefix(s, init, rest);
        PickedRemoveAt(s, picks, k);
        var ps := Picked(s, picks);
        RemoveAtSpec(ps, k);
        PutBack(multiset(ps), multiset(init), s[last]);
      } else {
        assert IsSample(picks, |picks|, |init|) by {
          forall i | 0 <= i < |picks| ensures picks[i] < |init| {
            assert picks[i] != last;
          }
        }
        PickedSubMultiset(init, picks);
        PickedPrefix(s, init, picks);
      }
    }
  }

  /** What is left of `p` without one `x` fits in `a`, so `p` fits in `a` with one more `x`. */
  lemma PutBack<T>(p: multiset<T>, a: multiset<T>, x: T)
    requires x in p && p - multiset{x} <= a
    ensures p <= a + multiset{x}
  {
    assert p == (p - multiset{x}) + multiset{x};
  }

  /** Without the pick of the last position, the others are a sample of the rest. */
  lemma DropPick(picks: seq<nat>, k: nat, n: nat)
    requires IsSample(picks, |picks|, n) && k < |picks| && picks[k] == n - 1
    ensures IsSample(RemoveAt(picks, k), |picks| - 1, n - 1)
  {
    var rest := RemoveAt(picks, k);
    RemoveAtSpec(picks, k);
    forall i | 0 <= i < |rest| ensures rest[i] < n - 1 {
      if i < k { assert rest[i] == picks[i]; } else { assert rest[i] == picks[i + 1]; }
    }
    forall i, j | 0 <= i < j < |rest| ensures rest[i] != rest[j] {
      var ii := if i < k then i else i + 1;
      var jj := if j < k then j else j + 1;
      assert rest[i] == picks[ii] && rest[j] == picks[jj];
    }
  }

  lemma PickedPrefix<T>(s: seq<T>, init: seq<T>, picks: seq<nat>)
    requires |init| <= |s| && init == s[..|init|]
    requires forall i :: 0 <= i < |picks| ==> picks[i] < |init|
    ensures Picked(init, picks) == Picked(s, picks)
  {
  }

  lemma PickedRemoveAt<T>(s: seq<T>, picks: seq<nat>, k: nat)
    requires k < |picks| && forall i :: 0 <= i < |picks| ==> picks[i] < |s|
    ensures forall i :: 0 <= i < |RemoveAt(picks, k)| ==> RemoveAt(picks, k)[i] < |s|
    ensures Picked(s, RemoveAt(picks, k)) == RemoveAt(Picked(s, picks), k)
  {
    RemoveAtSpec(picks, k);
    RemoveAtSpec(Picked(s, picks), k);
  }

  /** One removal of `removeRandomIndiv`: the sampled member is still there. */
  lemma RemoveStep<T>(individuals: seq<T>, uncaught: seq<T>, indivs: seq<T>, k: nat)
    requires k < |indivs| && multiset(indivs[k..]) <= multiset(individuals)
    ensures indivs[k] in individuals
    ensures RemoveEach(RemoveLast(individuals, indivs[k]), indivs[k + 1..]) == RemoveEach(individuals, indivs[k..])
    ensures RemoveEachFirst(RemoveFirst(uncaught, indivs[k]), indivs[k + 1..]) == RemoveEachFirst(uncaught, indivs[k..])
    ensures multiset(indivs[k + 1..]) <= multiset(RemoveLast(individuals, indivs[k]))
  {
    var x := indivs[k];
    assert indivs[k..] == [x] + indivs[k + 1..];
    assert x in multiset(individuals);
    RemoveLastSpec(individuals, x);
  }

  // ----- initial population -----

  /** Whether a generated candidate is kept: it may not duplicate a member
      when duplicates are refused. */
  predicate Accepts<T>(pop: seq<T>, c: T, noDuplication: bool, isDuplication: (T, T) -> bool) {
    !noDuplication || forall i :: 0 <= i < |pop| ==> !isDuplication(c, pop[i])
  }

  /** The members after offering the candidates in turn until `nb` are kept. */
  function Grown<T>(pop: seq<T>, candidates: seq<T>, nb: int, noDuplication: bool,
                    isDuplication: (T, T) -> bool): seq<T>
    decreases |candidates|
  {
    if |pop| >= nb || candidates == [] then pop
    else Grown(if Accepts(pop, candidates[0], noDuplication, isDuplication) then pop + [candidates[0]] else pop,
               candidates[1..], nb, noDuplication, isDuplication)
  }

  /** No member duplicates an earlier one. */
  predicate NoDuplicated<T>(s: seq<T>, isDuplication: (T, T) -> bool) {
    forall i, j :: 0 <= i < j < |s| ==> !isDuplication(s[j], s[i])
  }

  /** Growing never passes the target, only appends candidates, keeps a
      duplicate-free list duplicate-free when duplicates are refused, and
      takes exactly the first candidates when they are not. */
  lemma {:induction false} GrownSpec<T>(pop: seq<T>, candidates: seq<T>, nb: int, noDuplication: bool,
                                        isDuplication: (T, T) -> bool)
    ensures var g := Grown(pop, candidates, nb, noDuplication, isDuplication);
            |pop| <= |g| && g[..|pop|] == pop
            && (|pop| <= nb ==> |g| <= nb)
            && (forall i :: |pop| <= i < |g| ==> g[i] in candidates)
            && (noDuplication && NoDuplicated(pop, isDuplication) ==> NoDuplicated(g, isDuplication))
            && (!noDuplication && |pop| <= nb <= |pop| + |candidates| ==> g == pop + candidates[..nb - |pop|])
    decreases |candidates|
  {
    if |pop| < nb && candidates != [] {
      var c := candidates[0];
      var next := if Accepts(pop, c, noDuplication, isDuplication) then pop + [c] else pop;
      GrownSpec(next, candidates[1..], nb, noDuplication, isDuplication);
      var g := Grown(next, candidates[1..], nb, noDuplication, isDuplication);
      assert g[..|pop|] == next[..|pop|] == pop by {
        assert g[..|pop|] == g[..|next|][..|pop|];
      }
      forall i | |pop| <= i < |g| ensures g[i] in candidates {
        if i < |next| {
          assert g[i] == next[i] == c;
        } else {
          assert g[i] in candidates[1..];
        }
      }
      if noDuplication && NoDuplicated(pop, isDuplication) {
        assert NoDuplicated(next, isDuplication);
      }
      if !noDuplication && |pop| <= nb <= |pop| + |candidates| {
        assert next == pop + [c];
        assert candidates[..nb - |pop|] == [c] + candidates[1..][..nb - |next|];
      }
    } else if !noDuplication && |pop| <= nb <= |pop| + |candidates| {
      assert candidates[..nb - |pop|] == [];
    }
  }

  /** Every candidate was offered: it was kept or, when duplicates are
      refused, it duplicates a kept member. */
  ghost predicate AllOffered<T>(g: seq<T>, candidates: seq<T>, noDuplication: bool, isDuplication: (T, T) -> bool) {
    forall k :: 0 <= k < |candidates| ==>
      candidates[k] in g || (noDuplication && exists j :: 0 <= j < |g| && isDuplication(candidates[k], g[j]))
  }

  /** The first offered candidate is kept or duplicates a kept member. */
  lemma FirstOffered<T>(pop: seq<T>, candidates: seq<T>, nb: int, noDuplication: bool,
                        isDuplication: (T, T) -> bool)
    requires |pop| < nb && candidates != []
    ensures var g := Grown(pop, candidates, nb, noDuplication, isDuplication);
            candidates[0] in g || (noDuplication && exists j :: 0 <= j < |g| && isDuplication(candidates[0], g[j]))
  {
    var c := candidates[0];
    var next := if Accepts(pop, c, noDuplication, isDuplication) then pop + [c] else pop;
    GrownSpec(next, candidates[1..], nb, noDuplication, isDuplication);
    var g := Grown(pop, candidates, nb, noDuplication, isDuplication);
    assert g[..|next|] == next;
    if Accepts(pop, c, noDuplication, isDuplication) {
      assert g[|pop|] == c;
    } else {
      var j :| 0 <= j < |pop| && isDuplication(c, pop[j]);
      assert g[j] == pop[j];
    }
  }

  /** The keep rule: a candidate that duplicates no kept member is kept,
      unless the target was reached before it was offered. */
  lemma {:induction false} GrownKeeps<T>(pop: seq<T>, candidates: seq<T>, nb: int, noDuplication: bool,
                                         isDuplication: (T, T) -> bool)
    ensures var g := Grown(pop, candidates, nb, noDuplication, isDuplication);
            forall k :: 0 <= k < |candidates| ==>
              candidates[k] in g
              || (noDuplication && exists j :: 0 <= j < |g| && isDuplication(candidates[k], g[j]))
              || |Grown(pop, candidates[..k], nb, noDuplication, isDuplication)| >= nb
    decreases |candidates|
  {
    if |pop| < nb && candidates != [] {
      var c := candidates[0];
      var next := if Accepts(pop, c, noDuplication, isDuplication) then pop + [c] else pop;
      GrownKeeps(next, candidates[1..], nb, noDuplication, isDuplication);
      FirstOffered(pop, candidates, nb, noDuplication, isDuplication);
      var g := Grown(pop, candidates, nb, noDuplication, isDuplication);
      forall k | 1 <= k < |candidates|
        ensures candidates[k] in g
                || (noDuplication && exists j :: 0 <= j < |g| && isDuplication(candidates[k], g[j]))
                || |Grown(pop, candidates[..k], nb, noDuplication, isDuplication)| >= nb
      {
        assert candidates[1..][k - 1] == candidates[k];
        assert candidates[..k][0] == c && candidates[..k][1..] == candidates[1..][..k - 1];
      }
    }
  }

  /** A list short of the target has been offered every candidate, and
      without the duplicate check it holds all of them. */
  lemma {:induction false} GrownShort<T>(pop: seq<T>, candidates: seq<T>, nb: int, noDuplication: bool,
                                         isDuplication: (T, T) -> bool)
    ensures var g := Grown(pop, candidates, nb, noDuplication, isDuplication);
            (|g| < nb ==> AllOffered(g, candidates, noDuplication, isDuplication))
            && (!noDuplication && |pop| + |candidates| <= nb ==> g == pop + candidates)
    decreases |candidates|
  {
    if |pop| < nb && candidates != [] {
      var c := candidates[0];
      var next := if Accepts(pop, c, noDuplication, isDuplication) then pop + [c] else pop;
      GrownShort(next, candidates[1..], nb, noDuplication, isDuplication);
      FirstOffered(pop, candidates, nb, noDuplication, isDuplication);
      var g := Grown(pop, candidates, nb, noDuplication, isDuplication);
      if |g| < nb {
        forall k | 1 <= k < |candidates|
          ensures candidates[k] in g
                  || (noDuplication && exists j :: 0 <= j < |g| && isDuplication(candidates[k], g[j]))
        {
          assert candidates[1..][k - 1] == candidates[k];
        }
      }
      if !noDuplication && |pop| + |candidates| <= nb {
        assert candidates == [c] + candidates[1..];
      }
    }
  }

  /** The generation loop of `__generateInitPop`, with `candidates` the
      individuals `generate` returns in turn; `ranOut` when they are all
      offered before the target is met. */
  method GrowPopulation<T>(nb: int, noDuplication: bool, isDuplication: (T, T) -> bool, candidates: seq<T>)
    returns (pop: seq<T>, ranOut: bool)
    ensures pop == Grown([], candidates, nb, noDuplication, isDuplication)
    ensures !ranOut <==> |pop| == (if nb > 0 then nb else 0)
    ensures ranOut ==> |pop| < nb && AllOffered(pop, candidates, noDuplication, isDuplication)
  {
    pop := [];
    var k := 0;
    while |pop| < nb && k < |candidates|
      invariant 0 <= k <= |candidates|
      invariant Grown(pop, candidates[k..], nb, noDuplication, isDuplication)
                == Grown([], candidates, nb, noDuplication, isDuplication)
      decreases |candidates| - k
    {
      var newInd := candidates[k];
      assert candidates[k..][0] == newInd && candidates[k..][1..] == candidates[k + 1..];
      var add := true;
      if noDuplication {
        var i := 0;
        while add && i < |pop|
          invariant 0 <= i <= |pop|
          invariant add <==> forall j :: 0 <= j < i ==> !isDuplication(newInd, pop[j])
        {
          if isDuplication(newInd, pop[i]) {
            add := false;
          }
          i := i + 1;
        }
      }
      assert add == Accepts(pop, newInd, noDuplication, isDuplication);
      if add {
        pop := pop + [newInd];
      }
      k := k + 1;
    }
    assert candidates[k..] == [] || |pop| >= nb;
    GrownSpec([], candidates, nb, noDuplication, isDuplication);
    GrownShort([], candidates, nb, noDuplication, isDuplication);
    ranOut := |pop| < nb;
  }

  // ----- duplication percentage -----

  predicate HasLaterDuplicate<T>(s: seq<T>, i: nat, isDuplication: (T, T) -> bool)
    requires i < |s|
  {
    exists j :: i < j < |s| && isDuplication(s[i], s[j])
  }

  /** How many of the first k members have a later duplicate. */
  function DuplicateCount<T>(s: seq<T>, k: nat, isDuplication: (T, T) -> bool): nat
    requires k <= |s|
  {
    if k == 0 then 0
    else DuplicateCount(s, k - 1, isDuplication) + (if HasLaterDuplicate(s, k - 1, isDuplication) then 1 else 0)
  }

  /** The last member never has a later duplicate, so at most n-1 members count. */
  lemma {:induction false} DuplicateCountBound<T>(s: seq<T>, k: nat, isDuplication: (T, T) -> bool)
    requires k <= |s|
    ensures DuplicateCount(s, k, isDuplication) <= k
    ensures k == |s| && k > 0 ==> DuplicateCount(s, k, isDuplication) <= k - 1
  {
    if k > 0 {
      DuplicateCountBound(s, k - 1, isDuplication);
      if k == |s| {
        assert !HasLaterDuplicate(s, k - 1, isDuplication);
      }
    }
  }

  /** `getDuplicationPercent` lies between 0 and 100 (n-1) / n. */
  lemma DuplicationPercentBound<T>(s: seq<T>, isDuplication: (T, T) -> bool)
    requires |s| > 0
    ensures 0 <= DuplicateCount(s, |s|, isDuplication) * 100 / |s| <= 100 * (|s| - 1) / |s| <= 100
  {
    DuplicateCountBound(s, |s|, isDuplication);
    DivMonotone(DuplicateCount(s, |s|, isDuplication) * 100, 100 * (|s| - 1), |s|);
    DivMonotone(100 * (|s| - 1), 100 * |s|, |s|);
  }

  /** The two nested loops of `getDuplicationPercent`. */
  method CountDuplicates<T>(s: seq<T>, isDuplication: (T, T) -> bool) returns (nbDupl: nat)
    ensures nbDupl == DuplicateCount(s, |s|, isDuplication)
  {
    nbDupl := 0;
    var i1 := 0;
    while i1 < |s|
      invariant 0 <= i1 <= |s|
      invariant nbDupl == DuplicateCount(s, i1, isDuplication)
    {
      var dupl := false;
      var i2 := i1 + 1;
      while !dupl && i2 < |s|
        invariant i1 + 1 <= i2 <= |s|
        invariant dupl <==> exists j :: i1 < j < i2 && isDuplication(s[i1], s[j])
        invariant nbDupl == DuplicateCount(s, i1, isDuplication) + (if dupl then 1 else 0)
      {
        if isDuplication(s[i1], s[i2]) {
          nbDupl := nbDupl + 1;
          dupl := true;
        }
        i2 := i2 + 1;
      }
      assert dupl == HasLaterDuplicate(s, i1, isDuplication);
      i1 := i1 + 1;
    }
  }

  // ----- best individuals -----

  /** The scan `best = x if best is None or beats(x, best)` over the list. */
  function Champion<T>(s: seq<T>, beats: (T, T) -> bool): Option<T> {
    if s == [] then None
    else
      var c := Champion(s[..|s| - 1], beats);
      if c.None? || beats(s[|s| - 1], c.value) then Some(s[|s| - 1]) else c
  }

  /** `r` is irreflexive and transitive on the members of `s`. */
  ghost predicate StrictOrderOn<T>(s: seq<T>, r: (T, T) -> bool) {
    (forall x :: x in s ==> !r(x, x))
    && (forall x, y, z :: x in s && y in s && z in s && r(x, y) && r(y, z) ==> r(x, z))
  }

  /** The champion is a member, is absent only for an empty list, and no
      member beats it when `beats` is a strict order. */
  lemma ChampionSpec<T>(s: seq<T>, beats: (T, T) -> bool)
    ensures Champion(s, beats).None? <==> s == []
    ensures Champion(s, beats).Some? ==> Champion(s, beats).value in s
    ensures Champion(s, beats).Some? && StrictOrderOn(s, beats) ==>
              forall x :: x in s ==> !beats(x, Champion(s, beats).value)
  {
    ChampionMember(s, beats);
    if s != [] && StrictOrderOn(s, beats) {
      ChampionBest(s, beats);
    }
  }

  lemma {:induction false} ChampionMember<T>(s: seq<T>, beats: (T, T) -> bool)
    ensures Champion(s, beats).None? <==> s == []
    ensures Champion(s, beats).Some? ==> Champion(s, beats).value in s
  {
    if s != [] {
      var init := s[..|s| - 1];
      assert s == init + [s[|s| - 1]];
      ChampionMember(init, beats);
    }
  }

  lemma {:induction false} ChampionBest<T>(s: seq<T>, beats: (T, T) -> bool)
    requires s != [] && StrictOrderOn(s, beats)
    ensures Champion(s, beats).Some? && forall x :: x in s ==> !beats(x, Champion(s, beats).value)
  {
    var init := s[..|s| - 1];
    var last := s[|s| - 1];
    assert s == init + [last];
    ChampionMember(init, beats);
    var c := Champion(init, beats);
    if c.None? {
      assert s == [last];
    } else {
      assert StrictOrderOn(init, beats);
      ChampionBest(init, beats);
      if beats(last, c.value) {
        forall x | x in s ensures !beats(x, last) {
          if x in init {
            assert !beats(x, c.value) && c.value in s;
          }
        }
      } else {
        forall x | x in s ensures !beats(x, c.value) {
          if x != last {
            assert x in init;
          }
        }
      }
    }
  }

  method ScanChampion<T>(s: seq<T>, beats: (T, T) -> bool) returns (best: Option<T>)
    ensures best == Champion(s, beats)
  {
    best := None;
    var i := 0;
    while i < |s|
      invariant 0 <= i <= |s|
      invariant best == Champion(s[..i], beats)
    {
      assert s[..i + 1][..i] == s[..i];
      if best.None? || beats(s[i], best.value) {
        best := Some(s[i]);
      }
      i := i + 1;
    }
    assert s[..i] == s;
  }

  /** The position before which the insertion ranking puts `x`: the first
      member it is better than, or the end. */
  function FirstBeaten<T>(s: seq<T>, x: T, isBetter: (T, T) -> bool): (i: nat)
    ensures i <= |s|
    ensures forall j :: 0 <= j < i ==> !isBetter(x, s[j])
    ensures i < |s| ==> isBetter(x, s[i])
  {
    if s == [] then 0
    else if isBetter(x, s[0]) then 0
    else 1 + FirstBeaten(s[1..], x, isBetter)
  }

  function InsertRanked<T>(s: seq<T>, x: T, isBetter: (T, T) -> bool): seq<T> {
    var i := FirstBeaten(s, x, isBetter);
    s[..i] + [x] + s[i..]
  }

  /** The ranking `getBestIndividual` builds for several best members. */
  function Ranked<T>(s: seq<T>, isBetter: (T, T) -> bool): seq<T> {
    if s == [] then [] else InsertRanked(Ranked(s[..|s| - 1], isBetter), s[|s| - 1], isBetter)
  }

  /** No member is better than an earlier one. */
  predicate BestFirst<T>(r: seq<T>, isBetter: (T, T) -> bool) {
    forall i, j :: 0 <= i < j < |r| ==> !isBetter(r[j], r[i])
  }

  /** The ranking is a permutation of the list, best first when `isBetter`
      is a strict order. */
  lemma {:induction false} RankedSpec<T>(s: seq<T>, isBetter: (T, T) -> bool)
    ensures multiset(Ranked(s, isBetter)) == multiset(s)
    ensures StrictOrderOn(s, isBetter) ==> BestFirst(Ranked(s, isBetter), isBetter)
  {
    if s != [] {
      var init := s[..|s| - 1];
      var x := s[|s| - 1];
      assert s == init + [x];
      RankedSpec(init, isBetter);
      var r := Ranked(init, isBetter);
      InsertRankedPerm(r, x, isBetter);
      if StrictOrderOn(s, isBetter) {
        forall m | m in r ensures m in s {
          assert m in multiset(r);
        }
        InsertRankedOrder(r, x, isBetter, s);
      }
    }
  }

  lemma InsertRankedPerm<T>(r: seq<T>, x: T, isBetter: (T, T) -> bool)
    ensures multiset(InsertRanked(r, x, isBetter)) == multiset(r) + multiset{x}
  {
    var i := FirstBeaten(r, x, isBetter);
    assert r == r[..i] + r[i..];
  }

  /** Inserting before the first member `x` is better than keeps a
      best-first ranking best first. */
  lemma InsertRankedOrder<T>(r: seq<T>, x: T, isBetter: (T, T) -> bool, s: seq<T>)
    requires StrictOrderOn(s, isBetter) && x in s && forall m :: m in r ==> m in s
    requires BestFirst(r, isBetter)
    ensures BestFirst(InsertRanked(r, x, isBetter), isBetter)
  {
    var i := FirstBeaten(r, x, isBetter);
    var q := r[..i] + [x] + r[i..];
    forall a, b | 0 <= a < b < |q| ensures !isBetter(q[b], q[a]) {
      if b < i {
        assert q[a] == r[a] && q[b] == r[b];
      } else if b == i {
        assert q[b] == x && q[a] == r[a];
      } else if a < i {
        assert q[a] == r[a] && q[b] == r[b - 1];
      } else if a == i {
        assert q[a] == x && q[b] == r[b - 1];
        assert isBetter(x, r[i]) && r[i] in s && r[b - 1] in s;
        assert !isBetter(r[b - 1], r[i]);
      } else {
        assert q[a] == r[a - 1] && q[b] == r[b - 1];
      }
    }
  }

  /** The inner loop of the ranking: `x` goes before the first member it is
      better than; the loop goes on over the grown list but adds nothing more. */
  method InsertIntoRanking<T>(sorted: seq<T>, x: T, isBetter: (T, T) -> bool) returns (r: seq<T>)
    ensures r == InsertRanked(sorted, x, isBetter)
  {
    r := sorted;
    var added := false;
    var i := 0;
    while i < |r|
      invariant 0 <= i <= |r|
      invariant !added ==> r == sorted && forall j :: 0 <= j < i ==> !isBetter(x, sorted[j])
      invariant added ==> r == InsertRanked(sorted, x, isBetter)
      decreases |r| - i + (if added then 0 else 1)
    {
      if isBetter(x, r[i]) && !added {
        r := r[..i] + [x] + r[i..];
        added := true;
        assert FirstBeaten(sorted, x, isBetter) == i;
      }
      i := i + 1;
    }
    if !added {
      assert FirstBeaten(sorted, x, isBetter) == |sorted|;
      r := r + [x];
      assert r == sorted[..|sorted|] + [x] + sorted[|sorted|..];
    }
  }

  method RankByInsertion<T>(s: seq<T>, isBetter: (T, T) -> bool) returns (sorted: seq<T>)
    ensures sorted == Ranked(s, isBetter)
  {
    sorted := [];
    var k := 0;
    while k < |s|
      invariant 0 <= k <= |s|
      invariant sorted == Ranked(s[..k], isBetter)
    {
      assert s[..k + 1][..k] == s[..k];
      sorted := InsertIntoRanking(sorted, s[k], isBetter);
      k := k + 1;
    }
    assert s[..k] == s;
  }

  /** What `getBestIndividual` returns: one individual (or None), or a list. */
  datatype Best<T> = Single(best: Option<T>) | Several(members: seq<T>)

  /** The outcome of `getRandomParents`; `OutOfDraws` when the given draws
      run out before a second parent other than the first one is drawn. */
  datatype Parents<T> = Parents(parent1: T, parent2: T) | Raised(error: Error) | OutOfDraws

  /** The first drawn member that is not `x`. */
  function FirstOther<T(==)>(s: seq<T>, draws: seq<nat>, x: T): (r: Option<T>)
    requires forall i :: 0 <= i < |draws| ==> draws[i] < |s|
    ensures r.Some? ==> r.value != x && r.value in s
    ensures r.None? <==> forall i :: 0 <= i < |draws| ==> s[draws[i]] == x
  {
    if draws == [] then None
    else if s[draws[0]] != x then Some(s[draws[0]])
    else FirstOther(s, draws[1..], x)
  }

  /** The uncaught list once both parents are taken out, refilled with the
      whole population when it becomes empty. */
  function TakeParents<T(==)>(uncaught: seq<T>, individuals: seq<T>, p1: T, p2: T): seq<T> {
    var left := RemoveFirst(RemoveFirst(uncaught, p1), p2);
    if left == [] then individuals else left
  }

  /** The two positions `random.sample(indList, 2)` returns are distinct
      positions of the list the parents are drawn from. */
  predicate PairDrawable<T>(individuals: seq<T>, uncaught: seq<T>, useTwice: bool, pair: (nat, nat)) {
    |individuals| >= 2 ==>
      var pool := if !useTwice && |uncaught| > 1 then uncaught else individuals;
      pair.0 < |pool| && pair.1 < |pool| && pair.0 != pair.1
  }

  /** The parents `getRandomParents` draws: at least two members are needed;
      a lone uncaught member is the first parent and the second is redrawn
      until it is another member; otherwise two distinct positions of the
      uncaught list (when parents are not used twice and it has more than
      one) or of the whole population. */
  function DrawnParents<T(==)>(individuals: seq<T>, uncaught: seq<T>, useTwice: bool, pair: (nat, nat),
                               redraws: seq<nat>): (r: Parents<T>)
    requires PairDrawable(individuals, uncaught, useTwice, pair)
    requires forall i :: 0 <= i < |redraws| ==> redraws[i] < |individuals|
    ensures r.Parents? ==> r.parent1 in individuals + uncaught && r.parent2 in individuals + uncaught
  {
    if |individuals| < 2 then Raised(PopulationError(TooFewParents))
    else if !useTwice && |uncaught| == 1 then
      match FirstOther(individuals, redraws, uncaught[0])
      case None => OutOfDraws
      case Some(p2) => Parents(uncaught[0], p2)
    else
      var pool := if !useTwice && |uncaught| > 1 then uncaught else individuals;
      Parents(pool[pair.0], pool[pair.1])
  }

  /** A lone uncaught member is never its own partner, and two distinct
      positions of the whole population are two different individuals when
      it holds no individual twice. */
  lemma DrawnParentsDistinct<T>(individuals: seq<T>, uncaught: seq<T>, useTwice: bool, pair: (nat, nat),
                                redraws: seq<nat>)
    requires PairDrawable(individuals, uncaught, useTwice, pair)
    requires forall i :: 0 <= i < |redraws| ==> redraws[i] < |individuals|
    requires forall i, j :: 0 <= i < j < |individuals| ==> individuals[i] != individuals[j]
    requires multiset(uncaught) <= multiset(individuals)
    ensures var r := DrawnParents(individuals, uncaught, useTwice, pair, redraws);
            r.Parents? ==> r.parent1 != r.parent2
  {
    if |individuals| >= 2 && !(!useTwice && |uncaught| == 1) && !useTwice && |uncaught| > 1 {
      forall i, j | 0 <= i < j < |uncaught| ensures uncaught[i] != uncaught[j] {
        if uncaught[i] == uncaught[j] {
          UniqueCount(individuals, uncaught[i]);
          TwiceCount(uncaught, i, j);
        }
      }
    }
  }

  /** An element of a list without repetitions occurs once. */
  lemma {:induction false} UniqueCount<T>(s: seq<T>, x: T)
    requires forall i, j :: 0 <= i < j < |s| ==> s[i] != s[j]
    ensures multiset(s)[x] <= 1
  {
    if s != [] {
      var t := s[1..];
      assert s == [s[0]] + t;
      UniqueCount(t, x);
      if s[0] == x {
        assert x !in t;
      }
    }
  }

  /** An element at two positions occurs at least twice. */
  lemma TwiceCount<T>(s: seq<T>, i: nat, j: nat)
    requires i < j < |s| && s[i] == s[j]
    ensures multiset(s)[s[i]] >= 2
  {
    assert s == s[..i] + [s[i]] + s[i + 1..j] + [s[j]] + s[j + 1..];
  }

  /** The uncaught list stays within the population once parents are taken out. */
  lemma TakeParentsValid<T>(uncaught: seq<T>, individuals: seq<T>, p1: T, p2: T)
    requires multiset(uncaught) <= multiset(individuals)
    ensures multiset(TakeParents(uncaught, individuals, p1, p2)) <= multiset(individuals)
  {
    RemoveFirstSpec(uncaught, p1);
    RemoveFirstSpec(RemoveFirst(uncaught, p1), p2);
  }

  /** The redraw loop `while parent2 == parent1`. */
  method DrawOther<T(==)>(s: seq<T>, draws: seq<nat>, x: T) returns (r: Option<T>)
    requires forall i :: 0 <= i < |draws| ==> draws[i] < |s|
    ensures r == FirstOther(s, draws, x)
  {
    var k := 0;
    while k < |draws| && s[draws[k]] == x
      invariant 0 <= k <= |draws|
      invariant FirstOther(s, draws[k..], x) == FirstOther(s, draws, x)
    {
      assert draws[k..][1..] == draws[k + 1..];
      k := k + 1;
    }
    if k == |draws| {
      return None;
    }
    assert draws[k..][0] == draws[k];
    r := Some(s[draws[k]]);
  }

  /** Steps 1 to 3 of `getRandomParents`. */
  method DrawParents<T(==)>(individuals: seq<T>, uncaught: seq<T>, useTwice: bool, pair: (nat, nat),
                            redraws: seq<nat>) returns (r: Parents<T>)
    requires PairDrawable(individuals, uncaught, useTwice, pair)
    requires forall i :: 0 <= i < |redraws| ==> redraws[i] < |individuals|
    ensures r == DrawnParents(individuals, uncaught, useTwice, pair, redraws)
  {
    if |individuals| < 2 {
      return Raised(PopulationError(TooFewParents));
    }
    var indList := individuals;
    if !useTwice && |uncaught| == 1 {
      var parent1 := uncaught[0];
      var other := DrawOther(individuals, redraws, parent1);
      if other.None? {
        return OutOfDraws;
      }
      return Parents(parent1, other.value);
    }
    if !useTwice && |uncaught| > 1 {
      indList := uncaught;
    }
    r := Parents(indList[pair.0], indList[pair.1]);
  }

  const TooFewParents := "ERROR: At least TWO parents are needed to proceed to crossover.\n"
                         + "Please change crossover/mutation rates or population size."

  class Population<T(==)> {
    var individuals: seq<T>
    var uncaught: seq<T>
    /** MULTI_OBJ of the individual class the population holds. */
    const multiObj: bool

    /** Every uncaught individual is a member, as often as it is listed. */
    ghost predicate Valid()
      reads this
    {
      multiset(uncaught) <= multiset(individuals)
    }

    constructor (multiObj: bool)
      ensures Valid() && individuals == [] && uncaught == [] && this.multiObj == multiObj
    {
      individuals := [];
      uncaught := [];
      this.multiObj := multiObj;
    }

    function Size(): nat
      reads this
    {
      |individuals|
    }

    /** `__generateInitPop`: the lists restart empty and take the kept candidates;
        `ranOut` when the candidates end before the target is met. */
    method GenerateInitPop(nbIndividuals: int, noDuplication: bool, isDuplication: (T, T) -> bool,
                           candidates: seq<T>)
      returns (ranOut: bool)
      modifies this
      ensures Valid()
      ensures individuals == Grown([], candidates, nbIndividuals, noDuplication, isDuplication)
      ensures uncaught == individuals
      ensures !ranOut <==> |individuals| == (if nbIndividuals > 0 then nbIndividuals else 0)
      ensures ranOut ==> |individuals| < nbIndividuals && AllOffered(individuals, candidates, noDuplication, isDuplication)
    {
      var pop;
      pop, ranOut := GrowPopulation(nbIndividuals, noDuplication, isDuplication, candidates);
      individuals := pop;
      uncaught := pop;
    }

    /** `addIndividual` appends to both lists. */
    method AddIndividual(x: T)
      requires Valid()
      modifies this
      ensures Valid()
      ensures individuals == old(individuals) + [x] && uncaught == old(uncaught) + [x]
    {
      individuals := individuals + [x];
      uncaught := uncaught + [x];
    }

    /** `removeIndividual`: the last identical member goes, and the first
        identical uncaught entry if there is one; an absent individual raises. */
    method RemoveIndividual(x: T) returns (status: Status)
      requires Valid()
      modifies this
      ensures Valid()
      ensures x !in old(individuals) ==>
                status == Failure(PopulationError("ERROR: cannot remove individual from the population (individual not found)."))
                && individuals == old(individuals) && uncaught == old(uncaught)
      ensures x in old(individuals) ==> status == Success
      ensures individuals == RemoveLast(old(individuals), x) && uncaught == RemoveFirst(old(uncaught), x)
    {
      var iInd := FindLast(individuals, x);
      if iInd == -1 {
        assert x !in multiset(uncaught);
        RemoveFirstSpec(uncaught, x);
        return Failure(PopulationError("ERROR: cannot remove individual from the population (individual not found)."));
      }
      RemoveLastSpec(individuals, x);
      RemoveFirstSpec(uncaught, x);
      individuals := RemoveAt(individuals, iInd);
      uncaught := RemoveFirst(uncaught, x);
      status := Success;
    }

    /** `duplicate`: a fresh population sharing the members, all uncaught. */
    method Duplicate() returns (p: Population<T>)
      ensures fresh(p) && p.Valid()
      ensures p.individuals == individuals && p.uncaught == individuals && p.multiObj == multiObj
    {
      p := new Population(multiObj);
      p.individuals := individuals;
      p.uncaught := individuals;
    }

    /** `merge`: every member of `other` is appended to both lists.  `other`
        may not be this population: the loop would then never end. */
    method Merge(other: Population<T>)
      requires Valid() && other != this
      modifies this
      ensures Valid()
      ensures individuals == old(individuals) + other.individuals
      ensures uncaught == old(uncaught) + other.individuals
    {
      var i := 0;
      while i < |other.individuals|
        invariant 0 <= i <= |other.individuals|
        invariant individuals == old(individuals) + other.individuals[..i]
        invariant uncaught == old(uncaught) + other.individuals[..i]
        invariant Valid()
      {
        assert other.individuals[..i + 1] == other.individuals[..i] + [other.individuals[i]];
        AddIndividual(other.individuals[i]);
        i := i + 1;
      }
      assert other.individuals[..i] == other.individuals;
    }

    /** `a + b`: a fresh population holding a's members then b's. */
    method Plus(other: Population<T>) returns (p: Population<T>)
      requires Valid()
      ensures fresh(p) && p.Valid() && p.multiObj == multiObj
      ensures p.individuals == individuals + other.individuals
      ensures p.uncaught == individuals + other.individuals
    {
      p := Duplicate();
      p.Merge(other);
    }

    /** `getDuplicationPercent`: 100 times the members with a later duplicate,
        over the size, in integer division; an empty population divides by zero. */
    method GetDuplicationPercent(isDuplication: (T, T) -> bool) returns (r: Result<int>)
      ensures |individuals| == 0 ==> r == Err(ZeroDivisionError)
      ensures |individuals| > 0 ==>
                r == Ok(DuplicateCount(individuals, |individuals|, isDuplication) * 100 / |individuals|)
    {
      var nbDupl := CountDuplicates(individuals, isDuplication);
      if |individuals| == 0 {
        return Err(ZeroDivisionError);
      }
      r := Ok(nbDupl * 100 / |individuals|);
    }

    /** `getClusters`: an empty population has no first member to seed from. */
    method GetClusters(distance: (T, T) -> Option<real>, inflDist: real)
      returns (r: Result<seq<seq<T>>>, indices: seq<seq<nat>>)
      ensures |individuals| == 0 ==> r == Err(IndexError)
      ensures |individuals| > 0 ==>
                r.Ok? && Clustering.Partition(indices, |individuals|)
                && Clustering.Seeded(indices)
                && Clustering.Chained(individuals, indices, distance, inflDist)
                && Clustering.Separated(individuals, indices, distance, inflDist)
                && r.value == Clustering.Members(individuals, indices)
    {
      if |individuals| == 0 {
        return Err(IndexError), [];
      }
      indices := Clustering.Clusters(individuals, distance, inflDist);
      r := Ok(Clustering.Members(individuals, indices));
    }

    /** `removeRandomIndiv`: `random.sample` raises ValueError for a count
        outside 0..size; otherwise each sampled member is removed in turn. */
    method RemoveRandomIndiv(nbIndiv: int, picks: seq<nat>) returns (status: Status)
      requires Valid()
      requires 0 <= nbIndiv <= |individuals| ==> IsSample(picks, nbIndiv, |individuals|)
      modifies this
      ensures Valid()
      ensures !(0 <= nbIndiv <= |old(individuals)|) ==>
                status == Failure(ValueError) && individuals == old(individuals) && uncaught == old(uncaught)
      ensures 0 <= nbIndiv <= |old(individuals)| ==>
                status == Success
                && individuals == RemoveEach(old(individuals), Picked(old(individuals), picks))
                && uncaught == RemoveEachFirst(old(uncaught), Picked(old(individuals), picks))
                && |individuals| == |old(individuals)| - nbIndiv
                && multiset(individuals) == multiset(old(individuals)) - multiset(Picked(old(individuals), picks))
    {
      if !(0 <= nbIndiv <= |individuals|) {
        return Failure(ValueError);
      }
      var indivs := Picked(individuals, picks);
      ghost var individuals0, uncaught0 := individuals, uncaught;
      PickedSubMultiset(individuals, picks);
      RemoveEachSpec(individuals, indivs);
      var k := 0;
      while k < |indivs|
        invariant 0 <= k <= |indivs|
        invariant Valid()
        invariant RemoveEach(individuals, indivs[k..]) == RemoveEach(individuals0, indivs)
        invariant RemoveEachFirst(uncaught, indivs[k..]) == RemoveEachFirst(uncaught0, indivs)
        invariant multiset(indivs[k..]) <= multiset(individuals)
      {
        RemoveStep(individuals, uncaught, indivs, k);
        var st := RemoveIndividual(indivs[k]);
        assert st == Success;
        k := k + 1;
      }
      status := Success;
    }

    /** `getRandomParents` with the default bias selection (`random.sample`):
        `pair` is the two positions drawn from the pool of two, `redraws` the
        positions drawn one at a time for a second parent. */
    method GetRandomParents(useTwice: bool, pair: (nat, nat), redraws: seq<nat>) returns (r: Parents<T>)
      requires Valid()
      requires PairDrawable(individuals, uncaught, useTwice, pair)
      requires forall i :: 0 <= i < |redraws| ==> redraws[i] < |individuals|
      modifies this`uncaught
      ensures Valid()
      ensures r == DrawnParents(individuals, old(uncaught), useTwice, pair, redraws)
      ensures r.Parents? ==> uncaught == TakeParents(old(uncaught), individuals, r.parent1, r.parent2)
      ensures !r.Parents? ==> uncaught == old(uncaught)
    {
      r := DrawParents(individuals, uncaught, useTwice, pair, redraws);
      if r.Parents? {
        TakeParentsValid(uncaught, individuals, r.parent1, r.parent2);
        uncaught := RemoveFirst(uncaught, r.parent1);
        uncaught := RemoveFirst(uncaught, r.parent2);
        if |uncaught| == 0 {
          uncaught := individuals;
        }
      }
    }

    /** `getRandomIndividual` with the default bias selection: one sampled
        member; sampling from an empty population raises ValueError. */
    method GetRandomIndividual(pick: nat) returns (r: Result<T>)
      requires |individuals| > 0 ==> pick < |individuals|
      ensures |individuals| == 0 ==> r == Err(ValueError)
      ensures |individuals| > 0 ==> r == Ok(individuals[pick])
    {
      if |individuals| == 0 {
        return Err(ValueError);
      }
      r := Ok(individuals[pick]);
    }

    /** `getBestIndividual`: a count of at most 0 means 1; one member is the
        scan's champion, several are the head of the insertion ranking;
        multi-objective classes answer with their own `getBestIndividuals`,
        given as `multiBest`: for NSGA-II individuals that is the population's
        front 0 in population order, which `Nsgaii.GetBestIndividuals`
        computes and `Nsgaii.BestAreUndominated` shows to be the individuals
        nobody dominates. */
    method GetBestIndividual(nbBest: int, isBetter: (T, T) -> bool, multiBest: seq<T>) returns (b: Best<T>)
      ensures multiObj ==> b == Several(multiBest)
      ensures !multiObj && nbBest <= 1 ==> b == Single(Champion(individuals, isBetter))
      ensures !multiObj && nbBest > 1 ==>
                var ranked := Ranked(individuals, isBetter);
                b == Several(ranked[..if nbBest < |ranked| then nbBest else |ranked|])
    {
      var n := nbBest;
      if n <= 0 {
        n := 1;
      }
      if multiObj {
        return Several(multiBest);
      }
      if n == 1 {
        var best := ScanChampion(individuals, isBetter);
        b := Single(best);
      } else {
        var sortedPop := RankByInsertion(individuals, isBetter);
        RankedSpec(individuals, isBetter);
        b := Several(sortedPop[..if n < |sortedPop| then n else |sortedPop|]);
      }
    }
  }

  method FindLast<T(==)>(s: seq<T>, x: T) returns (iInd: int)
    ensures iInd == LastIndexOf(s, x)
  {
    iInd := -1;
    var i := 0;
    while i < |s|
      invariant 0 <= i <= |s|
      invariant iInd == LastIndexOf(s[..i], x)
    {
      assert s[..i + 1][..i] == s[..i];
      if s[i] == x {
        iInd := i;
      }
      i := i + 1;
    }
    assert s[..i] == s;
  }
}
