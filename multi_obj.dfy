// Pareto dominance and the objective sort of the multi-objective individual
// (PYGA_StandardMultiObjIndividual). An objective vector is a `seq<real>`;
// the class constants NB_OBJECTIVES and OBJ_TYPES form a `Profile`.

module MultiObj {
  import opened Errors

  /** NB_OBJECTIVES and OBJ_TYPES of the individual class. */
  datatype Profile = Profile(nbObjectives: nat, objTypes: seq<string>)

  /** A vector `dominate` reads without an IndexError: the first
      NB_OBJECTIVES entries of it and of OBJ_TYPES exist. */
  predicate Fits(p: Profile, v: seq<real>) {
    p.nbObjectives <= |p.objTypes| && p.nbObjectives <= |v|
  }

  /** An objective of type "max" is maximised, any other type is minimised. */
  predicate NoWorse(objType: string, x: real, y: real) {
    if objType == "max" then x >= y else x <= y
  }

  /** `a` dominates `b`: no worse on every objective, and not equal on all of them. */
  predicate Dominates(p: Profile, a: seq<real>, b: seq<real>) {
    Fits(p, a) && Fits(p, b)
    && (forall i :: 0 <= i < p.nbObjectives ==> NoWorse(p.objTypes[i], a[i], b[i]))
    && (exists i :: 0 <= i < p.nbObjectives && a[i] != b[i])
  }

  /** `dominate`: one pass over the objectives with a `better` and an `equal`
      flag. Objectives not yet computed are None, and reading one of them
      raises TypeError; reading past the end of a vector or of OBJ_TYPES
      raises IndexError. Each pass reads `a`, then `b`, then OBJ_TYPES. */
  method Dominate(p: Profile, a: Option<seq<real>>, b: Option<seq<real>>) returns (r: Result<bool>)
    ensures r.Err? <==> p.nbObjectives > 0 && (a.None? || b.None? || !Fits(p, a.value) || !Fits(p, b.value))
    ensures r.Err? ==> r.error == if a.None? || (b.None? && |a.value| > 0) then TypeError else IndexError
    ensures r.Ok? && a.Some? && b.Some? ==> (r.value <==> Dominates(p, a.value, b.value))
    ensures r.Ok? && (a.None? || b.None?) ==> !r.value
  {
    var better, equal := true, true;
    var i := 0;
    while i < p.nbObjectives
      invariant 0 <= i <= p.nbObjectives
      invariant i > 0 ==> a.Some? && b.Some? && i <= |a.value| && i <= |b.value| && i <= |p.objTypes|
      invariant i == 0 ==> better && equal
      invariant i > 0 ==> (better <==> forall j :: 0 <= j < i ==> NoWorse(p.objTypes[j], a.value[j], b.value[j]))
      invariant i > 0 ==> (equal <==> forall j :: 0 <= j < i ==> a.value[j] == b.value[j])
    {
      if a.None? {
        return Err(TypeError);
      }
      if |a.value| <= i {
        return Err(IndexError);
      }
      if b.None? {
        return Err(TypeError);
      }
      if |b.value| <= i || |p.objTypes| <= i {
        return Err(IndexError);
      }
      var x, y := a.value[i], b.value[i];
      if x != y {
        equal := false;
      }
      if p.objTypes[i] == "max" {
        if x < y {
          better := false;
        }
      } else {
        if x > y {
          better := false;
        }
      }
      i := i + 1;
    }
    r := Ok(better && !equal);
  }

  /** No vector dominates itself. */
  lemma DominatesIrreflexive(p: Profile, a: seq<real>)
    ensures !Dominates(p, a, a)
  {
  }

  /** Two vectors never dominate each other. */
  lemma DominatesAsymmetric(p: Profile, a: seq<real>, b: seq<real>)
    ensures Dominates(p, a, b) ==> !Dominates(p, b, a)
  {
    if Dominates(p, a, b) {
      var i :| 0 <= i < p.nbObjectives && a[i] != b[i];
      assert !NoWorse(p.objTypes[i], b[i], a[i]);
    }
  }

  /** Dominance is transitive. */
  lemma DominatesTransitive(p: Profile, a: seq<real>, b: seq<real>, c: seq<real>)
    requires Dominates(p, a, b) && Dominates(p, b, c)
    ensures Dominates(p, a, c)
  {
    forall i | 0 <= i < p.nbObjectives
      ensures NoWorse(p.objTypes[i], a[i], c[i])
    {
      assert NoWorse(p.objTypes[i], a[i], b[i]) && NoWorse(p.objTypes[i], b[i], c[i]);
    }
    var i :| 0 <= i < p.nbObjectives && a[i] != b[i];
    assert a[i] != c[i] by {
      assert NoWorse(p.objTypes[i], a[i], b[i]) && NoWorse(p.objTypes[i], b[i], c[i]);
    }
  }

  /** Dominance only looks at the objective values: equal vectors are dominated alike. */
  lemma DominatesByValue(p: Profile, a: seq<real>, b: seq<real>, c: seq<real>)
    requires Fits(p, a) && Fits(p, b)
    requires forall i :: 0 <= i < p.nbObjectives ==> a[i] == b[i]
    ensures Dominates(p, c, a) <==> Dominates(p, c, b)
    ensures Dominates(p, a, c) <==> Dominates(p, b, c)
    ensures !Dominates(p, a, b)
  {
  }

  // ----- sortPop: Python's `sorted` on one objective -----

  /** The positions 0, 1, ..., n-1. */
  function Range(n: nat): (r: seq<nat>)
    ensures |r| == n && forall i :: 0 <= i < n ==> r[i] == i
  {
    seq(n, i requires 0 <= i => i)
  }

  /** Each position below n occurs once in `Range(n)`, and nothing else does. */
  lemma {:induction false} RangeCount(n: nat, x: nat)
    ensures multiset(Range(n))[x] == if x < n then 1 else 0
  {
    if n > 0 {
      RangeCount(n - 1, x);
      assert Range(n) == Range(n - 1) + [n - 1];
    }
  }

  /** A permutation of the positions below n lists each of them exactly once. */
  lemma RangePermutation(o: seq<nat>, n: nat)
    requires multiset(o) == multiset(Range(n))
    ensures |o| == n && Bounded(o, n)
    ensures forall i, j :: 0 <= i < j < |o| ==> o[i] != o[j]
    ensures forall y: nat :: y < n ==> y in o
  {
    assert |o| == |multiset(o)| == |Range(n)|;
    forall i | 0 <= i < |o|
      ensures o[i] < n
    {
      assert o[i] in multiset(o);
      RangeCount(n, o[i]);
    }
    forall i, j | 0 <= i < j < |o|
      ensures o[i] != o[j]
    {
      if o[i] == o[j] {
        assert o == o[..i] + [o[i]] + o[i + 1..j] + [o[j]] + o[j + 1..];
        RangeCount(n, o[i]);
        assert false;
      }
    }
    forall y: nat | y < n
      ensures y in o
    {
      RangeCount(n, y);
      assert y in multiset(o);
    }
  }

  /** `order` lists positions of `keys` by non-decreasing key. */
  ghost predicate SortedBy(keys: seq<real>, order: seq<nat>) {
    (forall i :: 0 <= i < |order| ==> order[i] < |keys|)
    && forall i, j :: 0 <= i < j < |order| ==> keys[order[i]] <= keys[order[j]]
  }

  /** Positions with equal keys keep their original order. */
  ghost predicate StableBy(keys: seq<real>, order: seq<nat>)
    requires forall i :: 0 <= i < |order| ==> order[i] < |keys|
  {
    forall i, j :: 0 <= i < j < |order| && keys[order[i]] == keys[order[j]] ==> order[i] < order[j]
  }

  predicate Bounded(s: seq<nat>, n: nat) {
    forall i :: 0 <= i < |s| ==> s[i] < n
  }

  /** One step of insertion: `j` goes after every entry whose key is not larger. */
  function InsertByKey(keys: seq<real>, s: seq<nat>, j: nat): (r: seq<nat>)
    requires j < |keys| && Bounded(s, |keys|)
    ensures |r| == |s| + 1 && Bounded(r, |keys|)
  {
    if s == [] || keys[s[|s| - 1]] <= keys[j] then s + [j]
    else InsertByKey(keys, s[..|s| - 1], j) + [s[|s| - 1]]
  }

  /** Insertion adds `j` and loses nothing. */
  lemma {:induction false} InsertByKeyCount(keys: seq<real>, s: seq<nat>, j: nat)
    requires j < |keys| && Bounded(s, |keys|)
    ensures multiset(InsertByKey(keys, s, j)) == multiset(s) + multiset{j}
  {
    if s != [] && keys[s[|s| - 1]] > keys[j] {
      assert s == s[..|s| - 1] + [s[|s| - 1]];
      InsertByKeyCount(keys, s[..|s| - 1], j);
    }
  }

  /** The first `m` positions of `keys`, sorted by insertion. */
  function SortUpTo(keys: seq<real>, m: nat): (r: seq<nat>)
    requires m <= |keys|
    ensures |r| == m && Bounded(r, |keys|)
  {
    if m == 0 then [] else InsertByKey(keys, SortUpTo(keys, m - 1), m - 1)
  }

  /** Sorting the first `m` positions permutes them. */
  lemma {:induction false} SortUpToCount(keys: seq<real>, m: nat)
    requires m <= |keys|
    ensures multiset(SortUpTo(keys, m)) == multiset(Range(m))
  {
    if m > 0 {
      SortUpToCount(keys, m - 1);
      InsertByKeyCount(keys, SortUpTo(keys, m - 1), m - 1);
      assert Range(m) == Range(m - 1) + [m - 1];
    }
  }

  /** `sortPop(population, obj)` as the positions of the population in sorted
      order, `keys` holding objective `obj` of each member. */
  function SortPop(keys: seq<real>): (order: seq<nat>)
    ensures |order| == |keys| && Bounded(order, |keys|)
  {
    SortUpTo(keys, |keys|)
  }

  lemma InsertSorted(keys: seq<real>, s: seq<nat>, j: nat)
    requires j < |keys| && Bounded(s, |keys|) && SortedBy(keys, s)
    ensures SortedBy(keys, InsertByKey(keys, s, j))
  {
    if s == [] || keys[s[|s| - 1]] <= keys[j] {
    } else {
      var last := s[|s| - 1];
      var front := s[..|s| - 1];
      InsertSorted(keys, front, j);
      var r := InsertByKey(keys, front, j);
      InsertByKeyCount(keys, front, j);
      forall i | 0 <= i < |r|
        ensures keys[r[i]] <= keys[last]
      {
        assert r[i] in multiset(r);
        if r[i] != j {
          assert r[i] in multiset(front);
          var k :| 0 <= k < |front| && front[k] == r[i];
          assert s[k] == r[i];
        }
      }
    }
  }

  lemma InsertStable(keys: seq<real>, s: seq<nat>, j: nat)
    requires j < |keys| && Bounded(s, |keys|) && StableBy(keys, s)
    requires forall i :: 0 <= i < |s| ==> s[i] < j
    ensures StableBy(keys, InsertByKey(keys, s, j))
  {
    if s == [] || keys[s[|s| - 1]] <= keys[j] {
    } else {
      var last := s[|s| - 1];
      var front := s[..|s| - 1];
      InsertStable(keys, front, j);
      var r := InsertByKey(keys, front, j);
      InsertByKeyCount(keys, front, j);
      forall i | 0 <= i < |r| && keys[r[i]] == keys[last]
        ensures r[i] < last
      {
        assert r[i] in multiset(r);
        if r[i] != j {
          assert r[i] in multiset(front);
          var k :| 0 <= k < |front| && front[k] == r[i];
          assert s[k] == r[i];
        }
      }
    }
  }

  lemma {:induction false} SortUpToSpec(keys: seq<real>, m: nat)
    requires m <= |keys|
    ensures SortedBy(keys, SortUpTo(keys, m)) && StableBy(keys, SortUpTo(keys, m))
  {
    if m > 0 {
      var s := SortUpTo(keys, m - 1);
      SortUpToSpec(keys, m - 1);
      SortUpToBelow(keys, m - 1);
      InsertSorted(keys, s, m - 1);
      InsertStable(keys, s, m - 1);
    }
  }

  /** Sorting the first `m` positions lists only positions below `m`. */
  lemma {:induction false} SortUpToBelow(keys: seq<real>, m: nat)
    requires m <= |keys|
    ensures Bounded(SortUpTo(keys, m), m)
  {
    var s := SortUpTo(keys, m);
    SortUpToCount(keys, m);
    forall i | 0 <= i < |s|
      ensures s[i] < m
    {
      assert s[i] in multiset(Range(m));
      RangeCount(m, s[i]);
    }
  }

  /** `sortPop` returns every member exactly once, ascending on the key, and
      members with equal keys in population order (Python's sort is stable). */
  lemma SortPopSpec(keys: seq<real>)
    ensures multiset(SortPop(keys)) == multiset(Range(|keys|)) && |SortPop(keys)| == |keys|
    ensures SortedBy(keys, SortPop(keys)) && StableBy(keys, SortPop(keys))
  {
    SortUpToSpec(keys, |keys|);
    SortUpToCount(keys, |keys|);
  }
}
