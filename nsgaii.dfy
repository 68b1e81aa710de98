// NSGA-II ranking and crowding distance (PYGA_StandardMultiObjIndividual_NSGAII).
//
// The ranking reads nothing but the objective vectors, so it is modelled on
// a snapshot `vs` of them: a member of the population is its position in
// `vs`, a front is a list of positions.  The write-back of the front index,
// the front's members and the crowding distance into the individuals follows
// in separate loops; the ranking never reads those fields, so doing the
// writes after the ranking leaves the same final state as interleaving them.

module Nsgaii {
  import opened Errors
  import opened MultiObj
  import opened Individuals
  import Clustering

  /** Every objective vector of the population can be compared. */
  predicate ObjectivesFit(p: Profile, vs: seq<seq<real>>) {
    forall i :: 0 <= i < |vs| ==> Fits(p, vs[i])
  }

  /** The member at position `d` dominates the member at position `x`. */
  predicate Dom(p: Profile, vs: seq<seq<real>>, d: nat, x: nat) {
    d < |vs| && x < |vs| && Dominates(p, vs[d], vs[x])
  }

  /** Some member listed in `ds` dominates `x`. */
  predicate DominatedIn(p: Profile, vs: seq<seq<real>>, x: nat, ds: seq<nat>) {
    exists y :: y in ds && Dom(p, vs, y, x)
  }

  lemma DomTransitive(p: Profile, vs: seq<seq<real>>, a: nat, b: nat, c: nat)
    requires Dom(p, vs, a, b) && Dom(p, vs, b, c)
    ensures Dom(p, vs, a, c)
  {
    DominatesTransitive(p, vs[a], vs[b], vs[c]);
  }

  // ----- __computeNSGAIIParetoFront -----

  /** The members of `s` that no member of `ds` dominates, in the order of `s`. */
  function Undominated(p: Profile, vs: seq<seq<real>>, s: seq<nat>, ds: seq<nat>): seq<nat> {
    if s == [] then []
    else
      Undominated(p, vs, s[..|s| - 1], ds)
      + (if DominatedIn(p, vs, s[|s| - 1], ds) then [] else [s[|s| - 1]])
  }

  /** The members of `s` that `d` does not dominate, in order. */
  function Keep(p: Profile, vs: seq<seq<real>>, d: nat, s: seq<nat>): seq<nat> {
    if s == [] then []
    else Keep(p, vs, d, s[..|s| - 1]) + (if Dom(p, vs, d, s[|s| - 1]) then [] else [s[|s| - 1]])
  }

  lemma {:induction false} UndominatedMember(p: Profile, vs: seq<seq<real>>, s: seq<nat>, ds: seq<nat>, x: nat)
    ensures x in Undominated(p, vs, s, ds) <==> x in s && !DominatedIn(p, vs, x, ds)
  {
    if s != [] {
      UndominatedMember(p, vs, s[..|s| - 1], ds, x);
      assert s == s[..|s| - 1] + [s[|s| - 1]];
    }
  }

  /** With no one to compare against, every member stays. */
  lemma {:induction false} UndominatedByNone(p: Profile, vs: seq<seq<real>>, s: seq<nat>)
    ensures Undominated(p, vs, s, []) == s
  {
    if s != [] {
      UndominatedByNone(p, vs, s[..|s| - 1]);
      assert s == s[..|s| - 1] + [s[|s| - 1]];
    }
  }

  lemma {:induction false} KeepAppend(p: Profile, vs: seq<seq<real>>, d: nat, a: seq<nat>, b: seq<nat>)
    ensures Keep(p, vs, d, a + b) == Keep(p, vs, d, a) + Keep(p, vs, d, b)
  {
    if b != [] {
      KeepAppend(p, vs, d, a, b[..|b| - 1]);
      assert (a + b)[..|a + b| - 1] == a + b[..|b| - 1];
    } else {
      assert a + b == a;
    }
  }

  /** Comparing against one more member `d` removes exactly the members `d` dominates. */
  lemma {:induction false} KeepUndominated(p: Profile, vs: seq<seq<real>>, d: nat, s: seq<nat>, ds: seq<nat>)
    ensures Keep(p, vs, d, Undominated(p, vs, s, ds)) == Undominated(p, vs, s, ds + [d])
  {
    if s != [] {
      var x := s[|s| - 1];
      KeepUndominated(p, vs, d, s[..|s| - 1], ds);
      KeepAppend(p, vs, d, Undominated(p, vs, s[..|s| - 1], ds),
                 if DominatedIn(p, vs, x, ds) then [] else [x]);
      assert DominatedIn(p, vs, x, ds + [d]) <==> DominatedIn(p, vs, x, ds) || Dom(p, vs, d, x) by {
        if Dom(p, vs, d, x) {
          assert d in ds + [d];
        }
        if DominatedIn(p, vs, x, ds) {
          var y :| y in ds && Dom(p, vs, y, x);
          assert y in ds + [d];
        }
      }
      assert Keep(p, vs, d, [x]) == (if Dom(p, vs, d, x) then [] else [x]) by {
        assert [x][..0] == [];
      }
    }
  }

  /** The inner loop of `__computeNSGAIIParetoFront`: every member of the
      current front that `d` dominates moves to the end of `ruled`. */
  method DropDominated(p: Profile, vs: seq<seq<real>>, d: nat, front0: seq<nat>, ruled0: seq<nat>)
    returns (front: seq<nat>, ruled: seq<nat>)
    requires ObjectivesFit(p, vs) && d < |vs| && Bounded(front0, |vs|)
    ensures front == Keep(p, vs, d, front0)
    ensures multiset(front) + multiset(ruled) == multiset(front0) + multiset(ruled0)
    ensures |ruled| >= |ruled0| && ruled[..|ruled0|] == ruled0
    ensures forall k :: |ruled0| <= k < |ruled| ==> Dom(p, vs, d, ruled[k])
  {
    front, ruled := front0, ruled0;
    var i := 0;
    ghost var j := 0;
    while i < |front|
      invariant DropState(p, vs, d, front0, ruled0, front, ruled, i, j)
      decreases |front| - i
    {
      var x := front[i];
      var dominated := Dominate(p, Some(vs[d]), Some(vs[x]));
      if dominated.value {
        DropStepRemove(p, vs, d, front0, ruled0, front, ruled, i, j);
        ruled := ruled + [x];
        front := front[..i] + front[i + 1..];
      } else {
        DropStepKeep(p, vs, d, front0, ruled0, front, ruled, i, j);
        i := i + 1;
      }
      j := j + 1;
    }
    assert front == front[..i] && front0[..j] == front0;
  }

  /** The invariant of `DropDominated`'s loop: `j` members of `front0` seen,
      the first `i` of `front` are those of them `d` does not dominate. */
  ghost predicate DropState(p: Profile, vs: seq<seq<real>>, d: nat, front0: seq<nat>, ruled0: seq<nat>,
                            front: seq<nat>, ruled: seq<nat>, i: nat, j: nat) {
    DropFront(p, vs, d, front0, front, i, j) && DropRuled(p, vs, d, front0, ruled0, front, ruled)
  }

  ghost predicate DropFront(p: Profile, vs: seq<seq<real>>, d: nat, front0: seq<nat>, front: seq<nat>, i: nat, j: nat) {
    j <= |front0| && i <= |front|
    && front[..i] == Keep(p, vs, d, front0[..j]) && front[i..] == front0[j..]
  }

  ghost predicate DropRuled(p: Profile, vs: seq<seq<real>>, d: nat, front0: seq<nat>, ruled0: seq<nat>,
                            front: seq<nat>, ruled: seq<nat>) {
    multiset(front) + multiset(ruled) == multiset(front0) + multiset(ruled0)
    && |ruled| >= |ruled0| && ruled[..|ruled0|] == ruled0
    && forall k :: |ruled0| <= k < |ruled| ==> Dom(p, vs, d, ruled[k])
  }

  lemma DropStepRemove(p: Profile, vs: seq<seq<real>>, d: nat, front0: seq<nat>, ruled0: seq<nat>,
                       front: seq<nat>, ruled: seq<nat>, i: nat, j: nat)
    requires DropState(p, vs, d, front0, ruled0, front, ruled, i, j) && i < |front|
    requires Dom(p, vs, d, front[i])
    ensures DropState(p, vs, d, front0, ruled0, front[..i] + front[i + 1..], ruled + [front[i]], i, j + 1)
  {
    DropRemoveFront(p, vs, d, front0, front, i, j);
    DropRemoveRuled(p, vs, d, front0, ruled0, front, ruled, i);
  }

  lemma DropRemoveFront(p: Profile, vs: seq<seq<real>>, d: nat, front0: seq<nat>, front: seq<nat>, i: nat, j: nat)
    requires DropFront(p, vs, d, front0, front, i, j) && i < |front|
    requires Dom(p, vs, d, front[i])
    ensures DropFront(p, vs, d, front0, front[..i] + front[i + 1..], i, j + 1)
  {
    var front2 := front[..i] + front[i + 1..];
    assert front[i] == front[i..][0] == front0[j..][0] == front0[j];
    KeepStep(p, vs, d, front0, j);
    assert front2[..i] == front[..i];
    assert front2[i..] == front[i + 1..] == front[i..][1..] == front0[j..][1..] == front0[j + 1..];
  }

  lemma DropRemoveRuled(p: Profile, vs: seq<seq<real>>, d: nat, front0: seq<nat>, ruled0: seq<nat>,
                        front: seq<nat>, ruled: seq<nat>, i: nat)
    requires DropRuled(p, vs, d, front0, ruled0, front, ruled) && i < |front|
    requires Dom(p, vs, d, front[i])
    ensures DropRuled(p, vs, d, front0, ruled0, front[..i] + front[i + 1..], ruled + [front[i]])
  {
    var x := front[i];
    assert multiset(front) == multiset(front[..i] + front[i + 1..]) + multiset{x} by {
      assert front == front[..i] + [x] + front[i + 1..];
    }
    assert (ruled + [x])[..|ruled0|] == ruled[..|ruled0|];
  }

  lemma DropStepKeep(p: Profile, vs: seq<seq<real>>, d: nat, front0: seq<nat>, ruled0: seq<nat>,
                     front: seq<nat>, ruled: seq<nat>, i: nat, j: nat)
    requires DropState(p, vs, d, front0, ruled0, front, ruled, i, j) && i < |front|
    requires !Dom(p, vs, d, front[i])
    ensures DropState(p, vs, d, front0, ruled0, front, ruled, i + 1, j + 1)
  {
    assert front[i] == front[i..][0] == front0[j..][0] == front0[j];
    KeepStep(p, vs, d, front0, j);
    assert front[..i + 1] == front[..i] + [front[i]];
    assert front[i + 1..] == front[i..][1..] == front0[j..][1..] == front0[j + 1..];
  }

  /** One more member of `front0` through `Keep`. */
  lemma KeepStep(p: Profile, vs: seq<seq<real>>, d: nat, front0: seq<nat>, j: nat)
    requires j < |front0|
    ensures Keep(p, vs, d, front0[..j + 1])
            == Keep(p, vs, d, front0[..j]) + (if Dom(p, vs, d, front0[j]) then [] else [front0[j]])
  {
    assert front0[..j + 1][..j] == front0[..j];
  }

  /** `__computeNSGAIIParetoFront`: the front is exactly the members no member
      of the population dominates, in population order; every other member is
      in `ruled`, and was dominated by someone. */
  method ParetoFront(p: Profile, vs: seq<seq<real>>, pop: seq<nat>) returns (front: seq<nat>, ruled: seq<nat>)
    requires ObjectivesFit(p, vs) && Bounded(pop, |vs|)
    ensures front == Undominated(p, vs, pop, pop)
    ensures multiset(front) + multiset(ruled) == multiset(pop)
    ensures forall k :: 0 <= k < |ruled| ==> DominatedIn(p, vs, ruled[k], pop)
  {
    front, ruled := pop, [];
    UndominatedByNone(p, vs, pop);
    for n := 0 to |pop|
      invariant front == Undominated(p, vs, pop, pop[..n])
      invariant multiset(front) + multiset(ruled) == multiset(pop)
      invariant forall k :: 0 <= k < |ruled| ==> DominatedIn(p, vs, ruled[k], pop)
    {
      UndominatedBounded(p, vs, pop, pop[..n]);
      ghost var ruled0 := ruled;
      front, ruled := DropDominated(p, vs, pop[n], front, ruled);
      forall k | 0 <= k < |ruled|
        ensures DominatedIn(p, vs, ruled[k], pop)
      {
        if k < |ruled0| {
          assert ruled[k] == ruled0[k];
        } else {
          assert pop[n] in pop;
        }
      }
      KeepUndominated(p, vs, pop[n], pop, pop[..n]);
      PrefixSnoc(pop, n);
    }
    PrefixAll(pop);
  }

  lemma PrefixSnoc(s: seq<nat>, n: nat)
    requires n < |s|
    ensures s[..n + 1] == s[..n] + [s[n]]
  {
  }

  lemma PrefixAll(s: seq<nat>)
    ensures s[..|s|] == s
  {
  }

  lemma UndominatedBounded(p: Profile, vs: seq<seq<real>>, s: seq<nat>, ds: seq<nat>)
    requires Bounded(s, |vs|)
    ensures Bounded(Undominated(p, vs, s, ds), |vs|)
  {
    forall i | 0 <= i < |Undominated(p, vs, s, ds)|
      ensures Undominated(p, vs, s, ds)[i] < |vs|
    {
      var x := Undominated(p, vs, s, ds)[i];
      UndominatedMember(p, vs, s, ds, x);
    }
  }

  // ----- every non-empty population has a non-dominated member -----

  ghost function Dominators(p: Profile, vs: seq<seq<real>>, s: seq<nat>, x: nat): set<nat> {
    set y | y in s && Dom(p, vs, y, x)
  }

  /** Following dominators from `x` ends at a member nobody in `s` dominates. */
  lemma {:induction false} MaximalExists(p: Profile, vs: seq<seq<real>>, s: seq<nat>, x: nat)
    requires x in s
    ensures exists w :: w in s && !DominatedIn(p, vs, w, s) && (w == x || Dom(p, vs, w, x))
    decreases |Dominators(p, vs, s, x)|
  {
    if DominatedIn(p, vs, x, s) {
      var z :| z in s && Dom(p, vs, z, x);
      DominatorsShrink(p, vs, s, z, x);
      MaximalExists(p, vs, s, z);
      var w :| w in s && !DominatedIn(p, vs, w, s) && (w == z || Dom(p, vs, w, z));
      if w != z {
        DomTransitive(p, vs, w, z, x);
      }
    }
  }

  /** The dominators of a dominator of `x` are fewer than those of `x`. */
  lemma DominatorsShrink(p: Profile, vs: seq<seq<real>>, s: seq<nat>, z: nat, x: nat)
    requires z in s && Dom(p, vs, z, x)
    ensures |Dominators(p, vs, s, z)| < |Dominators(p, vs, s, x)|
  {
    var a, b := Dominators(p, vs, s, z), Dominators(p, vs, s, x);
    forall y | y in a
      ensures y in b
    {
      DomTransitive(p, vs, y, z, x);
    }
    DominatesIrreflexive(p, vs[z]);
    assert z in b - a;
    assert b == a + (b - a);
  }

  /** A member dominated within `s` is dominated by a member of the front of `s`. */
  lemma DominatorInFront(p: Profile, vs: seq<seq<real>>, s: seq<nat>, y: nat)
    requires DominatedIn(p, vs, y, s)
    ensures DominatedIn(p, vs, y, Undominated(p, vs, s, s))
  {
    var z :| z in s && Dom(p, vs, z, y);
    MaximalExists(p, vs, s, z);
    var w :| w in s && !DominatedIn(p, vs, w, s) && (w == z || Dom(p, vs, w, z));
    if w != z {
      DomTransitive(p, vs, w, z, y);
    }
    UndominatedMember(p, vs, s, s, w);
  }

  /** The front of a non-empty population is not empty, so every round of
      `NSGAII_fitness` removes at least one member. */
  lemma FrontNonEmpty(p: Profile, vs: seq<seq<real>>, s: seq<nat>)
    requires s != []
    ensures Undominated(p, vs, s, s) != []
  {
    MaximalExists(p, vs, s, s[0]);
    var w :| w in s && !DominatedIn(p, vs, w, s) && (w == s[0] || Dom(p, vs, w, s[0]));
    UndominatedMember(p, vs, s, s, w);
  }

  // ----- NSGAII_fitness -----

  /** Fronts in NSGA-II order: nobody in the same or a later front dominates a
      member, and each member after the first front is dominated by a member of
      the front just before. */
  ghost predicate Layered(p: Profile, vs: seq<seq<real>>, fronts: seq<seq<nat>>) {
    (forall k, k2, x, y :: 0 <= k <= k2 < |fronts| && x in fronts[k] && y in fronts[k2] ==> !Dom(p, vs, y, x))
    && (forall k, x :: 0 < k < |fronts| && x in fronts[k] ==> DominatedIn(p, vs, x, fronts[k - 1]))
  }

  /** The state between two rounds: the fronts so far, and `ruled`, the members left. */
  ghost predicate RankState(p: Profile, vs: seq<seq<real>>, fronts: seq<seq<nat>>, ruled: seq<nat>) {
    Layered(p, vs, fronts)
    && (forall k :: 0 <= k < |fronts| ==> fronts[k] != [])
    && (forall k, x, y :: 0 <= k < |fronts| && x in fronts[k] && y in ruled ==> !Dom(p, vs, y, x))
    && (fronts != [] ==> forall y :: y in ruled ==> DominatedIn(p, vs, y, fronts[|fronts| - 1]))
  }

  lemma RankStepEarlier(p: Profile, vs: seq<seq<real>>, fronts: seq<seq<nat>>, ruled: seq<nat>,
                        front: seq<nat>, rest: seq<nat>)
    requires RankState(p, vs, fronts, ruled)
    requires front == Undominated(p, vs, ruled, ruled)
    requires multiset(front) + multiset(rest) == multiset(ruled)
    ensures forall k, x, y :: 0 <= k < |fronts + [front]| && x in (fronts + [front])[k] && y in rest ==> !Dom(p, vs, y, x)
    ensures forall k, k2, x, y ::
              (0 <= k <= k2 < |fronts + [front]| && x in (fronts + [front])[k] && y in (fronts + [front])[k2])
              ==> !Dom(p, vs, y, x)
  {
    forall y | y in rest
      ensures y in ruled
    {
      assert y in multiset(rest) && multiset(rest) <= multiset(ruled);
    }
    RankStepRest(p, vs, fronts, ruled, front, rest);
    RankStepOrdered(p, vs, fronts, ruled, front);
  }

  /** Nothing left for later fronts dominates a member of the fronts so far. */
  lemma RankStepRest(p: Profile, vs: seq<seq<real>>, fronts: seq<seq<nat>>, ruled: seq<nat>,
                     front: seq<nat>, rest: seq<nat>)
    requires RankState(p, vs, fronts, ruled)
    requires front == Undominated(p, vs, ruled, ruled)
    requires forall y :: y in rest ==> y in ruled
    ensures forall k, x, y :: 0 <= k < |fronts + [front]| && x in (fronts + [front])[k] && y in rest ==> !Dom(p, vs, y, x)
  {
    var fs := fronts + [front];
    forall k, x, y | 0 <= k < |fs| && x in fs[k] && y in rest
      ensures !Dom(p, vs, y, x)
    {
      if k < |fronts| {
        assert fs[k] == fronts[k];
      } else {
        UndominatedMember(p, vs, ruled, ruled, x);
      }
    }
  }

  /** No member of a front is dominated by a member of the same or a later front. */
  lemma RankStepOrdered(p: Profile, vs: seq<seq<real>>, fronts: seq<seq<nat>>, ruled: seq<nat>,
                        front: seq<nat>)
    requires RankState(p, vs, fronts, ruled)
    requires front == Undominated(p, vs, ruled, ruled)
    ensures forall k, k2, x, y ::
              (0 <= k <= k2 < |fronts + [front]| && x in (fronts + [front])[k] && y in (fronts + [front])[k2])
              ==> !Dom(p, vs, y, x)
  {
    var fs := fronts + [front];
    forall k, k2, x, y | 0 <= k <= k2 < |fs| && x in fs[k] && y in fs[k2]
      ensures !Dom(p, vs, y, x)
    {
      if k2 < |fronts| {
        assert fs[k] == fronts[k] && fs[k2] == fronts[k2];
      } else {
        UndominatedMember(p, vs, ruled, ruled, y);
        if k < |fronts| {
          assert fs[k] == fronts[k];
        } else {
          UndominatedMember(p, vs, ruled, ruled, x);
        }
      }
    }
  }

  lemma RankStepLater(p: Profile, vs: seq<seq<real>>, fronts: seq<seq<nat>>, ruled: seq<nat>,
                      front: seq<nat>, rest: seq<nat>)
    requires RankState(p, vs, fronts, ruled)
    requires front == Undominated(p, vs, ruled, ruled)
    requires forall y :: y in rest ==> DominatedIn(p, vs, y, ruled)
    ensures forall k, x :: 0 < k < |fronts + [front]| && x in (fronts + [front])[k]
              ==> DominatedIn(p, vs, x, (fronts + [front])[k - 1])
    ensures forall y :: y in rest ==> DominatedIn(p, vs, y, front)
  {
    var fs := fronts + [front];
    forall k, x | 0 < k < |fs| && x in fs[k]
      ensures DominatedIn(p, vs, x, fs[k - 1])
    {
      assert fs[k - 1] == fronts[k - 1];
      if k < |fronts| {
        assert fs[k] == fronts[k];
      } else {
        UndominatedMember(p, vs, ruled, ruled, x);
      }
    }
    forall y | y in rest
      ensures DominatedIn(p, vs, y, front)
    {
      DominatorInFront(p, vs, ruled, y);
    }
  }

  /** One round of `NSGAII_fitness` keeps the ranking state. */
  lemma RankStep(p: Profile, vs: seq<seq<real>>, fronts: seq<seq<nat>>, ruled: seq<nat>,
                 front: seq<nat>, rest: seq<nat>)
    requires RankState(p, vs, fronts, ruled)
    requires front == Undominated(p, vs, ruled, ruled) && front != []
    requires multiset(front) + multiset(rest) == multiset(ruled)
    requires forall y :: y in rest ==> DominatedIn(p, vs, y, ruled)
    ensures RankState(p, vs, fronts + [front], rest)
  {
    RankStepEarlier(p, vs, fronts, ruled, front, rest);
    RankStepLater(p, vs, fronts, ruled, front, rest);
  }

  /** The position lists of `NSGAII_fitness`: a partition of the population
      into non-empty fronts numbered from 0, the first being the members no
      one dominates, in NSGA-II order. */
  method Fronts(p: Profile, vs: seq<seq<real>>) returns (fronts: seq<seq<nat>>)
    requires ObjectivesFit(p, vs)
    ensures Clustering.Partition(fronts, |vs|)
    ensures forall k :: 0 <= k < |fronts| ==> fronts[k] != []
    ensures fronts == [] <==> |vs| == 0
    ensures fronts != [] ==> fronts[0] == Undominated(p, vs, Range(|vs|), Range(|vs|))
    ensures Layered(p, vs, fronts)
  {
    var ruled: seq<nat> := Range(|vs|);
    fronts := [];
    while |ruled| != 0
      invariant FrontsState(p, vs, fronts, ruled)
      decreases |ruled|
    {
      var front, rest := ParetoFront(p, vs, ruled);
      FrontsStep(p, vs, fronts, ruled, front, rest);
      fronts := fronts + [front];
      ruled := rest;
    }
    PartitionFromMultiset(fronts, |vs|);
  }

  /** The invariant of `NSGAII_fitness`'s loop. */
  ghost predicate FrontsState(p: Profile, vs: seq<seq<real>>, fronts: seq<seq<nat>>, ruled: seq<nat>) {
    ObjectivesFit(p, vs) && RankState(p, vs, fronts, ruled) && FrontsBook(p, vs, fronts, ruled)
  }

  /** The bookkeeping half: every position is in a front or still in `ruled`. */
  ghost predicate FrontsBook(p: Profile, vs: seq<seq<real>>, fronts: seq<seq<nat>>, ruled: seq<nat>) {
    Bounded(ruled, |vs|)
    && multiset(Clustering.Flatten(fronts)) + multiset(ruled) == multiset(Range(|vs|))
    && (fronts == [] ==> ruled == Range(|vs|))
    && (fronts != [] ==> fronts[0] == Undominated(p, vs, Range(|vs|), Range(|vs|)) && |vs| > 0)
  }

  lemma FrontsStep(p: Profile, vs: seq<seq<real>>, fronts: seq<seq<nat>>, ruled: seq<nat>,
                   front: seq<nat>, rest: seq<nat>)
    requires FrontsState(p, vs, fronts, ruled) && ruled != []
    requires front == Undominated(p, vs, ruled, ruled)
    requires multiset(front) + multiset(rest) == multiset(ruled)
    requires forall k :: 0 <= k < |rest| ==> DominatedIn(p, vs, rest[k], ruled)
    ensures FrontsState(p, vs, fronts + [front], rest) && |rest| < |ruled|
  {
    FrontNonEmpty(p, vs, ruled);
    forall y | y in rest
      ensures DominatedIn(p, vs, y, ruled)
    {
      var k :| 0 <= k < |rest| && rest[k] == y;
    }
    RankStep(p, vs, fronts, ruled, front, rest);
    BookStep(p, vs, fronts, ruled, front, rest);
  }

  lemma BookStep(p: Profile, vs: seq<seq<real>>, fronts: seq<seq<nat>>, ruled: seq<nat>,
                 front: seq<nat>, rest: seq<nat>)
    requires FrontsBook(p, vs, fronts, ruled) && front != []
    requires front == Undominated(p, vs, ruled, ruled)
    requires multiset(front) + multiset(rest) == multiset(ruled)
    ensures FrontsBook(p, vs, fronts + [front], rest) && |rest| < |ruled|
  {
    Clustering.FlattenSnoc(fronts, front);
    RestBounded(ruled, rest, front, |vs|);
    FirstFrontKept(fronts, front);
  }

  lemma RestBounded(ruled: seq<nat>, rest: seq<nat>, front: seq<nat>, n: nat)
    requires Bounded(ruled, n) && front != [] && multiset(front) + multiset(rest) == multiset(ruled)
    ensures Bounded(rest, n) && |rest| < |ruled|
  {
    forall k | 0 <= k < |rest|
      ensures rest[k] < n
    {
      assert rest[k] in multiset(ruled);
    }
    assert |multiset(rest)| < |multiset(ruled)| by {
      assert |multiset(front)| > 0;
    }
  }

  lemma FirstFrontKept(fronts: seq<seq<nat>>, front: seq<nat>)
    ensures fronts == [] ==> (fronts + [front])[0] == front
    ensures fronts != [] ==> (fronts + [front])[0] == fronts[0]
  {
  }

  lemma {:induction false} InFlatten(cs: seq<seq<nat>>, c: nat, x: nat)
    requires c < |cs| && x in cs[c]
    ensures x in Clustering.Flatten(cs)
  {
    if c < |cs| - 1 {
      InFlatten(cs[..|cs| - 1], c, x);
    }
  }

  lemma PartitionFromMultiset(cs: seq<seq<nat>>, n: nat)
    requires multiset(Clustering.Flatten(cs)) == multiset(Range(n))
    ensures Clustering.Partition(cs, n)
  {
    var s := Clustering.Flatten(cs);
    RangePermutation(s, n);
    forall c, k | 0 <= c < |cs| && 0 <= k < |cs[c]|
      ensures cs[c][k] < n
    {
      InFlatten(cs, c, cs[c][k]);
    }
  }

  /** Going down the fronts: a member of a later front is dominated by a
      member of every earlier front. */
  lemma {:induction false} DominatedFromEarlier(p: Profile, vs: seq<seq<real>>, fronts: seq<seq<nat>>,
                                                k: nat, k2: nat, y: nat)
    requires Layered(p, vs, fronts) && k < k2 < |fronts| && y in fronts[k2]
    ensures DominatedIn(p, vs, y, fronts[k])
    decreases k2 - k
  {
    var z :| z in fronts[k2 - 1] && Dom(p, vs, z, y);
    if k < k2 - 1 {
      DominatedFromEarlier(p, vs, fronts, k, k2 - 1, z);
      var w :| w in fronts[k] && Dom(p, vs, w, z);
      DomTransitive(p, vs, w, z, y);
    }
  }

  /** Members with the same objective values land in the same front. */
  lemma SameObjectivesSameFront(p: Profile, vs: seq<seq<real>>, fronts: seq<seq<nat>>,
                                x: nat, y: nat, k: nat, k2: nat)
    requires Layered(p, vs, fronts) && ObjectivesFit(p, vs) && x < |vs| && y < |vs| && vs[x] == vs[y]
    requires k < |fronts| && k2 < |fronts| && x in fronts[k] && y in fronts[k2]
    ensures k == k2
  {
    if k < k2 {
      DominatedFromEarlier(p, vs, fronts, k, k2, y);
      var w :| w in fronts[k] && Dom(p, vs, w, y);
      assert Dom(p, vs, w, x);
    } else if k2 < k {
      DominatedFromEarlier(p, vs, fronts, k2, k, x);
      var w :| w in fronts[k2] && Dom(p, vs, w, x);
      assert Dom(p, vs, w, y);
    }
  }

  // ----- __computeNSGAIICrowdingDist -----

  /** `d += x` on a distance: an infinite distance absorbs a finite increment. */
  function AddFin(d: ExtReal, x: real): ExtReal {
    match d
    case Fin(v) => Fin(v + x)
    case _ => d
  }

  /** What the reset to 0.0 and non-negative increments allow: an infinity or a finite value >= 0. */
  predicate NonNegative(d: ExtReal) {
    d.Fin? ==> d.r >= 0.0
  }

  /** Objective `obj` of every vector. */
  function Column(objs: seq<seq<real>>, obj: nat): (keys: seq<real>)
    requires forall j :: 0 <= j < |objs| ==> obj < |objs[j]|
    ensures |keys| == |objs| && forall j :: 0 <= j < |objs| ==> keys[j] == objs[j][obj]
  {
    if objs == [] then [] else Column(objs[..|objs| - 1], obj) + [objs[|objs| - 1][obj]]
  }

  /** After one objective: the entry sorted last is -inf and, with two or
      more entries, the entry sorted first is +inf. */
  ghost predicate Endpoints(keys: seq<real>, dist: seq<ExtReal>)
    requires 0 < |keys| == |dist|
  {
    var o := SortPop(keys);
    dist[o[|o| - 1]] == NegInf && (|o| > 1 ==> dist[o[0]] == PosInf)
  }

  /** One objective of `__computeNSGAIICrowdingDist`, on the distances `d`
      of the front's entries: sort by the objective, set the minimum to +inf
      and then the maximum to -inf, and, unless the maximum equals the
      minimum, add (next - previous) / (maximum - minimum) to every interior
      entry, neighbours taken in sorted order. */
  method CrowdingStep(keys: seq<real>, d: seq<ExtReal>) returns (r: seq<ExtReal>)
    requires 0 < |keys| == |d|
    ensures |r| == |d| && Endpoints(keys, r) && Interior(keys, SortPop(keys), d, r)
  {
    var o := SortPop(keys);
    SortUpToCount(keys, |keys|);
    r := SpreadOver(keys, o, d);
  }

  /** The steps of one objective once the sorted order `o` is known. */
  method SpreadOver(keys: seq<real>, o: seq<nat>, d: seq<ExtReal>) returns (r: seq<ExtReal>)
    requires 0 < |keys| == |d| && multiset(o) == multiset(Range(|keys|))
    ensures |r| == |d| == |o| && Bounded(o, |keys|)
    ensures r[o[|o| - 1]] == NegInf && (|o| > 1 ==> r[o[0]] == PosInf)
    ensures Interior(keys, o, d, r)
  {
    var l := |keys|;
    r := SetEnds(o, d);
    var gap := keys[o[l - 1]] - keys[o[0]];
    if gap != 0.0 {
      var r1 := AddGains(keys, o, gap, r);
      forall i | 0 < i < l - 1
        ensures r1[o[i]] == AddFin(d[o[i]], Gain(keys, o, gap, i))
      {
        assert r[o[i]] == d[o[i]];
      }
      r := r1;
    }
  }

  /** The interior entries in sorted order: unchanged when the maximum
      equals the minimum, otherwise each gains its `Gain`. */
  ghost predicate Interior(keys: seq<real>, o: seq<nat>, d: seq<ExtReal>, r: seq<ExtReal>)
    requires 0 < |keys| == |o| == |d| == |r| && Bounded(o, |keys|)
  {
    var l := |keys|;
    var gap := keys[o[l - 1]] - keys[o[0]];
    forall i :: 0 < i < l - 1 ==>
      r[o[i]] == if gap == 0.0 then d[o[i]] else AddFin(d[o[i]], Gain(keys, o, gap, i))
  }

  /** The first place of the order gets +inf, then the last place -inf. */
  method SetEnds(o: seq<nat>, d: seq<ExtReal>) returns (r: seq<ExtReal>)
    requires 0 < |d| && multiset(o) == multiset(Range(|d|))
    ensures |r| == |d| == |o| && Bounded(o, |d|) && multiset(o) == multiset(Range(|d|))
    ensures r[o[|o| - 1]] == NegInf && (|o| > 1 ==> r[o[0]] == PosInf)
    ensures forall k :: 0 < k < |o| - 1 ==> r[o[k]] == d[o[k]]
  {
    var l := |d|;
    RangePermutation(o, l);
    r := d[o[0] := PosInf];
    r := r[o[l - 1] := NegInf];
    if l > 1 {
      PositionsDistinct(o, l, 0, l - 1);
    }
    forall k | 0 < k < l - 1
      ensures r[o[k]] == d[o[k]]
    {
      PositionsDistinct(o, l, k, 0);
      PositionsDistinct(o, l, k, l - 1);
    }
  }

  /** The interior loop of one objective: entry `o[i]` gains
      (key of o[i+1] - key of o[i-1]) / gap. */
  method AddGains(keys: seq<real>, o: seq<nat>, gap: real, r0: seq<ExtReal>) returns (r: seq<ExtReal>)
    requires gap != 0.0 && 1 < |keys| == |r0| && multiset(o) == multiset(Range(|keys|))
    requires |o| == |keys| && Bounded(o, |keys|)
    ensures |r| == |r0| && r[o[0]] == r0[o[0]] && r[o[|o| - 1]] == r0[o[|o| - 1]]
    ensures forall k :: 0 < k < |o| - 1 ==> r[o[k]] == AddFin(r0[o[k]], Gain(keys, o, gap, k))
  {
    r := r0;
    var l := |keys|;
    var i := 1;
    while i < l - 1
      invariant 1 <= i <= l - 1 && |r| == l
      invariant forall k :: 0 < k < i ==> r[o[k]] == AddFin(r0[o[k]], Gain(keys, o, gap, k))
      invariant forall k :: 0 <= k < l && (k == 0 || k >= i) ==> r[o[k]] == r0[o[k]]
    {
      ghost var r1 := r;
      r := r[o[i] := AddFin(r[o[i]], Gain(keys, o, gap, i))];
      forall k | 0 <= k < l && k != i
        ensures r[o[k]] == r1[o[k]]
      {
        PositionsDistinct(o, l, k, i);
      }
      i := i + 1;
    }
  }

  /** What the entry at sorted place `k` gains: the objective gap between its
      neighbours in sorted order, over the gap between maximum and minimum. */
  function Gain(keys: seq<real>, o: seq<nat>, gap: real, k: nat): real
    requires gap != 0.0 && 0 < k < |o| - 1 && Bounded(o, |keys|)
  {
    (keys[o[k + 1]] - keys[o[k - 1]]) / gap
  }

  /** Two places of a permutation of the positions hold different positions. */
  lemma PositionsDistinct(o: seq<nat>, n: nat, a: nat, b: nat)
    requires multiset(o) == multiset(Range(n)) && a < |o| && b < |o| && a != b
    ensures o[a] != o[b]
  {
    RangePermutation(o, n);
  }

  lemma DivNonNegative(x: real, y: real)
    requires x >= 0.0 && y > 0.0
    ensures x / y >= 0.0
  {
  }

  /** One objective keeps every distance an infinity or a finite value >= 0. */
  lemma StepNonNegative(keys: seq<real>, d: seq<ExtReal>, r: seq<ExtReal>)
    requires 0 < |keys| == |d| == |r|
    requires forall j :: 0 <= j < |d| ==> NonNegative(d[j])
    requires Endpoints(keys, r) && Interior(keys, SortPop(keys), d, r)
    ensures forall j :: 0 <= j < |r| ==> NonNegative(r[j])
  {
    var o, l := SortPop(keys), |keys|;
    var gap := keys[o[l - 1]] - keys[o[0]];
    forall j: nat | j < |r|
      ensures NonNegative(r[j])
    {
      var i := PlaceOf(keys, j);
      if 0 < i < l - 1 && gap != 0.0 {
        SortedAt(keys, i - 1, i + 1);
        SortedAt(keys, 0, l - 1);
        DivNonNegative(keys[o[i + 1]] - keys[o[i - 1]], gap);
      }
    }
  }

  /** Where position `j` stands in the sorted order. */
  lemma PlaceOf(keys: seq<real>, j: nat) returns (i: nat)
    requires j < |keys|
    ensures i < |keys| && SortPop(keys)[i] == j
  {
    var o := SortPop(keys);
    SortUpToCount(keys, |keys|);
    RangePermutation(o, |keys|);
    assert j in o;
    i :| 0 <= i < |o| && o[i] == j;
  }

  lemma SortedAt(keys: seq<real>, a: nat, b: nat)
    requires a <= b < |keys|
    ensures keys[SortPop(keys)[a]] <= keys[SortPop(keys)[b]]
  {
    SortPopSpec(keys);
  }

  /** One objective's step turns the distances `d` into `r`: the
      endpoints of the sorted order are overwritten with the infinities and
      the interior entries gain their share. */
  ghost predicate StepOf(keys: seq<real>, d: seq<ExtReal>, r: seq<ExtReal>) {
    0 < |keys| && |d| == |keys| && |r| == |d| && Endpoints(keys, r) && Interior(keys, SortPop(keys), d, r)
  }

  /** `steps[0]` is every distance reset to 0.0 and each `steps[k + 1]` is
      the step of objective `k` applied to `steps[k]`. */
  ghost predicate Trace(objs: seq<seq<real>>, steps: seq<seq<ExtReal>>)
    requires forall j :: 0 <= j < |objs| ==> |steps| <= |objs[j]| + 1
  {
    |steps| > 0 && steps[0] == Zeros(|objs|) && (forall k :: 0 <= k < |steps| ==> |steps[k]| == |objs|)
    && forall k :: 0 <= k < |steps| - 1 ==> StepOf(Column(objs, k), steps[k], steps[k + 1])
  }

  /** The step of one objective leaves no choice: two results agree everywhere. */
  lemma StepDetermined(keys: seq<real>, d: seq<ExtReal>, r1: seq<ExtReal>, r2: seq<ExtReal>)
    requires StepOf(keys, d, r1) && StepOf(keys, d, r2)
    ensures r1 == r2
  {
    var o, l := SortPop(keys), |keys|;
    forall j: nat | j < l
      ensures r1[j] == r2[j]
    {
      var i := PlaceOf(keys, j);
      if i == 0 && l > 1 {
        assert r1[o[0]] == PosInf == r2[o[0]];
      }
    }
  }

  /** Two traces over the same vectors agree step by step, so the distances
      they end on are the same. */
  lemma {:induction false} TraceDetermined(objs: seq<seq<real>>, s1: seq<seq<ExtReal>>, s2: seq<seq<ExtReal>>, k: nat)
    requires forall j :: 0 <= j < |objs| ==> |s1| <= |objs[j]| + 1 && |s2| <= |objs[j]| + 1
    requires Trace(objs, s1) && Trace(objs, s2) && k < |s1| && k < |s2|
    ensures s1[k] == s2[k]
  {
    if k > 0 {
      TraceDetermined(objs, s1, s2, k - 1);
      StepDetermined(Column(objs, k - 1), s1[k - 1], s1[k], s2[k]);
    }
  }

  /** `__computeNSGAIICrowdingDist` on the objective vectors of a front's
      entries: every distance is reset to 0.0, then each objective in turn
      takes a `CrowdingStep`; `steps` lists the distances after each. */
  method CrowdingDistances(p: Profile, objs: seq<seq<real>>) returns (dist: seq<ExtReal>, ghost steps: seq<seq<ExtReal>>)
    requires |objs| > 0 && ObjectivesFit(p, objs)
    ensures |dist| == |objs|
    ensures |steps| == p.nbObjectives + 1 && Trace(objs, steps) && dist == steps[p.nbObjectives]
    ensures forall j :: 0 <= j < |dist| ==> NonNegative(dist[j])
    ensures p.nbObjectives == 0 ==> forall j :: 0 <= j < |dist| ==> dist[j] == Fin(0.0)
    ensures p.nbObjectives > 0 ==> Endpoints(Column(objs, p.nbObjectives - 1), dist)
  {
    dist := Zeros(|objs|);
    steps := [dist];
    for obj := 0 to p.nbObjectives
      invariant AfterObjectives(objs, obj, dist)
      invariant |steps| == obj + 1 && Trace(objs, steps) && dist == steps[obj]
    {
      dist := NextObjective(p, objs, obj, dist);
      steps := steps + [dist];
    }
  }

  /** The step for objective `obj`, on the distances left by the earlier ones. */
  method NextObjective(p: Profile, objs: seq<seq<real>>, obj: nat, d: seq<ExtReal>) returns (r: seq<ExtReal>)
    requires |objs| > 0 && ObjectivesFit(p, objs) && obj < p.nbObjectives && AfterObjectives(objs, obj, d)
    ensures AfterObjectives(objs, obj + 1, r) && StepOf(Column(objs, obj), d, r)
  {
    r := ObjectiveStep(Column(objs, obj), d);
  }

  /** Every distance reset to 0.0. */
  function Zeros(n: nat): (z: seq<ExtReal>)
    ensures |z| == n && forall j :: 0 <= j < n ==> z[j] == Fin(0.0)
  {
    if n == 0 then [] else Zeros(n - 1) + [Fin(0.0)]
  }

  /** The distances after the first `k` objectives. */
  ghost predicate AfterObjectives(objs: seq<seq<real>>, k: nat, dist: seq<ExtReal>)
    requires |objs| > 0 && forall j :: 0 <= j < |objs| ==> k <= |objs[j]|
  {
    |dist| == |objs| && (forall j :: 0 <= j < |dist| ==> NonNegative(dist[j]))
    && (k == 0 ==> forall j :: 0 <= j < |dist| ==> dist[j] == Fin(0.0))
    && (k > 0 ==> Endpoints(Column(objs, k - 1), dist))
  }

  /** One objective's step keeps every distance an infinity or a finite value >= 0. */
  method ObjectiveStep(keys: seq<real>, d: seq<ExtReal>) returns (r: seq<ExtReal>)
    requires 0 < |keys| == |d| && forall j :: 0 <= j < |d| ==> NonNegative(d[j])
    ensures |r| == |d| && Endpoints(keys, r) && Interior(keys, SortPop(keys), d, r)
    ensures forall j :: 0 <= j < |r| ==> NonNegative(r[j])
  {
    r := CrowdingStep(keys, d);
    StepNonNegative(keys, d, r);
  }

  // ----- the individuals -----

  /** Every individual has an objective vector `dominate` can read. */
  predicate Evaluated(p: Profile, pop: seq<Individual>)
    reads pop`objectives
  {
    forall i :: 0 <= i < |pop| ==> pop[i].objectives.Some? && Fits(p, pop[i].objectives.value)
  }

  /** The objective vectors of the individuals, in order. */
  function ObjectivesOf(pop: seq<Individual>): (vs: seq<seq<real>>)
    reads pop`objectives
    requires forall i :: 0 <= i < |pop| ==> pop[i].objectives.Some?
    ensures |vs| == |pop| && forall i :: 0 <= i < |pop| ==> vs[i] == pop[i].objectives.value
  {
    if pop == [] then [] else ObjectivesOf(pop[..|pop| - 1]) + [pop[|pop| - 1].objectives.value]
  }

  /** The individuals at the positions of a front. */
  function FrontMembers(pop: seq<Individual>, f: seq<nat>): (r: seq<Individual>)
    requires Bounded(f, |pop|)
    ensures |r| == |f| && forall j :: 0 <= j < |f| ==> r[j] == pop[f[j]]
  {
    if f == [] then [] else FrontMembers(pop, f[..|f| - 1]) + [pop[f[|f| - 1]]]
  }

  /** `NSGAII_fitness`: every individual gets the index of its front and the
      list of that front's members.  An individual held at two positions has
      one objective vector, so both positions are in the same front and the
      two writes agree. */
  method NsgaiiFitness(p: Profile, pop: seq<Individual>) returns (ghost fronts: seq<seq<nat>>)
    requires Evaluated(p, pop)
    modifies pop`front, pop`frontMembers
    ensures Clustering.Partition(fronts, |pop|) && Layered(p, ObjectivesOf(pop), fronts)
    ensures forall k :: 0 <= k < |fronts| ==> fronts[k] != []
    ensures fronts != [] ==> fronts[0] == Undominated(p, ObjectivesOf(pop), Range(|pop|), Range(|pop|))
    ensures HasFronts(pop, fronts)
  {
    var vs := ObjectivesOf(pop);
    var fs := Fronts(p, vs);
    FrontsApartHold(p, vs, pop, fs);
    for k := 0 to |fs|
      invariant ObjectivesOf(pop) == vs
      invariant Written(pop, fs, k)
    {
      WriteFront(pop, fs, k);
    }
    WrittenAll(pop, fs);
    fronts := fs;
  }

  /** The fronts before `k` are written to their individuals. */
  ghost predicate Written(pop: seq<Individual>, fs: seq<seq<nat>>, k: nat)
    reads pop`front, pop`frontMembers
    requires Clustering.InRange(fs, |pop|)
  {
    forall k2, t :: 0 <= k2 < k && k2 < |fs| && 0 <= t < |fs[k2]| ==>
      pop[fs[k2][t]].front == Some(k2) && pop[fs[k2][t]].frontMembers == FrontMembers(pop, fs[k2])
  }

  /** Each member of front k knows its rank k and the members of its front. */
  ghost predicate HasFronts(pop: seq<Individual>, fs: seq<seq<nat>>)
    reads pop`front, pop`frontMembers
  {
    forall k, x :: 0 <= k < |fs| && x in fs[k] ==>
      x < |pop| && Bounded(fs[k], |pop|) && pop[x].front == Some(k) && pop[x].frontMembers == FrontMembers(pop, fs[k])
  }

  lemma WrittenAll(pop: seq<Individual>, fs: seq<seq<nat>>)
    requires Clustering.InRange(fs, |pop|) && Written(pop, fs, |fs|)
    ensures HasFronts(pop, fs)
  {
    forall k, x | 0 <= k < |fs| && x in fs[k]
      ensures x < |pop| && Bounded(fs[k], |pop|) && pop[x].front == Some(k) && pop[x].frontMembers == FrontMembers(pop, fs[k])
    {
      var t :| 0 <= t < |fs[k]| && fs[k][t] == x;
    }
  }

  /** The inner loop of `NSGAII_fitness` for front `k`. */
  method WriteFront(pop: seq<Individual>, fs: seq<seq<nat>>, k: nat)
    requires Clustering.InRange(fs, |pop|) && FrontsApart(pop, fs)
    requires k < |fs| && Written(pop, fs, k)
    modifies pop`front, pop`frontMembers
    ensures Written(pop, fs, k + 1)
  {
    var members := FrontMembers(pop, fs[k]);
    for m := 0 to |fs[k]|
      invariant Written(pop, fs, k)
      invariant forall t :: 0 <= t < m ==> pop[fs[k][t]].front == Some(k) && pop[fs[k][t]].frontMembers == members
    {
      var y := fs[k][m];
      pop[y].frontMembers := members;
      pop[y].front := Some(k);
    }
  }

  /** No individual is held at positions of two different fronts. */
  ghost predicate FrontsApart(pop: seq<Individual>, fs: seq<seq<nat>>)
    requires Clustering.InRange(fs, |pop|)
  {
    forall k1, k2, t1, t2 :: 0 <= k1 < k2 < |fs| && 0 <= t1 < |fs[k1]| && 0 <= t2 < |fs[k2]| ==>
      pop[fs[k1][t1]] != pop[fs[k2][t2]]
  }

  /** An individual has one objective vector, so all its positions share a front. */
  lemma FrontsApartHold(p: Profile, vs: seq<seq<real>>, pop: seq<Individual>, fs: seq<seq<nat>>)
    requires forall i :: 0 <= i < |pop| ==> pop[i].objectives.Some?
    requires vs == ObjectivesOf(pop) && ObjectivesFit(p, vs) && Layered(p, vs, fs) && Clustering.InRange(fs, |pop|)
    ensures FrontsApart(pop, fs)
  {
    forall k1, k2, t1, t2 | 0 <= k1 < k2 < |fs| && 0 <= t1 < |fs[k1]| && 0 <= t2 < |fs[k2]|
      ensures pop[fs[k1][t1]] != pop[fs[k2][t2]]
    {
      if pop[fs[k1][t1]] == pop[fs[k2][t2]] {
        SameObjectivesSameFront(p, vs, fs, fs[k1][t1], fs[k2][t2], k1, k2);
      }
    }
  }

  /** An individual is in the first front exactly when its position is. */
  lemma FirstFrontIndex(p: Profile, pop: seq<Individual>, fronts: seq<seq<nat>>, i: nat)
    requires Clustering.Partition(fronts, |pop|) && i < |pop|
    requires forall k, x :: 0 <= k < |fronts| && x in fronts[k] ==> x < |pop| && pop[x].front == Some(k)
    ensures pop[i].front == Some(0) <==> fronts != [] && i in fronts[0]
  {
    var k := FrontOf(fronts, i);
  }

  /** The front holding a position of a partition. */
  lemma {:induction false} FrontOf(fronts: seq<seq<nat>>, i: nat) returns (k: nat)
    requires i in Clustering.Flatten(fronts)
    ensures k < |fronts| && i in fronts[k]
  {
    var last := fronts[|fronts| - 1];
    if i in last {
      k := |fronts| - 1;
    } else {
      k := FrontOf(fronts[..|fronts| - 1], i);
    }
  }

  // ----- crowding distances written to the individuals -----

  /** No individual is listed twice. */
  predicate DistinctIndividuals(s: seq<Individual>) {
    forall i, j :: 0 <= i < j < |s| ==> s[i] != s[j]
  }

  /** `__computeNSGAIICrowdingDist(population)` on distinct individuals: each
      gets the distance `CrowdingDistances` computes at its position. */
  method ComputeCrowding(p: Profile, entries: seq<Individual>) returns (dist: seq<ExtReal>, ghost steps: seq<seq<ExtReal>>)
    requires |entries| > 0 && Evaluated(p, entries) && DistinctIndividuals(entries)
    modifies entries`crowding
    ensures |dist| == |entries| && forall j :: 0 <= j < |entries| ==> entries[j].crowding == Some(dist[j])
    ensures |steps| == p.nbObjectives + 1 && Trace(ObjectivesOf(entries), steps) && dist == steps[p.nbObjectives]
    ensures forall j :: 0 <= j < |dist| ==> NonNegative(dist[j])
    ensures p.nbObjectives == 0 ==> forall j :: 0 <= j < |dist| ==> dist[j] == Fin(0.0)
    ensures p.nbObjectives > 0 ==> Endpoints(Column(ObjectivesOf(entries), p.nbObjectives - 1), dist)
  {
    var objs := ObjectivesOf(entries);
    dist, steps := CrowdingDistances(p, objs);
    StoreCrowding(entries, dist);
    assert ObjectivesOf(entries) == objs;
  }

  /** The inner assignments of `__computeNSGAIICrowdingDist`, done once the
      values are known. */
  method StoreCrowding(entries: seq<Individual>, dist: seq<ExtReal>)
    requires |dist| == |entries| && DistinctIndividuals(entries)
    modifies entries`crowding
    ensures forall j :: 0 <= j < |entries| ==> entries[j].crowding == Some(dist[j])
  {
    for j := 0 to |entries|
      invariant forall t :: 0 <= t < j ==> entries[t].crowding == Some(dist[t])
    {
      entries[j].crowding := Some(dist[j]);
    }
  }

  // ----- isBetter -----

  predicate NatLess(x: nat, y: nat) {
    x < y
  }

  /** Python 2 `<` between two front indices, None being below every index. */
  predicate FrontLess(a: Option<nat>, b: Option<nat>) {
    NoneFirstLess(a, b, NatLess)
  }

  /** Python 2 `<` between two crowding distances, None being below every float. */
  predicate CrowdingLess(a: Option<ExtReal>, b: Option<ExtReal>) {
    NoneFirstLess(a, b, ExtLess)
  }

  /** The order `isBetter` decides: the lower front index, and on equal
      indices the smaller crowding distance. */
  predicate Better(frontA: Option<nat>, crowdA: Option<ExtReal>, frontB: Option<nat>, crowdB: Option<ExtReal>) {
    FrontLess(frontA, frontB) || (!FrontLess(frontB, frontA) && CrowdingLess(crowdA, crowdB))
  }

  /** Neither index is below the other exactly when they are the same. */
  lemma FrontLessTotal(a: Option<nat>, b: Option<nat>)
    ensures !FrontLess(a, b) && !FrontLess(b, a) <==> a == b
  {
  }

  /** `isBetter` is a strict order on (front index, crowding distance) pairs. */
  lemma BetterStrictOrder(fa: Option<nat>, ca: Option<ExtReal>, fb: Option<nat>, cb: Option<ExtReal>,
                          fc: Option<nat>, cc: Option<ExtReal>)
    ensures !Better(fa, ca, fa, ca)
    ensures Better(fa, ca, fb, cb) ==> !Better(fb, cb, fa, ca)
    ensures Better(fa, ca, fb, cb) && Better(fb, cb, fc, cc) ==> Better(fa, ca, fc, cc)
  {
    if ca.Some? && cb.Some? && cc.Some? {
      ExtLessOrder(ca.value, cb.value, cc.value);
    }
    if ca.Some? && cb.Some? {
      ExtLessOrder(ca.value, cb.value, ca.value);
    }
    if ca.Some? {
      ExtLessOrder(ca.value, ca.value, ca.value);
    }
  }

  /** Whether `isBetter` computes the crowding distances of `a`'s front. */
  predicate NeedsCrowding(a: Individual, b: Individual)
    reads a, b
  {
    a.front == b.front && (a.crowding.None? || b.crowding.None?) && |a.frontMembers| > 1
  }

  /** `a.isBetter(b, population)`: fronts first; on a tie, the crowding
      distances of `a`'s front are computed when one of the two is missing
      and the front has more than one member, then the smaller distance wins. */
  method IsBetter(p: Profile, a: Individual, b: Individual) returns (r: bool, ghost steps: seq<seq<ExtReal>>)
    requires NeedsCrowding(a, b) ==> Evaluated(p, a.frontMembers) && DistinctIndividuals(a.frontMembers)
    modifies a.frontMembers`crowding
    ensures r == Better(a.front, a.crowding, b.front, b.crowding)
    ensures FrontLess(a.front, b.front) ==> r
    ensures FrontLess(b.front, a.front) ==> !r
    ensures !old(NeedsCrowding(a, b)) ==> a.crowding == old(a.crowding) && b.crowding == old(b.crowding)
    ensures !old(NeedsCrowding(a, b)) ==>
              forall j :: 0 <= j < |a.frontMembers| ==> a.frontMembers[j].crowding == old(a.frontMembers[j].crowding)
    ensures old(NeedsCrowding(a, b)) ==>
              forall j :: 0 <= j < |a.frontMembers| ==>
                a.frontMembers[j].crowding.Some? && NonNegative(a.frontMembers[j].crowding.value)
    ensures old(NeedsCrowding(a, b)) ==>
              |steps| == p.nbObjectives + 1 && Trace(ObjectivesOf(a.frontMembers), steps)
              && forall j :: 0 <= j < |a.frontMembers| ==> a.frontMembers[j].crowding == Some(steps[p.nbObjectives][j])
  {
    steps := [];
    if FrontLess(a.front, b.front) {
      r := true;
      return;
    }
    if FrontLess(b.front, a.front) {
      r := false;
      return;
    }
    FrontLessTotal(a.front, b.front);
    if (a.crowding.None? || b.crowding.None?) && |a.frontMembers| > 1 {
      var members := a.frontMembers;
      var dist;
      dist, steps := ComputeCrowding(p, members);
    }
    r := CrowdingLess(a.crowding, b.crowding);
  }

  // ----- getBestIndividuals -----

  /** The individuals whose front index is 0, in population order. */
  function FirstFront(pop: seq<Individual>): seq<Individual>
    reads pop`front
  {
    if pop == [] then []
    else FirstFront(pop[..|pop| - 1]) + (if pop[|pop| - 1].front == Some(0) then [pop[|pop| - 1]] else [])
  }

  /** `getBestIndividuals`: one pass keeping the individuals of front 0. */
  method GetBestIndividuals(pop: seq<Individual>) returns (best: seq<Individual>)
    ensures best == FirstFront(pop)
  {
    best := [];
    for i := 0 to |pop|
      invariant best == FirstFront(pop[..i])
    {
      assert pop[..i + 1][..i] == pop[..i];
      if pop[i].front == Some(0) {
        best := best + [pop[i]];
      }
    }
    assert pop[..|pop|] == pop;
  }

  /** An individual is kept exactly when it is in the population with front index 0. */
  lemma {:induction false} FirstFrontMember(pop: seq<Individual>, x: Individual)
    ensures x in FirstFront(pop) <==> x in pop && x.front == Some(0)
  {
    if pop != [] {
      FirstFrontMember(pop[..|pop| - 1], x);
      assert pop == pop[..|pop| - 1] + [pop[|pop| - 1]];
    }
  }

  /** After `NSGAII_fitness`, `getBestIndividuals` returns the individuals at
      the positions no member dominates, in population order. */
  lemma BestAreUndominated(p: Profile, pop: seq<Individual>, fronts: seq<seq<nat>>)
    requires forall i :: 0 <= i < |pop| ==> pop[i].objectives.Some?
    requires Clustering.Partition(fronts, |pop|) && fronts != []
    requires forall k, x :: 0 <= k < |fronts| && x in fronts[k] ==> x < |pop| && pop[x].front == Some(k)
    requires fronts[0] == Undominated(p, ObjectivesOf(pop), Range(|pop|), Range(|pop|))
    ensures Bounded(fronts[0], |pop|) && FirstFront(pop) == FrontMembers(pop, fronts[0])
  {
    var vs := ObjectivesOf(pop);
    forall i | 0 <= i < |pop|
      ensures pop[i].front == Some(0) <==> !DominatedIn(p, vs, i, Range(|pop|))
    {
      FirstFrontUndominated(p, pop, fronts, i);
    }
    FirstFrontPrefix(p, vs, pop, |pop|);
    assert pop[..|pop|] == pop;
  }

  lemma FirstFrontUndominated(p: Profile, pop: seq<Individual>, fronts: seq<seq<nat>>, i: nat)
    requires forall i :: 0 <= i < |pop| ==> pop[i].objectives.Some?
    requires Clustering.Partition(fronts, |pop|) && fronts != [] && i < |pop|
    requires forall k, x :: 0 <= k < |fronts| && x in fronts[k] ==> x < |pop| && pop[x].front == Some(k)
    requires fronts[0] == Undominated(p, ObjectivesOf(pop), Range(|pop|), Range(|pop|))
    ensures pop[i].front == Some(0) <==> !DominatedIn(p, ObjectivesOf(pop), i, Range(|pop|))
  {
    FirstFrontIndex(p, pop, fronts, i);
    UndominatedMember(p, ObjectivesOf(pop), Range(|pop|), Range(|pop|), i);
    assert Range(|pop|)[i] == i;
  }

  lemma {:induction false} FirstFrontPrefix(p: Profile, vs: seq<seq<real>>, pop: seq<Individual>, m: nat)
    requires m <= |pop| == |vs|
    requires forall i :: 0 <= i < |pop| ==> (pop[i].front == Some(0) <==> !DominatedIn(p, vs, i, Range(|pop|)))
    ensures Bounded(Undominated(p, vs, Range(m), Range(|pop|)), |pop|)
    ensures FirstFront(pop[..m]) == FrontMembers(pop, Undominated(p, vs, Range(m), Range(|pop|)))
  {
    UndominatedBounded(p, vs, Range(m), Range(|pop|));
    if m > 0 {
      FirstFrontPrefix(p, vs, pop, m - 1);
      assert Range(m)[..m - 1] == Range(m - 1);
      assert pop[..m][..m - 1] == pop[..m - 1];
      var u := Undominated(p, vs, Range(m - 1), Range(|pop|));
      var tail := if DominatedIn(p, vs, m - 1, Range(|pop|)) then [] else [m - 1];
      assert Undominated(p, vs, Range(m), Range(|pop|)) == u + tail;
      MembersAppend(pop, u, tail);
    }
  }

  lemma {:induction false} MembersAppend(pop: seq<Individual>, a: seq<nat>, b: seq<nat>)
    requires Bounded(a, |pop|) && Bounded(b, |pop|)
    ensures Bounded(a + b, |pop|) && FrontMembers(pop, a + b) == FrontMembers(pop, a) + FrontMembers(pop, b)
  {
  }
}
