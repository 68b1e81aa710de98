// `crossover`, `mutation` and `reproduction` of the standard behaviour
// (PYGA_StandardGenAlgBehavior).  The fresh populations these operations
// build are modelled by their member lists.  The random parts become given
// outcomes: `broods` lists, in order, what the successive calls of the
// individual class's `crossover` return (a single individual as a list of
// one), `mutants` what the successive calls of `mutation` return, and
// `surplusPicks(k, n)` the positions `random.sample` draws when k surplus
// members of n are removed.  Which parents are drawn is not modelled, only
// whether the population can supply them.

module Offspring {
  import opened Errors
  import Populations
  import Clustering
  import StandardBehavior

  /** How `crossover` or `mutation` ends: with the offspring, with an
      exception, in a loop that never ends, or with the given random
      outcomes used up while the loop still runs. */
  datatype Outcome<T> = Bred(members: seq<T>) | Raised(error: Error) | Diverges | OutOfDraws

  // ----- duplication checks -----

  /** `x.isDuplication(y)` holds for some member `y` of `s`. */
  predicate DuplicatesSome<T>(x: T, s: seq<T>, isDuplication: (T, T) -> bool) {
    exists i :: 0 <= i < |s| && isDuplication(x, s[i])
  }

  /** The scans `while not duplicated and i < size` of `crossover`. */
  method ScanDuplicate<T>(x: T, s: seq<T>, isDuplication: (T, T) -> bool) returns (duplicated: bool)
    ensures duplicated <==> DuplicatesSome(x, s, isDuplication)
  {
    duplicated := false;
    var i := 0;
    while !duplicated && i < |s|
      invariant 0 <= i <= |s|
      invariant duplicated <==> exists j :: 0 <= j < i && isDuplication(x, s[j])
    {
      if isDuplication(x, s[i]) {
        duplicated := true;
      }
      i := i + 1;
    }
  }

  /** Every offspring marked as checked duplicates neither a member of
      `newPop` nor an offspring added before it. */
  ghost predicate Screened<T>(offspring: seq<T>, checked: seq<bool>, newPop: seq<T>, isDuplication: (T, T) -> bool) {
    |checked| == |offspring|
    && forall i :: 0 <= i < |offspring| && checked[i] ==>
         !DuplicatesSome(offspring[i], newPop, isDuplication)
         && !DuplicatesSome(offspring[i], offspring[..i], isDuplication)
  }

  /** Adding an offspring keeps the earlier ones screened. */
  lemma ScreenedSnoc<T>(offspring: seq<T>, checked: seq<bool>, newPop: seq<T>, isDuplication: (T, T) -> bool,
                        x: T, mark: bool)
    requires Screened(offspring, checked, newPop, isDuplication)
    requires mark ==> !DuplicatesSome(x, newPop, isDuplication) && !DuplicatesSome(x, offspring, isDuplication)
    ensures Screened(offspring + [x], checked + [mark], newPop, isDuplication)
  {
    var s := offspring + [x];
    assert s[..|offspring|] == offspring;
    forall i | 0 <= i < |offspring|
      ensures s[..i] == offspring[..i]
    {
    }
  }

  /** Adding unchecked offspring keeps the earlier ones screened. */
  lemma ScreenedUnchecked<T>(offspring: seq<T>, checked: seq<bool>, newPop: seq<T>, isDuplication: (T, T) -> bool,
                             extra: seq<T>)
    requires Screened(offspring, checked, newPop, isDuplication)
    ensures Screened(offspring + extra, checked + Unchecked(|extra|), newPop, isDuplication)
  {
    var s := offspring + extra;
    forall i | 0 <= i < |offspring|
      ensures s[..i] == offspring[..i]
    {
    }
  }

  /** n offspring added without a check. */
  function Unchecked(n: nat): (marks: seq<bool>)
    ensures |marks| == n && forall i :: 0 <= i < n ==> !marks[i]
  {
    seq(n, _ => false)
  }

  /** `x` is a child of one of the crossovers. */
  predicate InSome<T(==)>(x: T, broods: seq<seq<T>>) {
    exists b :: 0 <= b < |broods| && x in broods[b]
  }

  ghost predicate FromBroods<T>(s: seq<T>, broods: seq<seq<T>>) {
    forall i :: 0 <= i < |s| ==> InSome(s[i], broods)
  }

  /** Offspring taken from one crossover keep every offspring a child of some crossover. */
  lemma FromBroodsGrow<T>(before: seq<T>, after: seq<T>, broods: seq<seq<T>>, b: nat)
    requires FromBroods(before, broods) && b < |broods|
    requires |before| <= |after| && after[..|before|] == before
    requires forall i :: |before| <= i < |after| ==> after[i] in broods[b]
    ensures FromBroods(after, broods)
  {
    forall i | 0 <= i < |after|
      ensures InSome(after[i], broods)
    {
      if i < |before| {
        assert after[i] == before[i];
      }
    }
  }

  // ----- trimming -----

  /** `random.sample(range(n), k)`, for every count k that does not exceed n. */
  ghost predicate Sampler(surplusPicks: (nat, nat) -> seq<nat>) {
    forall k: nat, n: nat :: k <= n ==> Populations.IsSample(surplusPicks(k, n), k, n)
  }

  /** `removeRandomIndiv` on the offspring: each sampled member removed in turn. */
  function Trimmed<T(==)>(s: seq<T>, picks: seq<nat>): seq<T>
    requires Populations.IsSample(picks, |picks|, |s|)
  {
    Populations.RemoveEach(s, Populations.Picked(s, picks))
  }

  /** Removing k sampled members leaves k fewer, all of them offspring. */
  lemma TrimmedSpec<T>(s: seq<T>, picks: seq<nat>)
    requires Populations.IsSample(picks, |picks|, |s|)
    ensures |Trimmed(s, picks)| == |s| - |picks|
    ensures multiset(Trimmed(s, picks)) <= multiset(s)
  {
    Populations.PickedSubMultiset(s, picks);
    Populations.RemoveEachSpec(s, Populations.Picked(s, picks));
  }

  // ----- crossover -----

  /** `x` is a child of one of the crossovers whose positions `forced` lists. */
  ghost predicate InForced<T>(x: T, broods: seq<seq<T>>, forced: seq<nat>) {
    exists k :: 0 <= k < |forced| && forced[k] < |broods| && x in broods[forced[k]]
  }

  /** Every offspring that did not pass the duplication check is a child of
      a crossover whose children were added unchecked. */
  ghost predicate CheckedOrForced<T>(crossed: seq<T>, checked: seq<bool>, broods: seq<seq<T>>, forced: seq<nat>) {
    |checked| == |crossed|
    && forall i :: 0 <= i < |crossed| && !checked[i] ==> InForced(crossed[i], broods, forced)
  }

  /** Offspring added through the check keep the unchecked ones accounted for. */
  lemma CheckedOrForcedGrow<T>(crossed: seq<T>, checked: seq<bool>, after: seq<T>, marks: seq<bool>,
                               broods: seq<seq<T>>, forced: seq<nat>)
    requires CheckedOrForced(crossed, checked, broods, forced)
    requires |crossed| <= |after| == |marks| && after[..|crossed|] == crossed && marks[..|crossed|] == checked
    requires forall i :: |crossed| <= i < |after| ==> marks[i]
    ensures CheckedOrForced(after, marks, broods, forced)
  {
    forall i | 0 <= i < |after| && !marks[i]
      ensures InForced(after[i], broods, forced)
    {
      assert after[i] == crossed[i] && marks[i] == checked[i];
    }
  }

  /** The children of crossover `b`, added unchecked, are accounted for once `b` is listed. */
  lemma CheckedOrForcedForce<T>(crossed: seq<T>, checked: seq<bool>, broods: seq<seq<T>>, forced: seq<nat>, b: nat)
    requires CheckedOrForced(crossed, checked, broods, forced) && b < |broods|
    ensures CheckedOrForced(crossed + broods[b], checked + Unchecked(|broods[b]|), broods, forced + [b])
  {
    var after := crossed + broods[b];
    var marks := checked + Unchecked(|broods[b]|);
    var forced' := forced + [b];
    forall i | 0 <= i < |after| && !marks[i]
      ensures InForced(after[i], broods, forced')
    {
      if i < |crossed| {
        var k :| 0 <= k < |forced| && forced[k] < |broods| && crossed[i] in broods[forced[k]];
        assert forced'[k] == forced[k];
      } else {
        assert after[i] == broods[b][i - |crossed|];
        assert forced'[|forced|] == b;
      }
    }
  }

  /** The children of the first `used + 1` crossovers, in order. */
  lemma FlattenNext<T>(broods: seq<seq<T>>, used: nat)
    requires used < |broods|
    ensures Clustering.Flatten(broods[..used + 1]) == Clustering.Flatten(broods[..used]) + broods[used]
  {
    assert broods[..used + 1] == broods[..used] + [broods[used]];
    Clustering.FlattenSnoc(broods[..used], broods[used]);
  }

  /** How many of the first `t` children of a crossover are added when the
      offspring number `n` and the target is `target`. */
  function Kept(t: nat, target: int, n: nat): (k: nat)
    ensures k <= t && n + k <= if target < n then n else target
  {
    if target <= n then 0 else if t < target - n then t else target - n
  }

  /** The checked loop over the children of one crossover stops at child
      `c`: every child before it duplicates neither a member of `newPop`
      nor an offspring added before it, and child `c`, if any, does. */
  ghost predicate CutAt<T>(brood: seq<T>, before: seq<T>, c: nat, nbCrossInd: int, newPop: seq<T>,
                           isDuplication: (T, T) -> bool) {
    c <= |brood|
    && (forall t :: 0 <= t < c ==>
          !Duplicated(brood[t], newPop, before + brood[..Kept(t, nbCrossInd, |before|)], isDuplication))
    && (c < |brood| ==> Duplicated(brood[c], newPop, before + brood[..Kept(c, nbCrossInd, |before|)], isDuplication))
  }

  /** What one crossover adds to the offspring `before`: all its children
      when they are added unchecked, otherwise those before the cut `c` that
      fit under the target. */
  ghost predicate Contribution<T>(brood: seq<T>, before: seq<T>, added: seq<T>, c: nat, unchecked: bool,
                                  nbCrossInd: int, newPop: seq<T>, isDuplication: (T, T) -> bool,
                                  delDuplicated: bool) {
    if unchecked || !delDuplicated then added == brood && c == |brood|
    else CutAt(brood, before, c, nbCrossInd, newPop, isDuplication) && added == brood[..Kept(c, nbCrossInd, |before|)]
  }

  /** The crossovers `from` to `upTo` - 1 each brought a duplicate. */
  ghost predicate BroughtDuplicates<T>(broods: seq<seq<T>>, cuts: seq<nat>, from: int, upTo: int) {
    forall b :: 0 <= from <= b < upTo && b < |cuts| && b < |broods| ==> cuts[b] < |broods[b]|
  }

  /** The offspring crossover by crossover: crossover `b` added
      `crossed[lens[b]..lens[b + 1]]` and its checked loop stopped at child
      `cuts[b]`; a crossover listed in `forced` added its children unchecked
      and comes after `nbTryMax` crossovers that each brought a duplicate. */
  ghost predicate Draws<T>(crossed: seq<T>, lens: seq<nat>, cuts: seq<nat>, forced: seq<nat>, broods: seq<seq<T>>,
                           nbCrossInd: int, nbTryMax: int, delDuplicated: bool, newPop: seq<T>,
                           isDuplication: (T, T) -> bool) {
    |lens| == |cuts| + 1 && |cuts| <= |broods| && lens[0] == 0 && lens[|cuts|] == |crossed|
    && (forall a, b :: 0 <= a <= b <= |cuts| ==> lens[a] <= lens[b])
    && (forall k :: 0 <= k < |forced| ==> forced[k] < |cuts|)
    && (forall b :: 0 <= b < |cuts| ==>
          Contribution(broods[b], crossed[..lens[b]], crossed[lens[b]..lens[b + 1]], cuts[b], b in forced,
                       nbCrossInd, newPop, isDuplication, delDuplicated))
    && (forall k :: 0 <= k < |forced| ==>
          nbTryMax <= forced[k] && BroughtDuplicates(broods, cuts, forced[k] - nbTryMax, forced[k]))
  }

  /** One more crossover keeps the earlier ones' record, and adds its own
      when it brought a duplicate. */
  lemma BroughtDuplicatesSnoc<T>(broods: seq<seq<T>>, cuts: seq<nat>, c: nat, from: int, upTo: int)
    requires BroughtDuplicates(broods, cuts, from, upTo - 1) && upTo == |cuts| < |broods|
    requires 0 <= from < upTo ==> cuts[upTo - 1] < |broods[upTo - 1]|
    ensures BroughtDuplicates(broods, cuts + [c], from, upTo)
  {
    var cuts' := cuts + [c];
    forall b | 0 <= from <= b < upTo && b < |cuts'| && b < |broods|
      ensures cuts'[b] < |broods[b]|
    {
      assert cuts'[b] == cuts[b];
    }
  }

  /** A range of crossovers that brought duplicates grows by one that did. */
  lemma BroughtDuplicatesExtend<T>(broods: seq<seq<T>>, cuts: seq<nat>, from: int, upTo: int)
    requires BroughtDuplicates(broods, cuts, from, upTo - 1)
    requires 0 <= from < upTo <= |cuts| && upTo <= |broods| ==> cuts[upTo - 1] < |broods[upTo - 1]|
    ensures BroughtDuplicates(broods, cuts, from, upTo)
  {
  }

  /** The next crossover's contribution extends the record. */
  lemma DrawsSnoc<T>(crossed: seq<T>, lens: seq<nat>, cuts: seq<nat>, forced: seq<nat>, broods: seq<seq<T>>,
                     nbCrossInd: int, nbTryMax: int, delDuplicated: bool, newPop: seq<T>,
                     isDuplication: (T, T) -> bool, added: seq<T>, c: nat, unchecked: bool)
    requires Draws(crossed, lens, cuts, forced, broods, nbCrossInd, nbTryMax, delDuplicated, newPop, isDuplication)
    requires |cuts| < |broods|
    requires Contribution(broods[|cuts|], crossed, added, c, unchecked, nbCrossInd, newPop, isDuplication, delDuplicated)
    requires unchecked ==> nbTryMax <= |cuts| && BroughtDuplicates(broods, cuts, |cuts| - nbTryMax, |cuts|)
    ensures Draws(crossed + added, lens + [|crossed| + |added|], cuts + [c],
                  if unchecked then forced + [|cuts|] else forced,
                  broods, nbCrossInd, nbTryMax, delDuplicated, newPop, isDuplication)
  {
    var crossed', lens', cuts' := crossed + added, lens + [|crossed| + |added|], cuts + [c];
    var forced' := if unchecked then forced + [|cuts|] else forced;
    var n := |cuts|;
    forall a, b | 0 <= a <= b <= |cuts'|
      ensures lens'[a] <= lens'[b]
    {
      if b < |lens| {
        assert lens'[a] == lens[a] && lens'[b] == lens[b];
      } else if a < |lens| {
        assert lens'[a] == lens[a] && lens[a] <= lens[n];
      }
    }
    forall b | 0 <= b < |cuts'|
      ensures Contribution(broods[b], crossed'[..lens'[b]], crossed'[lens'[b]..lens'[b + 1]], cuts'[b], b in forced',
                           nbCrossInd, newPop, isDuplication, delDuplicated)
    {
      if b < n {
        assert lens[b] <= lens[b + 1] <= lens[n];
        assert crossed'[..lens'[b]] == crossed[..lens[b]];
        assert crossed'[lens'[b]..lens'[b + 1]] == crossed[lens[b]..lens[b + 1]];
        assert b in forced' <==> b in forced;
      } else {
        assert crossed'[..lens'[b]] == crossed;
        assert crossed'[lens'[b]..lens'[b + 1]] == added;
      }
    }
    forall k | 0 <= k < |forced'|
      ensures nbTryMax <= forced'[k] && BroughtDuplicates(broods, cuts', forced'[k] - nbTryMax, forced'[k])
    {
      if k < |forced| {
        assert forced'[k] == forced[k] && BroughtDuplicates(broods, cuts, forced[k] - nbTryMax, forced[k]);
      }
    }
  }

  /** The loop over the children of one crossover: without the duplication
      check every child is added; with it, a child that duplicates a member
      of `newPop` or an offspring stops the loop, and the others are added
      while the target is not reached. */
  method TryBrood<T>(newIndivs: seq<T>, crossed: seq<T>, ghost checked: seq<bool>, nbCrossInd: int,
                     delDuplicated: bool, newPop: seq<T>, isDuplication: (T, T) -> bool)
    returns (duplicated: bool, after: seq<T>, ghost marks: seq<bool>, ghost c: nat)
    requires Screened(crossed, checked, newPop, isDuplication)
    ensures Screened(after, marks, newPop, isDuplication)
    ensures |crossed| <= |after|
    ensures Contribution(newIndivs, crossed, after[|crossed|..], c, false, nbCrossInd, newPop, isDuplication, delDuplicated)
    ensures c <= |newIndivs| && (duplicated <==> c < |newIndivs|)
    ensures |crossed| <= |after| && after[..|crossed|] == crossed && marks[..|crossed|] == checked
    ensures forall i :: |crossed| <= i < |after| ==> after[i] in newIndivs
    ensures !delDuplicated ==> !duplicated && after == crossed + newIndivs
    ensures delDuplicated ==> forall i :: |crossed| <= i < |after| ==> marks[i]
    ensures delDuplicated && |crossed| >= nbCrossInd ==> after == crossed
  {
    duplicated := false;
    after, marks := crossed, checked;
    var cur := 0;
    c := 0;
    while !duplicated && cur < |newIndivs|
      invariant 0 <= cur <= |newIndivs|
      invariant c <= cur && (!duplicated ==> c == cur) && (duplicated ==> delDuplicated && c < |newIndivs|)
      invariant delDuplicated ==>
                  after == crossed + newIndivs[..Kept(c, nbCrossInd, |crossed|)]
                  && (forall t :: 0 <= t < c ==>
                        !Duplicated(newIndivs[t], newPop, crossed + newIndivs[..Kept(t, nbCrossInd, |crossed|)], isDuplication))
                  && (duplicated ==>
                        Duplicated(newIndivs[c], newPop, crossed + newIndivs[..Kept(c, nbCrossInd, |crossed|)], isDuplication))
      invariant Screened(after, marks, newPop, isDuplication)
      invariant |crossed| <= |after| && after[..|crossed|] == crossed && marks[..|crossed|] == checked
      invariant forall i :: |crossed| <= i < |after| ==> after[i] in newIndivs
      invariant !delDuplicated ==> !duplicated && after == crossed + newIndivs[..cur]
      invariant delDuplicated ==> forall i :: |crossed| <= i < |after| ==> marks[i]
      invariant delDuplicated && |crossed| >= nbCrossInd ==> after == crossed
    {
      var newIndiv := newIndivs[cur];
      if !delDuplicated {
        ScreenedSnoc(after, marks, newPop, isDuplication, newIndiv, false);
        assert newIndivs[..cur + 1] == newIndivs[..cur] + [newIndiv];
        after, marks := after + [newIndiv], marks + [false];
        c := cur + 1;
      } else {
        duplicated := ScanDuplicate(newIndiv, newPop, isDuplication);
        if !duplicated {
          duplicated := ScanDuplicate(newIndiv, after, isDuplication);
        }
        if !duplicated && |after| < nbCrossInd {
          ScreenedSnoc(after, marks, newPop, isDuplication, newIndiv, true);
          assert newIndivs[..cur + 1] == newIndivs[..cur] + [newIndiv];
          after, marks := after + [newIndiv], marks + [true];
        }
        if !duplicated {
          c := cur + 1;
        }
      }
      cur := cur + 1;
    }
    assert newIndivs[..|newIndivs|] == newIndivs;
    assert after[|crossed|..] == if delDuplicated then newIndivs[..Kept(c, nbCrossInd, |crossed|)] else newIndivs;
  }

  /** The crossovers `used` to `used'` - 1 were tried, the record of the
      earlier ones is unchanged, all but the last brought a duplicate, and
      `duplicated` says whether the last one did. */
  ghost predicate Tried<T>(broods: seq<seq<T>>, cuts: seq<nat>, cuts': seq<nat>, lens: seq<nat>, lens': seq<nat>,
                           used: nat, used': nat, duplicated: bool) {
    |cuts'| == used' && used <= used' <= |broods| && used <= |cuts'| && cuts'[..used] == cuts
    && |lens| <= |lens'| && lens'[..|lens|] == lens
    && BroughtDuplicates(broods, cuts', used, used' - 1)
    && (used' > used ==>
          cuts'[used' - 1] <= |broods[used' - 1]| && (duplicated <==> cuts'[used' - 1] < |broods[used' - 1]|))
  }

  /** The offspring `after` grew from `crossed`, and with the duplication
      check every offspring added was marked as checked. */
  ghost predicate Extends<T>(crossed: seq<T>, checked: seq<bool>, after: seq<T>, marks: seq<bool>, delDuplicated: bool) {
    |crossed| <= |after| && |marks| == |after| && |checked| <= |marks|
    && after[..|crossed|] == crossed && marks[..|crossed|] == checked
    && (delDuplicated ==> forall i :: |crossed| <= i < |after| ==> marks[i])
  }

  /** The retry loop of one round of `crossover`: up to `nbTryMax`
      crossovers, until one brings no duplicate.  `used` counts the
      crossover outcomes consumed so far; the loop stops early only when the
      crossover outcomes run out, and each try but the last brought a
      duplicate. */
  method RetryCrossover<T(==)>(nbCrossInd: int, nbTryMax: int, delDuplicated: bool, newPop: seq<T>,
                               isDuplication: (T, T) -> bool, broods: seq<seq<T>>,
                               crossed: seq<T>, ghost checked: seq<bool>, used: nat,
                               ghost lens: seq<nat>, ghost cuts: seq<nat>, ghost forced: seq<nat>)
    returns (duplicated: bool, nbTry: nat, after: seq<T>, ghost marks: seq<bool>, used': nat, outOfDraws: bool,
             ghost lens': seq<nat>, ghost cuts': seq<nat>)
    requires 0 <= nbTryMax && used <= |broods|
    requires Screened(crossed, checked, newPop, isDuplication) && FromBroods(crossed, broods)
    requires Draws(crossed, lens, cuts, forced, broods, nbCrossInd, nbTryMax, delDuplicated, newPop, isDuplication)
    requires |cuts| == used
    ensures nbTry <= nbTryMax && used <= used' <= |broods| && used' == used + nbTry
    ensures Draws(after, lens', cuts', forced, broods, nbCrossInd, nbTryMax, delDuplicated, newPop, isDuplication)
    ensures Tried(broods, cuts, cuts', lens, lens', used, used', duplicated)
    ensures outOfDraws ==>
              used' == |broods| && nbTry < nbTryMax && BroughtDuplicates(broods, cuts', used, used')
    ensures !outOfDraws ==> !duplicated || nbTry == nbTryMax
    ensures nbTry == 0 ==> duplicated && after == crossed
    ensures Screened(after, marks, newPop, isDuplication) && FromBroods(after, broods)
    ensures Extends(crossed, checked, after, marks, delDuplicated)
    ensures !delDuplicated && nbTry > 0 ==>
              used' == used + 1 && after == crossed + broods[used] && !duplicated && !outOfDraws
  {
    duplicated := true;
    nbTry := 0;
    after, marks, used' := crossed, checked, used;
    lens', cuts' := lens, cuts;
    // The loop also stops when no crossover outcome is left to draw.
    while duplicated && nbTry < nbTryMax && used' < |broods|
      invariant nbTry <= nbTryMax && used <= used' <= |broods| && used' == used + nbTry
      invariant Draws(after, lens', cuts', forced, broods, nbCrossInd, nbTryMax, delDuplicated, newPop, isDuplication)
      invariant Tried(broods, cuts, cuts', lens, lens', used, used', duplicated)
      invariant nbTry == 0 ==> duplicated && after == crossed
      invariant Screened(after, marks, newPop, isDuplication) && FromBroods(after, broods)
      invariant Extends(crossed, checked, after, marks, delDuplicated)
      invariant !delDuplicated && nbTry > 0 ==> used' == used + 1 && after == crossed + broods[used] && !duplicated
      decreases nbTryMax - nbTry
    {
      duplicated, after, marks, lens', cuts' :=
        RetryStep(nbCrossInd, nbTryMax, delDuplicated, newPop, isDuplication, broods, crossed, checked, used, cuts,
                  forced, nbTry, after, marks, used', lens, lens', cuts');
      nbTry := nbTry + 1;
      used' := used' + 1;
    }
    outOfDraws := duplicated && nbTry < nbTryMax;
    if outOfDraws {
      BroughtDuplicatesExtend(broods, cuts', used, used');
    }
  }

  /** One pass of the retry loop: crossover `used'` is tried, and the loop's
      invariants hold again with one try and one crossover more. */
  method RetryStep<T(==)>(nbCrossInd: int, nbTryMax: int, delDuplicated: bool, newPop: seq<T>,
                          isDuplication: (T, T) -> bool, broods: seq<seq<T>>,
                          crossed: seq<T>, ghost checked: seq<bool>, used: nat, ghost cuts: seq<nat>, ghost forced: seq<nat>,
                          nbTry: nat, before: seq<T>, ghost beforeMarks: seq<bool>, used': nat,
                          ghost lens0: seq<nat>, ghost lens: seq<nat>, ghost beforeCuts: seq<nat>)
    returns (duplicated: bool, after: seq<T>, ghost marks: seq<bool>, ghost lens': seq<nat>, ghost cuts': seq<nat>)
    requires nbTry < nbTryMax && used' < |broods| && used' == used + nbTry
    requires Draws(before, lens, beforeCuts, forced, broods, nbCrossInd, nbTryMax, delDuplicated, newPop, isDuplication)
    requires Tried(broods, cuts, beforeCuts, lens0, lens, used, used', true)
    requires Screened(before, beforeMarks, newPop, isDuplication) && FromBroods(before, broods)
    requires Extends(crossed, checked, before, beforeMarks, delDuplicated)
    requires !delDuplicated ==> nbTry == 0 && before == crossed
    ensures Draws(after, lens', cuts', forced, broods, nbCrossInd, nbTryMax, delDuplicated, newPop, isDuplication)
    ensures Tried(broods, cuts, cuts', lens0, lens', used, used' + 1, duplicated)
    ensures Screened(after, marks, newPop, isDuplication) && FromBroods(after, broods)
    ensures Extends(crossed, checked, after, marks, delDuplicated)
    ensures !delDuplicated ==> used' == used && after == crossed + broods[used] && !duplicated
  {
    duplicated, after, marks, lens', cuts' :=
      TryOnce(nbCrossInd, nbTryMax, delDuplicated, newPop, isDuplication, broods, before, beforeMarks, used', lens, beforeCuts, forced);
    KeepsPrefix(crossed, checked, before, beforeMarks, after, marks, delDuplicated);
    BroughtDuplicatesSnoc(broods, beforeCuts, cuts'[used'], used, used');
    assert cuts'[..used] == beforeCuts[..used];
    assert lens'[..|lens0|] == lens[..|lens0|];
  }

  /** Offspring that grow from offspring grown from `crossed` still start
      with `crossed`, and with the duplication check every mark added is set. */
  lemma KeepsPrefix<T>(crossed: seq<T>, checked: seq<bool>, before: seq<T>, beforeMarks: seq<bool>,
                       after: seq<T>, marks: seq<bool>, delDuplicated: bool)
    requires |beforeMarks| == |before| && |marks| == |after|
    requires |crossed| <= |before| && before[..|crossed|] == crossed && beforeMarks[..|crossed|] == checked
    requires delDuplicated ==> forall i :: |crossed| <= i < |before| ==> beforeMarks[i]
    requires |before| <= |after| && after[..|before|] == before && marks[..|before|] == beforeMarks
    requires delDuplicated ==> forall i :: |before| <= i < |after| ==> marks[i]
    ensures after[..|crossed|] == crossed && marks[..|crossed|] == checked
    ensures delDuplicated ==> forall i :: |crossed| <= i < |after| ==> marks[i]
  {
    assert after[..|crossed|] == before[..|before|][..|crossed|];
    assert marks[..|crossed|] == beforeMarks[..|before|][..|crossed|];
    if delDuplicated {
      forall i | |crossed| <= i < |after| ensures marks[i] {
        if i < |before| {
          assert marks[i] == marks[..|before|][i];
        }
      }
    }
  }

  /** One try of the retry loop: the children of crossover `used` go
      through the checked loop, and the record grows by that crossover. */
  method TryOnce<T(==)>(nbCrossInd: int, nbTryMax: int, delDuplicated: bool, newPop: seq<T>,
                        isDuplication: (T, T) -> bool, broods: seq<seq<T>>,
                        crossed: seq<T>, ghost checked: seq<bool>, used: nat,
                        ghost lens: seq<nat>, ghost cuts: seq<nat>, ghost forced: seq<nat>)
    returns (duplicated: bool, after: seq<T>, ghost marks: seq<bool>, ghost lens': seq<nat>, ghost cuts': seq<nat>)
    requires used < |broods|
    requires Screened(crossed, checked, newPop, isDuplication) && FromBroods(crossed, broods)
    requires Draws(crossed, lens, cuts, forced, broods, nbCrossInd, nbTryMax, delDuplicated, newPop, isDuplication)
    requires |cuts| == used
    ensures Screened(after, marks, newPop, isDuplication) && FromBroods(after, broods)
    ensures Draws(after, lens', cuts', forced, broods, nbCrossInd, nbTryMax, delDuplicated, newPop, isDuplication)
    ensures |cuts'| == used + 1 && cuts' == cuts + [cuts'[used]] && lens' == lens + [|after|]
    ensures cuts'[used] <= |broods[used]| && (duplicated <==> cuts'[used] < |broods[used]|)
    ensures |crossed| <= |after| && after[..|crossed|] == crossed && marks[..|crossed|] == checked
    ensures delDuplicated ==> forall i :: |crossed| <= i < |after| ==> marks[i]
    ensures !delDuplicated ==> !duplicated && after == crossed + broods[used]
  {
    var newIndivs := broods[used];
    ghost var c;
    duplicated, after, marks, c := TryBrood(newIndivs, crossed, checked, nbCrossInd, delDuplicated, newPop, isDuplication);
    FromBroodsGrow(crossed, after, broods, used);
    assert after == crossed + after[|crossed|..];
    DrawsSnoc(crossed, lens, cuts, forced, broods, nbCrossInd, nbTryMax, delDuplicated, newPop, isDuplication,
              after[|crossed|..], c, false);
    lens', cuts' := lens + [|after|], cuts + [c];
  }

  /** What holds of the offspring after each round of `crossover`:
      without the duplication check they are the children of the first
      `drawn` crossovers, in order; with it, each either passed the check or
      is a child of a crossover listed in `forced`. */
  ghost predicate Progress<T>(crossed: seq<T>, checked: seq<bool>, drawn: nat, forced: seq<nat>,
                              broods: seq<seq<T>>, newPop: seq<T>, isDuplication: (T, T) -> bool,
                              delDuplicated: bool, nbTryMax: int) {
    drawn <= |broods|
    && Screened(crossed, checked, newPop, isDuplication) && FromBroods(crossed, broods)
    && (!delDuplicated ==> crossed == Clustering.Flatten(broods[..drawn]))
    && (!delDuplicated && nbTryMax > 0 ==> forced == [])
    && (delDuplicated ==> CheckedOrForced(crossed, checked, broods, forced))
  }

  /** Crossovers `s` to `e` - 1 form one complete round of `crossover`:
      either up to `nbTryMax` retries of which only the last brought no
      duplicate, or `nbTryMax` retries that all brought a duplicate followed
      by one crossover whose children were added unchecked.  Only that last
      one can be listed in `forced`. */
  ghost predicate CompleteRound<T>(broods: seq<seq<T>>, cuts: seq<nat>, forced: seq<nat>, nbTryMax: int, s: nat, e: nat) {
    s < e <= |cuts| && e <= |broods|
    && BroughtDuplicates(broods, cuts, s, e - 1)
    && (if e - 1 in forced then e == s + nbTryMax + 1
        else e - s <= nbTryMax && cuts[e - 1] == |broods[e - 1]|)
    && (forall b :: s <= b < e - 1 ==> b !in forced)
  }

  /** The round begun at crossover `s`, with `lens[s]` offspring still
      below the target, used up every crossover outcome: all its retries,
      at most `nbTryMax`, brought a duplicate, and none was forced. */
  ghost predicate Unfinished<T>(broods: seq<seq<T>>, cuts: seq<nat>, forced: seq<nat>, lens: seq<nat>, nbTryMax: int,
                                nbCrossInd: int, s: nat) {
    s <= |cuts| == |broods| && s < |lens| && lens[s] < nbCrossInd
    && |cuts| - s <= nbTryMax && BroughtDuplicates(broods, cuts, s, |cuts|)
    && (forall b :: s <= b < |cuts| ==> b !in forced)
  }

  /** The crossovers made so far split into complete rounds, round `k`
      running from `starts[k]` to `starts[k + 1]` - 1 and begun with fewer
      offspring than the target. */
  ghost predicate CompleteRounds<T>(broods: seq<seq<T>>, cuts: seq<nat>, forced: seq<nat>, lens: seq<nat>, nbTryMax: int,
                            nbCrossInd: int, starts: seq<nat>) {
    |starts| > 0 && starts[0] == 0 && Last(starts) <= |cuts| < |lens|
    && forall k :: 0 <= k < |starts| - 1 ==>
         CompleteRound(broods, cuts, forced, nbTryMax, starts[k], starts[k + 1]) && lens[starts[k]] < nbCrossInd
  }

  function Last(s: seq<nat>): nat
    requires |s| > 0
  {
    s[|s| - 1]
  }

  /** More crossovers, with the earlier ones' cuts, forcing and offspring
      counts unchanged, keep the earlier rounds complete. */
  lemma CompleteRoundsGrow<T>(broods: seq<seq<T>>, cuts: seq<nat>, forced: seq<nat>, lens: seq<nat>, nbTryMax: int,
                      nbCrossInd: int, starts: seq<nat>, cuts': seq<nat>, forced': seq<nat>, lens': seq<nat>)
    requires CompleteRounds(broods, cuts, forced, lens, nbTryMax, nbCrossInd, starts)
    requires |cuts| <= |cuts'| < |lens'| && cuts'[..|cuts|] == cuts && |lens| <= |lens'| && lens'[..|lens|] == lens
    requires forall b :: 0 <= b < |cuts| ==> (b in forced' <==> b in forced)
    ensures CompleteRounds(broods, cuts', forced', lens', nbTryMax, nbCrossInd, starts)
  {
    forall k | 0 <= k < |starts| - 1
      ensures CompleteRound(broods, cuts', forced', nbTryMax, starts[k], starts[k + 1]) && lens'[starts[k]] < nbCrossInd
    {
      var s, e := starts[k], starts[k + 1];
      assert CompleteRound(broods, cuts, forced, nbTryMax, s, e) && lens[s] < nbCrossInd;
      assert lens'[s] == lens[s];
      assert cuts'[e - 1] == cuts[e - 1];
      forall b | 0 <= s <= b < e - 1 && b < |cuts'| && b < |broods|
        ensures cuts'[b] < |broods[b]|
      {
        assert cuts'[b] == cuts[b];
      }
    }
  }

  /** A complete round appended to complete rounds. */
  lemma CompleteRoundsSnoc<T>(broods: seq<seq<T>>, cuts: seq<nat>, forced: seq<nat>, lens: seq<nat>, nbTryMax: int,
                      nbCrossInd: int, starts: seq<nat>, e: nat)
    requires CompleteRounds(broods, cuts, forced, lens, nbTryMax, nbCrossInd, starts)
    requires CompleteRound(broods, cuts, forced, nbTryMax, Last(starts), e) && lens[Last(starts)] < nbCrossInd
    ensures CompleteRounds(broods, cuts, forced, lens, nbTryMax, nbCrossInd, starts + [e])
  {
    var starts' := starts + [e];
    forall k | 0 <= k < |starts'| - 1
      ensures CompleteRound(broods, cuts, forced, nbTryMax, starts'[k], starts'[k + 1]) && lens[starts'[k]] < nbCrossInd
    {
      if k < |starts| - 1 {
        assert starts'[k] == starts[k] && starts'[k + 1] == starts[k + 1];
      }
    }
  }

  /** One round of the loop of `crossover`: the retries and, when every one
      of them brought a duplicate, one more crossover whose children are
      added unchecked. */
  method CrossRound<T(==)>(nbCrossInd: int, nbTryMax: int, delDuplicated: bool, newPop: seq<T>,
                           isDuplication: (T, T) -> bool, broods: seq<seq<T>>,
                           crossed: seq<T>, ghost checked: seq<bool>, drawn: nat, ghost forced: seq<nat>,
                           ghost lens: seq<nat>, ghost cuts: seq<nat>)
    returns (after: seq<T>, ghost marks: seq<bool>, drawn': nat, ghost forced': seq<nat>, outOfDraws: bool,
             ghost lens': seq<nat>, ghost cuts': seq<nat>)
    requires 0 <= nbTryMax && |crossed| < nbCrossInd
    requires Progress(crossed, checked, drawn, forced, broods, newPop, isDuplication, delDuplicated, nbTryMax)
    requires Draws(crossed, lens, cuts, forced, broods, nbCrossInd, nbTryMax, delDuplicated, newPop, isDuplication)
    requires |cuts| == drawn
    ensures Progress(after, marks, drawn', forced', broods, newPop, isDuplication, delDuplicated, nbTryMax)
    ensures Draws(after, lens', cuts', forced', broods, nbCrossInd, nbTryMax, delDuplicated, newPop, isDuplication)
    ensures |cuts'| == drawn' && drawn <= drawn' && cuts'[..drawn] == cuts && |lens| <= |lens'| && lens'[..|lens|] == lens
    ensures forall b :: 0 <= b < drawn ==> (b in forced' <==> b in forced)
    ensures !outOfDraws ==> CompleteRound(broods, cuts', forced', nbTryMax, drawn, drawn')
    ensures outOfDraws ==> Unfinished(broods, cuts', forced', lens', nbTryMax, nbCrossInd, drawn)
  {
    var duplicated, nbTry;
    assert forall k :: 0 <= k < |forced| ==> forced[k] < drawn;
    duplicated, nbTry, after, marks, drawn', outOfDraws, lens', cuts' :=
      RetryCrossover(nbCrossInd, nbTryMax, delDuplicated, newPop, isDuplication, broods, crossed, checked, drawn,
                     lens, cuts, forced);
    RetryProgress(crossed, checked, after, marks, drawn, drawn', forced, broods, newPop, isDuplication,
                  delDuplicated, nbTryMax);
    assert lens'[drawn] < nbCrossInd by {
      assert lens'[..|lens|][drawn] == lens[drawn];
    }
    forced' := forced;
    if outOfDraws {
      RoundRanOut(broods, cuts', forced, lens', nbTryMax, nbCrossInd, drawn);
    } else if duplicated && nbTry == nbTryMax {
      // Duplication cannot be avoided.
      BroughtDuplicatesExtend(broods, cuts', drawn, drawn');
      if drawn' == |broods| {
        outOfDraws := true;
        RoundRanOut(broods, cuts', forced, lens', nbTryMax, nbCrossInd, drawn);
      } else {
        after, marks, drawn', forced', lens', cuts' :=
          ForceRound(nbCrossInd, nbTryMax, delDuplicated, newPop, isDuplication, broods, after, marks, drawn, drawn',
                     forced, lens, lens', cuts, cuts');
      }
    } else {
      RoundSucceeded(broods, cuts', forced, nbTryMax, drawn, drawn');
    }
  }

  /** The offspring after the retries of a round keep the record of
      `Progress`, the crossovers `drawn` to `drawn'` - 1 being the retries. */
  lemma RetryProgress<T>(crossed: seq<T>, checked: seq<bool>, after: seq<T>, marks: seq<bool>, drawn: nat,
                         drawn': nat, forced: seq<nat>, broods: seq<seq<T>>, newPop: seq<T>,
                         isDuplication: (T, T) -> bool, delDuplicated: bool, nbTryMax: int)
    requires Progress(crossed, checked, drawn, forced, broods, newPop, isDuplication, delDuplicated, nbTryMax)
    requires drawn <= drawn' <= |broods|
    requires Screened(after, marks, newPop, isDuplication) && FromBroods(after, broods)
    requires Extends(crossed, checked, after, marks, delDuplicated)
    requires !delDuplicated ==>
               (drawn' == drawn && after == crossed) || (drawn' == drawn + 1 && after == crossed + broods[drawn])
    ensures Progress(after, marks, drawn', forced, broods, newPop, isDuplication, delDuplicated, nbTryMax)
  {
    if delDuplicated {
      CheckedOrForcedGrow(crossed, checked, after, marks, broods, forced);
    } else if drawn' == drawn + 1 {
      FlattenNext(broods, drawn);
    }
  }

  /** The end of a round whose `nbTryMax` retries, crossovers `s` to
      `drawn` - 1, all brought a duplicate: crossover `drawn` is forced, and
      the round is complete. */
  method ForceRound<T(==)>(nbCrossInd: int, nbTryMax: int, delDuplicated: bool, newPop: seq<T>,
                           isDuplication: (T, T) -> bool, broods: seq<seq<T>>,
                           crossed: seq<T>, ghost checked: seq<bool>, s: nat, drawn: nat, ghost forced: seq<nat>,
                           ghost lens0: seq<nat>, ghost lens: seq<nat>, ghost cuts0: seq<nat>, ghost cuts: seq<nat>)
    returns (after: seq<T>, ghost marks: seq<bool>, drawn': nat, ghost forced': seq<nat>,
             ghost lens': seq<nat>, ghost cuts': seq<nat>)
    requires 0 <= nbTryMax && drawn == s + nbTryMax < |broods| && (delDuplicated || nbTryMax == 0)
    requires Progress(crossed, checked, drawn, forced, broods, newPop, isDuplication, delDuplicated, nbTryMax)
    requires Draws(crossed, lens, cuts, forced, broods, nbCrossInd, nbTryMax, delDuplicated, newPop, isDuplication)
    requires |cuts| == drawn && s <= |cuts0| && cuts[..s] == cuts0 && |lens0| <= |lens| && lens[..|lens0|] == lens0
    requires BroughtDuplicates(broods, cuts, s, drawn)
    requires forall k :: 0 <= k < |forced| ==> forced[k] < s
    ensures Progress(after, marks, drawn', forced', broods, newPop, isDuplication, delDuplicated, nbTryMax)
    ensures Draws(after, lens', cuts', forced', broods, nbCrossInd, nbTryMax, delDuplicated, newPop, isDuplication)
    ensures drawn' == drawn + 1 && |cuts'| == drawn' && cuts'[..s] == cuts0 && |lens0| <= |lens'| && lens'[..|lens0|] == lens0
    ensures forall b :: 0 <= b < s ==> (b in forced' <==> b in forced)
    ensures CompleteRound(broods, cuts', forced', nbTryMax, s, drawn')
  {
    after, marks, lens', cuts', forced' :=
      ForceOne(nbCrossInd, nbTryMax, delDuplicated, newPop, isDuplication, broods, crossed, checked, drawn, forced,
               lens, cuts);
    RoundForced(broods, cuts, forced, nbTryMax, s);
    ForcedBelow(forced, drawn, s);
    assert cuts'[..s] == cuts[..s];
    assert lens'[..|lens0|] == lens[..|lens0|];
    drawn' := drawn + 1;
  }

  /** Every crossover from `s` on is left out of `forced` once `forced`
      lists only crossovers before `s`. */
  lemma NoneForcedFrom(forced: seq<nat>, s: nat)
    requires forall k :: 0 <= k < |forced| ==> forced[k] < s
    ensures forall b :: s <= b ==> b !in forced
  {
  }

  /** Listing a crossover `x` leaves the crossovers before `n` <= `x` as they were. */
  lemma ForcedBelow(forced: seq<nat>, x: nat, n: nat)
    requires n <= x
    ensures forall b :: 0 <= b < n ==> (b in forced + [x] <==> b in forced)
  {
  }

  /** A round whose last retry brought no duplicate is complete. */
  lemma RoundSucceeded<T>(broods: seq<seq<T>>, cuts: seq<nat>, forced: seq<nat>, nbTryMax: int, s: nat, e: nat)
    requires s < e == |cuts| <= |broods| && e - s <= nbTryMax
    requires BroughtDuplicates(broods, cuts, s, e - 1) && cuts[e - 1] == |broods[e - 1]|
    requires forall k :: 0 <= k < |forced| ==> forced[k] < s
    ensures CompleteRound(broods, cuts, forced, nbTryMax, s, e)
  {
    NoneForcedFrom(forced, s);
  }

  /** A round of `nbTryMax` retries that all brought a duplicate, followed
      by the forced crossover, is complete. */
  lemma RoundForced<T>(broods: seq<seq<T>>, cuts: seq<nat>, forced: seq<nat>, nbTryMax: int, s: nat)
    requires 0 <= nbTryMax && |cuts| == s + nbTryMax < |broods|
    requires BroughtDuplicates(broods, cuts, s, |cuts|)
    requires forall k :: 0 <= k < |forced| ==> forced[k] < s
    ensures CompleteRound(broods, cuts + [|broods[|cuts|]|], forced + [|cuts|], nbTryMax, s, |cuts| + 1)
  {
    var cuts', forced' := cuts + [|broods[|cuts|]|], forced + [|cuts|];
    NoneForcedFrom(forced, s);
    forall b | 0 <= s <= b < |cuts| && b < |cuts'| && b < |broods|
      ensures cuts'[b] < |broods[b]|
    {
      assert cuts'[b] == cuts[b];
    }
    assert forced'[|forced|] == |cuts|;
  }

  /** A round that used up the crossover outcomes before completing. */
  lemma RoundRanOut<T>(broods: seq<seq<T>>, cuts: seq<nat>, forced: seq<nat>, lens: seq<nat>, nbTryMax: int,
                       nbCrossInd: int, s: nat)
    requires s <= |cuts| == |broods| && s < |lens| && lens[s] < nbCrossInd
    requires |cuts| - s <= nbTryMax && BroughtDuplicates(broods, cuts, s, |cuts|)
    requires forall k :: 0 <= k < |forced| ==> forced[k] < s
    ensures Unfinished(broods, cuts, forced, lens, nbTryMax, nbCrossInd, s)
  {
    NoneForcedFrom(forced, s);
  }

  /** The crossover made once every retry brought a duplicate: its
      children are added unchecked and it is listed in `forced`. */
  method ForceOne<T(==)>(nbCrossInd: int, nbTryMax: int, delDuplicated: bool, newPop: seq<T>,
                         isDuplication: (T, T) -> bool, broods: seq<seq<T>>,
                         crossed: seq<T>, ghost checked: seq<bool>, drawn: nat, ghost forced: seq<nat>,
                         ghost lens: seq<nat>, ghost cuts: seq<nat>)
    returns (after: seq<T>, ghost marks: seq<bool>, ghost lens': seq<nat>, ghost cuts': seq<nat>, ghost forced': seq<nat>)
    requires drawn < |broods| && 0 <= nbTryMax <= drawn
    requires Progress(crossed, checked, drawn, forced, broods, newPop, isDuplication, delDuplicated, nbTryMax)
    requires delDuplicated || nbTryMax == 0
    requires Draws(crossed, lens, cuts, forced, broods, nbCrossInd, nbTryMax, delDuplicated, newPop, isDuplication)
    requires |cuts| == drawn && BroughtDuplicates(broods, cuts, drawn - nbTryMax, drawn)
    ensures Progress(after, marks, drawn + 1, forced', broods, newPop, isDuplication, delDuplicated, nbTryMax)
    ensures Draws(after, lens', cuts', forced', broods, nbCrossInd, nbTryMax, delDuplicated, newPop, isDuplication)
    ensures |cuts'| == drawn + 1 && forced' == forced + [drawn] && after == crossed + broods[drawn]
    ensures cuts' == cuts + [|broods[drawn]|] && lens' == lens + [|after|]
  {
    var newIndivs := broods[drawn];
    ScreenedUnchecked(crossed, checked, newPop, isDuplication, newIndivs);
    FromBroodsGrow(crossed, crossed + newIndivs, broods, drawn);
    if delDuplicated {
      CheckedOrForcedForce(crossed, checked, broods, forced, drawn);
    } else {
      FlattenNext(broods, drawn);
    }
    DrawsSnoc(crossed, lens, cuts, forced, broods, nbCrossInd, nbTryMax, delDuplicated, newPop, isDuplication,
              newIndivs, |newIndivs|, true);
    lens', cuts' := lens + [|crossed| + |newIndivs|], cuts + [|newIndivs|];
    after, marks, forced' := crossed + newIndivs, checked + Unchecked(|newIndivs|), forced + [drawn];
  }

  /** `crossover(population, nbCrossInd, newPop, infoStr)`, `nbParents`
      being the size of the population the parents are drawn from.  Rounds
      of retries add offspring until the target is reached; a round whose
      every retry brought a duplicate adds the children of one more
      crossover unchecked; the surplus is then removed at random.  The
      offspring before that removal are `crossed`; `checked` marks those
      that passed the duplication check, `used` counts the crossovers made
      and `forced` lists those whose children were added unchecked; round
      `k` made crossovers `starts[k]` to `starts[k + 1]` - 1.  `OutOfDraws`
      comes back only when every given crossover outcome was used inside a
      round that still needed another. */
  method Crossover<T(==)>(nbCrossInd: int, nbTryMax: int, delDuplicated: bool, nbParents: nat,
                          newPop: seq<T>, isDuplication: (T, T) -> bool,
                          broods: seq<seq<T>>, surplusPicks: (nat, nat) -> seq<nat>)
    returns (r: Outcome<T>, crossed: seq<T>, ghost checked: seq<bool>, ghost used: nat, ghost forced: seq<nat>,
             ghost lens: seq<nat>, ghost cuts: seq<nat>, ghost starts: seq<nat>)
    requires Sampler(surplusPicks)
    ensures nbCrossInd < 0 ==> r == Raised(ValueError)
    ensures nbCrossInd == 0 ==> r == Bred([])
    ensures nbCrossInd > 0 && nbTryMax < 0 ==> r == Diverges
    ensures nbCrossInd > 0 && nbTryMax >= 0 && nbParents < 2 ==>
              r == Raised(PopulationError(Populations.TooFewParents))
    ensures r.Bred? ==>
              nbCrossInd <= |crossed| && |r.members| == nbCrossInd && multiset(r.members) <= multiset(crossed)
              && r.members == Trimmed(crossed, surplusPicks(|crossed| - nbCrossInd, |crossed|))
    ensures used <= |broods| && FromBroods(crossed, broods)
    ensures !delDuplicated ==> crossed == Clustering.Flatten(broods[..used])
    ensures !delDuplicated && nbTryMax > 0 ==> forced == []
    ensures Screened(crossed, checked, newPop, isDuplication)
    ensures delDuplicated ==> CheckedOrForced(crossed, checked, broods, forced)
    ensures Draws(crossed, lens, cuts, forced, broods, nbCrossInd, nbTryMax, delDuplicated, newPop, isDuplication)
    ensures |cuts| == used && CompleteRounds(broods, cuts, forced, lens, nbTryMax, nbCrossInd, starts)
    ensures r.Bred? ==> Last(starts) == used
    ensures r.OutOfDraws? ==> Unfinished(broods, cuts, forced, lens, nbTryMax, nbCrossInd, Last(starts))
    ensures nbCrossInd > 0 && nbTryMax >= 0 && nbParents >= 2 ==> r.Bred? || r.OutOfDraws?
  {
    crossed, checked, used, forced, lens, cuts, starts := [], [], 0, [], [0], [], [0];
    if nbCrossInd > 0 && nbTryMax < 0 {
      // No retry runs and no unchecked round applies: the loop never ends.
      return Diverges, crossed, checked, used, forced, lens, cuts, starts;
    }
    // Every round draws parents first, and two are needed: the first round
    // raises, and it runs whenever offspring are wanted.
    if nbCrossInd > 0 && nbParents < 2 {
      return Raised(PopulationError(Populations.TooFewParents)), crossed, checked, used, forced, lens, cuts, starts;
    }
    var outOfDraws;
    crossed, checked, used, forced, outOfDraws, lens, cuts, starts :=
      CrossLoop(nbCrossInd, nbTryMax, delDuplicated, newPop, isDuplication, broods);
    if outOfDraws {
      return OutOfDraws, crossed, checked, used, forced, lens, cuts, starts;
    }
    r := TrimSurplus(crossed, nbCrossInd, surplusPicks);
  }

  /** The loop `while len(newIndivs) < nbCrossInd` of `crossover`, round
      after round until there are enough offspring or no crossover is left. */
  method CrossLoop<T(==)>(nbCrossInd: int, nbTryMax: int, delDuplicated: bool, newPop: seq<T>,
                          isDuplication: (T, T) -> bool, broods: seq<seq<T>>)
    returns (crossed: seq<T>, ghost checked: seq<bool>, drawn: nat, ghost forced: seq<nat>, outOfDraws: bool,
             ghost lens: seq<nat>, ghost cuts: seq<nat>, ghost starts: seq<nat>)
    requires nbCrossInd > 0 ==> nbTryMax >= 0
    ensures Progress(crossed, checked, drawn, forced, broods, newPop, isDuplication, delDuplicated, nbTryMax)
    ensures Draws(crossed, lens, cuts, forced, broods, nbCrossInd, nbTryMax, delDuplicated, newPop, isDuplication)
    ensures |cuts| == drawn && CompleteRounds(broods, cuts, forced, lens, nbTryMax, nbCrossInd, starts)
    ensures !outOfDraws ==> nbCrossInd <= |crossed| && Last(starts) == drawn
    ensures outOfDraws ==> Unfinished(broods, cuts, forced, lens, nbTryMax, nbCrossInd, Last(starts))
    ensures nbCrossInd <= 0 ==> crossed == [] && !outOfDraws
  {
    crossed, checked, drawn, forced, outOfDraws, lens, cuts, starts := [], [], 0, [], false, [0], [], [0];
    while |crossed| < nbCrossInd && !outOfDraws
      invariant Progress(crossed, checked, drawn, forced, broods, newPop, isDuplication, delDuplicated, nbTryMax)
      invariant Draws(crossed, lens, cuts, forced, broods, nbCrossInd, nbTryMax, delDuplicated, newPop, isDuplication)
      invariant |cuts| == drawn && CompleteRounds(broods, cuts, forced, lens, nbTryMax, nbCrossInd, starts)
      invariant !outOfDraws ==> Last(starts) == drawn
      invariant outOfDraws ==> Unfinished(broods, cuts, forced, lens, nbTryMax, nbCrossInd, Last(starts))
      invariant nbCrossInd <= 0 ==> crossed == [] && !outOfDraws
      decreases |broods| - drawn, if outOfDraws then 0 else 1
    {
      ghost var cuts0, forced0, lens0 := cuts, forced, lens;
      assert lens[|cuts|] == |crossed| < nbCrossInd;
      crossed, checked, drawn, forced, outOfDraws, lens, cuts :=
        CrossRound(nbCrossInd, nbTryMax, delDuplicated, newPop, isDuplication, broods, crossed, checked, drawn, forced,
                   lens, cuts);
      AfterRound(broods, cuts0, forced0, lens0, nbTryMax, nbCrossInd, starts, cuts, forced, lens, outOfDraws);
      if !outOfDraws {
        starts := starts + [drawn];
      }
    }
  }

  /** The rounds after one more round of the loop: a complete one is
      appended, an unfinished one leaves the complete rounds as they were. */
  lemma AfterRound<T>(broods: seq<seq<T>>, cuts: seq<nat>, forced: seq<nat>, lens: seq<nat>, nbTryMax: int,
                      nbCrossInd: int, starts: seq<nat>, cuts': seq<nat>, forced': seq<nat>, lens': seq<nat>,
                      outOfDraws: bool)
    requires CompleteRounds(broods, cuts, forced, lens, nbTryMax, nbCrossInd, starts) && Last(starts) == |cuts|
    requires lens[|cuts|] < nbCrossInd
    requires |cuts| <= |cuts'| < |lens'| && cuts'[..|cuts|] == cuts && |lens| <= |lens'| && lens'[..|lens|] == lens
    requires forall b :: 0 <= b < |cuts| ==> (b in forced' <==> b in forced)
    requires !outOfDraws ==> CompleteRound(broods, cuts', forced', nbTryMax, |cuts|, |cuts'|)
    ensures CompleteRounds(broods, cuts', forced', lens', nbTryMax, nbCrossInd, starts)
    ensures !outOfDraws ==> CompleteRounds(broods, cuts', forced', lens', nbTryMax, nbCrossInd, starts + [|cuts'|])
  {
    CompleteRoundsGrow(broods, cuts, forced, lens, nbTryMax, nbCrossInd, starts, cuts', forced', lens');
    if !outOfDraws {
      assert lens'[|cuts|] == lens[|cuts|];
      CompleteRoundsSnoc(broods, cuts', forced', lens', nbTryMax, nbCrossInd, starts, |cuts'|);
    }
  }

  /** The end of `crossover`: the surplus offspring, sampled, are removed. */
  method TrimSurplus<T(==)>(crossed: seq<T>, nbCrossInd: int, surplusPicks: (nat, nat) -> seq<nat>) returns (r: Outcome<T>)
    requires Sampler(surplusPicks) && nbCrossInd <= |crossed|
    ensures nbCrossInd < 0 ==> r == Raised(ValueError)
    ensures nbCrossInd >= 0 ==>
              r.Bred? && |r.members| == nbCrossInd && multiset(r.members) <= multiset(crossed)
              && r.members == Trimmed(crossed, surplusPicks(|crossed| - nbCrossInd, |crossed|))
  {
    var nbIndivMore := |crossed| - nbCrossInd;
    var kept := crossed;
    if nbIndivMore > 0 {
      if nbIndivMore > |crossed| {
        // `random.sample` of more members than the population has.
        return Raised(ValueError);
      }
      var picks := surplusPicks(nbIndivMore, |crossed|);
      TrimmedSpec(crossed, picks);
      kept := Trimmed(crossed, picks);
    } else {
      assert Populations.Picked(crossed, surplusPicks(0, |crossed|)) == [];
    }
    r := Bred(kept);
  }

  // ----- mutation -----

  /** The duplication check `mutation` is meant to make: the mutant
      duplicates a member of `newPop` or an earlier mutant. */
  predicate Duplicated<T>(x: T, newPop: seq<T>, mutated: seq<T>, isDuplication: (T, T) -> bool) {
    DuplicatesSome(x, newPop, isDuplication) || DuplicatesSome(x, mutated, isDuplication)
  }

  /** What the check written in `mutation` decides: the scan of the
      mutants sits inside the loop over `newPop`, so it runs only when
      `newPop` has a member. */
  predicate DuplicatedAsWritten<T>(x: T, newPop: seq<T>, mutated: seq<T>, isDuplication: (T, T) -> bool) {
    DuplicatesSome(x, newPop, isDuplication) || (newPop != [] && DuplicatesSome(x, mutated, isDuplication))
  }

  /** The nested `for ... break` loops of `mutation` as written. */
  method ScanAsWritten<T>(x: T, newPop: seq<T>, mutated: seq<T>, isDuplication: (T, T) -> bool)
    returns (duplicated: bool)
    ensures duplicated == DuplicatedAsWritten(x, newPop, mutated, isDuplication)
  {
    duplicated := false;
    var i := 0;
    while i < |newPop|
      invariant 0 <= i <= |newPop|
      invariant forall j :: 0 <= j < i ==> !isDuplication(x, newPop[j])
      invariant duplicated <==> i > 0 && DuplicatesSome(x, mutated, isDuplication)
    {
      if isDuplication(x, newPop[i]) {
        duplicated := true;
        break;
      }
      if !duplicated {
        duplicated := ScanDuplicate(x, mutated, isDuplication);
      }
      i := i + 1;
    }
  }

  /** With an empty `newPop` the check written in `mutation` lets a mutant
      through that duplicates an earlier mutant. */
  lemma MutationCheckSkipped()
    ensures !DuplicatedAsWritten(1, [], [1], (a: int, b: int) => a == b)
    ensures Duplicated(1, [], [1], (a: int, b: int) => a == b)
  {
    var same := (a: int, b: int) => a == b;
    assert same(1, [1][0]);
  }

  /** The corrected check: both lists are scanned. */
  method ScanBoth<T>(x: T, newPop: seq<T>, mutated: seq<T>, isDuplication: (T, T) -> bool)
    returns (duplicated: bool)
    ensures duplicated == Duplicated(x, newPop, mutated, isDuplication)
  {
    duplicated := ScanDuplicate(x, newPop, isDuplication);
    if !duplicated {
      duplicated := ScanDuplicate(x, mutated, isDuplication);
    }
  }

  /** The mutations at positions `from` to `upTo` - 1 of `mutants` were all
      duplicates under the check. */
  predicate TriedDuplicates<T>(mutants: seq<T>, from: int, upTo: int, delDuplicated: bool, newPop: seq<T>,
                               mutated: seq<T>, isDuplication: (T, T) -> bool) {
    forall j :: 0 <= from <= j < upTo && j < |mutants| ==>
      delDuplicated && Duplicated(mutants[j], newPop, mutated, isDuplication)
  }

  /** The retry loop of one round of `mutation`: up to `nbTryMax` mutations
      of the drawn individual, until the mutant is no duplicate.  `newIndiv`
      is None while the Python variable is still unbound. */
  method RetryMutation<T(==)>(nbTryMax: int, delDuplicated: bool, newPop: seq<T>, mutated: seq<T>,
                              isDuplication: (T, T) -> bool, mutants: seq<T>, used: nat, newIndiv: Option<T>)
    returns (duplicated: bool, nbTry: nat, last: Option<T>, used': nat, outOfDraws: bool)
    requires used <= |mutants|
    ensures used <= used' <= |mutants| && used' == used + nbTry
    ensures !outOfDraws && nbTryMax > 0 ==>
              0 < nbTry <= nbTryMax && last == Some(mutants[used' - 1])
              && (nbTry < nbTryMax ==> !duplicated)
              && (!duplicated ==> !delDuplicated || !Duplicated(last.value, newPop, mutated, isDuplication))
    ensures !outOfDraws ==>
              TriedDuplicates(mutants, used, used' - 1, delDuplicated, newPop, mutated, isDuplication)
    ensures outOfDraws ==>
              used' == |mutants| && nbTry < nbTryMax
              && TriedDuplicates(mutants, used, used', delDuplicated, newPop, mutated, isDuplication)
    ensures nbTryMax <= 0 ==> last == newIndiv && !outOfDraws
  {
    duplicated := true;
    nbTry := 0;
    last, used', outOfDraws := newIndiv, used, false;
    while duplicated && nbTry < nbTryMax && !outOfDraws
      invariant used <= used' <= |mutants| && used' == used + nbTry
      invariant nbTry == 0 ==> duplicated && last == newIndiv
      invariant nbTryMax <= 0 ==> nbTry == 0 && !outOfDraws
      invariant outOfDraws ==> used' == |mutants| && duplicated && nbTry < nbTryMax
      invariant nbTry > 0 ==>
                  nbTry <= nbTryMax && last == Some(mutants[used' - 1])
                  && (!duplicated ==> !delDuplicated || !Duplicated(last.value, newPop, mutated, isDuplication))
                  && (duplicated ==> delDuplicated && Duplicated(last.value, newPop, mutated, isDuplication))
      invariant TriedDuplicates(mutants, used, used' - 1, delDuplicated, newPop, mutated, isDuplication)
      decreases nbTryMax - nbTry, if outOfDraws then 0 else 1
    {
      if used' == |mutants| {
        outOfDraws := true;
      } else {
        nbTry := nbTry + 1;
        last := Some(mutants[used']);
        used' := used' + 1;
        duplicated := false;
        if delDuplicated {
          duplicated := ScanBoth(last.value, newPop, mutated, isDuplication);
        }
      }
    }
  }

  /** The first position of `mutants` round `i` may use: the one after the
      mutant kept in round `i - 1`. */
  function Start(drawn: seq<nat>, i: nat): nat
    requires i <= |drawn|
  {
    if i == 0 then 0 else drawn[i - 1] + 1
  }

  /** Round `i` kept the mutant at `drawn[i]` after at most `nbTryMax`
      mutations; every mutation it made before that one duplicated a member
      of `newPop` or an earlier mutant, and one kept before the last allowed
      mutation passed the check. */
  ghost predicate RoundAt<T>(mutated: seq<T>, mutants: seq<T>, drawn: seq<nat>, checked: seq<bool>,
                             nbTryMax: int, delDuplicated: bool, newPop: seq<T>, isDuplication: (T, T) -> bool, i: nat)
    requires i < |drawn| == |mutated| == |checked|
  {
    Start(drawn, i) <= drawn[i] < Start(drawn, i) + nbTryMax && drawn[i] < |mutants|
    && mutated[i] == mutants[drawn[i]]
    && TriedDuplicates(mutants, Start(drawn, i), drawn[i], delDuplicated, newPop, mutated[..i], isDuplication)
    && (delDuplicated && drawn[i] < Start(drawn, i) + nbTryMax - 1 ==> checked[i])
    && (checked[i] ==> delDuplicated)
  }

  ghost predicate Rounds<T>(mutated: seq<T>, mutants: seq<T>, drawn: seq<nat>, checked: seq<bool>,
                            nbTryMax: int, delDuplicated: bool, newPop: seq<T>, isDuplication: (T, T) -> bool) {
    |drawn| == |mutated| == |checked|
    && forall i :: 0 <= i < |drawn| ==>
         RoundAt(mutated, mutants, drawn, checked, nbTryMax, delDuplicated, newPop, isDuplication, i)
  }

  lemma RoundsSnoc<T>(mutated: seq<T>, mutants: seq<T>, drawn: seq<nat>, checked: seq<bool>,
                      nbTryMax: int, delDuplicated: bool, newPop: seq<T>, isDuplication: (T, T) -> bool,
                      d: nat, mark: bool)
    requires Rounds(mutated, mutants, drawn, checked, nbTryMax, delDuplicated, newPop, isDuplication)
    requires Start(drawn, |drawn|) <= d < Start(drawn, |drawn|) + nbTryMax && d < |mutants|
    requires TriedDuplicates(mutants, Start(drawn, |drawn|), d, delDuplicated, newPop, mutated, isDuplication)
    requires delDuplicated && d < Start(drawn, |drawn|) + nbTryMax - 1 ==> mark
    requires mark ==> delDuplicated
    ensures Rounds(mutated + [mutants[d]], mutants, drawn + [d], checked + [mark], nbTryMax, delDuplicated,
                   newPop, isDuplication)
  {
    var mutated', drawn', checked' := mutated + [mutants[d]], drawn + [d], checked + [mark];
    forall i | 0 <= i < |drawn'|
      ensures RoundAt(mutated', mutants, drawn', checked', nbTryMax, delDuplicated, newPop, isDuplication, i)
    {
      assert Start(drawn', i) == Start(drawn, i);
      assert mutated'[..i] == mutated[..i];
      if i < |drawn| {
        assert RoundAt(mutated, mutants, drawn, checked, nbTryMax, delDuplicated, newPop, isDuplication, i);
        assert mutated'[i] == mutated[i] && drawn'[i] == drawn[i] && checked'[i] == checked[i];
      } else {
        assert mutated[..i] == mutated;
      }
    }
  }

  /** The round after the last kept mutant began below the target and
      used up the given mutations: fewer than `nbTryMax` were left, and
      every one of them was a duplicate under the check. */
  ghost predicate MutantsRanOut<T>(mutated: seq<T>, mutants: seq<T>, drawn: seq<nat>, nbMutInd: int, nbTryMax: int,
                                   delDuplicated: bool, newPop: seq<T>, isDuplication: (T, T) -> bool) {
    |mutated| < nbMutInd && 0 < nbTryMax
    && Start(drawn, |drawn|) <= |mutants| < Start(drawn, |drawn|) + nbTryMax
    && TriedDuplicates(mutants, Start(drawn, |drawn|), |mutants|, delDuplicated, newPop, mutated, isDuplication)
  }

  /** `mutation(population, nbMutInd, newPop, infoStr)` with the corrected
      duplication check, `nbParents` being the size of the population the
      individuals to mutate are drawn from.  Each round adds one mutant:
      the first of up to `nbTryMax` mutations that is no duplicate, or the
      last one.  With `nbTryMax <= 0` no mutation is made and adding the
      unbound `newIndiv` raises.  `drawn` gives the position in `mutants` of
      each kept mutant and `checked` marks those that passed the check. */
  method Mutation<T(==)>(nbMutInd: int, nbTryMax: int, delDuplicated: bool, nbParents: nat,
                         newPop: seq<T>, isDuplication: (T, T) -> bool, mutants: seq<T>)
    returns (r: Outcome<T>, mutated: seq<T>, ghost checked: seq<bool>, ghost drawn: seq<nat>)
    ensures nbMutInd < 0 ==> r == Raised(ValueError)
    ensures nbMutInd == 0 ==> r == Bred([])
    ensures nbMutInd > 0 && nbParents == 0 ==> r == Raised(ValueError)
    ensures nbMutInd > 0 && nbParents > 0 && nbTryMax <= 0 ==> r == Raised(NameError("newIndiv"))
    ensures r.Bred? ==> r.members == mutated && |mutated| == nbMutInd
    ensures Rounds(mutated, mutants, drawn, checked, nbTryMax, delDuplicated, newPop, isDuplication)
    ensures Screened(mutated, checked, newPop, isDuplication)
    ensures nbMutInd > 0 && nbParents > 0 && nbTryMax > 0 ==> r.Bred? || r.OutOfDraws?
    ensures r.OutOfDraws? ==> MutantsRanOut(mutated, mutants, drawn, nbMutInd, nbTryMax, delDuplicated, newPop, isDuplication)
  {
    mutated, checked, drawn := [], [], [];
    var used := 0;
    var newIndiv: Option<T> := None;
    while |mutated| < nbMutInd
      invariant used == Start(drawn, |drawn|) <= |mutants|
      invariant Rounds(mutated, mutants, drawn, checked, nbTryMax, delDuplicated, newPop, isDuplication)
      invariant Screened(mutated, checked, newPop, isDuplication)
      invariant (nbParents == 0 || nbTryMax <= 0) ==> mutated == []
      invariant nbTryMax <= 0 ==> newIndiv.None?
      invariant |mutated| <= if nbMutInd < 0 then 0 else nbMutInd
      decreases nbMutInd - |mutated|
    {
      // `random.sample` of one member of an empty population.
      if nbParents == 0 {
        return Raised(ValueError), mutated, checked, drawn;
      }
      var duplicated, nbTry, outOfDraws;
      duplicated, nbTry, newIndiv, used, outOfDraws :=
        RetryMutation(nbTryMax, delDuplicated, newPop, mutated, isDuplication, mutants, used, newIndiv);
      if outOfDraws {
        assert MutantsRanOut(mutated, mutants, drawn, nbMutInd, nbTryMax, delDuplicated, newPop, isDuplication);
        return OutOfDraws, mutated, checked, drawn;
      }
      if newIndiv.None? {
        return Raised(NameError("newIndiv")), mutated, checked, drawn;
      }
      var mark := delDuplicated && !duplicated;
      ScreenedSnoc(mutated, checked, newPop, isDuplication, newIndiv.value, mark);
      RoundsSnoc(mutated, mutants, drawn, checked, nbTryMax, delDuplicated, newPop, isDuplication, used - 1, mark);
      mutated, checked, drawn := mutated + [newIndiv.value], checked + [mark], drawn + [used - 1];
    }
    var nbIndivMore := |mutated| - nbMutInd;
    if nbIndivMore > 0 {
      // Only a negative target leaves a surplus, and the list is empty.
      return Raised(ValueError), mutated, checked, drawn;
    }
    r := Bred(mutated);
  }

  // ----- reproduction -----

  /** `reproduction(population, selectedPopulation, infoStr)` for a
      population of `ps` members: the crossed offspring are checked against
      the selected members, the mutants against the selected members and
      the crossed offspring, and the result lists the mutants first.  The
      parents come from the selected members when REPRODUCE_SELECTED_ONLY
      is set, from the whole population otherwise.  `selected` itself is
      left as it is: `newPop += crossedPopulation` builds a new population.
      `crossing` is what `crossover` gave; the result is that outcome when
      it is not the offspring, else the outcome of `mutation`. */
  method Reproduction<T(==)>(ps: nat, selected: seq<T>, crossRate: real, muteRate: real, selectedOnly: bool,
                             nbTryMax: int, delDuplicated: bool, isDuplication: (T, T) -> bool,
                             broods: seq<seq<T>>, mutants: seq<T>, surplusPicks: (nat, nat) -> seq<nat>)
    returns (r: Outcome<T>, crossing: Outcome<T>, crossedPart: seq<T>, mutatedPart: seq<T>,
             ghost checked: seq<bool>, ghost drawn: seq<nat>,
             ghost forced: seq<nat>, ghost lens: seq<nat>, ghost cuts: seq<nat>, ghost starts: seq<nat>)
    requires Sampler(surplusPicks)
    ensures r.Bred? ==>
              r.members == mutatedPart + crossedPart
              && |crossedPart| == StandardBehavior.RateCount(crossRate, ps)
              && |mutatedPart| == StandardBehavior.RateCount(muteRate, ps)
              && FromBroods(crossedPart, broods)
              && Rounds(mutatedPart, mutants, drawn, checked, nbTryMax, delDuplicated, selected + crossedPart, isDuplication)
              && Screened(mutatedPart, checked, selected + crossedPart, isDuplication)
    ensures r.Bred? ==> |r.members| + StandardBehavior.NbToSelect(crossRate, muteRate, ps) == ps
    ensures !crossing.Bred? ==> r == crossing
    ensures crossing.Bred? ==> crossedPart == crossing.members
    ensures CompleteRounds(broods, cuts, forced, lens, nbTryMax, StandardBehavior.RateCount(crossRate, ps), starts)
    ensures crossing.OutOfDraws? ==>
              Unfinished(broods, cuts, forced, lens, nbTryMax, StandardBehavior.RateCount(crossRate, ps), Last(starts))
    ensures crossing.Bred? && r.OutOfDraws? ==>
              MutantsRanOut(mutatedPart, mutants, drawn, StandardBehavior.RateCount(muteRate, ps), nbTryMax,
                            delDuplicated, selected + crossedPart, isDuplication)
    ensures Breeds(ps, |selected|, crossRate, muteRate, selectedOnly, nbTryMax) ==> r.Bred? || r.OutOfDraws?
  {
    var nbParents := if selectedOnly then |selected| else ps;
    var nbCrossedInd := StandardBehavior.RateCount(crossRate, ps);
    var nbMutatedInd := StandardBehavior.RateCount(muteRate, ps);
    var all;
    ghost var crossChecked, used;
    crossing, all, crossChecked, used, forced, lens, cuts, starts :=
      Crossover(nbCrossedInd, nbTryMax, delDuplicated, nbParents, selected, isDuplication, broods, surplusPicks);
    crossedPart, mutatedPart, checked, drawn := [], [], [], [];
    if !crossing.Bred? {
      return crossing, crossing, crossedPart, mutatedPart, checked, drawn, forced, lens, cuts, starts;
    }
    crossedPart := crossing.members;
    BredFromBroods(all, crossedPart, broods);
    var newPop := selected + crossedPart;
    var muting;
    muting, mutatedPart, checked, drawn :=
      Mutation(nbMutatedInd, nbTryMax, delDuplicated, nbParents, newPop, isDuplication, mutants);
    if !muting.Bred? {
      return muting, crossing, crossedPart, mutatedPart, checked, drawn, forced, lens, cuts, starts;
    }
    r := Bred(mutatedPart + crossedPart);
  }

  /** The settings under which `reproduction` ends with its offspring once
      enough crossover and mutation outcomes are given: non-negative counts,
      enough parents for each operator that has work, and at least one try
      per round. */
  predicate Breeds(ps: nat, nbSelected: nat, crossRate: real, muteRate: real, selectedOnly: bool, nbTryMax: int) {
    var nbParents := if selectedOnly then nbSelected else ps;
    var nbCross := StandardBehavior.RateCount(crossRate, ps);
    var nbMute := StandardBehavior.RateCount(muteRate, ps);
    0 <= nbCross && 0 <= nbMute && 0 < nbTryMax
    && (nbCross > 0 ==> nbParents >= 2) && (nbMute > 0 ==> nbParents > 0)
  }

  /** What is left after the trimming still comes from the crossovers. */
  lemma BredFromBroods<T>(crossed: seq<T>, kept: seq<T>, broods: seq<seq<T>>)
    requires FromBroods(crossed, broods) && multiset(kept) <= multiset(crossed)
    ensures FromBroods(kept, broods)
  {
    forall i | 0 <= i < |kept|
      ensures InSome(kept[i], broods)
    {
      assert kept[i] in multiset(crossed);
      var j :| 0 <= j < |crossed| && crossed[j] == kept[i];
    }
  }
}
