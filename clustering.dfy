// The chaining of `PYGA_Population.getClusters`: starting from the first
// individual, every unclassified individual within the influence distance of
// a member being treated joins its cluster and is treated in turn; when the
// chain stops, the first unclassified individual seeds the next cluster.
// Clusters are lists of positions in the population.

module Clustering {
  import opened Errors

  /** `current.distance(other) <= inflDist`; a distance of None passes,
      because Python 2 orders None below every number. */
  predicate Near<T>(s: seq<T>, distance: (T, T) -> Option<real>, inflDist: real, a: nat, b: nat) {
    a < |s| && b < |s| && (distance(s[a], s[b]).None? || distance(s[a], s[b]).value <= inflDist)
  }

  function Flatten<T>(cs: seq<seq<T>>): seq<T> {
    if cs == [] then [] else Flatten(cs[..|cs| - 1]) + cs[|cs| - 1]
  }

  predicate NoDup(s: seq<nat>) {
    forall i, j :: 0 <= i < j < |s| ==> s[i] != s[j]
  }

  predicate InRange(cs: seq<seq<nat>>, n: nat) {
    forall c, k :: 0 <= c < |cs| && 0 <= k < |cs[c]| ==> cs[c][k] < n
  }

  /** Every position below n is in exactly one cluster, once. */
  predicate Partition(cs: seq<seq<nat>>, n: nat) {
    InRange(cs, n) && NoDup(Flatten(cs)) && forall i :: 0 <= i < n ==> i in Flatten(cs)
  }

  /** Each cluster starts at the first position no earlier cluster holds. */
  predicate Seeded(cs: seq<seq<nat>>) {
    forall c :: 0 <= c < |cs| ==> cs[c] != [] && forall i :: 0 <= i < cs[c][0] ==> i in Flatten(cs[..c])
  }

  /** Every member but the seed is near a member that joined before it. */
  predicate ChainedCluster<T>(s: seq<T>, cl: seq<nat>, distance: (T, T) -> Option<real>, inflDist: real) {
    forall k :: 0 < k < |cl| ==> JoinedNear(s, cl, k, distance, inflDist)
  }

  predicate JoinedNear<T>(s: seq<T>, cl: seq<nat>, k: nat, distance: (T, T) -> Option<real>, inflDist: real)
    requires k < |cl|
  {
    exists m :: 0 <= m < k && Near(s, distance, inflDist, cl[m], cl[k])
  }

  predicate Chained<T>(s: seq<T>, cs: seq<seq<nat>>, distance: (T, T) -> Option<real>, inflDist: real) {
    forall c :: 0 <= c < |cs| ==> ChainedCluster(s, cs[c], distance, inflDist)
  }

  /** No member of cluster c is near a position outside clusters 0..c. */
  predicate ClosedAt<T>(s: seq<T>, cs: seq<seq<nat>>, c: nat, distance: (T, T) -> Option<real>, inflDist: real)
    requires c < |cs|
  {
    forall x, y :: x in cs[c] && 0 <= y < |s| && y !in Flatten(cs[..c + 1]) ==> !Near(s, distance, inflDist, x, y)
  }

  predicate Separated<T>(s: seq<T>, cs: seq<seq<nat>>, distance: (T, T) -> Option<real>, inflDist: real) {
    forall c :: 0 <= c < |cs| ==> ClosedAt(s, cs, c, distance, inflDist)
  }

  /** The clusters as lists of individuals. */
  function Members<T>(s: seq<T>, cs: seq<seq<nat>>): (r: seq<seq<T>>)
    requires InRange(cs, |s|)
    ensures |r| == |cs|
    ensures forall c :: 0 <= c < |cs| ==> |r[c]| == |cs[c]| && forall k :: 0 <= k < |cs[c]| ==> r[c][k] == s[cs[c][k]]
  {
    seq(|cs|, c requires 0 <= c < |cs| => seq(|cs[c]|, k requires 0 <= k < |cs[c]| => s[cs[c][k]]))
  }

  // ----- counting positions -----

  function Elems(s: seq<nat>): (r: set<nat>)
    ensures forall x :: x in r <==> x in s
  {
    if s == [] then {} else {s[0]} + Elems(s[1..])
  }

  function Below(n: nat): (r: set<nat>)
    ensures forall y: nat :: y in r <==> y < n
    ensures |r| == n
  {
    if n == 0 then {} else Below(n - 1) + {n - 1}
  }

  lemma {:induction false} NoDupCard(s: seq<nat>)
    requires NoDup(s)
    ensures |Elems(s)| == |s|
  {
    if s != [] {
      var t := s[1..];
      assert NoDup(t);
      NoDupCard(t);
      assert s[0] !in t;
    }
  }

  /** Distinct positions below n are at most n, and they are n exactly when
      they are all of them. */
  lemma Pigeonhole(s: seq<nat>, n: nat)
    requires NoDup(s) && forall i :: 0 <= i < |s| ==> s[i] < n
    ensures |s| <= n
    ensures |s| == n <==> forall y :: 0 <= y < n ==> y in s
  {
    var a := Elems(s);
    var b := Below(n);
    NoDupCard(s);
    assert a <= b;
    assert b == a + (b - a);
    assert |b| == |a| + |b - a|;
    if |s| == n {
      assert b - a == {};
      assert a == b;
    }
    if forall y :: 0 <= y < n ==> y in s {
      assert a == b;
    }
  }

  // ----- the chaining -----

  /** The loop over the population for one treated member `x`: the
      unclassified positions near it, in increasing order. */
  method Scan<T>(s: seq<T>, distance: (T, T) -> Option<real>, inflDist: real, x: nat, clustered: seq<nat>)
    returns (added: seq<nat>)
    requires x < |s|
    ensures forall k :: 0 <= k < |added| ==>
              added[k] < |s| && added[k] !in clustered && Near(s, distance, inflDist, x, added[k])
    ensures forall i, j :: 0 <= i < j < |added| ==> added[i] < added[j]
    ensures forall y :: 0 <= y < |s| && y !in clustered + added ==> !Near(s, distance, inflDist, x, y)
  {
    added := [];
    var i := 0;
    while i < |s|
      invariant 0 <= i <= |s|
      invariant forall k :: 0 <= k < |added| ==>
                  added[k] < i && added[k] !in clustered && Near(s, distance, inflDist, x, added[k])
      invariant forall a, b :: 0 <= a < b < |added| ==> added[a] < added[b]
      invariant forall y :: 0 <= y < i && y !in clustered + added ==> !Near(s, distance, inflDist, x, y)
    {
      if i !in clustered + added {
        if distance(s[x], s[i]).None? || distance(s[x], s[i]).value <= inflDist {
          added := added + [i];
        }
      }
      i := i + 1;
    }
  }

  lemma FlattenSnoc<T>(cs: seq<seq<T>>, cl: seq<T>)
    ensures Flatten(cs + [cl]) == Flatten(cs) + cl
  {
    assert (cs + [cl])[..|cs|] == cs;
  }

  /** The clusters `getClusters` returns, as positions. */
  method Clusters<T>(s: seq<T>, distance: (T, T) -> Option<real>, inflDist: real) returns (indices: seq<seq<nat>>)
    requires |s| > 0
    ensures Partition(indices, |s|) && Seeded(indices)
    ensures Chained(s, indices, distance, inflDist) && Separated(s, indices, distance, inflDist)
  {
    var n := |s|;
    var done: seq<seq<nat>> := [];
    var cur: seq<nat> := [0];
    var clustered: seq<nat> := [0];
    var toTreat: seq<nat> := [0];
    Started(s, distance, inflDist);
    while |clustered| < n
      invariant ClusterState(s, distance, inflDist, done, cur, clustered, toTreat)
      decreases n - |clustered|
    {
      cur, clustered := TreatChain(s, distance, inflDist, done, cur, clustered, toTreat);
      toTreat := [];
      if |clustered| < n {
        var seedIndiv := FirstUnclustered(clustered, n);
        Seed(s, distance, inflDist, done, cur, clustered, seedIndiv);
        done := done + [cur];
        cur := [seedIndiv];
        clustered := clustered + [seedIndiv];
        toTreat := [seedIndiv];
      }
    }
    Pigeonhole(clustered, n);
    indices := done + [cur];
    Finished(s, distance, inflDist, done, cur, clustered, toTreat);
  }

  /** The state before the first chaining: one cluster holding position 0. */
  lemma Started<T>(s: seq<T>, distance: (T, T) -> Option<real>, inflDist: real)
    requires |s| > 0
    ensures ClusterState(s, distance, inflDist, [], [0], [0], [0])
  {
    FlattenSnoc<nat>([], [0]);
  }

  /** The inner loop `while len(indivToTreat) > 0`: it grows the current
      cluster until no classified member of it has a free neighbour. */
  method TreatChain<T>(s: seq<T>, distance: (T, T) -> Option<real>, inflDist: real,
                       done: seq<seq<nat>>, cur: seq<nat>, clustered: seq<nat>, toTreat: seq<nat>)
    returns (cur': seq<nat>, clustered': seq<nat>)
    requires ClusterState(s, distance, inflDist, done, cur, clustered, toTreat)
    ensures ClusterState(s, distance, inflDist, done, cur', clustered', [])
    ensures |clustered| <= |clustered'|
  {
    var n := |s|;
    var queue := toTreat;
    cur', clustered' := cur, clustered;
    Pigeonhole(clustered', n);
    while |queue| > 0
      invariant ClusterState(s, distance, inflDist, done, cur', clustered', queue)
      invariant |clustered| <= |clustered'| <= n
      decreases n - |clustered'|, |queue|
    {
      var x := queue[0];
      var added := Scan(s, distance, inflDist, x, clustered');
      Treated(s, distance, inflDist, done, cur', clustered', queue, added);
      queue := queue[1..] + added;
      cur' := cur' + added;
      clustered' := clustered' + added;
      Pigeonhole(clustered', n);
    }
  }

  /** The search `while seedIndiv < len(...) and seedIndiv in clusteredIndiv`
      for the first free position. */
  method FirstUnclustered(clustered: seq<nat>, n: nat) returns (seedIndiv: nat)
    requires NoDup(clustered) && (forall i :: 0 <= i < |clustered| ==> clustered[i] < n)
    requires |clustered| < n
    ensures seedIndiv < n && seedIndiv !in clustered
    ensures forall i :: 0 <= i < seedIndiv ==> i in clustered
  {
    seedIndiv := 0;
    while seedIndiv < n && seedIndiv in clustered
      invariant 0 <= seedIndiv <= n
      invariant forall i :: 0 <= i < seedIndiv ==> i in clustered
    {
      seedIndiv := seedIndiv + 1;
    }
    if seedIndiv == n {
      Pigeonhole(clustered, n);
      assert false;
    }
  }

  /** What holds between the steps of the chaining: the finished clusters
      `done`, the current one `cur` whose unprocessed tail is `toTreat`, and
      the classified positions in joining order. */
  ghost predicate ClusterState<T>(s: seq<T>, distance: (T, T) -> Option<real>, inflDist: real,
                                  done: seq<seq<nat>>, cur: seq<nat>, clustered: seq<nat>, toTreat: seq<nat>) {
    var cs := done + [cur];
    Shape(|s|, done, cur, clustered, toTreat)
    && Chained(s, cs, distance, inflDist)
    && (forall c :: 0 <= c < |done| ==> ClosedAt(s, done, c, distance, inflDist))
    && (forall k, y :: 0 <= k < |cur| - |toTreat| && 0 <= y < |s| && y !in clustered ==>
          !Near(s, distance, inflDist, cur[k], y))
  }

  /** The bookkeeping part of the state: the classified positions are the
      clusters flattened, distinct and below n, `toTreat` is a suffix of the
      current cluster, and every cluster starts at the first free position. */
  ghost predicate Shape(n: nat, done: seq<seq<nat>>, cur: seq<nat>, clustered: seq<nat>, toTreat: seq<nat>) {
    var cs := done + [cur];
    clustered == Flatten(cs)
    && NoDup(clustered) && (forall i :: 0 <= i < |clustered| ==> clustered[i] < n)
    && InRange(cs, n)
    && |toTreat| <= |cur| && toTreat == cur[|cur| - |toTreat|..]
    && Seeded(cs)
  }

  /** Appending the positions found near the head of `toTreat` keeps the
      bookkeeping. */
  lemma {:induction false} ShapeTreated(n: nat, done: seq<seq<nat>>, cur: seq<nat>, clustered: seq<nat>, toTreat: seq<nat>, added: seq<nat>)
    requires Shape(n, done, cur, clustered, toTreat) && |toTreat| > 0
    requires forall k :: 0 <= k < |added| ==> added[k] < n && added[k] !in clustered
    requires forall i, j :: 0 <= i < j < |added| ==> added[i] < added[j]
    ensures Shape(n, done, cur + added, clustered + added, toTreat[1..] + added)
  {
    var cur' := cur + added;
    var clustered' := clustered + added;
    var toTreat' := toTreat[1..] + added;
    assert clustered' == Flatten(done + [cur']) by {
      FlattenSnoc(done, cur);
      FlattenSnoc(done, cur');
      assert Flatten(done) + cur' == (Flatten(done) + cur) + added;
    }
    AppendFresh(clustered, added);
    assert forall i :: 0 <= i < |clustered'| ==> clustered'[i] < n by {
      forall i | 0 <= i < |clustered'| ensures clustered'[i] < n {
        if i >= |clustered| {
          assert clustered'[i] == added[i - |clustered|];
        }
      }
    }
    assert toTreat' == cur'[|cur'| - |toTreat'|..] by {
      assert toTreat == cur[|cur| - |toTreat|..];
    }
    assert cur'[..|cur|] == cur;
    ReplaceLast(n, done, cur, cur');
  }

  /** Treating the head of `toTreat` keeps the state. */
  lemma Treated<T>(s: seq<T>, distance: (T, T) -> Option<real>, inflDist: real,
                   done: seq<seq<nat>>, cur: seq<nat>, clustered: seq<nat>, toTreat: seq<nat>, added: seq<nat>)
    requires ClusterState(s, distance, inflDist, done, cur, clustered, toTreat)
    requires |toTreat| > 0 && toTreat[0] < |s|
    requires forall k :: 0 <= k < |added| ==>
               added[k] < |s| && added[k] !in clustered && Near(s, distance, inflDist, toTreat[0], added[k])
    requires forall i, j :: 0 <= i < j < |added| ==> added[i] < added[j]
    requires forall y :: 0 <= y < |s| && y !in clustered + added ==> !Near(s, distance, inflDist, toTreat[0], y)
    ensures ClusterState(s, distance, inflDist, done, cur + added, clustered + added, toTreat[1..] + added)
  {
    var cur' := cur + added;
    var cs := done + [cur];
    var cs' := done + [cur'];
    var p := |cur| - |toTreat|;
    ShapeTreated(|s|, done, cur, clustered, toTreat, added);
    assert cur[p] == toTreat[0];
    assert Chained(s, cs', distance, inflDist) by {
      assert Chained(s, cs, distance, inflDist) && cs[|done|] == cur;
      ChainedGrow(s, distance, inflDist, cur, added, p);
      ChainedReplaceLast(s, distance, inflDist, done, cur, cur');
    }
    TreatedSettled(s, distance, inflDist, cur, clustered, toTreat, added);
  }

  /** Appending increasing positions that are not yet classified keeps the
      classified positions distinct. */
  lemma AppendFresh(clustered: seq<nat>, added: seq<nat>)
    requires NoDup(clustered) && forall k :: 0 <= k < |added| ==> added[k] !in clustered
    requires forall i, j :: 0 <= i < j < |added| ==> added[i] < added[j]
    ensures NoDup(clustered + added)
  {
    var c' := clustered + added;
    forall i, j | 0 <= i < j < |c'| ensures c'[i] != c'[j] {
      if j >= |clustered| {
        if i < |clustered| {
          assert c'[i] in clustered;
        }
      }
    }
  }

  /** After the head of `toTreat` is treated, it is near no unclassified position. */
  lemma TreatedSettled<T>(s: seq<T>, distance: (T, T) -> Option<real>, inflDist: real,
                          cur: seq<nat>, clustered: seq<nat>, toTreat: seq<nat>, added: seq<nat>)
    requires |toTreat| > 0 && |toTreat| <= |cur| && toTreat == cur[|cur| - |toTreat|..]
    requires forall k, y :: 0 <= k < |cur| - |toTreat| && 0 <= y < |s| && y !in clustered ==>
               !Near(s, distance, inflDist, cur[k], y)
    requires forall y :: 0 <= y < |s| && y !in clustered + added ==> !Near(s, distance, inflDist, toTreat[0], y)
    ensures forall k, y :: 0 <= k < |cur + added| - |toTreat[1..] + added| && 0 <= y < |s| && y !in clustered + added ==>
              !Near(s, distance, inflDist, (cur + added)[k], y)
  {
    var cur' := cur + added;
    var p := |cur| - |toTreat|;
    assert cur[p] == toTreat[0];
    forall k, y | 0 <= k < |cur'| - |toTreat[1..] + added| && 0 <= y < |s| && y !in clustered + added
      ensures !Near(s, distance, inflDist, cur'[k], y)
    {
      assert cur'[k] == cur[k];
      assert y !in clustered;
    }
  }

  /** Growing the current cluster keeps the finished ones' properties. */
  lemma ReplaceLast(n: nat, done: seq<seq<nat>>, cur: seq<nat>, cur': seq<nat>)
    requires InRange(done + [cur], n) && Seeded(done + [cur])
    requires |cur| <= |cur'| && cur'[..|cur|] == cur && forall k :: |cur| <= k < |cur'| ==> cur'[k] < n
    ensures InRange(done + [cur'], n) && Seeded(done + [cur'])
  {
    var cs := done + [cur];
    var cs' := done + [cur'];
    forall c, k | 0 <= c < |cs'| && 0 <= k < |cs'[c]| ensures cs'[c][k] < n {
      if c < |done| {
        assert cs'[c] == cs[c];
      } else if k < |cur| {
        assert cs'[c][k] == cur[k] == cs[c][k];
      }
    }
    forall c | 0 <= c < |cs'|
      ensures cs'[c] != [] && forall i :: 0 <= i < cs'[c][0] ==> i in Flatten(cs'[..c])
    {
      assert cs'[..c] == cs[..c];
      if c < |done| {
        assert cs'[c] == cs[c];
      } else {
        assert cs[c] == cur && cur != [];
        assert cs'[c][0] == cur'[0] == cur[0];
      }
    }
  }

  /** Members near an earlier member may join a chained cluster. */
  lemma ChainedGrow<T>(s: seq<T>, distance: (T, T) -> Option<real>, inflDist: real,
                       cur: seq<nat>, added: seq<nat>, p: nat)
    requires ChainedCluster(s, cur, distance, inflDist) && p < |cur|
    requires forall k :: 0 <= k < |added| ==> Near(s, distance, inflDist, cur[p], added[k])
    ensures ChainedCluster(s, cur + added, distance, inflDist)
  {
    var cur' := cur + added;
    forall k | 0 < k < |cur'|
      ensures JoinedNear(s, cur', k, distance, inflDist)
    {
      if k < |cur| {
        assert JoinedNear(s, cur, k, distance, inflDist);
        var m :| 0 <= m < k && Near(s, distance, inflDist, cur[m], cur[k]);
        assert cur'[m] == cur[m] && cur'[k] == cur[k];
        assert Near(s, distance, inflDist, cur'[m], cur'[k]);
      } else {
        assert cur'[p] == cur[p];
        assert cur'[k] == added[k - |cur|];
        assert 0 <= p < k && Near(s, distance, inflDist, cur'[p], cur'[k]);
      }
    }
  }

  lemma ChainedReplaceLast<T>(s: seq<T>, distance: (T, T) -> Option<real>, inflDist: real,
                              done: seq<seq<nat>>, cur: seq<nat>, cur': seq<nat>)
    requires Chained(s, done + [cur], distance, inflDist) && ChainedCluster(s, cur', distance, inflDist)
    ensures Chained(s, done + [cur'], distance, inflDist)
  {
    forall c | 0 <= c < |done| + 1 ensures ChainedCluster(s, (done + [cur'])[c], distance, inflDist) {
      if c < |done| {
        assert (done + [cur'])[c] == (done + [cur])[c];
      }
    }
  }

  /** Opening a new cluster at the first unclassified position keeps the state
      once the current cluster is fully treated. */
  lemma Seed<T>(s: seq<T>, distance: (T, T) -> Option<real>, inflDist: real,
                done: seq<seq<nat>>, cur: seq<nat>, clustered: seq<nat>, seedIndiv: nat)
    requires ClusterState(s, distance, inflDist, done, cur, clustered, [])
    requires seedIndiv < |s| && seedIndiv !in clustered
    requires forall i :: 0 <= i < seedIndiv ==> i in clustered
    ensures ClusterState(s, distance, inflDist, done + [cur], [seedIndiv], clustered + [seedIndiv], [seedIndiv])
  {
    var done' := done + [cur];
    var cs := done + [cur];
    var cs' := done' + [[seedIndiv]];
    ShapeSeeded(|s|, done, cur, clustered, seedIndiv);
    assert Chained(s, cs', distance, inflDist) by {
      forall c | 0 <= c < |cs'| ensures ChainedCluster(s, cs'[c], distance, inflDist) {
        if c < |done'| {
          assert cs'[c] == cs[c];
        } else {
          assert cs'[c] == [seedIndiv];
        }
      }
    }
    ClosedSeeded(s, distance, inflDist, done, cur, clustered);
  }

  /** Opening a new cluster at the first free position keeps the bookkeeping. */
  lemma {:induction false} ShapeSeeded(n: nat, done: seq<seq<nat>>, cur: seq<nat>, clustered: seq<nat>, seedIndiv: nat)
    requires Shape(n, done, cur, clustered, [])
    requires seedIndiv < n && seedIndiv !in clustered
    requires forall i :: 0 <= i < seedIndiv ==> i in clustered
    ensures Shape(n, done + [cur], [seedIndiv], clustered + [seedIndiv], [seedIndiv])
  {
    var cs := done + [cur];
    var cs' := cs + [[seedIndiv]];
    FlattenSnoc(done, cur);
    FlattenSnoc(cs, [seedIndiv]);
    AppendFresh(clustered, [seedIndiv]);
    InRangeSnoc(cs, [seedIndiv], n);
    SeededSnoc(cs, [seedIndiv]);
  }

  lemma InRangeSnoc(cs: seq<seq<nat>>, cl: seq<nat>, n: nat)
    requires InRange(cs, n) && forall k :: 0 <= k < |cl| ==> cl[k] < n
    ensures InRange(cs + [cl], n)
  {
    forall c, k | 0 <= c < |cs| + 1 && 0 <= k < |(cs + [cl])[c]| ensures (cs + [cl])[c][k] < n {
      if c < |cs| {
        assert (cs + [cl])[c] == cs[c];
      }
    }
  }

  lemma SeededSnoc(cs: seq<seq<nat>>, cl: seq<nat>)
    requires Seeded(cs) && cl != [] && forall i :: 0 <= i < cl[0] ==> i in Flatten(cs)
    ensures Seeded(cs + [cl])
  {
    var cs' := cs + [cl];
    forall c | 0 <= c < |cs'|
      ensures cs'[c] != [] && forall i :: 0 <= i < cs'[c][0] ==> i in Flatten(cs'[..c])
    {
      assert cs'[..c] == if c < |cs| then cs[..c] else cs;
      if c < |cs| {
        assert cs'[c] == cs[c];
      }
    }
  }

  /** A fully treated current cluster is closed once it is finished. */
  lemma {:induction false} ClosedSeeded<T>(s: seq<T>, distance: (T, T) -> Option<real>, inflDist: real,
                        done: seq<seq<nat>>, cur: seq<nat>, clustered: seq<nat>)
    requires forall c :: 0 <= c < |done| ==> ClosedAt(s, done, c, distance, inflDist)
    requires clustered == Flatten(done + [cur])
    requires forall k, y :: 0 <= k < |cur| && 0 <= y < |s| && y !in clustered ==>
               !Near(s, distance, inflDist, cur[k], y)
    ensures forall c :: 0 <= c < |done + [cur]| ==> ClosedAt(s, done + [cur], c, distance, inflDist)
  {
    var done' := done + [cur];
    forall c | 0 <= c < |done'| ensures ClosedAt(s, done', c, distance, inflDist) {
      if c < |done| {
        assert done'[..c + 1] == done[..c + 1];
        assert done'[c] == done[c];
        assert ClosedAt(s, done, c, distance, inflDist);
      } else {
        assert done'[..c + 1] == done';
      }
    }
  }

  /** When every position is classified, the state gives the four properties. */
  lemma Finished<T>(s: seq<T>, distance: (T, T) -> Option<real>, inflDist: real,
                    done: seq<seq<nat>>, cur: seq<nat>, clustered: seq<nat>, toTreat: seq<nat>)
    requires ClusterState(s, distance, inflDist, done, cur, clustered, toTreat)
    requires forall y :: 0 <= y < |s| ==> y in clustered
    ensures var cs := done + [cur];
            Partition(cs, |s|) && Seeded(cs) && Chained(s, cs, distance, inflDist)
            && Separated(s, cs, distance, inflDist)
  {
    var cs := done + [cur];
    forall c | 0 <= c < |cs| ensures ClosedAt(s, cs, c, distance, inflDist) {
      if c < |done| {
        assert cs[..c + 1] == done[..c + 1];
        assert cs[c] == done[c];
        assert ClosedAt(s, done, c, distance, inflDist);
      } else {
        assert cs[..c + 1] == cs;
      }
    }
  }

  /** With the default distance (None everywhere) everything is one cluster. */
  lemma {:induction false} OneClusterWhenAllNear<T>(s: seq<T>, cs: seq<seq<nat>>, distance: (T, T) -> Option<real>, inflDist: real)
    requires forall a, b :: distance(a, b).None?
    requires Partition(cs, |s|) && Seeded(cs) && Separated(s, cs, distance, inflDist) && |s| > 0
    ensures |cs| == 1 && |cs[0]| == |s|
  {
    assert cs != [] by {
      FlattenSnoc<nat>([], []);
      assert 0 in Flatten(cs);
    }
    if |cs| >= 2 {
      assert cs[1] != [];
      SecondSeedApart(s, cs, distance, inflDist);
      assert false;
    }
    SingleClusterHoldsAll(cs, |s|);
  }

  /** The seed of a second cluster is not near the seed of the first. */
  lemma {:induction false} SecondSeedApart<T>(s: seq<T>, cs: seq<seq<nat>>, distance: (T, T) -> Option<real>, inflDist: real)
    requires Partition(cs, |s|) && Seeded(cs) && Separated(s, cs, distance, inflDist) && |cs| >= 2
    ensures cs[1] != [] && !Near(s, distance, inflDist, cs[0][0], cs[1][0])
  {
    assert cs[0] != [] && cs[1] != [];
    SecondSeedOutsideFirst(cs, |s|);
    assert ClosedAt(s, cs, 0, distance, inflDist);
    assert cs[0][0] in cs[0];
  }

  /** The seed of a second cluster is below n and not in the first one. */
  lemma {:induction false} SecondSeedOutsideFirst(cs: seq<seq<nat>>, n: nat)
    requires NoDup(Flatten(cs)) && InRange(cs, n) && |cs| >= 2 && cs[1] != []
    ensures cs[1][0] < n && cs[1][0] !in Flatten(cs[..1])
  {
    assert Flatten(cs[..1]) == cs[0] by {
      assert cs[..1] == [] + [cs[0]];
      FlattenSnoc([], cs[0]);
    }
    assert Flatten(cs[..2]) == cs[0] + cs[1] by {
      assert cs[..2] == cs[..1] + [cs[1]];
      FlattenSnoc(cs[..1], cs[1]);
    }
    assert NoDup(Flatten(cs[..2])) by {
      FlattenSplit(cs, 2);
      NoDupPrefix(Flatten(cs[..2]), Flatten(cs[2..]));
    }
    NoDupApart(cs[0], cs[1], 0);
  }

  /** In a list without duplicates, an element of the second part is not in
      the first. */
  lemma {:induction false} NoDupApart(a: seq<nat>, b: seq<nat>, j: nat)
    requires NoDup(a + b) && j < |b|
    ensures b[j] !in a
  {
    forall i | 0 <= i < |a| ensures a[i] != b[j] {
      assert (a + b)[i] == a[i] && (a + b)[|a| + j] == b[j];
    }
  }

  /** A partition into one cluster holds every position once. */
  lemma {:induction false} SingleClusterHoldsAll(cs: seq<seq<nat>>, n: nat)
    requires Partition(cs, n) && |cs| == 1
    ensures |cs[0]| == n
  {
    var none: seq<seq<nat>> := [];
    assert cs == none + [cs[0]];
    FlattenSnoc(none, cs[0]);
    assert Flatten(cs) == cs[0];
    Pigeonhole(cs[0], n);
    assert forall i :: 0 <= i < n ==> i in cs[0];
  }

  lemma {:induction false} FlattenSplit(cs: seq<seq<nat>>, k: nat)
    requires k <= |cs|
    ensures Flatten(cs) == Flatten(cs[..k]) + Flatten(cs[k..])
    decreases |cs|
  {
    if |cs| > k {
      var init, last := cs[..|cs| - 1], cs[|cs| - 1];
      FlattenSplit(init, k);
      assert init[..k] == cs[..k];
      assert cs[k..] == init[k..] + [last];
      FlattenSnoc(init[k..], last);
      calc {
        Flatten(cs);
        Flatten(init) + last;
        (Flatten(cs[..k]) + Flatten(init[k..])) + last;
        Flatten(cs[..k]) + (Flatten(init[k..]) + last);
        Flatten(cs[..k]) + Flatten(cs[k..]);
      }
    } else {
      assert cs[..k] == cs;
      assert cs[k..] == [];
    }
  }

  lemma NoDupPrefix(a: seq<nat>, b: seq<nat>)
    requires NoDup(a + b)
    ensures NoDup(a)
  {
    forall i, j | 0 <= i < j < |a| ensures a[i] != a[j] {
      assert (a + b)[i] == a[i] && (a + b)[j] == a[j];
    }
  }

  /** When no two individuals are near, every cluster is its seed alone. */
  lemma SingletonsWhenNoneNear<T>(s: seq<T>, cs: seq<seq<nat>>, distance: (T, T) -> Option<real>, inflDist: real)
    requires forall a, b :: distance(a, b).Some? && distance(a, b).value > inflDist
    requires Chained(s, cs, distance, inflDist)
    ensures forall c :: 0 <= c < |cs| ==> |cs[c]| <= 1
  {
    forall c | 0 <= c < |cs| ensures |cs[c]| <= 1 {
      assert ChainedCluster(s, cs[c], distance, inflDist);
      assert |cs[c]| > 1 ==> JoinedNear(s, cs[c], 1, distance, inflDist);
    }
  }
}
