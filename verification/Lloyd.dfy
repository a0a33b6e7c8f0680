/** What training guarantees: the clusters partition the live records, and the objective never increases. */
module LloydDescent {
  import opened Multisets
  import opened Distance
  import opened KMeans

  // ---- clusters as a partition ----

  function LiveIndices(points: seq<Point>, n: nat): seq<nat>
    requires n <= |points|
  {
    if n == 0 then [] else LiveIndices(points, n - 1) + (if points[n - 1].deleted then [] else [n - 1])
  }

  function Flatten(ms: seq<seq<nat>>): seq<nat> {
    if ms == [] then [] else Flatten(ms[..|ms| - 1]) + ms[|ms| - 1]
  }

  lemma {:induction false} FlattenAppend(ms: seq<seq<nat>>, b: nat, i: nat)
    requires b < |ms|
    ensures multiset(Flatten(ms[b := ms[b] + [i]])) == multiset(Flatten(ms)) + multiset{i}
    decreases |ms|
  {
    var n := |ms| - 1;
    var ms' := ms[b := ms[b] + [i]];
    if b < n {
      FlattenAppend(ms[..n], b, i);
      assert ms'[..n] == ms[..n][b := ms[b] + [i]];
    } else {
      assert ms'[..n] == ms[..n];
    }
  }

  lemma {:induction false} FlattenEmpty(ms: seq<seq<nat>>)
    requires forall j :: 0 <= j < |ms| ==> ms[j] == []
    ensures Flatten(ms) == []
  {
    if ms != [] {
      FlattenEmpty(ms[..|ms| - 1]);
    }
  }

  /** Each live record is in exactly one cluster, and no deleted record is in any. */
  lemma {:induction false} AssignedPartitions(points: seq<Point>, cs: seq<seq<real>>, dist: Metric, n: nat)
    requires n <= |points| && cs != []
    ensures multiset(Flatten(Assigned(points, cs, dist, n))) == multiset(LiveIndices(points, n))
  {
    hide *;
    if n == 0 {
      AssignedNone(points, cs, dist);
    } else {
      AssignedPartitions(points, cs, dist, n - 1);
      AssignedStep(points, cs, dist, n);
      LiveIndicesStep(points, n);
      if !points[n - 1].deleted {
        var b := Nearest(cs, points[n - 1].vector, dist);
        NearestInRange(cs, points[n - 1].vector, dist);
        FlattenAppend(Assigned(points, cs, dist, n - 1), b, n - 1);
      }
    }
  }

  lemma AssignedNone(points: seq<Point>, cs: seq<seq<real>>, dist: Metric)
    requires cs != []
    ensures Flatten(Assigned(points, cs, dist, 0)) == [] && LiveIndices(points, 0) == []
  {
    hide Flatten;
    FlattenEmpty(Assigned(points, cs, dist, 0));
  }

  lemma AssignedStep(points: seq<Point>, cs: seq<seq<real>>, dist: Metric, n: nat)
    requires 0 < n <= |points| && cs != []
    ensures var before := Assigned(points, cs, dist, n - 1);
            var b := Nearest(cs, points[n - 1].vector, dist);
            && (points[n - 1].deleted ==> Assigned(points, cs, dist, n) == before)
            && (!points[n - 1].deleted ==> Assigned(points, cs, dist, n) == before[b := before[b] + [n - 1]])
  {
  }

  lemma LiveIndicesStep(points: seq<Point>, n: nat)
    requires 0 < n <= |points|
    ensures points[n - 1].deleted ==> LiveIndices(points, n) == LiveIndices(points, n - 1)
    ensures var i: nat := n - 1;
            !points[i].deleted ==> multiset(LiveIndices(points, n)) == multiset(LiveIndices(points, n - 1)) + multiset{i}
  {
  }

  lemma NearestInRange(cs: seq<seq<real>>, x: seq<real>, dist: Metric)
    requires cs != []
    ensures Nearest(cs, x, dist) < |cs|
  {
  }

  /** The exit contract: at most max(1, maxIterations) passes; the clusters partition the live records; each record is
      with the nearest of the centroids that the last assignment used; each non-empty centroid is its members' mean; and
      byte offsets mirror record numbers. */
  lemma TrainingContract(points: seq<Point>, dim: nat, maxIterations: nat, dist: Metric, seeds: seq<nat>)
    requires Uniform(points, dim) && seeds != [] && InRange(seeds, |points|)
    ensures UniformCentroids(Seeded(points, seeds), dim)
    ensures var o := Lloyd(points, Seeded(points, seeds), dist, dim, maxIterations, 0);
            var cl := ClustersFrom(points, o.used, dist, dim);
            && 1 <= o.passes <= (if maxIterations == 0 then 1 else maxIterations)
            && |cl| == |seeds|
            && multiset(Flatten(IndexLists(cl))) == multiset(LiveIndices(points, |points|))
            && forall j :: 0 <= j < |cl| ==> ClusterContract(points, cl[j], o.used, j, dist, dim)
  {
    hide Lloyd, Assigned, NextCentroids, Seeded, LiveIndices;
    SeededUniform(points, seeds, dim);
    var o := Lloyd(points, Seeded(points, seeds), dist, dim, maxIterations, 0);
    var cl := ClustersFrom(points, o.used, dist, dim);
    AssignedPartitions(points, o.used, dist, |points|);
    assert IndexLists(cl) == Assigned(points, o.used, dist, |points|);
    forall j | 0 <= j < |cl|
      ensures ClusterContract(points, cl[j], o.used, j, dist, dim)
    {
      ContractHolds(points, o.used, dist, dim, j);
    }
  }

  function IndexLists(cl: seq<Cluster>): (ms: seq<seq<nat>>)
    ensures |ms| == |cl|
  {
    seq(|cl|, j requires 0 <= j < |cl| => cl[j].recordIndex)
  }

  ghost predicate ClusterContract(points: seq<Point>, c: Cluster, used: seq<seq<real>>, j: nat, dist: Metric, dim: nat)
    requires j < |used| && UniformCentroids(used, dim) && Uniform(points, dim)
  {
    && InRange(c.recordIndex, |points|)
    && (forall t :: 0 <= t < |c.recordIndex| ==> NearestOf(points[c.recordIndex[t]], used, j, dist))
    && |c.centroid| == dim
    && (c.recordIndex == [] ==> c.centroid == used[j])
    && (c.recordIndex != [] ==>
          forall d :: 0 <= d < dim ==>
            c.centroid[d] * (|c.recordIndex| as real) == Sum(Column(Members(points, c.recordIndex), d)))
    && |c.byteOffsets| == |c.recordIndex|
    && forall t :: 0 <= t < |c.byteOffsets| ==> c.byteOffsets[t] == points[c.recordIndex[t]].byteOffset
  }

  /** Live, and nearest to centroid `j` when any centroid is nearer than FAR. */
  ghost predicate NearestOf(p: Point, used: seq<seq<real>>, j: nat, dist: Metric)
    requires j < |used|
  {
    && !p.deleted
    && if exists i :: 0 <= i < |used| && dist(used[i], p.vector) < FAR
       then forall i :: 0 <= i < |used| ==> dist(used[j], p.vector) <= dist(used[i], p.vector)
       else j == 0
  }

  lemma ContractHolds(points: seq<Point>, used: seq<seq<real>>, dist: Metric, dim: nat, j: nat)
    requires Uniform(points, dim) && UniformCentroids(used, dim) && j < |used|
    ensures ClusterContract(points, ClustersFrom(points, used, dist, dim)[j], used, j, dist, dim)
  {
    hide Assigned, Nearest, NearestOf, Column;
    AssignedInRange(points, used, dist, |points|);
    var c := ClustersFrom(points, used, dist, dim)[j];
    forall t | 0 <= t < |c.recordIndex|
      ensures NearestOf(points[c.recordIndex[t]], used, j, dist)
    {
      AssignedToNearest(points, used, dist, |points|, j, t);
      MemberIsNearest(points[c.recordIndex[t]], used, j, dist);
    }
    var vs := Members(points, c.recordIndex);
    if c.recordIndex != [] {
      forall d | 0 <= d < dim
        ensures c.centroid[d] * (|c.recordIndex| as real) == Sum(Column(vs, d))
      {
        MeanTimesCount(vs, used[j], dim, d);
      }
    }
  }

  lemma MemberIsNearest(p: Point, used: seq<seq<real>>, j: nat, dist: Metric)
    requires j < |used| && !p.deleted && Nearest(used, p.vector, dist) == j
    ensures NearestOf(p, used, j, dist)
  {
    hide Nearest;
    NearestIsNearest(used, p.vector, dist);
  }

  lemma MeanTimesCount(vs: seq<seq<real>>, previous: seq<real>, dim: nat, d: nat)
    requires vs != [] && UniformVectors(vs, dim) && |previous| == dim && d < dim
    ensures Mean(vs, previous, dim)[d] * (|vs| as real) == Sum(Column(vs, d))
  {
  }

  // ---- the objective ----

  function SumOver(idxs: seq<nat>, f: nat -> real): real {
    if idxs == [] then 0.0 else SumOver(idxs[..|idxs| - 1], f) + f(idxs[|idxs| - 1])
  }

  lemma {:induction false} SumOverConcat(a: seq<nat>, b: seq<nat>, f: nat -> real)
    ensures SumOver(a + b, f) == SumOver(a, f) + SumOver(b, f)
    decreases |b|
  {
    if b == [] {
      assert a + b == a;
    } else {
      SumOverConcat(a, b[..|b| - 1], f);
      assert (a + b)[..|a + b| - 1] == a + b[..|b| - 1];
    }
  }

  lemma {:induction false} SumOverSameMultiset(a: seq<nat>, b: seq<nat>, f: nat -> real)
    requires multiset(a) == multiset(b)
    ensures SumOver(a, f) == SumOver(b, f)
    decreases |a|
  {
    if a == [] {
      assert b == [] by { assert |multiset(b)| == |b|; }
    } else {
      var front, x := a[..|a| - 1], a[|a| - 1];
      assert a == front + [x];
      assert x in multiset(b);
      var p :| 0 <= p < |b| && b[p] == x;
      var left, right := b[..p], b[p + 1..];
      assert b == left + [x] + right;
      RemoveOne(front, x, left, right);
      SumOverSameMultiset(front, left + right, f);
      SumOverConcat(left + [x], right, f);
      SumOverConcat(left, [x], f);
      SumOverConcat(left, right, f);
      assert [x][..0] == [];
    }
  }

  lemma {:induction false} SumOverAtMost(idxs: seq<nat>, f: nat -> real, g: nat -> real)
    requires forall t :: 0 <= t < |idxs| ==> f(idxs[t]) <= g(idxs[t])
    ensures SumOver(idxs, f) <= SumOver(idxs, g)
  {
    if idxs != [] {
      SumOverAtMost(idxs[..|idxs| - 1], f, g);
    }
  }

  /** Squared distance of record `i` to a fixed centroid. */
  function SquaredTo(points: seq<Point>, c: seq<real>): nat -> real {
    (i: nat) => if i < |points| && |points[i].vector| == |c| then SquaredDistance(c, points[i].vector) else 0.0
  }

  /** Squared distance of record `i` to its nearest centroid. */
  function SquaredToNearest(points: seq<Point>, cs: seq<seq<real>>, dist: Metric): nat -> real
    requires cs != []
  {
    (i: nat) => if i < |points| then SquaredTo(points, cs[Nearest(cs, points[i].vector, dist)])(i) else 0.0
  }

  /** The sum of squared distances from the members of the first `k` clusters to those clusters' centroids. */
  function Cost(points: seq<Point>, ms: seq<seq<nat>>, cs: seq<seq<real>>, k: nat): real
    requires k <= |ms| == |cs|
  {
    if k == 0 then 0.0 else Cost(points, ms, cs, k - 1) + SumOver(ms[k - 1], SquaredTo(points, cs[k - 1]))
  }

  function Objective(points: seq<Point>, ms: seq<seq<nat>>, cs: seq<seq<real>>): real
    requires |ms| == |cs|
  {
    Cost(points, ms, cs, |ms|)
  }

  // ---- an assignment step does not increase it ----

  /** The metric is the euclidean one, whatever square root it uses. */
  ghost predicate IsEuclidean(dist: Metric) {
    forall a, b :: |a| == |b| ==> dist(a, b) >= 0.0 && dist(a, b) * dist(a, b) == SquaredDistance(a, b)
  }

  /** A table created with the euclidean metric has such a one. */
  lemma EuclideanTable(sqrt: real -> real)
    requires IsSqrt(sqrt)
    ensures IsEuclidean(TableMetric(MetricEuclidean, sqrt))
  {
    hide SquaredDistance, IsSqrt, EuclideanDistance, CosineDistance;
    var dist := TableMetric(MetricEuclidean, sqrt);
    forall a, b | |a| == |b|
      ensures dist(a, b) >= 0.0 && dist(a, b) * dist(a, b) == SquaredDistance(a, b)
    {
      assert dist(a, b) == EuclideanDistance(a, b, sqrt);
    }
  }

  /** Some centroid is within FAR of the vector, or else the first one, which then is taken, happens to be nearest. */
  ghost predicate InReachOf(x: seq<real>, cs: seq<seq<real>>, dim: nat)
    requires |x| == dim && UniformCentroids(cs, dim) && cs != []
  {
    || (exists j :: 0 <= j < |cs| && SquaredDistance(cs[j], x) < FAR * FAR)
    || forall j :: 0 <= j < |cs| ==> SquaredDistance(cs[0], x) <= SquaredDistance(cs[j], x)
  }

  ghost predicate Reachable(points: seq<Point>, cs: seq<seq<real>>, dim: nat)
    requires Uniform(points, dim) && UniformCentroids(cs, dim) && cs != []
  {
    forall i :: 0 <= i < |points| && !points[i].deleted ==> InReachOf(points[i].vector, cs, dim)
  }

  lemma SquareStrict(x: real, y: real)
    requires 0.0 <= x < y
    ensures x * x < y * y
  {
    var d := y - x;
    assert y * y == (x + d) * (x + d);
    assert (x + d) * (x + d) == x * x + 2.0 * (x * d) + d * d;
    assert x * d >= 0.0;
    assert d * d > 0.0;
  }

  lemma RootsCompare(x: real, y: real, xx: real, yy: real)
    requires x >= 0.0 && y >= 0.0 && x * x == xx && y * y == yy
    ensures x <= y <==> xx <= yy
    ensures x < y <==> xx < yy
  {
    if x < y {
      SquareStrict(x, y);
    } else if y < x {
      SquareStrict(y, x);
    }
  }

  lemma EuclideanAt(dist: Metric, a: seq<real>, b: seq<real>)
    requires IsEuclidean(dist) && |a| == |b|
    ensures dist(a, b) >= 0.0 && dist(a, b) * dist(a, b) == SquaredDistance(a, b)
  {
  }

  lemma FarSquared(dist: Metric, a: seq<real>, b: seq<real>)
    requires IsEuclidean(dist) && |a| == |b|
    ensures dist(a, b) < FAR <==> SquaredDistance(a, b) < FAR * FAR
  {
    hide SquaredDistance, IsEuclidean;
    EuclideanAt(dist, a, b);
    RootsCompare(dist(a, b), FAR, SquaredDistance(a, b), FAR * FAR);
  }

  lemma NearestBySquares(points: seq<Point>, cs: seq<seq<real>>, dist: Metric, dim: nat, i: nat, j: nat)
    requires Uniform(points, dim) && UniformCentroids(cs, dim) && cs != []
    requires IsEuclidean(dist) && Reachable(points, cs, dim)
    requires i < |points| && !points[i].deleted && j < |cs|
    ensures SquaredToNearest(points, cs, dist)(i) <= SquaredTo(points, cs[j])(i)
  {
    hide Nearest, SquaredDistance, IsEuclidean, SquaredTo, SquaredToNearest;
    var x := points[i].vector;
    NearestInRange(cs, x, dist);
    NearestIsNearest(cs, x, dist);
    var b := Nearest(cs, x, dist);
    assert InReachOf(x, cs, dim);
    forall t | 0 <= t < |cs|
      ensures dist(cs[t], x) < FAR <==> SquaredDistance(cs[t], x) < FAR * FAR
    {
      FarSquared(dist, cs[t], x);
    }
    EuclideanAt(dist, cs[b], x);
    EuclideanAt(dist, cs[j], x);
    RootsCompare(dist(cs[b], x), dist(cs[j], x), SquaredDistance(cs[b], x), SquaredDistance(cs[j], x));
    SquaredAt(points, cs, dist, dim, i, j);
  }

  lemma SquaredAt(points: seq<Point>, cs: seq<seq<real>>, dist: Metric, dim: nat, i: nat, j: nat)
    requires Uniform(points, dim) && UniformCentroids(cs, dim) && cs != [] && i < |points| && j < |cs|
    ensures SquaredTo(points, cs[j])(i) == SquaredDistance(cs[j], points[i].vector)
    ensures SquaredToNearest(points, cs, dist)(i)
         == SquaredDistance(cs[Nearest(cs, points[i].vector, dist)], points[i].vector)
  {
    var b := Nearest(cs, points[i].vector, dist);
    NearestInRange(cs, points[i].vector, dist);
    hide Nearest;
    assert |cs[b]| == dim;
    assert SquaredTo(points, cs[b])(i) == SquaredDistance(cs[b], points[i].vector);
  }

  /** Any clustering of live records costs at least the sum of distances to the nearest centroids ... */
  lemma {:induction false} CostAtLeastNearest(points: seq<Point>, ms: seq<seq<nat>>, cs: seq<seq<real>>, dist: Metric,
                                              dim: nat, k: nat)
    requires Uniform(points, dim) && UniformCentroids(cs, dim) && cs != [] && k <= |ms| == |cs|
    requires IsEuclidean(dist) && Reachable(points, cs, dim)
    requires forall j, t :: 0 <= j < |ms| && 0 <= t < |ms[j]| ==> ms[j][t] < |points| && !points[ms[j][t]].deleted
    ensures SumOver(Flatten(ms[..k]), SquaredToNearest(points, cs, dist)) <= Cost(points, ms, cs, k)
  {
    if k > 0 {
      hide SquaredTo, SquaredToNearest, Nearest, IsEuclidean, Reachable;
      CostAtLeastNearest(points, ms, cs, dist, dim, k - 1);
      assert ms[..k][..k - 1] == ms[..k - 1];
      SumOverConcat(Flatten(ms[..k - 1]), ms[k - 1], SquaredToNearest(points, cs, dist));
      var last := ms[k - 1];
      forall t | 0 <= t < |last|
        ensures SquaredToNearest(points, cs, dist)(last[t]) <= SquaredTo(points, cs[k - 1])(last[t])
      {
        NearestBySquares(points, cs, dist, dim, last[t], k - 1);
      }
      SumOverAtMost(ms[k - 1], SquaredToNearest(points, cs, dist), SquaredTo(points, cs[k - 1]));
    }
  }

  /** ... and the assignment step reaches that sum. */
  lemma {:induction false} AssignedCost(points: seq<Point>, cs: seq<seq<real>>, dist: Metric, k: nat)
    requires cs != [] && k <= |cs|
    ensures var ms := Assigned(points, cs, dist, |points|);
            Cost(points, ms, cs, k) == SumOver(Flatten(ms[..k]), SquaredToNearest(points, cs, dist))
  {
    if k > 0 {
      hide SquaredTo, Nearest, Assigned;
      var ms := Assigned(points, cs, dist, |points|);
      AssignedCost(points, cs, dist, k - 1);
      assert ms[..k][..k - 1] == ms[..k - 1];
      var f, g := SquaredTo(points, cs[k - 1]), SquaredToNearest(points, cs, dist);
      SumOverConcat(Flatten(ms[..k - 1]), ms[k - 1], g);
      var last := ms[k - 1];
      forall t | 0 <= t < |last|
        ensures f(last[t]) == g(last[t])
      {
        AssignedToNearest(points, cs, dist, |points|, k - 1, t);
      }
      SumOverAtMost(ms[k - 1], f, g);
      SumOverAtMost(ms[k - 1], g, f);
    }
  }

  lemma {:induction false} FlattenHolds(ms: seq<seq<nat>>, points: seq<Point>, j: nat, t: nat)
    requires multiset(Flatten(ms)) == multiset(LiveIndices(points, |points|))
    requires j < |ms| && t < |ms[j]|
    ensures ms[j][t] < |points| && !points[ms[j][t]].deleted
  {
    InFlatten(ms, j, t);
    assert ms[j][t] in multiset(Flatten(ms));
    assert multiset(LiveIndices(points, |points|))[ms[j][t]] > 0;
    if ms[j][t] >= |points| || points[ms[j][t]].deleted {
      DeadAbsent(points, |points|, ms[j][t]);
    }
  }

  lemma {:induction false} InFlatten(ms: seq<seq<nat>>, j: nat, t: nat)
    requires j < |ms| && t < |ms[j]|
    ensures ms[j][t] in Flatten(ms)
    decreases |ms|
  {
    if j < |ms| - 1 {
      InFlatten(ms[..|ms| - 1], j, t);
    }
  }

  lemma {:induction false} DeadAbsent(points: seq<Point>, n: nat, i: nat)
    requires n <= |points| && (i >= n || points[i].deleted)
    ensures multiset(LiveIndices(points, n))[i] == 0
  {
    if n > 0 {
      DeadAbsent(points, n - 1, i);
      var before := LiveIndices(points, n - 1);
      assert LiveIndices(points, n) == if points[n - 1].deleted then before else before + [n - 1];
      hide LiveIndices;
      assert multiset(before + [n - 1]) == multiset(before) + multiset{n - 1};
    }
  }

  /** Reassigning every live record to its nearest centroid does not increase the objective. */
  lemma AssignStepDescends(points: seq<Point>, ms: seq<seq<nat>>, cs: seq<seq<real>>, dist: Metric, dim: nat)
    requires Uniform(points, dim) && UniformCentroids(cs, dim) && cs != [] && |ms| == |cs|
    requires IsEuclidean(dist) && Reachable(points, cs, dim)
    requires multiset(Flatten(ms)) == multiset(LiveIndices(points, |points|))
    ensures Objective(points, Assigned(points, cs, dist, |points|), cs) <= Objective(points, ms, cs)
  {
    hide *;
    var best := Assigned(points, cs, dist, |points|);
    AllLive(points, ms);
    CostAtLeastNearest(points, ms, cs, dist, dim, |cs|);
    AssignedCost(points, cs, dist, |cs|);
    AssignedPartitions(points, cs, dist, |points|);
    assert best[..|cs|] == best && ms[..|cs|] == ms;
    SumOverSameMultiset(Flatten(best), Flatten(ms), SquaredToNearest(points, cs, dist));
    ObjectiveIs(points, best, cs);
    ObjectiveIs(points, ms, cs);
  }

  // ---- and exactly when it does not ----

  lemma {:induction false} SumOverLess(idxs: seq<nat>, f: nat -> real, g: nat -> real, t: nat)
    requires forall u :: 0 <= u < |idxs| ==> f(idxs[u]) <= g(idxs[u])
    requires t < |idxs| && f(idxs[t]) < g(idxs[t])
    ensures SumOver(idxs, f) < SumOver(idxs, g)
  {
    if t < |idxs| - 1 {
      SumOverLess(idxs[..|idxs| - 1], f, g, t);
    } else {
      SumOverAtMost(idxs[..|idxs| - 1], f, g);
    }
  }

  lemma {:induction false} LiveInList(points: seq<Point>, n: nat, i: nat) returns (t: nat)
    requires n <= |points| && i < n && !points[i].deleted
    ensures t < |LiveIndices(points, n)| && LiveIndices(points, n)[t] == i
  {
    if i < n - 1 {
      t := LiveInList(points, n - 1, i);
    } else {
      t := |LiveIndices(points, n)| - 1;
    }
  }

  lemma {:induction false} LiveListed(points: seq<Point>, n: nat, t: nat)
    requires n <= |points| && t < |LiveIndices(points, n)|
    ensures LiveIndices(points, n)[t] < n && !points[LiveIndices(points, n)[t]].deleted
  {
    if t < |LiveIndices(points, n - 1)| {
      LiveListed(points, n - 1, t);
    }
  }

  lemma {:induction false} BestSame(cs: seq<seq<real>>, x: seq<real>, dist: Metric, other: Metric, n: nat)
    requires n <= |cs| && forall j :: 0 <= j < n ==> dist(cs[j], x) == other(cs[j], x)
    ensures Best(cs, x, dist, n) == Best(cs, x, other, n)
  {
    if n > 0 {
      BestSame(cs, x, dist, other, n - 1);
    }
  }

  /** A metric that sends the vector `x` to the centroid `c`, and all others where `dist` sends them. */
  function Sending(dist: Metric, x: seq<real>, c: seq<real>): Metric {
    (a, b) => if b != x then dist(a, b) else if a == c then 0.0 else 1.0
  }

  lemma SendingNearest(cs: seq<seq<real>>, dist: Metric, x: seq<real>, j: nat, y: seq<real>)
    requires j < |cs|
    ensures y != x ==> Nearest(cs, y, Sending(dist, x, cs[j])) == Nearest(cs, y, dist)
    ensures Nearest(cs, x, Sending(dist, x, cs[j])) < |cs|
    ensures cs[Nearest(cs, x, Sending(dist, x, cs[j]))] == cs[j]
  {
    var other := Sending(dist, x, cs[j]);
    if y != x {
      BestSame(cs, y, dist, other, |cs|);
    }
    NearestInRange(cs, x, other);
    NearestIsNearest(cs, x, other);
    assert other(cs[j], x) == 0.0;
  }

  /** The cost of an assignment is the sum over the live records. */
  lemma AssignedCostLive(points: seq<Point>, cs: seq<seq<real>>, dist: Metric)
    requires cs != []
    ensures Objective(points, Assigned(points, cs, dist, |points|), cs)
         == SumOver(LiveIndices(points, |points|), SquaredToNearest(points, cs, dist))
  {
    hide *;
    var best := Assigned(points, cs, dist, |points|);
    AssignedCost(points, cs, dist, |cs|);
    AssignedPartitions(points, cs, dist, |points|);
    assert best[..|cs|] == best;
    SumOverSameMultiset(Flatten(best), LiveIndices(points, |points|), SquaredToNearest(points, cs, dist));
    ObjectiveIs(points, best, cs);
  }

  /** A live record out of reach is sent to cluster 0 although some centroid is nearer; sending it there costs less. */
  lemma BetterThanAssigned(points: seq<Point>, cs: seq<seq<real>>, dist: Metric, dim: nat, i: nat)
    returns (ms: seq<seq<nat>>)
    requires Uniform(points, dim) && UniformCentroids(cs, dim) && cs != [] && IsEuclidean(dist)
    requires i < |points| && !points[i].deleted && !InReachOf(points[i].vector, cs, dim)
    ensures |ms| == |cs| && multiset(Flatten(ms)) == multiset(LiveIndices(points, |points|))
    ensures Objective(points, ms, cs) < Objective(points, Assigned(points, cs, dist, |points|), cs)
  {
    hide SquaredDistance, IsEuclidean, SquaredTo, SquaredToNearest, Nearest, SumOver, LiveIndices, Flatten, Assigned,
         Objective, Sending;
    var x := points[i].vector;
    var j :| 0 <= j < |cs| && SquaredDistance(cs[j], x) < SquaredDistance(cs[0], x);
    var other := Sending(dist, x, cs[j]);
    ms := Assigned(points, cs, other, |points|);
    AssignedPartitions(points, cs, other, |points|);
    AssignedCostLive(points, cs, dist);
    AssignedCostLive(points, cs, other);
    TakesFirst(cs, dist, dim, x);
    var live, f, g := LiveIndices(points, |points|), SquaredToNearest(points, cs, other), SquaredToNearest(points, cs, dist);
    forall u | 0 <= u < |live|
      ensures live[u] < |points| && f(live[u]) <= g(live[u])
      ensures live[u] == i ==> f(live[u]) < g(live[u])
    {
      LiveListed(points, |points|, u);
      var y := points[live[u]].vector;
      SendingNearest(cs, dist, x, j, y);
      NearestInRange(cs, y, dist);
      SquaredAt(points, cs, dist, dim, live[u], 0);
      SquaredAt(points, cs, other, dim, live[u], 0);
    }
    var t := LiveInList(points, |points|, i);
    SumOverLess(live, f, g, t);
  }

  lemma TakesFirst(cs: seq<seq<real>>, dist: Metric, dim: nat, x: seq<real>)
    requires |x| == dim && UniformCentroids(cs, dim) && cs != [] && IsEuclidean(dist)
    requires forall j :: 0 <= j < |cs| ==> SquaredDistance(cs[j], x) >= FAR * FAR
    ensures Nearest(cs, x, dist) == 0
  {
    hide Nearest, SquaredDistance, IsEuclidean;
    NearestIsNearest(cs, x, dist);
    forall j | 0 <= j < |cs|
      ensures dist(cs[j], x) >= FAR
    {
      FarSquared(dist, cs[j], x);
    }
  }

  ghost predicate Partitions(ms: seq<seq<nat>>, points: seq<Point>, k: nat) {
    |ms| == k && multiset(Flatten(ms)) == multiset(LiveIndices(points, |points|))
  }

  /** Exactly when the assignment step leaves a partition of least cost: every live record has a centroid in reach, or the
      first centroid is its nearest. */
  lemma AssignStepIff(points: seq<Point>, cs: seq<seq<real>>, dist: Metric, dim: nat)
    requires Uniform(points, dim) && UniformCentroids(cs, dim) && cs != [] && IsEuclidean(dist)
    ensures (forall ms :: Partitions(ms, points, |cs|) ==>
               Objective(points, Assigned(points, cs, dist, |points|), cs) <= Objective(points, ms, cs))
       <==> Reachable(points, cs, dim)
  {
    hide IsEuclidean, InReachOf, Flatten, LiveIndices, Objective, Assigned;
    if Reachable(points, cs, dim) {
      forall ms | Partitions(ms, points, |cs|)
        ensures Objective(points, Assigned(points, cs, dist, |points|), cs) <= Objective(points, ms, cs)
      {
        AssignStepDescends(points, ms, cs, dist, dim);
      }
    } else {
      var i :| 0 <= i < |points| && !points[i].deleted && !InReachOf(points[i].vector, cs, dim);
      var ms := BetterThanAssigned(points, cs, dist, dim, i);
      assert Partitions(ms, points, |cs|);
    }
  }

  lemma ObjectiveIs(points: seq<Point>, ms: seq<seq<nat>>, cs: seq<seq<real>>)
    requires |ms| == |cs|
    ensures Objective(points, ms, cs) == Cost(points, ms, cs, |cs|)
  {
  }

  lemma AllLive(points: seq<Point>, ms: seq<seq<nat>>)
    requires multiset(Flatten(ms)) == multiset(LiveIndices(points, |points|))
    ensures forall j, t :: 0 <= j < |ms| && 0 <= t < |ms[j]| ==> ms[j][t] < |points| && !points[ms[j][t]].deleted
  {
    hide Flatten, LiveIndices;
    forall j, t | 0 <= j < |ms| && 0 <= t < |ms[j]|
      ensures ms[j][t] < |points| && !points[ms[j][t]].deleted
    {
      FlattenHolds(ms, points, j, t);
    }
  }

  // ---- a mean step does not increase it ----

  /** Sum of squared deviations of numbers from `c`. */
  function Deviation(s: seq<real>, c: real): real {
    if s == [] then 0.0 else Deviation(s[..|s| - 1], c) + (s[|s| - 1] - c) * (s[|s| - 1] - c)
  }

  lemma DeviationStep(dev: real, base: real, c: real, n: real, sum: real, x: real)
    requires dev == base - 2.0 * c * sum + n * (c * c)
    ensures dev + (x - c) * (x - c) == (base + x * x) - 2.0 * c * (sum + x) + (n + 1.0) * (c * c)
  {
    assert (x - c) * (x - c) == x * x - 2.0 * c * x + c * c;
    assert 2.0 * c * (sum + x) == 2.0 * c * sum + 2.0 * c * x;
    assert (n + 1.0) * (c * c) == n * (c * c) + c * c;
  }

  lemma {:induction false} DeviationExpanded(s: seq<real>, c: real)
    ensures Deviation(s, c) == Deviation(s, 0.0) - 2.0 * c * Sum(s) + (|s| as real) * (c * c)
  {
    if s != [] {
      var front, x := s[..|s| - 1], s[|s| - 1];
      DeviationExpanded(front, c);
      DeviationStep(Deviation(front, c), Deviation(front, 0.0), c, |front| as real, Sum(front), x);
    }
  }

  lemma ShiftAlgebra(q: real, n: real, m: real, c: real, sum: real)
    requires n * m == sum
    ensures q - 2.0 * c * sum + n * (c * c) == (q - 2.0 * m * sum + n * (m * m)) + n * ((c - m) * (c - m))
  {
    assert 2.0 * c * sum == 2.0 * (n * (c * m)) by { assert c * sum == c * (n * m); }
    assert 2.0 * m * sum == 2.0 * (n * (m * m)) by { assert m * sum == m * (n * m); }
    assert (c - m) * (c - m) == c * c - 2.0 * (c * m) + m * m;
    assert n * ((c - m) * (c - m)) == n * (c * c) - 2.0 * (n * (c * m)) + n * (m * m);
  }

  /** Deviation from any number is deviation from the mean plus the shift. */
  lemma DeviationFromMean(s: seq<real>, m: real, c: real)
    requires (|s| as real) * m == Sum(s)
    ensures Deviation(s, c) == Deviation(s, m) + (|s| as real) * ((c - m) * (c - m))
  {
    DeviationExpanded(s, c);
    DeviationExpanded(s, m);
    ShiftAlgebra(Deviation(s, 0.0), |s| as real, m, c, Sum(s));
  }

  /** Squared distance over the first `d` coordinates. */
  function SquaredUpTo(a: seq<real>, b: seq<real>, d: nat): (r: real)
    requires d <= |a| && d <= |b|
    ensures r >= 0.0
  {
    if d == 0 then 0.0
    else
      var gap := b[d - 1] - a[d - 1];
      SquaredUpTo(a, b, d - 1) + gap * gap
  }

  lemma {:induction false} SquaredUpToAll(a: seq<real>, b: seq<real>, d: nat)
    requires d <= |a| && d <= |b|
    ensures SquaredUpTo(a, b, d) == SquaredDistance(a[..d], b[..d])
  {
    if d > 0 {
      SquaredUpToAll(a, b, d - 1);
      assert a[..d][..d - 1] == a[..d - 1] && b[..d][..d - 1] == b[..d - 1];
    }
  }

  /** Sum over the vectors of squared distances to `c`, over the first `d` coordinates. */
  function Scatter(vs: seq<seq<real>>, c: seq<real>, dim: nat, d: nat): real
    requires UniformVectors(vs, dim) && |c| == dim && d <= dim
  {
    if vs == [] then 0.0
    else Scatter(vs[..|vs| - 1], c, dim, d) + SquaredUpTo(c, vs[|vs| - 1], d)
  }

  /** Summing by records and summing by coordinates agree. */
  lemma {:induction false} ScatterByCoordinate(vs: seq<seq<real>>, c: seq<real>, dim: nat, d: nat)
    requires UniformVectors(vs, dim) && |c| == dim && d < dim
    ensures Scatter(vs, c, dim, d + 1) == Scatter(vs, c, dim, d) + Deviation(Column(vs, d), c[d])
  {
    if vs != [] {
      ScatterByCoordinate(vs[..|vs| - 1], c, dim, d);
      assert Column(vs, d)[..|vs| - 1] == Column(vs[..|vs| - 1], d);
    }
  }

  lemma {:induction false} ScatterZero(vs: seq<seq<real>>, c: seq<real>, dim: nat)
    requires UniformVectors(vs, dim) && |c| == dim
    ensures Scatter(vs, c, dim, 0) == 0.0
  {
    if vs != [] {
      ScatterZero(vs[..|vs| - 1], c, dim);
    }
  }

  lemma AxisStep(sc: real, sm: real, n: real, q: real, dc: real, dm: real, g: real, q': real)
    requires sc == sm + n * q && dc == dm + n * g && q' == q + g
    ensures sc + dc == (sm + dm) + n * q'
  {
    assert n * (q + g) == n * q + n * g;
  }

  ghost predicate IsMeanOf(m: seq<real>, vs: seq<seq<real>>, dim: nat) {
    && UniformVectors(vs, dim) && |m| == dim
    && forall d :: 0 <= d < dim ==> (|vs| as real) * m[d] == Sum(Column(vs, d))
  }

  lemma MeanAt(m: seq<real>, vs: seq<seq<real>>, dim: nat, d: nat)
    requires IsMeanOf(m, vs, dim) && d < dim
    ensures (|vs| as real) * m[d] == Sum(Column(vs, d))
  {
  }

  /** The parallel axis theorem: scatter about any point is scatter about the mean plus the squared shift per record. */
  lemma {:induction false} ParallelAxis(vs: seq<seq<real>>, m: seq<real>, c: seq<real>, dim: nat, d: nat)
    requires UniformVectors(vs, dim) && |c| == |m| == dim && d <= dim
    requires IsMeanOf(m, vs, dim)
    ensures Scatter(vs, c, dim, d) == Scatter(vs, m, dim, d) + (|vs| as real) * SquaredUpTo(m, c, d)
  {
    hide *;
    if d == 0 {
      ScatterZero(vs, c, dim);
      ScatterZero(vs, m, dim);
      NothingUpTo(m, c);
    } else {
      ParallelAxis(vs, m, c, dim, d - 1);
      MeanShape(m, vs, dim);
      var e := d - 1;
      ScatterByCoordinate(vs, c, dim, e);
      ScatterByCoordinate(vs, m, dim, e);
      var s := Column(vs, e);
      MeanAt(m, vs, dim, e);
      DeviationFromMean(s, m[e], c[e]);
      SquaredUpToStep(m, c, d);
      AxisStep(Scatter(vs, c, dim, e), Scatter(vs, m, dim, e), |vs| as real, SquaredUpTo(m, c, e),
               Deviation(s, c[e]), Deviation(s, m[e]), (c[e] - m[e]) * (c[e] - m[e]), SquaredUpTo(m, c, d));
    }
  }

  lemma MeanShape(m: seq<real>, vs: seq<seq<real>>, dim: nat)
    requires IsMeanOf(m, vs, dim)
    ensures forall i :: 0 <= i < |vs| ==> |vs[i]| == dim
  {
  }

  lemma NothingUpTo(a: seq<real>, b: seq<real>)
    ensures SquaredUpTo(a, b, 0) == 0.0
  {
  }

  lemma SquaredUpToStep(a: seq<real>, b: seq<real>, d: nat)
    requires 0 < d <= |a| && d <= |b|
    ensures SquaredUpTo(a, b, d) == SquaredUpTo(a, b, d - 1) + (b[d - 1] - a[d - 1]) * (b[d - 1] - a[d - 1])
  {
  }

  lemma {:induction false} ScatterIsSum(points: seq<Point>, ms: seq<nat>, c: seq<real>, dim: nat)
    requires Uniform(points, dim) && InRange(ms, |points|) && |c| == dim
    ensures SumOver(ms, SquaredTo(points, c)) == Scatter(Members(points, ms), c, dim, dim)
  {
    if ms != [] {
      var front, x := ms[..|ms| - 1], points[ms[|ms| - 1]].vector;
      ScatterIsSum(points, front, c, dim);
      assert Members(points, ms)[..|ms| - 1] == Members(points, front);
      SquaredUpToAll(c, x, dim);
      assert c[..dim] == c && x[..dim] == x;
    }
  }

  lemma MeanIsMean(vs: seq<seq<real>>, previous: seq<real>, dim: nat)
    requires vs != [] && UniformVectors(vs, dim) && |previous| == dim
    ensures IsMeanOf(Mean(vs, previous, dim), vs, dim)
  {
    hide Mean, Sum;
    forall d | 0 <= d < dim
      ensures (|vs| as real) * Mean(vs, previous, dim)[d] == Sum(Column(vs, d))
    {
      MeanTimesCount(vs, previous, dim, d);
    }
  }

  lemma NonNegativeProduct(x: real, y: real)
    requires x >= 0.0 && y >= 0.0
    ensures x * y >= 0.0
  {
  }

  lemma MeanDescendsWith(points: seq<Point>, ms: seq<nat>, c: seq<real>, m: seq<real>, dim: nat)
    requires Uniform(points, dim) && InRange(ms, |points|) && |c| == |m| == dim
    requires IsMeanOf(m, Members(points, ms), dim)
    ensures SumOver(ms, SquaredTo(points, m)) <= SumOver(ms, SquaredTo(points, c))
  {
    hide Scatter, SumOver, SquaredTo, IsMeanOf, SquaredUpTo;
    ParallelAxis(Members(points, ms), m, c, dim, dim);
    ScatterIsSum(points, ms, c, dim);
    ScatterIsSum(points, ms, m, dim);
    NonNegativeProduct(|ms| as real, SquaredUpTo(m, c, dim));
  }

  /** Moving one centroid to the mean of its members does not increase that cluster's cost; an empty cluster stays. */
  lemma MeanDescendsOne(points: seq<Point>, ms: seq<nat>, c: seq<real>, dim: nat)
    requires Uniform(points, dim) && InRange(ms, |points|) && |c| == dim
    ensures SumOver(ms, SquaredTo(points, Mean(Members(points, ms), c, dim))) <= SumOver(ms, SquaredTo(points, c))
  {
    var vs := Members(points, ms);
    if ms == [] {
      assert Mean(vs, c, dim) == c;
    } else {
      hide Mean, IsMeanOf, SumOver, SquaredTo;
      MeanIsMean(vs, c, dim);
      MeanDescendsWith(points, ms, c, Mean(vs, c, dim), dim);
    }
  }

  lemma CostStep(points: seq<Point>, ms: seq<seq<nat>>, cs: seq<seq<real>>, k: nat)
    requires 0 < k <= |ms| == |cs|
    ensures Cost(points, ms, cs, k) == Cost(points, ms, cs, k - 1) + SumOver(ms[k - 1], SquaredTo(points, cs[k - 1]))
  {
    hide SumOver, SquaredTo;
  }

  lemma {:induction false} MeanStepDescends(points: seq<Point>, ms: seq<seq<nat>>, cs: seq<seq<real>>, dim: nat, k: nat)
    requires Uniform(points, dim) && UniformCentroids(cs, dim) && k <= |ms| == |cs|
    requires forall j :: 0 <= j < |ms| ==> InRange(ms[j], |points|)
    ensures Cost(points, ms, Means(points, ms, cs, dim), k) <= Cost(points, ms, cs, k)
  {
    hide SumOver, SquaredTo, Mean, Members, Uniform;
    if k > 0 {
      hide Cost;
      MeanStepDescends(points, ms, cs, dim, k - 1);
      MeanDescendsOne(points, ms[k - 1], cs[k - 1], dim);
      CostStep(points, ms, cs, k);
      CostStep(points, ms, Means(points, ms, cs, dim), k);
    }
  }

  // ---- whole runs ----

  /** The objective after each assignment and after each mean of the loop, from the given centroids on. */
  ghost function Objectives(points: seq<Point>, cs: seq<seq<real>>, dist: Metric, dim: nat, maxIterations: nat, done: nat)
    : (os: seq<real>)
    requires Uniform(points, dim) && UniformCentroids(cs, dim) && cs != []
    requires done == 0 || done < maxIterations
    ensures |os| >= 2 && os[0] == Objective(points, Assigned(points, cs, dist, |points|), cs)
    decreases maxIterations - done
  {
    var ms := Assigned(points, cs, dist, |points|);
    var next := NextCentroids(points, cs, dist, dim);
    [Objective(points, ms, cs), Objective(points, ms, next)]
    + (if Converged(cs, next, dim) || done + 1 >= maxIterations then []
       else Objectives(points, next, dist, dim, maxIterations, done + 1))
  }

  predicate NeverIncreases(s: seq<real>) {
    forall i :: 0 <= i < |s| - 1 ==> s[i + 1] <= s[i]
  }

  /** Any two records, the first one live or not, are within FAR of each other. */
  ghost predicate Close(points: seq<Point>) {
    forall i, j :: 0 <= i < |points| && 0 <= j < |points| && |points[i].vector| == |points[j].vector|
                   && !points[j].deleted ==>
      SquaredDistance(points[i].vector, points[j].vector) < FAR * FAR
  }

  lemma ScatterStep(vs: seq<seq<real>>, c: seq<real>, dim: nat)
    requires UniformVectors(vs, dim) && |c| == dim && vs != []
    ensures var n := |vs| - 1;
            Scatter(vs, c, dim, dim) == Scatter(vs[..n], c, dim, dim) + SquaredUpTo(c, vs[n], dim)
  {
    hide SquaredUpTo;
  }

  function Multiple(n: nat, b: real): real {
    n as real * b
  }

  lemma OneMore(n: nat, b: real)
    ensures Multiple(n + 1, b) == Multiple(n, b) + b && Multiple(0, b) == 0.0
  {
  }

  lemma {:induction false} ScatterBelow(vs: seq<seq<real>>, x: seq<real>, dim: nat, b: real)
    requires UniformVectors(vs, dim) && |x| == dim
    requires forall t :: 0 <= t < |vs| ==> SquaredDistance(x, vs[t]) < b
    ensures vs != [] ==> Scatter(vs, x, dim, dim) < Multiple(|vs|, b)
    ensures vs == [] ==> Scatter(vs, x, dim, dim) == 0.0
  {
    if vs == [] {
      ScatterZeroOf(x, dim);
    } else {
      hide SquaredDistance, SquaredUpTo, Scatter, Multiple;
      var n := |vs| - 1;
      ScatterBelow(vs[..n], x, dim, b);
      ScatterStep(vs, x, dim);
      SquaredUpToAll(x, vs[n], dim);
      assert x[..dim] == x && vs[n][..dim] == vs[n];
      OneMore(n, b);
    }
  }

  lemma ScatterZeroOf(x: seq<real>, dim: nat)
    requires |x| == dim
    ensures Scatter([], x, dim, dim) == 0.0
  {
  }

  lemma {:induction false} SquaredDistanceSymmetric(a: seq<real>, b: seq<real>)
    requires |a| == |b|
    ensures SquaredDistance(a, b) == SquaredDistance(b, a)
  {
    if a != [] {
      var n := |a| - 1;
      SquaredDistanceSymmetric(a[..n], b[..n]);
      assert (b[n] - a[n]) * (b[n] - a[n]) == (a[n] - b[n]) * (a[n] - b[n]);
    }
  }

  lemma CancelCount(n: nat, x: real, b: real, scatter: real, around: real)
    requires n > 0 && around >= 0.0
    requires scatter == around + (n as real) * x && scatter < (n as real) * b
    ensures x < b
  {
    var c := n as real;
    assert c > 0.0 && c * x < c * b;
    assert x >= b ==> c * x >= c * b;
  }

  lemma {:induction false} ScatterNonNegative(vs: seq<seq<real>>, c: seq<real>, dim: nat)
    requires UniformVectors(vs, dim) && |c| == dim
    ensures Scatter(vs, c, dim, dim) >= 0.0
  {
    if vs != [] {
      ScatterNonNegative(vs[..|vs| - 1], c, dim);
    }
  }

  /** The mean of vectors within reach of `x` is within reach of `x`. */
  lemma MeanWithinReach(vs: seq<seq<real>>, m: seq<real>, x: seq<real>, dim: nat, b: real)
    requires vs != [] && IsMeanOf(m, vs, dim) && |x| == dim
    requires forall t :: 0 <= t < |vs| ==> SquaredDistance(x, vs[t]) < b
    ensures SquaredDistance(m, x) < b
  {
    hide SquaredDistance, Scatter, SquaredUpTo, IsMeanOf;
    MeanShape(m, vs, dim);
    assert UniformVectors(vs, dim);
    assert |m| == dim by { MeanLength(m, vs, dim); }
    ParallelAxis(vs, m, x, dim, dim);
    ScatterNonNegative(vs, m, dim);
    ScatterBelow(vs, x, dim, b);
    CancelCount(|vs|, SquaredUpTo(m, x, dim), b, Scatter(vs, x, dim, dim), Scatter(vs, m, dim, dim));
    SquaredUpToAll(m, x, dim);
    assert m[..dim] == m && x[..dim] == x;
  }

  lemma MeanLength(m: seq<real>, vs: seq<seq<real>>, dim: nat)
    requires IsMeanOf(m, vs, dim)
    ensures |m| == dim
  {
  }

  /** Every live record is within FAR of every centroid. */
  ghost predicate AllInReach(points: seq<Point>, cs: seq<seq<real>>) {
    forall i, j :: 0 <= i < |points| && !points[i].deleted && 0 <= j < |cs| && |cs[j]| == |points[i].vector| ==>
      SquaredDistance(cs[j], points[i].vector) < FAR * FAR
  }

  lemma AllMeansSome(points: seq<Point>, cs: seq<seq<real>>, dim: nat)
    requires Uniform(points, dim) && UniformCentroids(cs, dim) && cs != [] && AllInReach(points, cs)
    ensures Reachable(points, cs, dim)
  {
    hide SquaredDistance;
    forall i | 0 <= i < |points| && !points[i].deleted
      ensures InReachOf(points[i].vector, cs, dim)
    {
      assert SquaredDistance(cs[0], points[i].vector) < FAR * FAR;
    }
  }

  /** Records close to each other stay within reach of the centroids from one pass to the next. */
  lemma ReachKept(points: seq<Point>, cs: seq<seq<real>>, dist: Metric, dim: nat)
    requires Uniform(points, dim) && UniformCentroids(cs, dim) && cs != []
    requires Close(points) && AllInReach(points, cs)
    ensures AllInReach(points, NextCentroids(points, cs, dist, dim))
  {
    var ms, next := Assigned(points, cs, dist, |points|), NextCentroids(points, cs, dist, dim);
    AssignedInRange(points, cs, dist, |points|);
    hide SquaredDistance, Assigned, Mean, IsMeanOf;
    forall i, j | 0 <= i < |points| && !points[i].deleted && 0 <= j < |next|
      ensures SquaredDistance(next[j], points[i].vector) < FAR * FAR
    {
      var vs := Members(points, ms[j]);
      assert next[j] == Mean(vs, cs[j], dim);
      if ms[j] == [] {
        EmptyKeeps(vs, cs[j], dim);
      } else {
        MeanIsMean(vs, cs[j], dim);
        forall t | 0 <= t < |vs|
          ensures SquaredDistance(points[i].vector, vs[t]) < FAR * FAR
        {
          SquaredDistanceSymmetric(points[i].vector, vs[t]);
        }
        MeanWithinReach(vs, next[j], points[i].vector, dim, FAR * FAR);
      }
    }
  }

  lemma EmptyKeeps(vs: seq<seq<real>>, c: seq<real>, dim: nat)
    requires vs == [] && |c| == dim
    ensures Mean(vs, c, dim) == c
  {
  }

  /** From the second pass on, every assignment finds its live records in reach of the centroids. */
  ghost predicate RunInReach(points: seq<Point>, cs: seq<seq<real>>, dist: Metric, dim: nat, maxIterations: nat, done: nat)
    requires Uniform(points, dim) && UniformCentroids(cs, dim) && cs != []
    requires done == 0 || done < maxIterations
    decreases maxIterations - done
  {
    var next := NextCentroids(points, cs, dist, dim);
    Converged(cs, next, dim) || done + 1 >= maxIterations
    || (Reachable(points, next, dim) && RunInReach(points, next, dist, dim, maxIterations, done + 1))
  }

  /** In every run of the loop whose distances stay within reach, the objective never increases: not across an assignment,
      not across a mean. */
  lemma {:induction false} LloydDescends(points: seq<Point>, cs: seq<seq<real>>, dist: Metric, dim: nat,
                                         maxIterations: nat, done: nat)
    requires Uniform(points, dim) && UniformCentroids(cs, dim) && cs != []
    requires done == 0 || done < maxIterations
    requires IsEuclidean(dist) && RunInReach(points, cs, dist, dim, maxIterations, done)
    ensures NeverIncreases(Objectives(points, cs, dist, dim, maxIterations, done))
    decreases maxIterations - done
  {
    hide IsEuclidean, Reachable, Cost, Converged, Assigned, Means, LiveIndices, Flatten;
    var ms, next := Assigned(points, cs, dist, |points|), NextCentroids(points, cs, dist, dim);
    AssignedInRange(points, cs, dist, |points|);
    MeanStepDescends(points, ms, cs, dim, |cs|);
    if !(Converged(cs, next, dim) || done + 1 >= maxIterations) {
      AssignedPartitions(points, cs, dist, |points|);
      AssignStepDescends(points, ms, next, dist, dim);
      LloydDescends(points, next, dist, dim, maxIterations, done + 1);
    }
  }

  /** Records close to each other keep every run in reach. */
  lemma {:induction false} CloseInReach(points: seq<Point>, cs: seq<seq<real>>, dist: Metric, dim: nat,
                                        maxIterations: nat, done: nat)
    requires Uniform(points, dim) && UniformCentroids(cs, dim) && cs != []
    requires done == 0 || done < maxIterations
    requires Close(points) && AllInReach(points, cs)
    ensures RunInReach(points, cs, dist, dim, maxIterations, done)
    decreases maxIterations - done
  {
    hide Close, Reachable, AllInReach, Converged, NextCentroids;
    var next := NextCentroids(points, cs, dist, dim);
    if !(Converged(cs, next, dim) || done + 1 >= maxIterations) {
      ReachKept(points, cs, dist, dim);
      AllMeansSome(points, next, dim);
      CloseInReach(points, next, dist, dim, maxIterations, done + 1);
    }
  }

  /** The run of the loop from some seeds stays in reach. */
  ghost predicate TrainingInReach(points: seq<Point>, dim: nat, maxIterations: nat, dist: Metric, seeds: seq<nat>)
    requires Uniform(points, dim) && seeds != [] && InRange(seeds, |points|)
  {
    SeededUniform(points, seeds, dim);
    RunInReach(points, Seeded(points, seeds), dist, dim, maxIterations, 0)
  }

  /** For every seeding and every iteration limit, training whose distances stay within reach only ever lowers the sum of
      squared distances. */
  lemma TrainingDescends(points: seq<Point>, dim: nat, maxIterations: nat, dist: Metric, seeds: seq<nat>)
    requires Uniform(points, dim) && seeds != [] && InRange(seeds, |points|)
    requires IsEuclidean(dist) && TrainingInReach(points, dim, maxIterations, dist, seeds)
    ensures UniformCentroids(Seeded(points, seeds), dim)
    ensures NeverIncreases(Objectives(points, Seeded(points, seeds), dist, dim, maxIterations, 0))
  {
    hide IsEuclidean;
    SeededUniform(points, seeds, dim);
    LloydDescends(points, Seeded(points, seeds), dist, dim, maxIterations, 0);
  }

  /** It is enough that every record is close to every live record. */
  lemma CloseTrainingInReach(points: seq<Point>, dim: nat, maxIterations: nat, dist: Metric, seeds: seq<nat>)
    requires Uniform(points, dim) && seeds != [] && InRange(seeds, |points|) && Close(points)
    ensures TrainingInReach(points, dim, maxIterations, dist, seeds)
  {
    hide SquaredDistance;
    SeededUniform(points, seeds, dim);
    CloseInReach(points, Seeded(points, seeds), dist, dim, maxIterations, 0);
  }
}
