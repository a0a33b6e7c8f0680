/** Lloyd k-means over the record array, as the training route runs it. */
module KMeans {
  import opened RamTable
  import opened Distance

  const FAR: real := 1000000000000000000000000000000.0
  const EPSILON: real := 0.000001

  /** The part of a record that training looks at. */
  datatype Point = Point(vector: seq<real>, deleted: bool, byteOffset: nat)

  datatype Cluster = Cluster(centroid: seq<real>, recordIndex: seq<nat>, byteOffsets: seq<nat>)

  predicate Uniform(points: seq<Point>, dim: nat) {
    forall i :: 0 <= i < |points| ==> |points[i].vector| == dim
  }

  predicate UniformCentroids(cs: seq<seq<real>>, dim: nat) {
    forall j :: 0 <= j < |cs| ==> |cs[j]| == dim
  }

  // ---- the points of a record array ----

  function VectorAt(r: RamRecord, view: Mapping, dim: nat): (v: seq<real>)
    requires Readable(r.vector, view, dim)
    ensures |v| == dim
  {
    Values(Floats(r.vector, view, dim))
  }

  /** What training can see of a record. Where the vector cannot be read, zeros stand for it. */
  function PointAt(r: RamRecord, view: Mapping, dim: nat): (p: Point)
    ensures |p.vector| == dim
  {
    Point(if Readable(r.vector, view, dim) then VectorAt(r, view, dim) else seq(dim, _ => 0.0), r.deleted, r.byteOffset)
  }

  function PointsRead(records: seq<RamRecord>, view: Mapping, dim: nat): (ps: seq<Point>)
    ensures |ps| == |records| && Uniform(ps, dim)
  {
    seq(|records|, i requires 0 <= i < |records| => PointAt(records[i], view, dim))
  }

  predicate LiveVectorsReadable(records: seq<RamRecord>, view: Mapping, dim: nat) {
    forall i :: 0 <= i < |records| && !records[i].deleted ==> Readable(records[i].vector, view, dim)
  }

  predicate AllVectorsReadable(records: seq<RamRecord>, ms: seq<nat>, view: Mapping, dim: nat) {
    InRange(ms, |records|) && forall t :: 0 <= t < |ms| ==> Readable(records[ms[t]].vector, view, dim)
  }

  /** The vectors that training follows lead to floats: those of the live records, and of the seeds, deleted or not. */
  predicate TrainReads(records: seq<RamRecord>, view: Mapping, dim: nat, seeds: seq<nat>) {
    LiveVectorsReadable(records, view, dim) && AllVectorsReadable(records, seeds, view, dim)
  }

  // ---- the assignment step ----

  /** The best of the first `n` centroids for `x`, with its distance; nothing beats FAR except a smaller distance. */
  function Best(cs: seq<seq<real>>, x: seq<real>, dist: Metric, n: nat): (b: (real, nat))
    requires n <= |cs|
  {
    if n == 0 then (FAR, 0)
    else
      var b := Best(cs, x, dist, n - 1);
      if b.0 > dist(cs[n - 1], x) then (dist(cs[n - 1], x), n - 1) else b
  }

  function Nearest(cs: seq<seq<real>>, x: seq<real>, dist: Metric): (j: nat)
    ensures cs != [] ==> j < |cs|
  {
    BestInRange(cs, x, dist, |cs|);
    Best(cs, x, dist, |cs|).1
  }

  lemma {:induction false} BestInRange(cs: seq<seq<real>>, x: seq<real>, dist: Metric, n: nat)
    requires n <= |cs|
    ensures Best(cs, x, dist, n).1 < n || Best(cs, x, dist, n) == (FAR, 0)
    ensures Best(cs, x, dist, n).0 <= FAR
    ensures Best(cs, x, dist, n).0 == FAR ==> Best(cs, x, dist, n) == (FAR, 0)
    ensures Best(cs, x, dist, n).0 < FAR ==>
              Best(cs, x, dist, n).1 < n && Best(cs, x, dist, n).0 == dist(cs[Best(cs, x, dist, n).1], x)
    ensures forall j :: 0 <= j < n ==> Best(cs, x, dist, n).0 <= dist(cs[j], x) || dist(cs[j], x) >= FAR
  {
    if n > 0 {
      BestInRange(cs, x, dist, n - 1);
    }
  }

  /** If any centroid is nearer than 1e30, the chosen one is nearest of all; otherwise cluster 0 is taken. */
  lemma NearestIsNearest(cs: seq<seq<real>>, x: seq<real>, dist: Metric)
    requires cs != []
    ensures var b := Nearest(cs, x, dist);
            if exists j :: 0 <= j < |cs| && dist(cs[j], x) < 1000000000000000000000000000000.0
            then forall j :: 0 <= j < |cs| ==> dist(cs[b], x) <= dist(cs[j], x)
            else b == 0
  {
    BestInRange(cs, x, dist, |cs|);
  }

  /** The record numbers of each cluster after the first `n` points have been assigned. */
  function Assigned(points: seq<Point>, cs: seq<seq<real>>, dist: Metric, n: nat): (ms: seq<seq<nat>>)
    requires n <= |points| && cs != []
    ensures |ms| == |cs|
  {
    if n == 0 then seq(|cs|, _ => [])
    else
      var ms := Assigned(points, cs, dist, n - 1);
      if points[n - 1].deleted then ms
      else
        var b := Nearest(cs, points[n - 1].vector, dist);
        ms[b := ms[b] + [n - 1]]
  }

  method Assign(records: seq<RamRecord>, view: Mapping, dim: nat, cs: seq<seq<real>>, dist: Metric)
    returns (ms: seq<seq<nat>>)
    requires cs != [] && LiveVectorsReadable(records, view, dim)
    ensures ms == Assigned(PointsRead(records, view, dim), cs, dist, |records|)
  {
    hide Readable, Floats;
    ghost var points := PointsRead(records, view, dim);
    ms := seq(|cs|, _ => []);
    for i := 0 to |records|
      invariant ms == Assigned(points, cs, dist, i)
    {
      if !records[i].deleted {
        var x := VectorAt(records[i], view, dim);
        var dis, best := FAR, 0;
        for j := 0 to |cs|
          invariant (dis, best) == Best(cs, x, dist, j)
        {
          var temp := dist(cs[j], x);
          if dis > temp {
            dis, best := temp, j;
          }
        }
        assert best == Nearest(cs, points[i].vector, dist);
        ms := ms[best := ms[best] + [i]];
      }
    }
  }

  // ---- the mean step ----

  function Sum(s: seq<real>): real {
    if s == [] then 0.0 else Sum(s[..|s| - 1]) + s[|s| - 1]
  }

  function Column(vs: seq<seq<real>>, d: nat): (c: seq<real>)
    requires forall i :: 0 <= i < |vs| ==> d < |vs[i]|
    ensures |c| == |vs|
  {
    seq(|vs|, i requires 0 <= i < |vs| => vs[i][d])
  }

  predicate InRange(ms: seq<nat>, n: nat) {
    forall i :: 0 <= i < |ms| ==> ms[i] < n
  }

  /** The vectors of a cluster's members. */
  function Members(points: seq<Point>, ms: seq<nat>): (vs: seq<seq<real>>)
    requires InRange(ms, |points|)
    ensures |vs| == |ms|
  {
    seq(|ms|, i requires 0 <= i < |ms| => points[ms[i]].vector)
  }

  predicate UniformVectors(vs: seq<seq<real>>, dim: nat) {
    forall i :: 0 <= i < |vs| ==> |vs[i]| == dim
  }

  /** The coordinatewise mean of a non-empty cluster; an empty cluster keeps its centroid. */
  function Mean(vs: seq<seq<real>>, previous: seq<real>, dim: nat): (m: seq<real>)
    requires UniformVectors(vs, dim) && |previous| == dim
    ensures |m| == dim
  {
    if vs == [] then previous else seq(dim, d requires 0 <= d < dim => Sum(Column(vs, d)) / (|vs| as real))
  }

  function Means(points: seq<Point>, ms: seq<seq<nat>>, cs: seq<seq<real>>, dim: nat): (r: seq<seq<real>>)
    requires Uniform(points, dim) && UniformCentroids(cs, dim) && |ms| == |cs|
    requires forall j :: 0 <= j < |ms| ==> InRange(ms[j], |points|)
    ensures |r| == |cs| && UniformCentroids(r, dim)
  {
    seq(|cs|, j requires 0 <= j < |cs| => Mean(Members(points, ms[j]), cs[j], dim))
  }

  lemma ColumnStep(vs: seq<seq<real>>, j: nat, d: nat)
    requires j < |vs| && forall i :: 0 <= i < |vs| ==> d < |vs[i]|
    ensures Sum(Column(vs[..j + 1], d)) == Sum(Column(vs[..j], d)) + vs[j][d]
  {
    assert Column(vs[..j + 1], d)[..j] == Column(vs[..j], d);
  }

  lemma NothingSummed(vs: seq<seq<real>>, d: nat)
    ensures Sum(Column(vs[..0], d)) == 0.0
  {
  }

  method MeanOf(records: seq<RamRecord>, view: Mapping, ms: seq<nat>, previous: seq<real>, dim: nat)
    returns (m: seq<real>)
    requires |previous| == dim && AllVectorsReadable(records, ms, view, dim)
    ensures m == Mean(Members(PointsRead(records, view, dim), ms), previous, dim)
  {
    hide Readable, Floats, Values, Sum, Column;
    ghost var vs := Members(PointsRead(records, view, dim), ms);
    assert UniformVectors(vs, dim);
    var sums := seq(dim, _ => 0.0);
    forall d | 0 <= d < dim
      ensures Sum(Column(vs[..0], d)) == 0.0
    {
      NothingSummed(vs, d);
    }
    for j := 0 to |ms|
      invariant |sums| == dim
      invariant forall d :: 0 <= d < dim ==> sums[d] == Sum(Column(vs[..j], d))
    {
      for d := 0 to dim
        invariant |sums| == dim
        invariant forall e :: 0 <= e < d ==> sums[e] == Sum(Column(vs[..j + 1], e))
        invariant forall e :: d <= e < dim ==> sums[e] == Sum(Column(vs[..j], e))
      {
        ColumnStep(vs, j, d);
        sums := sums[d := sums[d] + VectorAt(records[ms[j]], view, dim)[d]];
      }
    }
    assert vs[..|vs|] == vs;
    m := previous;
    for d := 0 to dim
      invariant |m| == dim
      invariant forall e :: 0 <= e < d ==> m[e] == Mean(vs, previous, dim)[e]
      invariant forall e :: d <= e < dim ==> m[e] == previous[e]
    {
      if |ms| > 0 {
        m := m[d := sums[d] / (|ms| as real)];
      }
    }
  }

  // ---- the whole loop ----

  function Abs(x: real): real {
    if x < 0.0 then -x else x
  }

  predicate Converged(previous: seq<seq<real>>, current: seq<seq<real>>, dim: nat)
    requires |previous| == |current| && UniformCentroids(previous, dim) && UniformCentroids(current, dim)
  {
    forall i, d :: 0 <= i < |previous| && 0 <= d < dim ==> Abs(previous[i][d] - current[i][d]) <= EPSILON
  }

  lemma {:induction false} AssignedInRange(points: seq<Point>, cs: seq<seq<real>>, dist: Metric, n: nat)
    requires n <= |points| && cs != []
    ensures forall j :: 0 <= j < |cs| ==> InRange(Assigned(points, cs, dist, n)[j], |points|)
  {
    if n > 0 {
      AssignedInRange(points, cs, dist, n - 1);
    }
  }

  /** Centroids after one assignment and mean step. */
  function NextCentroids(points: seq<Point>, cs: seq<seq<real>>, dist: Metric, dim: nat): (r: seq<seq<real>>)
    requires Uniform(points, dim) && UniformCentroids(cs, dim) && cs != []
    ensures |r| == |cs| && UniformCentroids(r, dim)
  {
    AssignedInRange(points, cs, dist, |points|);
    Means(points, Assigned(points, cs, dist, |points|), cs, dim)
  }

  datatype Outcome = Outcome(used: seq<seq<real>>, passes: nat)

  /** The loop from pass `done` on: the centroids that the last assignment used, and how many passes there were. */
  function Lloyd(points: seq<Point>, cs: seq<seq<real>>, dist: Metric, dim: nat, maxIterations: nat, done: nat): (o: Outcome)
    requires Uniform(points, dim) && UniformCentroids(cs, dim) && cs != []
    requires done == 0 || done < maxIterations
    ensures |o.used| == |cs| && UniformCentroids(o.used, dim)
    ensures done < o.passes <= (if maxIterations == 0 then 1 else maxIterations)
    decreases maxIterations - done
  {
    var next := NextCentroids(points, cs, dist, dim);
    if Converged(cs, next, dim) || done + 1 >= maxIterations then Outcome(cs, done + 1)
    else Lloyd(points, next, dist, dim, maxIterations, done + 1)
  }

  function Seeded(points: seq<Point>, seeds: seq<nat>): (cs: seq<seq<real>>)
    requires InRange(seeds, |points|)
    ensures |cs| == |seeds|
  {
    Members(points, seeds)
  }

  function OffsetsOf(points: seq<Point>, ms: seq<nat>): (os: seq<nat>)
    requires InRange(ms, |points|)
    ensures |os| == |ms|
  {
    seq(|ms|, i requires 0 <= i < |ms| => points[ms[i]].byteOffset)
  }

  /** The clusters that training hands out, given the centroids that the last assignment used. */
  function ClustersFrom(points: seq<Point>, used: seq<seq<real>>, dist: Metric, dim: nat): (cl: seq<Cluster>)
    requires Uniform(points, dim) && UniformCentroids(used, dim) && used != []
    ensures |cl| == |used|
  {
    AssignedInRange(points, used, dist, |points|);
    var ms := Assigned(points, used, dist, |points|);
    var cs := NextCentroids(points, used, dist, dim);
    seq(|used|, j requires 0 <= j < |used| => Cluster(cs[j], ms[j], OffsetsOf(points, ms[j])))
  }

  /** Copies the seed records' vectors as the first centroids. */
  method Seed(records: seq<RamRecord>, view: Mapping, dim: nat, seeds: seq<nat>) returns (centroids: seq<seq<real>>)
    requires AllVectorsReadable(records, seeds, view, dim)
    ensures centroids == Seeded(PointsRead(records, view, dim), seeds)
  {
    hide Readable, Floats, Values;
    centroids := [];
    for i := 0 to |seeds|
      invariant centroids == Seeded(PointsRead(records, view, dim), seeds)[..i]
    {
      centroids := centroids + [VectorAt(records[seeds[i]], view, dim)];
    }
  }

  /** Recomputes every centroid from its members. */
  method UpdateCentroids(records: seq<RamRecord>, view: Mapping, members: seq<seq<nat>>, centroids: seq<seq<real>>,
                         dim: nat)
    returns (updated: seq<seq<real>>)
    requires UniformCentroids(centroids, dim) && |members| == |centroids|
    requires forall j :: 0 <= j < |members| ==> AllVectorsReadable(records, members[j], view, dim)
    ensures forall j :: 0 <= j < |members| ==> InRange(members[j], |records|)
    ensures updated == Means(PointsRead(records, view, dim), members, centroids, dim)
  {
    hide Mean, Members, Readable, PointsRead;
    ghost var points := PointsRead(records, view, dim);
    updated := centroids;
    for i := 0 to |centroids|
      invariant |updated| == |centroids|
      invariant forall j :: 0 <= j < i ==> updated[j] == Means(points, members, centroids, dim)[j]
      invariant forall j :: i <= j < |centroids| ==> updated[j] == centroids[j]
    {
      var m := MeanOf(records, view, members[i], updated[i], dim);
      updated := updated[i := m];
    }
  }

  /** Translates member positions to byte offsets. */
  method MapOffsets(records: seq<RamRecord>, ms: seq<nat>, ghost view: Mapping, ghost dim: nat)
    returns (offsets: seq<nat>)
    requires InRange(ms, |records|)
    ensures offsets == OffsetsOf(PointsRead(records, view, dim), ms)
  {
    offsets := [];
    for j := 0 to |ms|
      invariant offsets == OffsetsOf(PointsRead(records, view, dim), ms)[..j]
    {
      offsets := offsets + [records[ms[j]].byteOffset];
    }
  }

  /** Every member of a cluster is a live record whose nearest centroid is the cluster's. */
  lemma {:induction false} AssignedToNearest(points: seq<Point>, cs: seq<seq<real>>, dist: Metric, n: nat, j: nat, t: nat)
    requires n <= |points| && cs != [] && j < |cs| && t < |Assigned(points, cs, dist, n)[j]|
    ensures var i := Assigned(points, cs, dist, n)[j][t];
            i < n && !points[i].deleted && Nearest(cs, points[i].vector, dist) == j
  {
    hide Nearest;
    var before := Assigned(points, cs, dist, n - 1);
    if t < |before[j]| {
      AssignedToNearest(points, cs, dist, n - 1, j, t);
    }
  }

  /** Only live records are members, so the vectors that the mean step follows can be read. */
  lemma MembersReadable(records: seq<RamRecord>, view: Mapping, dim: nat, cs: seq<seq<real>>, dist: Metric)
    requires cs != [] && LiveVectorsReadable(records, view, dim)
    ensures var ms := Assigned(PointsRead(records, view, dim), cs, dist, |records|);
            forall j :: 0 <= j < |cs| ==> AllVectorsReadable(records, ms[j], view, dim)
  {
    hide Readable, Assigned;
    var points := PointsRead(records, view, dim);
    var ms := Assigned(points, cs, dist, |records|);
    forall j | 0 <= j < |cs|
      ensures AllVectorsReadable(records, ms[j], view, dim)
    {
      forall t | 0 <= t < |ms[j]|
        ensures ms[j][t] < |records| && !points[ms[j][t]].deleted
      {
        AssignedToNearest(points, cs, dist, |records|, j, t);
      }
    }
  }

  /** Trains `|seeds|` clusters on a record array, from the given seed records. */
  method KMeansBuild(records: seq<RamRecord>, view: Mapping, dim: nat, maxIterations: nat, dist: Metric, seeds: seq<nat>)
    returns (clusters: seq<Cluster>, passes: nat)
    requires seeds != [] && TrainReads(records, view, dim, seeds)
    ensures clusters == Trained(PointsRead(records, view, dim), dim, maxIterations, dist, seeds)
    ensures passes == Passes(PointsRead(records, view, dim), dim, maxIterations, dist, seeds)
  {
    hide Assigned, Means, Seeded, Converged, OffsetsOf, Uniform, UniformCentroids, Readable, PointsRead;
    ghost var points := PointsRead(records, view, dim);
    SeededUniform(points, seeds, dim);
    var centroids := Seed(records, view, dim, seeds);
    ghost var goal := Lloyd(points, centroids, dist, dim, maxIterations, 0);
    var previous := centroids;
    var members: seq<seq<nat>> := [];
    var k := |seeds|;
    passes := 0;
    while true
      invariant |centroids| == k && UniformCentroids(centroids, dim) && previous == centroids
      invariant passes == 0 || passes < maxIterations
      invariant Lloyd(points, centroids, dist, dim, maxIterations, passes) == goal
      decreases maxIterations - passes
    {
      passes := passes + 1;
      members := Assign(records, view, dim, centroids, dist);
      AssignedInRange(points, centroids, dist, |points|);
      MembersReadable(records, view, dim, centroids, dist);
      centroids := UpdateCentroids(records, view, members, centroids, dim);
      var moved := Moved(previous, centroids, dim);
      if !moved || passes >= maxIterations {
        break;
      }
      previous := centroids;
    }
    clusters := [];
    for i := 0 to k
      invariant clusters == ClustersFrom(points, previous, dist, dim)[..i]
    {
      var offsets := MapOffsets(records, members[i], view, dim);
      clusters := clusters + [Cluster(centroids[i], members[i], offsets)];
    }
  }

  lemma SeededUniform(points: seq<Point>, seeds: seq<nat>, dim: nat)
    requires Uniform(points, dim) && InRange(seeds, |points|)
    ensures UniformCentroids(Seeded(points, seeds), dim)
  {
  }

  /** Whether some coordinate of some centroid moved by more than EPSILON. */
  method Moved(previous: seq<seq<real>>, current: seq<seq<real>>, dim: nat) returns (moved: bool)
    requires |previous| == |current| && UniformCentroids(previous, dim) && UniformCentroids(current, dim)
    ensures moved <==> !Converged(previous, current, dim)
  {
    for i := 0 to |previous|
      invariant forall a, d :: 0 <= a < i && 0 <= d < dim ==> Abs(previous[a][d] - current[a][d]) <= EPSILON
    {
      for d := 0 to dim
        invariant forall e :: 0 <= e < d ==> Abs(previous[i][e] - current[i][e]) <= EPSILON
      {
        var diff := previous[i][d] - current[i][d];
        if diff < 0.0 {
          diff := -diff;
        }
        if diff > EPSILON {
          assert Abs(previous[i][d] - current[i][d]) == diff;
          return true;
        }
      }
    }
    return false;
  }

  // ---- what training depends on ----

  /** The same records, but for the vectors of deleted ones. */
  predicate SameButDead(a: seq<Point>, b: seq<Point>) {
    && |a| == |b|
    && forall i :: 0 <= i < |a| ==>
         a[i].deleted == b[i].deleted && a[i].byteOffset == b[i].byteOffset && (!a[i].deleted ==> a[i] == b[i])
  }

  lemma {:induction false} AssignedSame(a: seq<Point>, b: seq<Point>, cs: seq<seq<real>>, dist: Metric, n: nat)
    requires SameButDead(a, b) && n <= |a| && cs != []
    ensures Assigned(a, cs, dist, n) == Assigned(b, cs, dist, n)
  {
    hide Nearest;
    if n > 0 {
      AssignedSame(a, b, cs, dist, n - 1);
    }
  }

  lemma NextSame(a: seq<Point>, b: seq<Point>, cs: seq<seq<real>>, dist: Metric, dim: nat)
    requires SameButDead(a, b) && Uniform(a, dim) && Uniform(b, dim) && UniformCentroids(cs, dim) && cs != []
    ensures NextCentroids(a, cs, dist, dim) == NextCentroids(b, cs, dist, dim)
    ensures ClustersFrom(a, cs, dist, dim) == ClustersFrom(b, cs, dist, dim)
  {
    hide Assigned, Mean;
    AssignedSame(a, b, cs, dist, |a|);
    AssignedInRange(a, cs, dist, |a|);
    var ms := Assigned(a, cs, dist, |a|);
    forall j | 0 <= j < |cs|
      ensures Members(a, ms[j]) == Members(b, ms[j]) && OffsetsOf(a, ms[j]) == OffsetsOf(b, ms[j])
    {
      forall t | 0 <= t < |ms[j]|
        ensures a[ms[j][t]] == b[ms[j][t]]
      {
        AssignedToNearest(a, cs, dist, |a|, j, t);
      }
    }
  }

  lemma {:induction false} LloydSame(a: seq<Point>, b: seq<Point>, cs: seq<seq<real>>, dist: Metric, dim: nat,
                                     maxIterations: nat, done: nat)
    requires SameButDead(a, b) && Uniform(a, dim) && Uniform(b, dim) && UniformCentroids(cs, dim) && cs != []
    requires done == 0 || done < maxIterations
    ensures Lloyd(a, cs, dist, dim, maxIterations, done) == Lloyd(b, cs, dist, dim, maxIterations, done)
    decreases maxIterations - done
  {
    hide NextCentroids, Converged, SameButDead, ClustersFrom;
    NextSame(a, b, cs, dist, dim);
    var next := NextCentroids(a, cs, dist, dim);
    if !(Converged(cs, next, dim) || done + 1 >= maxIterations) {
      LloydSame(a, b, next, dist, dim, maxIterations, done + 1);
    }
  }

  /** The clusters that training from these seeds hands out. */
  function Trained(points: seq<Point>, dim: nat, maxIterations: nat, dist: Metric, seeds: seq<nat>): (cl: seq<Cluster>)
    requires Uniform(points, dim) && seeds != [] && InRange(seeds, |points|)
    ensures |cl| == |seeds|
  {
    SeededUniform(points, seeds, dim);
    ClustersFrom(points, Lloyd(points, Seeded(points, seeds), dist, dim, maxIterations, 0).used, dist, dim)
  }

  /** And how many passes it makes. */
  function Passes(points: seq<Point>, dim: nat, maxIterations: nat, dist: Metric, seeds: seq<nat>): (n: nat)
    requires Uniform(points, dim) && seeds != [] && InRange(seeds, |points|)
    ensures 1 <= n <= (if maxIterations == 0 then 1 else maxIterations)
  {
    SeededUniform(points, seeds, dim);
    Lloyd(points, Seeded(points, seeds), dist, dim, maxIterations, 0).passes
  }

  /** Training never looks at the vector of a deleted record, unless the record is one of its seeds. */
  lemma TrainedSame(a: seq<Point>, b: seq<Point>, dim: nat, maxIterations: nat, dist: Metric, seeds: seq<nat>)
    requires SameButDead(a, b) && Uniform(a, dim) && Uniform(b, dim) && seeds != [] && InRange(seeds, |a|)
    requires |a| == |b| && forall t :: 0 <= t < |seeds| ==> a[seeds[t]] == b[seeds[t]]
    ensures Trained(a, dim, maxIterations, dist, seeds) == Trained(b, dim, maxIterations, dist, seeds)
  {
    hide Lloyd, ClustersFrom, SameButDead;
    SeededUniform(a, seeds, dim);
    var cs := Seeded(a, seeds);
    assert cs == Seeded(b, seeds);
    LloydSame(a, b, cs, dist, dim, maxIterations, 0);
    NextSame(a, b, Lloyd(a, cs, dist, dim, maxIterations, 0).used, dist, dim);
  }

  // ---- when training stops ----

  /** Some coordinate of some centroid has moved by more than a millionth. */
  predicate Moves(previous: seq<seq<real>>, current: seq<seq<real>>) {
    exists j, d :: 0 <= j < |previous| && j < |current| && 0 <= d < |previous[j]| && d < |current[j]|
                   && (previous[j][d] - current[j][d] > 0.000001 || current[j][d] - previous[j][d] > 0.000001)
  }

  /** The centroids of a run, from those it starts with on: each pass assigns the records and takes the means. */
  ghost predicate IsTrainingRun(run: seq<seq<seq<real>>>, points: seq<Point>, dist: Metric, dim: nat)
    requires Uniform(points, dim)
  {
    && (forall p :: 0 <= p < |run| ==> UniformCentroids(run[p], dim) && run[p] != [])
    && forall p :: 0 <= p < |run| - 1 ==> run[p + 1] == NextCentroids(points, run[p], dist, dim)
  }

  lemma ConvergedIsStill(previous: seq<seq<real>>, current: seq<seq<real>>, dim: nat)
    requires |previous| == |current| && UniformCentroids(previous, dim) && UniformCentroids(current, dim)
    ensures Converged(previous, current, dim) <==> !Moves(previous, current)
  {
    forall i, d | 0 <= i < |previous| && 0 <= d < dim
      ensures Abs(previous[i][d] - current[i][d]) <= EPSILON <==>
                !(previous[i][d] - current[i][d] > 0.000001 || current[i][d] - previous[i][d] > 0.000001)
    {
    }
    if !Converged(previous, current, dim) {
      var i, d :| 0 <= i < |previous| && 0 <= d < dim && Abs(previous[i][d] - current[i][d]) > EPSILON;
      assert |previous[i]| == |current[i]| == dim;
    }
  }

  lemma {:induction false} LloydStops(points: seq<Point>, cs: seq<seq<real>>, dist: Metric, dim: nat, maxIterations: nat,
                                      done: nat) returns (run: seq<seq<seq<real>>>)
    requires Uniform(points, dim) && UniformCentroids(cs, dim) && cs != []
    requires done == 0 || done < maxIterations
    ensures var o := Lloyd(points, cs, dist, dim, maxIterations, done); var n := o.passes - done;
            && |run| == n + 1 && run[0] == cs && run[n - 1] == o.used && IsTrainingRun(run, points, dist, dim)
            && (forall p :: 0 <= p < n - 1 ==> Moves(run[p], run[p + 1]))
            && (o.passes < maxIterations ==> !Moves(run[n - 1], run[n]))
    decreases maxIterations - done
  {
    hide Converged, NextCentroids, Moves, UniformCentroids;
    var next := NextCentroids(points, cs, dist, dim);
    ConvergedIsStill(cs, next, dim);
    if Converged(cs, next, dim) || done + 1 >= maxIterations {
      run := [cs, next];
    } else {
      var rest := LloydStops(points, next, dist, dim, maxIterations, done + 1);
      run := [cs] + rest;
    }
  }

  /** Training goes on while some centroid moves by more than a millionth, up to the limit, and stops as soon as none does.
      It hands out the last centroids, and the members of the assignment that led to them. */
  lemma TrainingStops(points: seq<Point>, dim: nat, maxIterations: nat, dist: Metric, seeds: seq<nat>)
    returns (run: seq<seq<seq<real>>>)
    requires Uniform(points, dim) && seeds != [] && InRange(seeds, |points|)
    ensures var n := Passes(points, dim, maxIterations, dist, seeds);
            var cl := Trained(points, dim, maxIterations, dist, seeds);
            && |run| == n + 1 && IsTrainingRun(run, points, dist, dim)
            && |run[0]| == |seeds| && (forall j :: 0 <= j < |seeds| ==> run[0][j] == points[seeds[j]].vector)
            && (forall p :: 0 <= p < n - 1 ==> Moves(run[p], run[p + 1]))
            && (n < maxIterations ==> !Moves(run[n - 1], run[n]))
            && |run[n]| == |cl| && forall j :: 0 <= j < |cl| ==>
                 cl[j].centroid == run[n][j] && cl[j].recordIndex == Assigned(points, run[n - 1], dist, |points|)[j]
  {
    hide NextCentroids, Moves, Assigned;
    SeededUniform(points, seeds, dim);
    run := LloydStops(points, Seeded(points, seeds), dist, dim, maxIterations, 0);
  }
}
