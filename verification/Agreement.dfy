/** The index against the scan it speeds up: what approximate search returns compared with exact search. */
module Agreement {
  import opened Bytes
  import opened RecordLog
  import opened RamTable
  import opened Distance
  import opened TopK
  import opened Rankwise
  import opened ResultSlots
  import opened FlatSearch
  import opened KMeans
  import opened LloydDescent
  import opened Ivf

  // ---- distinct positions ----

  lemma {:induction false} DistinctCounts(s: seq<nat>, x: nat)
    requires Distinct(s)
    ensures multiset(s)[x] <= 1
  {
    if s != [] {
      var front, last := s[..|s| - 1], s[|s| - 1];
      DistinctCounts(front, x);
      assert s == front + [last];
      if x == last {
        AbsentCounts(front, x);
      }
    }
  }

  lemma {:induction false} AbsentCounts(s: seq<nat>, x: nat)
    requires forall i :: 0 <= i < |s| ==> s[i] != x
    ensures multiset(s)[x] == 0
  {
    assert x !in s;
  }

  /** Distinct positions below `n` are among all positions below `n`, and are all of them when there are `n`. */
  lemma DistinctAmongAll(s: seq<nat>, n: nat)
    requires Distinct(s) && InRange(s, n)
    ensures multiset(s) <= multiset(Upto(n))
    ensures |s| == n ==> multiset(s) == multiset(Upto(n))
  {
    forall x: nat
      ensures multiset(s)[x] <= multiset(Upto(n))[x]
    {
      DistinctCounts(s, x);
      if x in multiset(s) {
        assert x in s;
        assert Upto(n)[x] == x;
        assert x in Upto(n);
      }
    }
    if |s| == n {
      SameSizeIncluded(multiset(s), multiset(Upto(n)));
    }
  }

  lemma SameSizeIncluded(a: multiset<nat>, b: multiset<nat>)
    requires a <= b && |a| == |b|
    ensures a == b
  {
    assert b == a + (b - a);
    assert |b - a| == 0;
  }

  // ---- gathered records ----

  function MembersOf(ms: seq<seq<nat>>): nat -> seq<nat> {
    (j: nat) => if j < |ms| then ms[j] else []
  }

  lemma {:induction false} FlattenIsFlatMap(ms: seq<seq<nat>>, k: nat)
    requires k <= |ms|
    ensures Flatten(ms[..k]) == FlatMap(Upto(k), MembersOf(ms))
  {
    if k > 0 {
      FlattenIsFlatMap(ms, k - 1);
      assert ms[..k][..k - 1] == ms[..k - 1];
      assert Upto(k)[..k - 1] == Upto(k - 1);
    }
  }

  /** Probing distinct clusters gathers no record twice; probing all of them gathers each clustered record once. */
  lemma GatheredRecords(ms: seq<seq<nat>>, best: seq<nat>)
    requires Distinct(best) && InRange(best, |ms|)
    ensures multiset(FlatMap(best, MembersOf(ms))) <= multiset(Flatten(ms))
    ensures |best| == |ms| ==> multiset(FlatMap(best, MembersOf(ms))) == multiset(Flatten(ms))
  {
    DistinctAmongAll(best, |ms|);
    FlattenIsFlatMap(ms, |ms|);
    assert ms[..|ms|] == ms;
    FlatMapMonotone(best, Upto(|ms|), MembersOf(ms));
    if |best| == |ms| {
      FlatMapSameMultiset(best, Upto(|ms|), MembersOf(ms));
    }
  }

  // ---- pairs of distance and id ----

  function NearPair(c: Candidate): seq<Pair> {
    if c.dis < FLT_MAX then [(c.dis, c.id)] else []
  }

  function IdOf(cs: seq<Candidate>): nat -> nat {
    (i: nat) => if i < |cs| then cs[i].id else 0
  }

  /** The pairs that ranking the candidates can show. */
  lemma {:induction false} RankedPairs(cs: seq<Candidate>, n: nat)
    requires n <= |cs|
    ensures PairSeq(Below(RankedOf(cs)[..n], FLT_MAX), IdOf(cs)) == FlatMap(cs[..n], NearPair)
  {
    if n > 0 {
      RankedPairs(cs, n - 1);
      var es := RankedOf(cs);
      assert es[..n][..n - 1] == es[..n - 1] && cs[..n][..n - 1] == cs[..n - 1];
      assert Below(es[..n], FLT_MAX)
          == Below(es[..n - 1], FLT_MAX) + (if cs[n - 1].dis < FLT_MAX then [es[n - 1]] else []);
    }
  }

  /** The pair that record `i` of the log contributes to a search, if it is visible and near enough. */
  function PairOf(log: seq<Record>, q: Query): nat -> seq<Pair> {
    (i: nat) => if i < |log| && Visible(log[i], q).Some? then NearPair(Visible(log[i], q).value) else []
  }

  lemma FlatMapOne<A, B>(x: A, f: A -> seq<B>)
    ensures FlatMap([x], f) == f(x)
  {
    assert [x][..0] == [];
  }

  lemma {:induction false} ScanPairs(log: seq<Record>, q: Query, n: nat)
    requires n <= |log|
    ensures FlatMap(Scan(log[..n], q), NearPair) == FlatMap(Upto(n), PairOf(log, q))
  {
    if n > 0 {
      hide Visible;
      ScanPairs(log, q, n - 1);
      ScanStep(log, q, n - 1);
      assert Upto(n)[..n - 1] == Upto(n - 1);
      if Visible(log[n - 1], q).Some? {
        var c := Visible(log[n - 1], q).value;
        FlatMapConcat(Scan(log[..n - 1], q), [c], NearPair);
        FlatMapOne(c, NearPair);
      }
    }
  }

  // ---- the index and the log ----

  /** Fetching at the offset noted for record `i` finds that record: same id, flag and vector. */
  ghost predicate Fetches(points: seq<Point>, log: seq<Record>, view: seq<Byte>, dim: nat) {
    && |points| == |log|
    && forall i :: 0 <= i < |log| ==> FetchesOne(points[i].byteOffset, log[i], view, dim)
  }

  ghost predicate FetchesOne(offset: nat, r: Record, view: seq<Byte>, dim: nat) {
    match Decode(view, offset, dim)
    case None => false
    case Some(f) => f.id == r.id && f.deleted == r.deleted && f.vector == r.vector
  }

  /** The clusters come from training on the records of this log; since then records may have been deleted, but none
      has been added, moved or revived. */
  ghost predicate TrainedOn(clusters: seq<Cluster>, points: seq<Point>, log: seq<Record>) {
    && |points| == |log|
    && multiset(Flatten(IndexLists(clusters))) == multiset(LiveIndices(points, |points|))
    && (forall i :: 0 <= i < |log| && points[i].deleted ==> log[i].deleted)
    && forall j :: 0 <= j < |clusters| ==>
         InRange(clusters[j].recordIndex, |points|) && clusters[j].byteOffsets == OffsetsOf(points, clusters[j].recordIndex)
  }

  lemma FetchedPairOne(offset: nat, i: nat, log: seq<Record>, view: seq<Byte>, dim: nat, q: Query)
    requires i < |log| && FetchesOne(offset, log[i], view, dim)
    ensures FlatMap(FetchedAt(view, dim, q)(offset), NearPair) == PairOf(log, q)(i)
  {
    hide Decode;
    var f := Decode(view, offset, dim).value;
    if Visible(f, q).Some? {
      FlatMapOne(Visible(f, q).value, NearPair);
    }
  }

  /** Fetching the members of one cluster yields the pairs of those records. */
  lemma {:induction false} FetchedPairs(ms: seq<nat>, points: seq<Point>, log: seq<Record>, view: seq<Byte>, dim: nat,
                                        q: Query, n: nat)
    requires Fetches(points, log, view, dim) && InRange(ms, |points|) && n <= |ms|
    ensures FlatMap(Fetched(OffsetsOf(points, ms)[..n], view, dim, q), NearPair) == FlatMap(ms[..n], PairOf(log, q))
  {
    if n > 0 {
      hide FetchesOne, PairOf, FetchedAt, NearPair, FlatMap;
      FetchedPairs(ms, points, log, view, dim, q, n - 1);
      var os, fetch := OffsetsOf(points, ms), FetchedAt(view, dim, q);
      PrefixStep(os, fetch, n);
      PrefixStep(ms, PairOf(log, q), n);
      FlatMapConcat(FlatMap(os[..n - 1], fetch), fetch(os[n - 1]), NearPair);
      FetchedPairOne(os[n - 1], ms[n - 1], log, view, dim, q);
    } else {
      assert OffsetsOf(points, ms)[..0] == [] && ms[..0] == [];
    }
  }

  lemma PrefixStep<B>(s: seq<nat>, f: nat -> seq<B>, n: nat)
    requires 0 < n <= |s|
    ensures FlatMap(s[..n], f) == FlatMap(s[..n - 1], f) + f(s[n - 1])
  {
    assert s[..n][..n - 1] == s[..n - 1];
  }

  /** Fetching the members of the probed clusters, in probe order, yields the pairs of those records in that order. */
  lemma {:induction false} GatheredPairs(clusters: seq<Cluster>, best: seq<nat>, points: seq<Point>, log: seq<Record>,
                                         view: seq<Byte>, dim: nat, q: Query)
    requires InRange(best, |clusters|) && TrainedOn(clusters, points, log) && Fetches(points, log, view, dim)
    ensures FlatMap(Fetched(GatherOffsets(clusters, best), view, dim, q), NearPair)
         == FlatMap(FlatMap(best, MembersOf(IndexLists(clusters))), PairOf(log, q))
  {
    if best != [] {
      hide Fetches, FetchedAt, PairOf, Flatten, LiveIndices;
      var front, c := best[..|best| - 1], clusters[best[|best| - 1]];
      GatheredPairs(clusters, front, points, log, view, dim, q);
      FlatMapConcat(GatherOffsets(clusters, front), c.byteOffsets, FetchedAt(view, dim, q));
      FlatMapConcat(Fetched(GatherOffsets(clusters, front), view, dim, q), Fetched(c.byteOffsets, view, dim, q), NearPair);
      FetchedPairs(c.recordIndex, points, log, view, dim, q, |c.recordIndex|);
      assert c.byteOffsets[..|c.recordIndex|] == c.byteOffsets && c.recordIndex[..|c.recordIndex|] == c.recordIndex;
      FlatMapConcat(FlatMap(front, MembersOf(IndexLists(clusters))), c.recordIndex, PairOf(log, q));
    }
  }

  /** Records that were deleted when the clusters were trained contribute nothing, so scanning the trained records is
      scanning them all. */
  lemma {:induction false} LivePairs(points: seq<Point>, log: seq<Record>, q: Query, n: nat)
    requires |points| == |log| && n <= |log|
    requires forall i :: 0 <= i < |log| && points[i].deleted ==> log[i].deleted
    ensures FlatMap(LiveIndices(points, n), PairOf(log, q)) == FlatMap(Upto(n), PairOf(log, q))
  {
    hide *;
    if n == 0 {
      NoPairs(points, PairOf(log, q));
    } else {
      var f := PairOf(log, q);
      LivePairs(points, log, q, n - 1);
      UptoStep(n, f);
      LiveStep(points, n, f);
      if points[n - 1].deleted {
        DeadPairEmpty(log, q, n - 1);
        assert FlatMap(Upto(n - 1), f) + [] == FlatMap(Upto(n - 1), f);
      }
    }
  }

  lemma NoPairs<B>(points: seq<Point>, f: nat -> seq<B>)
    ensures FlatMap(LiveIndices(points, 0), f) == [] && FlatMap(Upto(0), f) == []
  {
  }

  lemma UptoStep<B>(n: nat, f: nat -> seq<B>)
    requires n > 0
    ensures FlatMap(Upto(n), f) == FlatMap(Upto(n - 1), f) + f(n - 1)
  {
    assert Upto(n)[..n - 1] == Upto(n - 1);
  }

  lemma LiveStep<B>(points: seq<Point>, n: nat, f: nat -> seq<B>)
    requires 0 < n <= |points|
    ensures points[n - 1].deleted ==> LiveIndices(points, n) == LiveIndices(points, n - 1)
    ensures !points[n - 1].deleted ==>
              FlatMap(LiveIndices(points, n), f) == FlatMap(LiveIndices(points, n - 1), f) + f(n - 1)
  {
    var before := LiveIndices(points, n - 1);
    if !points[n - 1].deleted {
      assert LiveIndices(points, n) == before + [n - 1];
      assert (before + [n - 1])[..|before|] == before;
    }
  }

  lemma DeadPairEmpty(log: seq<Record>, q: Query, i: nat)
    requires i < |log| && log[i].deleted
    ensures PairOf(log, q)(i) == []
  {
  }

  function AnnCandidates(clusters: seq<Cluster>, q: Query, nprobe: nat, view: seq<Byte>, dim: nat): seq<Candidate>
    requires clusters != []
  {
    Fetched(GatherOffsets(clusters, Probed(clusters, q, nprobe)), view, dim, q)
  }

  function Pairs(cs: seq<Candidate>): multiset<Pair> {
    multiset(PairSeq(Below(RankedOf(cs), FLT_MAX), IdOf(cs)))
  }

  /** What the probe can rank is part of what the scan can rank, and all of it when every cluster is probed. */
  lemma AnnPairsAmongScanPairs(clusters: seq<Cluster>, points: seq<Point>, log: seq<Record>, view: seq<Byte>, dim: nat,
                               q: Query, nprobe: nat)
    requires clusters != [] && TrainedOn(clusters, points, log) && Fetches(points, log, view, dim)
    requires Distinct(Probed(clusters, q, nprobe))
    ensures Pairs(AnnCandidates(clusters, q, nprobe, view, dim)) <= Pairs(Scan(log, q))
    ensures nprobe == |clusters| ==> Pairs(AnnCandidates(clusters, q, nprobe, view, dim)) == Pairs(Scan(log, q))
  {
    hide Fetches, FetchedAt, PairOf, Flatten, LiveIndices, Probed, Scan, Distinct, Below, PairSeq;
    var best := Probed(clusters, q, nprobe);
    var ms := IndexLists(clusters);
    var ann, scan := AnnCandidates(clusters, q, nprobe, view, dim), Scan(log, q);
    var gathered := FlatMap(best, MembersOf(ms));
    RankedPairs(ann, |ann|);
    RankedPairs(scan, |scan|);
    assert RankedOf(ann)[..|ann|] == RankedOf(ann) && ann[..|ann|] == ann;
    assert RankedOf(scan)[..|scan|] == RankedOf(scan) && scan[..|scan|] == scan;
    assert log[..|log|] == log;
    GatheredPairs(clusters, best, points, log, view, dim, q);
    ScanPairs(log, q, |log|);
    LivePairs(points, log, q, |log|);
    GatheredRecords(ms, best);
    FlatMapMonotone(gathered, LiveIndices(points, |points|), PairOf(log, q));
    if nprobe == |clusters| {
      FlatMapSameMultiset(gathered, LiveIndices(points, |points|), PairOf(log, q));
    }
  }

  // ---- the two theorems ----

  /** The slots of a search over these candidates. */
  function Slots(cs: seq<Candidate>, k: nat, strings: map<nat, seq<Byte>>, next: nat): (s: seq<SearchResult>)
    ensures |s| == k
  {
    HeldAfter(cs, k, strings, next).slots
  }

  lemma SlotDistance(cs: seq<Candidate>, k: nat, strings: map<nat, seq<Byte>>, next: nat, r: nat)
    requires r < k && forall x :: x in strings ==> x < next
    ensures Slots(cs, k, strings, next)[r].distance == Ranking(RankedOf(cs), k, SENTINEL)[r].dist
  {
    hide Ranking;
    SlotsShowRanking(cs, k, strings, next);
  }

  /** Approximate search never beats exact search: at every rank its distance is at least the exact one. */
  lemma ApproximateNeverBeatsExact(clusters: seq<Cluster>, points: seq<Point>, log: seq<Record>, view: seq<Byte>,
                                   dim: nat, q: Query, nprobe: nat, k: nat,
                                   strings: map<nat, seq<Byte>>, next: nat, r: nat)
    requires clusters != [] && 1 <= nprobe <= |clusters| && r < k && forall x :: x in strings ==> x < next
    requires TrainedOn(clusters, points, log) && Fetches(points, log, view, dim)
    requires forall i :: 0 <= i < |clusters| ==> q.dist(clusters[i].centroid, q.vector) < FAR
    ensures Distinct(Probed(clusters, q, nprobe))
    ensures Slots(Scan(log, q), k, strings, next)[r].distance
         <= Slots(AnnCandidates(clusters, q, nprobe, view, dim), k, strings, next)[r].distance
  {
    hide TrainedOn, Fetches, Slots, Below, Ranking, PairSeq, Scan, AnnCandidates;
    var ann, scan := AnnCandidates(clusters, q, nprobe, view, dim), Scan(log, q);
    ProbedNearest(clusters, q, nprobe);
    AnnPairsAmongScanPairs(clusters, points, log, view, dim, q, nprobe);
    SlotDistance(ann, k, strings, next, r);
    SlotDistance(scan, k, strings, next, r);
    FewerCandidatesRankFarther(RankedOf(ann), RankedOf(scan), IdOf(ann), IdOf(scan), k, SENTINEL, r);
  }

  /** The pairs of distance and id that the slots show, rank by rank. */
  function Shown(slots: seq<SearchResult>): (ps: seq<Pair>)
    ensures |ps| == |slots|
  {
    seq(|slots|, i requires 0 <= i < |slots| => (slots[i].distance, slots[i].id))
  }

  /** With every cluster probed, the index agrees with the scan: the same distance at every rank, and, nearer than the
      last rank, the same ids equally often (only ties at the cut may be resolved differently). */
  lemma IndexAgreesWithScan(clusters: seq<Cluster>, points: seq<Point>, log: seq<Record>, view: seq<Byte>, dim: nat,
                            q: Query, k: nat, strings: map<nat, seq<Byte>>, next: nat)
    requires clusters != [] && k > 0 && forall x :: x in strings ==> x < next
    requires TrainedOn(clusters, points, log) && Fetches(points, log, view, dim)
    requires forall i :: 0 <= i < |clusters| ==> q.dist(clusters[i].centroid, q.vector) < FAR
    ensures var ann := Slots(AnnCandidates(clusters, q, |clusters|, view, dim), k, strings, next);
            var flat := Slots(Scan(log, q), k, strings, next);
            && (forall r :: 0 <= r < k ==> ann[r].distance == flat[r].distance)
            && forall pair: Pair :: pair.0 < flat[k - 1].distance ==>
                 multiset(Shown(ann))[pair] == multiset(Shown(flat))[pair]
  {
    hide TrainedOn, Fetches, Slots, Below, Ranking, PairSeq, Scan, AnnCandidates, Probed, Shown;
    var ann, scan := AnnCandidates(clusters, q, |clusters|, view, dim), Scan(log, q);
    ProbedNearest(clusters, q, |clusters|);
    AnnPairsAmongScanPairs(clusters, points, log, view, dim, q, |clusters|);
    forall r | 0 <= r < k
      ensures Slots(ann, k, strings, next)[r].distance == Slots(scan, k, strings, next)[r].distance
    {
      SlotDistance(ann, k, strings, next, r);
      SlotDistance(scan, k, strings, next, r);
      SameCandidatesSameDistances(RankedOf(ann), RankedOf(scan), IdOf(ann), IdOf(scan), k, SENTINEL, r);
    }
    forall pair: Pair | pair.0 < Slots(scan, k, strings, next)[k - 1].distance
      ensures multiset(Shown(Slots(ann, k, strings, next)))[pair] == multiset(Shown(Slots(scan, k, strings, next)))[pair]
    {
      ShownPairs(ann, k, strings, next, pair);
      ShownPairs(scan, k, strings, next, pair);
    }
  }

  /** Nearer than the last rank, the slots show a pair as often as the candidates have it. */
  lemma ShownPairs(cs: seq<Candidate>, k: nat, strings: map<nat, seq<Byte>>, next: nat, pair: Pair)
    requires k > 0 && forall x :: x in strings ==> x < next
    requires pair.0 < Slots(cs, k, strings, next)[k - 1].distance
    ensures multiset(Shown(Slots(cs, k, strings, next)))[pair] == Pairs(cs)[pair]
  {
    hide Below, Ranking, PairSeq, Pairs;
    var out := Ranking(RankedOf(cs), k, SENTINEL);
    SlotDistance(cs, k, strings, next, k - 1);
    SlotsShowRanking(cs, k, strings, next);
    RankingBelowSentinel(RankedOf(cs), k, SENTINEL);
    NearPairsAreAllRanked(RankedOf(cs), IdOf(cs), k, SENTINEL, pair);
    ShownMatches(HeldAfter(cs, k, strings, next), out, cs, pair, k);
    PairsIs(cs);
    assert out[..k] == out && Slots(cs, k, strings, next)[..k] == Slots(cs, k, strings, next);
  }

  lemma PairsIs(cs: seq<Candidate>)
    ensures Pairs(cs) == multiset(PairSeq(Below(RankedOf(cs), SENTINEL.dist), IdOf(cs)))
  {
  }

  lemma {:induction false} ShownMatches(h: Held, es: seq<Ranked>, cs: seq<Candidate>, pair: Pair, n: nat)
    requires AllShow(h, es, cs) && n <= |es|
    requires forall r :: 0 <= r < |es| ==> es[r].dist <= FLT_MAX
    requires pair.0 < FLT_MAX
    ensures multiset(Shown(h.slots[..n]))[pair] == multiset(PairSeq(es[..n], IdOf(cs)))[pair]
  {
    if n > 0 {
      ShownMatches(h, es, cs, pair, n - 1);
      assert Shows(h.slots[n - 1], es[n - 1], cs, h.strings);
      assert Shown(h.slots[..n]) == Shown(h.slots[..n - 1]) + [(h.slots[n - 1].distance, h.slots[n - 1].id)];
      assert PairSeq(es[..n], IdOf(cs)) == PairSeq(es[..n - 1], IdOf(cs)) + [PairAt(es[n - 1], IdOf(cs))];
    }
  }

  // ---- training provides what the theorems ask for ----

  /** The view of the record array that training takes. */
  function PointsOf(log: seq<Record>, offsets: seq<nat>): (ps: seq<Point>)
    requires |offsets| == |log|
    ensures |ps| == |log|
  {
    seq(|log|, i requires 0 <= i < |log| => Point(Values(log[i].vector), log[i].deleted, offsets[i]))
  }

  /** Clusters built by training on some records are trained on every later state of them that only has more deletions. */
  lemma TrainingGivesIndex(points: seq<Point>, log: seq<Record>, dim: nat, maxIterations: nat, dist: Metric,
                           seeds: seq<nat>)
    requires Uniform(points, dim) && |points| == |log| && seeds != [] && InRange(seeds, |points|)
    requires forall i :: 0 <= i < |log| && points[i].deleted ==> log[i].deleted
    ensures TrainedOn(Trained(points, dim, maxIterations, dist, seeds), points, log)
  {
    hide Lloyd, LiveIndices, Flatten, Seeded, NearestOf;
    TrainingContract(points, dim, maxIterations, dist, seeds);
    var o := Lloyd(points, Seeded(points, seeds), dist, dim, maxIterations, 0);
    var cl := ClustersFrom(points, o.used, dist, dim);
    forall j | 0 <= j < |cl|
      ensures InRange(cl[j].recordIndex, |points|) && cl[j].byteOffsets == OffsetsOf(points, cl[j].recordIndex)
    {
      assert ClusterContract(points, cl[j], o.used, j, dist, dim);
    }
  }

  function ByteOffsets(rs: seq<RamRecord>): (os: seq<nat>)
    ensures |os| == |rs|
  {
    seq(|rs|, i requires 0 <= i < |rs| => rs[i].byteOffset)
  }

  /** The byte offsets of the first `n` records of a mirrored array fetch those records, when the mapping covers just
      them: what lies behind it, such as inserts that are still queued, does not matter. */
  lemma MirroredTableFetches(rs: seq<RamRecord>, log: seq<Record>, file: seq<Byte>, mapped: nat, dim: nat, n: nat)
    requires Mirrors(rs, log, file, mapped, dim) && n <= |log| && mapped == Offset(log, dim, n)
    ensures Fetches(PointsOf(log[..n], ByteOffsets(rs[..n])), log[..n], file[..mapped], dim)
  {
    hide EncodeAll, Decode, Values, Offset;
    EncodeAllPrefix(log, dim, n);
    forall i | 0 <= i < n
      ensures FetchesOne(rs[i].byteOffset, log[i], file[..mapped], dim)
    {
      assert StandsFor(rs[i], log[i], Offset(log, dim, i), mapped, dim);
      OffsetOfPrefix(log, dim, i, n);
      FetchFindsRecord(log[..n], dim, i);
    }
  }

  lemma OffsetOfPrefix(log: seq<Record>, dim: nat, i: nat, n: nat)
    requires AllStorable(log, dim) && i <= n <= |log|
    ensures Offset(log[..n], dim, i) == Offset(log, dim, i)
  {
    assert log[..n][..i] == log[..i];
  }
}
