/** Training on a table that the server is working on, and how the index it leaves behind agrees with later searches. */
module TrainedIndex {
  import opened Bytes
  import opened RecordLog
  import Tombstone
  import opened RamTable
  import opened TableProtocol
  import opened Distance
  import opened TopK
  import opened Rankwise
  import opened ResultSlots
  import opened FlatSearch
  import opened KMeans
  import opened Ivf
  import opened Agreement
  import opened LiveSearch

  // ---- training reads the log through the array ----

  /** An enabled training follows only pointers that can be read. */
  lemma TrainingReads(s: State, dim: nat, seeds: seq<nat>)
    requires s.mapped <= |s.file| && Enabled(s, Train(seeds), dim)
    ensures seeds != [] && InRange(seeds, |s.records|) && TrainReads(s.records, ViewOf(s), dim, seeds)
  {
    hide Readable, MetaFits;
    assert SeedsReadable(s, seeds, dim);
  }

  /** What training reads through the array is what the log holds. */
  lemma PointsReadAreLogged(s: State, log: seq<Record>, dim: nat, i: nat)
    requires Inv(s, log, dim) && i < |s.records| && RecordReadable(s.records[i], ViewOf(s), dim)
    ensures |s.records| <= |log|
    ensures PointsRead(s.records, ViewOf(s), dim)[i] == PointsOf(log[..|s.records|], ByteOffsets(s.records))[i]
  {
    hide EncodeAll, Offset, Values;
    var all := s.records + s.queue;
    assert all[i] == s.records[i];
    ReadableWhenCurrent(s, log, dim, i);
    MirrorReads(all, log, s.file, s.mapped, s.generation, dim, i);
    ArrayAgreesWithLog(s, log, dim);
  }

  /** With every vector readable, the points that training reads are those of the log. */
  lemma AllPointsAreLogged(s: State, log: seq<Record>, dim: nat)
    requires Inv(s, log, dim) && PointersValid(s, AllRecords, dim)
    ensures |s.records| <= |log|
    ensures PointsRead(s.records, ViewOf(s), dim) == PointsOf(log[..|s.records|], ByteOffsets(s.records))
  {
    hide EncodeAll, Offset, RecordReadable, PointsRead, PointsOf;
    ArrayAgreesWithLog(s, log, dim);
    forall i | 0 <= i < |s.records|
      ensures PointsRead(s.records, ViewOf(s), dim)[i] == PointsOf(log[..|s.records|], ByteOffsets(s.records))[i]
    {
      PointsReadAreLogged(s, log, dim, i);
    }
  }

  /** Whatever it picks as seeds, an enabled training on the array comes to the clusters of a training on the log, also
      when the vectors of some deleted records can no longer be read. */
  lemma TrainingSeesLog(s: State, log: seq<Record>, dim: nat, maxIterations: nat, dist: Metric, seeds: seq<nat>)
    requires Inv(s, log, dim) && s.mapped <= |s.file| && Enabled(s, Train(seeds), dim)
    ensures |s.records| <= |log| && seeds != [] && InRange(seeds, |s.records|)
    ensures var logged := PointsOf(log[..|s.records|], ByteOffsets(s.records));
            && Uniform(logged, dim)
            && Trained(PointsRead(s.records, ViewOf(s), dim), dim, maxIterations, dist, seeds)
               == Trained(logged, dim, maxIterations, dist, seeds)
  {
    hide RecordReadable, PointsRead, PointsOf, Trained, Mirrors, Offset;
    ArrayAgreesWithLog(s, log, dim);
    TrainingReads(s, dim, seeds);
    var read, logged := PointsRead(s.records, ViewOf(s), dim), PointsOf(log[..|s.records|], ByteOffsets(s.records));
    LoggedShape(s, log, dim);
    forall i | 0 <= i < |s.records| && RecordReadable(s.records[i], ViewOf(s), dim)
      ensures read[i] == logged[i]
    {
      PointsReadAreLogged(s, log, dim, i);
    }
    assert SeedsReadable(s, seeds, dim);
    TrainedSame(read, logged, dim, maxIterations, dist, seeds);
  }

  lemma LoggedShape(s: State, log: seq<Record>, dim: nat)
    requires Inv(s, log, dim)
    ensures |s.records| <= |log|
    ensures var read, logged := PointsRead(s.records, ViewOf(s), dim), PointsOf(log[..|s.records|], ByteOffsets(s.records));
            && Uniform(logged, dim) && |read| == |logged|
            && forall i :: 0 <= i < |read| ==>
                 && read[i].deleted == logged[i].deleted == s.records[i].deleted
                 && read[i].byteOffset == logged[i].byteOffset
  {
    hide EncodeAll, Offset, Values;
    ArrayAgreesWithLog(s, log, dim);
    forall i | 0 <= i < |s.records|
      ensures Storable(log[i], dim)
    {
    }
  }

  // ---- what later steps leave of the trained records ----

  /** The records of an earlier array are still there, at their places in array and file; some may have been deleted. */
  predicate Outlives(earlier: seq<RamRecord>, later: seq<RamRecord>) {
    && |earlier| <= |later|
    && forall i :: 0 <= i < |earlier| ==>
         && later[i].id == earlier[i].id && later[i].byteOffset == earlier[i].byteOffset
         && (earlier[i].deleted ==> later[i].deleted)
  }

  lemma StepOutlives(s: State, a: Action, dim: nat)
    requires Defined(s) && Enabled(s, a, dim) && a != Compact
    ensures Outlives(s.records, Apply(s, a, dim).records)
  {
    hide Encode, Tombstone.Patch, RecordReadable;
  }

  /** Until the next compaction, which also discards the index. */
  lemma {:induction false} RunOutlives(states: seq<State>, actions: seq<Action>, dim: nat, i: nat, j: nat)
    requires IsRun(states, actions, dim) && i <= j <= |actions|
    requires forall t :: i <= t < j ==> actions[t] != Compact
    ensures Outlives(states[i].records, states[j].records)
  {
    hide Apply, Enabled, Defined;
    if i < j {
      RunOutlives(states, actions, dim, i, j - 1);
      assert Next(states[j - 1], actions[j - 1], states[j], dim);
      StepOutlives(states[j - 1], actions[j - 1], dim);
    }
  }

  // ---- the index and later searches ----

  /** The clusters that the training at step `i` of a run hands out. */
  function ClustersAt(s: State, dim: nat, maxIterations: nat, dist: Metric, seeds: seq<nat>): (cl: seq<Cluster>)
    requires s.mapped <= |s.file| && seeds != [] && InRange(seeds, |s.records|)
    ensures |cl| == |seeds|
  {
    Trained(PointsRead(s.records, ViewOf(s), dim), dim, maxIterations, dist, seeds)
  }

  /** Clusters trained on an earlier state index the records of that state in every later one. */
  lemma IndexOutlives(early: State, late: State, log: seq<Record>, dim: nat, maxIterations: nat, dist: Metric,
                      seeds: seq<nat>)
    requires early.mapped <= |early.file| && seeds != [] && InRange(seeds, |early.records|)
    requires Inv(late, log, dim) && Outlives(early.records, late.records)
    ensures |early.records| <= |late.records| <= |log|
    ensures var n, points := |early.records|, PointsRead(early.records, ViewOf(early), dim);
            && TrainedOn(ClustersAt(early, dim, maxIterations, dist, seeds), points, log[..n])
            && Fetches(points, log[..n], ViewOf(late).bytes, dim)
  {
    hide EncodeAll, Offset, Trained, Values, Readable, TrainedOn, FetchesOne;
    var n, m, points := |early.records|, |late.records|, PointsRead(early.records, ViewOf(early), dim);
    var all := late.records + late.queue;
    ArrayAgreesWithLog(late, log, dim);
    TrainingGivesIndex(points, log[..n], dim, maxIterations, dist, seeds);
    MirroredTableFetches(all, log, late.file, late.mapped, dim, m);
    var fetched := PointsOf(log[..m], ByteOffsets(all[..m]));
    forall i | 0 <= i < n
      ensures FetchesOne(points[i].byteOffset, log[i], ViewOf(late).bytes, dim)
    {
      assert FetchesOne(fetched[i].byteOffset, log[..m][i], late.file[..late.mapped], dim);
    }
  }

  /** What a search of the array from its first record up to some record offers is part of what one further on offers. */
  lemma PairsGrow(log: seq<Record>, q: Query, n: nat, m: nat)
    requires n <= m <= |log|
    ensures Pairs(Scan(log[..n], q)) <= Pairs(Scan(log[..m], q))
  {
    hide Scan, Below, PairSeq, FlatMap, PairOf, NearPair;
    ScanIsPairs(log, q, n);
    ScanIsPairs(log, q, m);
    assert Upto(m) == Upto(n) + Upto(m)[n..];
    FlatMapConcat(Upto(n), Upto(m)[n..], PairOf(log, q));
  }

  lemma ScanIsPairs(log: seq<Record>, q: Query, n: nat)
    requires n <= |log|
    ensures Pairs(Scan(log[..n], q)) == multiset(FlatMap(Upto(n), PairOf(log, q)))
  {
    hide Scan, Below, PairSeq, FlatMap, PairOf, NearPair;
    var cs := Scan(log[..n], q);
    RankedPairs(cs, |cs|);
    assert RankedOf(cs)[..|cs|] == RankedOf(cs) && cs[..|cs|] == cs;
    ScanPairs(log, q, n);
  }

  /** More records never rank farther. */
  lemma LongerScanRanksNearer(log: seq<Record>, q: Query, n: nat, m: nat, k: nat, strings: map<nat, seq<Byte>>, next: nat,
                              r: nat)
    requires n <= m <= |log| && r < k && forall x :: x in strings ==> x < next
    ensures Slots(Scan(log[..m], q), k, strings, next)[r].distance
         <= Slots(Scan(log[..n], q), k, strings, next)[r].distance
  {
    hide Slots, Below, Ranking, PairSeq, Scan;
    var few, more := Scan(log[..n], q), Scan(log[..m], q);
    PairsGrow(log, q, n, m);
    SlotDistance(few, k, strings, next, r);
    SlotDistance(more, k, strings, next, r);
    FewerCandidatesRankFarther(RankedOf(few), RankedOf(more), IdOf(few), IdOf(more), k, SENTINEL, r);
  }

  /** An index trained at step `i` of a run, and a later state with no compaction in between: what the index still knows
      of the state, and what a scan of it reads. */
  ghost predicate IndexedRun(states: seq<State>, actions: seq<Action>, log: seq<Record>, dim: nat, i: nat, j: nat) {
    && IsRun(states, actions, dim) && Inv(states[0], log, dim)
    && i < j <= |actions| && actions[i].Train? && (forall t :: i < t < j ==> actions[t] != Compact)
    && states[j].mapped <= |states[j].file| && PointersValid(states[j], LiveRecords, dim)
  }

  /** The clusters that the training at step `i` has left. */
  ghost function IndexAt(states: seq<State>, actions: seq<Action>, log: seq<Record>, dim: nat, i: nat, j: nat,
                         maxIterations: nat, dist: Metric): (cl: seq<Cluster>)
    requires IndexedRun(states, actions, log, dim, i, j)
    ensures cl != []
  {
    assert Next(states[i], actions[i], states[i + 1], dim);
    TrainingReads(states[i], dim, actions[i].seeds);
    ClustersAt(states[i], dim, maxIterations, dist, actions[i].seeds)
  }

  lemma IndexInRun(states: seq<State>, actions: seq<Action>, log: seq<Record>, dim: nat, i: nat, j: nat,
                   maxIterations: nat, dist: Metric) returns (points: seq<Point>, reached: seq<Record>)
    requires IndexedRun(states, actions, log, dim, i, j)
    ensures Inv(states[j], reached, dim) && reached == LogAfter(states, actions, log, dim, j)
    ensures |points| == |states[i].records| <= |states[j].records| <= |reached|
    ensures TrainedOn(IndexAt(states, actions, log, dim, i, j, maxIterations, dist), points, reached[..|points|])
    ensures Fetches(points, reached[..|points|], ViewOf(states[j]).bytes, dim)
  {
    hide Inv, Apply, LogAfter, PointsRead, TrainedOn, Fetches, ClustersAt, PointersValid;
    assert Next(states[i], actions[i], states[i + 1], dim);
    var seeds := actions[i].seeds;
    TrainingReads(states[i], dim, seeds);
    reached := LogAfter(states, actions, log, dim, j);
    RunRefines(states, actions, log, dim, j);
    RunOutlives(states, actions, dim, i, j);
    IndexOutlives(states[i], states[j], reached, dim, maxIterations, dist, seeds);
    points := PointsRead(states[i].records, ViewOf(states[i]), dim);
  }

  /** Whatever happens after a training, short of a compaction: a search that probes some of its clusters finds at no rank
      anything nearer than a scan of the array does. */
  lemma IndexNeverBeatsScan(states: seq<State>, actions: seq<Action>, log: seq<Record>, dim: nat, i: nat, j: nat,
                            maxIterations: nat, dist: Metric, q: Query, nprobe: nat, k: nat,
                            strings: map<nat, seq<Byte>>, next: nat, r: nat)
    requires IndexedRun(states, actions, log, dim, i, j) && r < k && forall x :: x in strings ==> x < next
    requires var cl := IndexAt(states, actions, log, dim, i, j, maxIterations, dist);
             1 <= nprobe <= |cl| && forall t :: 0 <= t < |cl| ==> q.dist(cl[t].centroid, q.vector) < FAR
    ensures var s, cl := states[j], IndexAt(states, actions, log, dim, i, j, maxIterations, dist);
            && SearchReads(s.records, ViewOf(s), dim, q)
            && Slots(ScanArray(s.records, ViewOf(s), dim, q), k, strings, next)[r].distance
               <= Slots(AnnCandidates(cl, q, nprobe, ViewOf(s).bytes, dim), k, strings, next)[r].distance
  {
    hide Inv, TrainedOn, Fetches, Slots, Scan, ScanArray, AnnCandidates, IndexAt, LogAfter, SearchReads;
    var s, cl := states[j], IndexAt(states, actions, log, dim, i, j, maxIterations, dist);
    var points, reached := IndexInRun(states, actions, log, dim, i, j, maxIterations, dist);
    var n, m := |points|, |s.records|;
    ApproximateNeverBeatsExact(cl, points, reached[..n], ViewOf(s).bytes, dim, q, nprobe, k, strings, next, r);
    LongerScanRanksNearer(reached, q, n, m, k, strings, next, r);
    SearchSeesLog(s, reached, dim, q, m);
    assert s.records[..m] == s.records;
  }

  /** A search that probes all of the clusters agrees with a scan of the records that were there at the training, as they
      are now: the same distance at every rank, and the same ids up to ties at the last rank. */
  lemma IndexAgreesInRun(states: seq<State>, actions: seq<Action>, log: seq<Record>, dim: nat, i: nat, j: nat,
                         maxIterations: nat, dist: Metric, q: Query, k: nat, strings: map<nat, seq<Byte>>, next: nat)
    requires IndexedRun(states, actions, log, dim, i, j) && k > 0 && forall x :: x in strings ==> x < next
    requires var cl := IndexAt(states, actions, log, dim, i, j, maxIterations, dist);
             forall t :: 0 <= t < |cl| ==> q.dist(cl[t].centroid, q.vector) < FAR
    ensures var s, n, cl := states[j], |states[i].records|, IndexAt(states, actions, log, dim, i, j, maxIterations, dist);
            && n <= |s.records| && SearchReads(s.records[..n], ViewOf(s), dim, q)
            && var ann := Slots(AnnCandidates(cl, q, |cl|, ViewOf(s).bytes, dim), k, strings, next);
               var flat := Slots(ScanArray(s.records[..n], ViewOf(s), dim, q), k, strings, next);
               && (forall r :: 0 <= r < k ==> ann[r].distance == flat[r].distance)
               && forall pair: Pair :: pair.0 < flat[k - 1].distance ==>
                    multiset(Shown(ann))[pair] == multiset(Shown(flat))[pair]
  {
    hide Inv, TrainedOn, Fetches, Slots, Scan, ScanArray, AnnCandidates, IndexAt, LogAfter, SearchReads, Shown;
    var s, cl := states[j], IndexAt(states, actions, log, dim, i, j, maxIterations, dist);
    var points, reached := IndexInRun(states, actions, log, dim, i, j, maxIterations, dist);
    var n := |points|;
    IndexAgreesWithScan(cl, points, reached[..n], ViewOf(s).bytes, dim, q, k, strings, next);
    SearchSeesLog(s, reached, dim, q, n);
  }
}
