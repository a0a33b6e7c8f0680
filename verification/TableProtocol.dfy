/** The server's table protocol as atomic steps under the table lock, and the log it refines. */
module TableProtocol {
  import opened Bytes
  import opened RecordLog
  import opened Tombstone
  import opened RamTable

  /** A table: its data file, how much of it is mapped and for the how-manieth time, the live array with its capacity,
      and the queue of inserts that are on disk but not yet in the array. */
  datatype State = State(file: seq<Byte>, mapped: nat, generation: nat, records: seq<RamRecord>, capacity: nat,
                         queue: seq<RamRecord>, queueCapacity: nat)

  datatype Action =
    | Insert(id: Word64, vector: seq<Word32>, metadata: Option<seq<Byte>>)
    | Drain
    | Search
    | Train(seeds: seq<nat>)
    | Delete(target: Word64)
    | Compact
    | RenameFails

  /** Which records of the array a reader may follow: searches and compactions the live ones, training also those that it
      happens to pick as seeds, deleted or not. */
  datatype Scope = LiveRecords | AllRecords

  predicate Covers(scope: Scope, r: RamRecord) {
    scope.AllRecords? || !r.deleted
  }

  /** Capacity after the worker's doubling loop; the loop needs a positive capacity to end. */
  function Grown(capacity: nat, needed: nat): (c: nat)
    requires capacity >= 1
    ensures capacity <= c && needed <= c
    ensures c == capacity || c < 2 * needed
    decreases needed - capacity
  {
    if capacity >= needed then capacity else Grown(2 * capacity, needed)
  }

  /** Capacities can double and every flag byte lies in the file. */
  predicate Defined(s: State) {
    && s.mapped <= |s.file| && s.capacity >= 1 && s.queueCapacity >= 1
    && forall i :: 0 <= i < |s.records| ==> s.records[i].byteOffset + FLAG_OFFSET < |s.file|
  }

  function ViewOf(s: State): Mapping
    requires s.mapped <= |s.file|
  {
    Mapping(s.file[..s.mapped], s.generation)
  }

  /** Every vector pointer of the records in scope leads into the current mapping or to the heap. */
  predicate PointersValid(s: State, scope: Scope, dim: nat)
    requires s.mapped <= |s.file|
  {
    forall i :: 0 <= i < |s.records| && Covers(scope, s.records[i]) ==> RecordReadable(s.records[i], ViewOf(s), dim)
  }

  function AfterInsert(s: State, id: Word64, vector: seq<Word32>, metadata: Option<seq<Byte>>, dim: nat): State
    requires MetaFits(metadata)
  {
    if |vector| != dim then s
    else
      s.(file := s.file + Encode(Record(id, false, vector, metadata), dim),
         queue := s.queue + [RamRecord(id, Heap(vector), metadata, false, |s.file|)],
         queueCapacity := if |s.queue| == s.queueCapacity then 2 * s.queueCapacity else s.queueCapacity)
  }

  /** The queue moves into the array, and the file, if it has grown, is mapped again. */
  function AfterDrain(s: State): State
    requires s.capacity >= 1
  {
    if s.queue == [] then s
    else
      s.(records := s.records + s.queue, queue := [],
         capacity := Grown(s.capacity, |s.records| + |s.queue|), mapped := |s.file|,
         generation := if |s.file| == s.mapped then s.generation else s.generation + 1)
  }

  function AfterDelete(s: State, id: Word64): State
    requires Defined(s)
  {
    var i := FirstLive(s.records, id);
    if i == |s.records| then s
    else s.(records := s.records[i := s.records[i].(deleted := true)], file := Patch(s.file, s.records[i].byteOffset))
  }

  /** What a compaction writes. */
  function Survivors(s: State, dim: nat): (log: seq<Record>)
    requires Defined(s) && PointersValid(s, LiveRecords, dim)
    ensures |log| == |LiveOnly(s.records)| && AllStorable(log, dim)
  {
    LiveOnlyReadable(s.records, ViewOf(s), dim);
    StoredAll(LiveOnly(s.records), ViewOf(s), dim)
  }

  /** The file mapped anew. A compaction that cannot replace the old file leaves the table like this. */
  function Remapped(s: State): State {
    s.(generation := s.generation + 1)
  }

  function AfterCompact(s: State, dim: nat): State
    requires Defined(s) && PointersValid(s, LiveRecords, dim)
  {
    var live, log := LiveOnly(s.records), Survivors(s, dim);
    var file := EncodeAll(log, dim);
    s.(file := file, mapped := |file|, generation := s.generation + 1,
       records := Relocate(live, log, s.generation + 1, dim), capacity := if |live| > 0 then |live| else 1)
  }

  /** What an action's arguments must satisfy, which pointers its code follows, and the guard under which compaction is
      safe. */
  predicate Enabled(s: State, a: Action, dim: nat)
    requires s.mapped <= |s.file|
  {
    match a
    case Insert(_, _, metadata) => MetaFits(metadata)
    case Search => PointersValid(s, LiveRecords, dim)
    case Train(seeds) => PointersValid(s, LiveRecords, dim) && IsSeeding(s, seeds) && SeedsReadable(s, seeds, dim)
    case Compact => PointersValid(s, LiveRecords, dim) && CompactionSafe(s)
    case RenameFails => PointersValid(s, LiveRecords, dim)
    case _ => true
  }

  /** Between one seed and as many as there are records, drawn from all of them. */
  predicate IsSeeding(s: State, seeds: seq<nat>) {
    1 <= |seeds| <= |s.records| && forall i :: 0 <= i < |seeds| ==> seeds[i] < |s.records|
  }

  predicate SeedsReadable(s: State, seeds: seq<nat>, dim: nat)
    requires s.mapped <= |s.file| && IsSeeding(s, seeds)
  {
    forall i :: 0 <= i < |seeds| ==> RecordReadable(s.records[seeds[i]], ViewOf(s), dim)
  }

  /** Nothing is queued, and every live vector is in the current mapping. */
  predicate CompactionSafe(s: State) {
    && s.queue == []
    && forall i :: 0 <= i < |s.records| && !s.records[i].deleted ==>
         s.records[i].vector.Mapped? && s.records[i].vector.generation == s.generation
  }

  predicate Unmapped(records: seq<RamRecord>, scope: Scope) {
    forall i :: 0 <= i < |records| && Covers(scope, records[i]) ==> !records[i].vector.Mapped?
  }

  /** The step does not map the file anew while vectors in scope point into the mapping. */
  predicate KeepsMapping(s: State, a: Action, scope: Scope) {
    match a
    case Drain => s.queue == [] || Unmapped(s.records, scope)
    case RenameFails => Unmapped(s.records, scope)
    case _ => true
  }

  function Apply(s: State, a: Action, dim: nat): State
    requires Defined(s) && Enabled(s, a, dim)
  {
    match a
    case Insert(id, vector, metadata) => AfterInsert(s, id, vector, metadata, dim)
    case Drain => AfterDrain(s)
    case Search => s
    case Train(_) => s
    case Delete(id) => AfterDelete(s, id)
    case Compact => AfterCompact(s, dim)
    case RenameFails => Remapped(s)
  }

  /** The protocol invariant: the data file is exactly the records followed by the queue, every byte offset is right, the
      mapping covers the records, no vector points into a mapping yet to come, and the array fits its capacity. */
  ghost predicate Inv(s: State, log: seq<Record>, dim: nat) {
    && Mirrors(s.records + s.queue, log, s.file, s.mapped, dim)
    && s.mapped == Offset(log, dim, |s.records|)
    && (forall i :: 0 <= i < |s.records| && s.records[i].vector.Mapped? ==> s.records[i].vector.generation <= s.generation)
    && (forall i :: 0 <= i < |s.queue| ==> s.queue[i].vector.Heap? && !s.queue[i].deleted)
    && 1 <= s.capacity && |s.records| <= s.capacity
    && 1 <= s.queueCapacity && |s.queue| <= s.queueCapacity
  }

  // ---- the specification: a plain log of records ----

  function FirstLiveIn(log: seq<Record>, n: nat, id: Word64): (i: nat)
    requires n <= |log|
    ensures i <= n
  {
    if n == 0 then 0
    else
      var i := FirstLiveIn(log, n - 1, id);
      if i < n - 1 then i
      else if log[n - 1].id == id && !log[n - 1].deleted then n - 1 else n
  }

  /** The abstract effect of an action on the log, of which the first `drained` records have reached the array. */
  function SpecLog(log: seq<Record>, drained: nat, a: Action, dim: nat): seq<Record> {
    match a
    case Insert(id, vector, metadata) =>
      if |vector| == dim then log + [Record(id, false, vector, metadata)] else log
    case Delete(id) =>
      var n := if drained <= |log| then drained else |log|;
      var i := FirstLiveIn(log, n, id);
      if i < n then log[i := Dead(log[i])] else log
    case Compact => LiveLog(log)
    case _ => log
  }

  // ---- every step keeps the invariant and refines the specification ----

  lemma InvDefined(s: State, log: seq<Record>, dim: nat)
    requires Inv(s, log, dim)
    ensures Defined(s)
  {
    hide EncodeAll;
    var all := s.records + s.queue;
    forall i | 0 <= i < |s.records|
      ensures s.records[i].byteOffset + FLAG_OFFSET < |s.file|
    {
      assert all[i] == s.records[i];
      assert StandsFor(all[i], log[i], Offset(log, dim, i), s.mapped, dim);
      VectorInLog(log, dim, i);
    }
  }

  lemma {:induction false} OffsetInPrefix(log: seq<Record>, more: seq<Record>, dim: nat, i: nat)
    requires AllStorable(log, dim) && AllStorable(log + more, dim) && i <= |log|
    ensures Offset(log + more, dim, i) == Offset(log, dim, i)
  {
    assert (log + more)[..i] == log[..i];
  }

  /** An insert appends one record to the log, and its entry to the queue. */
  lemma InsertStep(s: State, log: seq<Record>, dim: nat, id: Word64, vector: seq<Word32>, metadata: Option<seq<Byte>>)
    requires Inv(s, log, dim) && MetaFits(metadata) && |vector| == dim
    ensures Inv(AfterInsert(s, id, vector, metadata, dim), log + [Record(id, false, vector, metadata)], dim)
  {
    hide Encode, PaddedSize, EncodeAll;
    var r := Record(id, false, vector, metadata);
    var log' := log + [r];
    var s' := AfterInsert(s, id, vector, metadata, dim);
    var all, all' := s.records + s.queue, s'.records + s'.queue;
    assert log'[..|log|] == log;
    assert s'.file == EncodeAll(log', dim) by { EncodeAllAppend(log, [r], dim); EncodeOne(r, dim); }
    assert all' == all + [s'.queue[|s.queue|]];
    OffsetInPrefix(log, [r], dim, |s.records|);
    forall i | 0 <= i < |all'|
      ensures StandsFor(all'[i], log'[i], Offset(log', dim, i), s'.mapped, dim)
    {
      OffsetInPrefix(log, [r], dim, i);
      if i < |all| {
        assert StandsFor(all[i], log[i], Offset(log, dim, i), s.mapped, dim);
      } else {
        assert log[..i] == log;
      }
    }
  }

  /** A drain leaves the log alone and brings all of it into the array. */
  lemma DrainStep(s: State, log: seq<Record>, dim: nat)
    requires Inv(s, log, dim)
    ensures Inv(AfterDrain(s), log, dim)
    ensures Mirrors(AfterDrain(s).records, log, s.file, AfterDrain(s).mapped, dim)
  {
    hide EncodeAll, Offset;
    var s' := AfterDrain(s);
    var all, all' := s.records + s.queue, s'.records + s'.queue;
    assert all' == all == s'.records;
    EndOfLog(log, dim);
    forall i | 0 <= i < |all|
      ensures StandsFor(all[i], log[i], Offset(log, dim, i), s'.mapped, dim)
    {
      assert StandsFor(all[i], log[i], Offset(log, dim, i), s.mapped, dim);
    }
  }

  /** With something queued, the file has grown and the drain maps it again. */
  lemma QueuedMeansGrown(s: State, log: seq<Record>, dim: nat)
    requires Inv(s, log, dim) && s.queue != []
    ensures s.mapped < |s.file|
  {
    hide EncodeAll;
    EndOfLog(log, dim);
    OffsetMonotone(log, dim, |s.records|, |log|);
  }

  /** A record of a state that satisfies the invariant can be read exactly when its vector is current. */
  lemma ReadableWhenCurrent(s: State, log: seq<Record>, dim: nat, i: nat)
    requires Inv(s, log, dim) && i < |s.records|
    ensures RecordReadable(s.records[i], ViewOf(s), dim) <==> Current(s.records[i].vector, s.generation)
  {
    hide EncodeAll, RecordReadable;
    assert (s.records + s.queue)[i] == s.records[i];
    MirrorReads(s.records + s.queue, log, s.file, s.mapped, s.generation, dim, i);
  }

  lemma PointersValidWhenCurrent(s: State, log: seq<Record>, scope: Scope, dim: nat)
    requires Inv(s, log, dim)
    ensures PointersValid(s, scope, dim) <==>
              forall i :: 0 <= i < |s.records| && Covers(scope, s.records[i]) ==> Current(s.records[i].vector, s.generation)
  {
    hide EncodeAll, Mirrors, Offset, RecordReadable, Current;
    InvDefined(s, log, dim);
    forall i | 0 <= i < |s.records|
      ensures RecordReadable(s.records[i], ViewOf(s), dim) <==> Current(s.records[i].vector, s.generation)
    {
      ReadableWhenCurrent(s, log, dim, i);
    }
  }

  /** Exactly when a drain keeps the pointers of the live records, or of all records, valid: nothing is queued, or none of
      them is mapped. Otherwise the file is mapped elsewhere while the array still points to where it was. */
  lemma DrainSafeIff(s: State, log: seq<Record>, scope: Scope, dim: nat)
    requires Inv(s, log, dim) && PointersValid(s, scope, dim)
    ensures Inv(AfterDrain(s), log, dim)
    ensures PointersValid(AfterDrain(s), scope, dim) <==> s.queue == [] || Unmapped(s.records, scope)
  {
    hide EncodeAll, Mirrors, RecordReadable, Offset;
    var s' := AfterDrain(s);
    DrainStep(s, log, dim);
    if s.queue != [] {
      QueuedMeansGrown(s, log, dim);
      PointersValidWhenCurrent(s', log, scope, dim);
      assert forall i :: 0 <= i < |s.records| ==> s'.records[i] == s.records[i];
      assert forall i :: |s.records| <= i < |s'.records| ==> s'.records[i] == s.queue[i - |s.records|];
    }
  }

  /** The same for a compaction that fails to rename: its only trace is a new mapping. */
  lemma RemapSafeIff(s: State, log: seq<Record>, scope: Scope, dim: nat)
    requires Inv(s, log, dim)
    ensures Inv(Remapped(s), log, dim)
    ensures PointersValid(Remapped(s), scope, dim) <==> Unmapped(s.records, scope)
  {
    hide EncodeAll, Mirrors, RecordReadable, Offset;
    PointersValidWhenCurrent(Remapped(s), log, scope, dim);
  }

  /** Training may run with every choice of seeds exactly when the vectors of all records can be read, deleted ones
      included. */
  lemma EverySeedingIff(s: State, dim: nat)
    requires s.mapped <= |s.file| && s.records != []
    ensures (forall seeds :: IsSeeding(s, seeds) ==> Enabled(s, Train(seeds), dim)) <==> PointersValid(s, AllRecords, dim)
  {
    hide RecordReadable;
    if forall seeds :: IsSeeding(s, seeds) ==> Enabled(s, Train(seeds), dim) {
      forall i: nat | i < |s.records|
        ensures RecordReadable(s.records[i], ViewOf(s), dim)
      {
        assert IsSeeding(s, [i]) && Enabled(s, Train([i]), dim);
        assert SeedsReadable(s, [i], dim) && [i][0] == i;
      }
    }
  }

  /** Searching the array finds what searching the log's drained part would find. */
  lemma {:induction false} FirstLiveAgrees(rs: seq<RamRecord>, log: seq<Record>, n: nat, id: Word64)
    requires n == |rs| <= |log|
    requires forall i :: 0 <= i < n ==> rs[i].id == log[i].id && rs[i].deleted == log[i].deleted
    ensures FirstLive(rs, id) == FirstLiveIn(log, n, id)
  {
    var i, j := FirstLive(rs, id), FirstLiveIn(log, n, id);
    FirstLiveInSpec(log, n, id);
  }

  lemma {:induction false} FirstLiveInSpec(log: seq<Record>, n: nat, id: Word64)
    requires n <= |log|
    ensures var i := FirstLiveIn(log, n, id);
            && (i < n ==> log[i].id == id && !log[i].deleted)
            && forall j :: 0 <= j < i ==> log[j].id != id || log[j].deleted
  {
    if n > 0 {
      FirstLiveInSpec(log, n - 1, id);
    }
  }

  lemma ArrayAgreesWithLog(s: State, log: seq<Record>, dim: nat)
    requires Inv(s, log, dim)
    ensures |s.records| <= |log|
    ensures forall i :: 0 <= i < |s.records| ==> s.records[i].id == log[i].id && s.records[i].deleted == log[i].deleted
  {
    hide EncodeAll;
    var all := s.records + s.queue;
    forall i | 0 <= i < |s.records|
      ensures s.records[i].id == log[i].id && s.records[i].deleted == log[i].deleted
    {
      assert all[i] == s.records[i];
    }
  }

  /** A delete marks the first live drained record with the id, in the array and in the log. */
  lemma DeleteStep(s: State, log: seq<Record>, dim: nat, id: Word64)
    requires Inv(s, log, dim)
    ensures Defined(s) && |s.records| <= |log|
    ensures Inv(AfterDelete(s, id), SpecLog(log, |s.records|, Delete(id), dim), dim)
  {
    hide EncodeAll, Patch, Mirrors, Offset;
    InvDefined(s, log, dim);
    var all := s.records + s.queue;
    ArrayAgreesWithLog(s, log, dim);
    FirstLiveAgrees(s.records, log, |s.records|, id);
    var k := FirstLive(s.records, id);
    if k < |s.records| {
      TombstoneMirror(all, log, s.file, s.mapped, dim, k);
      MirroredStorable(all, log, s.file, s.mapped, dim);
      PatchKeepsOffsets(log, dim, k, |s.records|);
      var s' := AfterDelete(s, id);
      assert s'.records + s'.queue == all[k := all[k].(deleted := true)];
    }
  }

  lemma MirroredStorable(rs: seq<RamRecord>, log: seq<Record>, file: seq<Byte>, mapped: nat, dim: nat)
    requires Mirrors(rs, log, file, mapped, dim)
    ensures AllStorable(log, dim) && |rs| == |log|
  {
  }

  /** Deleting takes no pointer away. */
  lemma DeleteKeepsPointers(s: State, id: Word64, scope: Scope, dim: nat)
    requires Defined(s) && PointersValid(s, scope, dim)
    ensures Defined(AfterDelete(s, id)) && PointersValid(AfterDelete(s, id), scope, dim)
  {
    hide MetaFits;
    var s' := AfterDelete(s, id);
    assert |s'.file| == |s.file|;
    forall i | 0 <= i < |s'.records| && Covers(scope, s'.records[i])
      ensures RecordReadable(s'.records[i], ViewOf(s'), dim)
    {
      assert Covers(scope, s.records[i]);
      assert RecordReadable(s.records[i], ViewOf(s), dim);
    }
  }

  // ---- compaction ----

  /** A relocated survivor stands for its record exactly when its floats were mapped. */
  lemma RelocatedStandsFor(live: seq<RamRecord>, log: seq<Record>, generation: nat, dim: nat, i: nat)
    requires |live| == |log| && AllStorable(log, dim) && i < |live|
    requires live[i].id == log[i].id && live[i].deleted == log[i].deleted && live[i].metadata == log[i].metadata
    ensures StandsFor(Relocate(live, log, generation, dim)[i], log[i], Offset(log, dim, i), |EncodeAll(log, dim)|, dim)
       <==> live[i].vector.Mapped?
  {
    hide EncodeAll;
    VectorInLog(log, dim, i);
  }

  lemma MappedAppend(a: seq<RamRecord>, b: seq<RamRecord>)
    ensures (forall i :: 0 <= i < |a + b| ==> (a + b)[i].vector.Mapped?)
       <==> (forall i :: 0 <= i < |a| ==> a[i].vector.Mapped?) && (forall i :: 0 <= i < |b| ==> b[i].vector.Mapped?)
  {
    var s := a + b;
    assert forall i :: 0 <= i < |a| ==> s[i] == a[i];
    assert forall i :: 0 <= i < |b| ==> s[|a| + i] == b[i];
  }

  lemma LiveMappedAppend(front: seq<RamRecord>, last: RamRecord)
    ensures (forall i :: 0 <= i < |front + [last]| && !(front + [last])[i].deleted ==> (front + [last])[i].vector.Mapped?)
       <==> (forall i :: 0 <= i < |front| && !front[i].deleted ==> front[i].vector.Mapped?)
            && (!last.deleted ==> last.vector.Mapped?)
  {
    var s := front + [last];
    assert forall i :: 0 <= i < |front| ==> s[i] == front[i];
    assert s[|front|] == last;
  }

  lemma {:induction false} LiveOnlyMapped(rs: seq<RamRecord>)
    ensures (forall i :: 0 <= i < |LiveOnly(rs)| ==> LiveOnly(rs)[i].vector.Mapped?)
       <==> (forall i :: 0 <= i < |rs| && !rs[i].deleted ==> rs[i].vector.Mapped?)
  {
    if rs != [] {
      var front, last := rs[..|rs| - 1], rs[|rs| - 1];
      var kept: seq<RamRecord> := if last.deleted then [] else [last];
      LiveOnlyMapped(front);
      assert LiveOnly(rs) == LiveOnly(front) + kept && rs == front + [last];
      hide LiveOnly;
      MappedAppend(LiveOnly(front), kept);
      LiveMappedAppend(front, last);
      assert (forall i :: 0 <= i < |kept| ==> kept[i].vector.Mapped?) <==> (!last.deleted ==> last.vector.Mapped?);
    }
  }

  ghost predicate MirrorsOwnLog(rs: seq<RamRecord>, log: seq<Record>, dim: nat)
    requires AllStorable(log, dim)
  {
    Mirrors(rs, log, EncodeAll(log, dim), |EncodeAll(log, dim)|, dim)
  }

  /** The file written by compaction is the concatenated encodings of the live records, and the new array mirrors it
      exactly when every survivor was mapped. */
  lemma CompactedArray(s: State, dim: nat)
    requires Defined(s) && PointersValid(s, LiveRecords, dim)
    ensures MirrorsOwnLog(Relocate(LiveOnly(s.records), Survivors(s, dim), s.generation + 1, dim), Survivors(s, dim), dim)
       <==> forall i :: 0 <= i < |s.records| && !s.records[i].deleted ==> s.records[i].vector.Mapped?
  {
    hide EncodeAll, LiveOnly, Floats, Readable;
    LiveOnlyMapped(s.records);
    var live, log, generation := LiveOnly(s.records), Survivors(s, dim), s.generation + 1;
    forall i | 0 <= i < |live|
      ensures StandsFor(Relocate(live, log, generation, dim)[i], log[i], Offset(log, dim, i), |EncodeAll(log, dim)|, dim)
         <==> live[i].vector.Mapped?
    {
      SurvivorStored(s, dim, i);
      RelocatedStandsFor(live, log, generation, dim, i);
    }
  }

  lemma SurvivorStored(s: State, dim: nat, i: nat)
    requires Defined(s) && PointersValid(s, LiveRecords, dim) && i < |LiveOnly(s.records)|
    ensures var r, rec := LiveOnly(s.records)[i], Survivors(s, dim)[i];
            r.id == rec.id && r.deleted == rec.deleted && r.metadata == rec.metadata
  {
    hide LiveOnly, Floats, Readable;
    LiveOnlyReadable(s.records, ViewOf(s), dim);
  }

  /** Two logs with the same bytes hold the same number of records. */
  lemma SameBytesSameCount(a: seq<Record>, b: seq<Record>, dim: nat)
    requires AllStorable(a, dim) && AllStorable(b, dim) && EncodeAll(a, dim) == EncodeAll(b, dim)
    ensures |a| == |b|
  {
    hide EncodeAll, Replay;
    ReplayWholeLog(a, dim);
    ReplayWholeLog(b, dim);
  }

  /** A compaction with nothing queued writes the live part of the log. */
  lemma SurvivorsAreLive(s: State, log: seq<Record>, dim: nat)
    requires Inv(s, log, dim) && PointersValid(s, LiveRecords, dim) && s.queue == []
    ensures Defined(s) && Survivors(s, dim) == LiveLog(log)
  {
    hide EncodeAll, Mirrors, LiveLog, LiveOnly, RecordReadable, Offset;
    InvDefined(s, log, dim);
    assert s.records + s.queue == s.records;
    MirrorReadsLive(s.records, log, s.file, s.mapped, s.generation, dim);
  }

  lemma SafeMeansValid(s: State, log: seq<Record>, dim: nat)
    requires Inv(s, log, dim) && CompactionSafe(s)
    ensures PointersValid(s, LiveRecords, dim)
  {
    hide Mirrors, Offset, RecordReadable;
    PointersValidWhenCurrent(s, log, LiveRecords, dim);
  }

  /** With an empty queue and survivors in the current mapping, compaction keeps the invariant and every pointer, and
      drops exactly the dead records. */
  lemma CompactStep(s: State, log: seq<Record>, dim: nat)
    requires Inv(s, log, dim) && CompactionSafe(s)
    ensures Defined(s) && PointersValid(s, LiveRecords, dim)
    ensures Inv(AfterCompact(s, dim), LiveLog(log), dim)
    ensures forall scope :: PointersValid(AfterCompact(s, dim), scope, dim)
  {
    hide EncodeAll, LiveLog, LiveOnly, RecordReadable, Mirrors, Survivors, Offset;
    SafeMeansValid(s, log, dim);
    SurvivorsAreLive(s, log, dim);
    CompactedArray(s, dim);
    CompactedInv(s, dim);
    forall scope
      ensures PointersValid(AfterCompact(s, dim), scope, dim)
    {
      PointersValidWhenCurrent(AfterCompact(s, dim), LiveLog(log), scope, dim);
    }
  }

  lemma CompactedInv(s: State, dim: nat)
    requires Defined(s) && PointersValid(s, LiveRecords, dim) && s.queue == []
    requires MirrorsOwnLog(Relocate(LiveOnly(s.records), Survivors(s, dim), s.generation + 1, dim), Survivors(s, dim), dim)
    ensures Inv(AfterCompact(s, dim), Survivors(s, dim), dim)
  {
    hide EncodeAll, LiveOnly, RecordReadable, Mirrors, Survivors, Offset;
    var s' := AfterCompact(s, dim);
    assert s'.records + s'.queue == s'.records;
    EndOfLog(Survivors(s, dim), dim);
  }

  /** Exactly when compaction is safe. A queued insert is lost by it, a heap-backed survivor is left without its vector,
      and a vector of an earlier mapping cannot be read at all. */
  lemma CompactionSafeIff(s: State, log: seq<Record>, dim: nat)
    requires Inv(s, log, dim)
    ensures Defined(s)
    ensures (PointersValid(s, LiveRecords, dim) && exists log' :: Inv(AfterCompact(s, dim), log', dim)) <==> CompactionSafe(s)
  {
    hide EncodeAll, LiveLog, LiveOnly, RecordReadable, Survivors, Offset;
    InvDefined(s, log, dim);
    if CompactionSafe(s) {
      CompactStep(s, log, dim);
    } else if PointersValid(s, LiveRecords, dim) {
      forall log'
        ensures !Inv(AfterCompact(s, dim), log', dim)
      {
        if Inv(AfterCompact(s, dim), log', dim) {
          OnlySafe(s, log, log', dim);
        }
      }
    }
  }

  /** If the compacted table is consistent, nothing was queued and every live vector was mapped, and currently so. */
  lemma OnlySafe(s: State, log: seq<Record>, log': seq<Record>, dim: nat)
    requires Inv(s, log, dim) && Defined(s) && PointersValid(s, LiveRecords, dim) && Inv(AfterCompact(s, dim), log', dim)
    ensures CompactionSafe(s)
  {
    hide EncodeAll, LiveOnly, RecordReadable, Survivors, Offset;
    var s' := AfterCompact(s, dim);
    SameBytesSameCount(log', Survivors(s, dim), dim);
    assert s.queue == [];
    assert s'.records + s'.queue == s'.records;
    forall i | 0 <= i < |LiveOnly(s.records)|
      ensures LiveOnly(s.records)[i].vector.Mapped?
    {
      assert !s'.records[i].vector.Missing?;
    }
    LiveOnlyMapped(s.records);
    PointersValidWhenCurrent(s, log, LiveRecords, dim);
  }

  /** An empty table with one acknowledged insert in its queue: compaction empties the file, and the queued record is no
      longer on the disk. */
  lemma LostInsert(id: Word64, vector: seq<Word32>)
    ensures var dim := |vector|;
            var s := AfterInsert(State([], 0, 0, [], 1, [], 1), id, vector, None, dim);
            && Inv(s, [Record(id, false, vector, None)], dim) && Defined(s) && PointersValid(s, LiveRecords, dim)
            && AfterCompact(s, dim).file == [] && |AfterCompact(s, dim).queue| == 1
            && forall log :: !Inv(AfterCompact(s, dim), log, dim)
  {
    hide EncodeAll, LiveLog, LiveOnly, Mirrors, Survivors, Offset;
    var dim, empty: State := |vector|, State([], 0, 0, [], 1, [], 1);
    EmptyTable(dim);
    var s := AfterInsert(empty, id, vector, None, dim);
    InsertStep(empty, [], dim, id, vector, None);
    assert [] + [Record(id, false, vector, None)] == [Record(id, false, vector, None)];
    InvDefined(s, [Record(id, false, vector, None)], dim);
    CompactionSafeIff(s, [Record(id, false, vector, None)], dim);
    NothingToKeep(s, dim);
  }

  lemma EmptyTable(dim: nat)
    ensures Inv(State([], 0, 0, [], 1, [], 1), [], dim)
  {
  }

  lemma NothingToKeep(s: State, dim: nat)
    requires Defined(s) && PointersValid(s, LiveRecords, dim) && s.records == []
    ensures AfterCompact(s, dim).file == [] && AfterCompact(s, dim).queue == s.queue
  {
  }

  /** A table opened with one mapped record, then an insert, a drain and a delete of the inserted record. Nothing is
      queued, and the only live record is a mapped one; but the drain has mapped the file anew, so that record can be
      neither searched nor compacted. */
  lemma StaleAfterDrain(r: Record, dim: nat, id: Word64, vector: seq<Word32>)
    requires Storable(r, dim) && !r.deleted && id != r.id && |vector| == dim
    ensures var file := EncodeAll([r], dim);
            var atStart := State(file, |file|, 0, [RamRecord(r.id, Mapped(0, HEADER_BYTES), r.metadata, false, 0)], 1, [], 1);
            var inserted := AfterInsert(atStart, id, vector, None, dim);
            var drained := AfterDrain(inserted);
            && Inv(atStart, [r], dim) && PointersValid(atStart, LiveRecords, dim)
            && Inv(inserted, [r, Record(id, false, vector, None)], dim)
            && Defined(drained) && !PointersValid(drained, LiveRecords, dim)
            && var deleted := AfterDelete(drained, id);
            && Inv(deleted, [r, Dead(Record(id, false, vector, None))], dim)
            && deleted.queue == [] && |deleted.records| == 2 && deleted.records[1].deleted
            && deleted.records[0] == atStart.records[0] && !PointersValid(deleted, LiveRecords, dim)
            && !CompactionSafe(deleted)
  {
    hide EncodeAll, Encode, Mirrors, Survivors, Offset, RecordReadable, Patch;
    var file := EncodeAll([r], dim);
    var atStart := State(file, |file|, 0, [RamRecord(r.id, Mapped(0, HEADER_BYTES), r.metadata, false, 0)], 1, [], 1);
    var inserted := AfterInsert(atStart, id, vector, None, dim);
    var drained := AfterDrain(inserted);
    var log := [r, Record(id, false, vector, None)];
    OpenedTable(r, dim);
    PointersValidWhenCurrent(atStart, [r], LiveRecords, dim);
    InsertStep(atStart, [r], dim, id, vector, None);
    assert [r] + [Record(id, false, vector, None)] == log;
    DrainStep(inserted, log, dim);
    QueuedMeansGrown(inserted, log, dim);
    InvDefined(drained, log, dim);
    PointersValidWhenCurrent(drained, log, LiveRecords, dim);
    assert !drained.records[0].deleted && !Current(drained.records[0].vector, drained.generation);
    DeleteStep(drained, log, dim, id);
    DeleteSecond(drained, log, dim, id);
    var deleted := AfterDelete(drained, id);
    PointersValidWhenCurrent(deleted, [r, Dead(log[1])], LiveRecords, dim);
    assert !deleted.records[0].deleted && !Current(deleted.records[0].vector, deleted.generation);
  }

  /** A table opened with one mapped record that is deleted, then an insert and a drain. No live record is mapped, so the
      table can be searched and compacted; but training that picks the deleted record as a seed reads where the file used
      to be mapped. */
  lemma StaleSeed(r: Record, dim: nat, id: Word64, vector: seq<Word32>)
    requires Storable(r, dim) && r.deleted && |vector| == dim
    ensures var file := EncodeAll([r], dim);
            var atStart := State(file, |file|, 0, [RamRecord(r.id, Mapped(0, HEADER_BYTES), r.metadata, true, 0)], 1, [], 1);
            var drained := AfterDrain(AfterInsert(atStart, id, vector, None, dim));
            && Inv(atStart, [r], dim) && PointersValid(atStart, AllRecords, dim)
            && Inv(drained, [r, Record(id, false, vector, None)], dim)
            && Defined(drained) && Enabled(drained, Search, dim)
            && IsSeeding(drained, [0]) && !Enabled(drained, Train([0]), dim)
  {
    hide EncodeAll, Encode, Mirrors, Offset, RecordReadable;
    var file := EncodeAll([r], dim);
    var atStart := State(file, |file|, 0, [RamRecord(r.id, Mapped(0, HEADER_BYTES), r.metadata, true, 0)], 1, [], 1);
    var inserted := AfterInsert(atStart, id, vector, None, dim);
    var drained := AfterDrain(inserted);
    var log := [r, Record(id, false, vector, None)];
    OpenedTable(r, dim);
    PointersValidWhenCurrent(atStart, [r], AllRecords, dim);
    InsertStep(atStart, [r], dim, id, vector, None);
    assert [r] + [Record(id, false, vector, None)] == log;
    DrainStep(inserted, log, dim);
    QueuedMeansGrown(inserted, log, dim);
    InvDefined(drained, log, dim);
    PointersValidWhenCurrent(drained, log, LiveRecords, dim);
    ReadableWhenCurrent(drained, log, dim, 0);
    assert drained.records[0] == atStart.records[0] && [0][0] == 0;
  }

  lemma OpenedTable(r: Record, dim: nat)
    requires Storable(r, dim)
    ensures var file := EncodeAll([r], dim);
            var s := State(file, |file|, 0, [RamRecord(r.id, Mapped(0, HEADER_BYTES), r.metadata, r.deleted, 0)], 1, [], 1);
            Inv(s, [r], dim)
  {
    hide EncodeAll;
    var log := [r];
    assert log[..0] == [] && EncodeAll([], dim) == [] by { EmptyEncoding(dim); }
    EndOfLog(log, dim);
    VectorInLog(log, dim, 0);
  }

  lemma EmptyEncoding(dim: nat)
    ensures EncodeAll([], dim) == []
  {
  }

  lemma DeleteSecond(s: State, log: seq<Record>, dim: nat, id: Word64)
    requires Defined(s) && |s.records| == |log| == 2
    requires s.records[0].id == log[0].id != id && s.records[1].id == log[1].id == id
    requires !s.records[1].deleted && !log[1].deleted
    ensures AfterDelete(s, id).records == [s.records[0], s.records[1].(deleted := true)]
    ensures SpecLog(log, 2, Delete(id), dim) == [log[0], Dead(log[1])]
  {
    var i, j := FirstLive(s.records, id), FirstLiveIn(log, 2, id);
    FirstLiveInSpec(log, 2, id);
    assert i == 1 && j == 1;
  }

  // ---- whole runs ----

  ghost predicate Next(s: State, a: Action, s': State, dim: nat) {
    Defined(s) && Enabled(s, a, dim) && s' == Apply(s, a, dim)
  }

  ghost predicate IsRun(states: seq<State>, actions: seq<Action>, dim: nat) {
    |states| == |actions| + 1 && forall i :: 0 <= i < |actions| ==> Next(states[i], actions[i], states[i + 1], dim)
  }

  /** The log the specification has reached after `i` actions of a run. */
  ghost function LogAfter(states: seq<State>, actions: seq<Action>, log: seq<Record>, dim: nat, i: nat): seq<Record>
    requires i <= |actions| < |states|
  {
    if i == 0 then log
    else SpecLog(LogAfter(states, actions, log, dim, i - 1), |states[i - 1].records|, actions[i - 1], dim)
  }

  lemma StepRefines(s: State, a: Action, log: seq<Record>, dim: nat)
    requires Inv(s, log, dim) && Enabled(s, a, dim)
    ensures Defined(s)
    ensures Inv(Apply(s, a, dim), SpecLog(log, |s.records|, a, dim), dim)
  {
    hide EncodeAll, Mirrors, AfterDrain, AfterDelete, AfterCompact, Offset;
    InvDefined(s, log, dim);
    match a
    case Insert(id, vector, metadata) =>
      if |vector| == dim {
        InsertStep(s, log, dim, id, vector, metadata);
      }
    case Drain => DrainStep(s, log, dim);
    case Search =>
    case Train(_) =>
    case Delete(id) => DeleteStep(s, log, dim, id);
    case Compact => CompactStep(s, log, dim);
    case RenameFails => RemapSafeIff(s, log, LiveRecords, dim);
  }

  /** In every reachable state of every interleaving, the data file is exactly the records followed by the queue, at
      matching offsets, and the protocol has applied to the log just what the specification says. */
  lemma {:induction false} RunRefines(states: seq<State>, actions: seq<Action>, log: seq<Record>, dim: nat, i: nat)
    requires IsRun(states, actions, dim) && i <= |actions|
    requires Inv(states[0], log, dim)
    ensures Inv(states[i], LogAfter(states, actions, log, dim, i), dim)
  {
    hide Inv, Apply, SpecLog, Enabled, Defined;
    if i > 0 {
      RunRefines(states, actions, log, dim, i - 1);
      assert Next(states[i - 1], actions[i - 1], states[i], dim);
      StepRefines(states[i - 1], actions[i - 1], LogAfter(states, actions, log, dim, i - 1), dim);
    }
  }

  /** One step keeps the pointers valid exactly when it does not map the file anew under them. */
  lemma StepKeepsPointers(s: State, a: Action, log: seq<Record>, scope: Scope, dim: nat)
    requires Inv(s, log, dim) && PointersValid(s, scope, dim) && Enabled(s, a, dim)
    ensures Defined(s) && Apply(s, a, dim).mapped <= |Apply(s, a, dim).file|
    ensures PointersValid(Apply(s, a, dim), scope, dim) <==> KeepsMapping(s, a, scope)
  {
    hide EncodeAll, Mirrors, AfterDrain, AfterDelete, AfterCompact, Offset, RecordReadable, Inv;
    InvDefined(s, log, dim);
    match a
    case Insert(id, vector, metadata) => InsertKeepsPointers(s, id, vector, metadata, scope, dim);
    case Drain =>
      DrainSafeIff(s, log, scope, dim);
      InvDefined(AfterDrain(s), log, dim);
    case Search =>
    case Train(_) =>
    case Delete(id) => DeleteKeepsPointers(s, id, scope, dim);
    case Compact =>
      CompactStep(s, log, dim);
      InvDefined(AfterCompact(s, dim), LiveLog(log), dim);
    case RenameFails => RemapSafeIff(s, log, scope, dim);
  }

  lemma InsertKeepsPointers(s: State, id: Word64, vector: seq<Word32>, metadata: Option<seq<Byte>>, scope: Scope, dim: nat)
    requires Defined(s) && PointersValid(s, scope, dim) && MetaFits(metadata)
    ensures var s' := AfterInsert(s, id, vector, metadata, dim); s'.mapped <= |s'.file| && PointersValid(s', scope, dim)
  {
    hide RecordReadable, Encode;
    var s' := AfterInsert(s, id, vector, metadata, dim);
    assert s'.file[..s'.mapped] == s.file[..s.mapped];
  }

  /** In the first `n` steps of a run no mapping is taken away from a vector in scope. */
  ghost predicate MappingsKept(states: seq<State>, actions: seq<Action>, scope: Scope, n: nat)
    requires n <= |actions| < |states|
  {
    forall i :: 0 <= i < n ==> KeepsMapping(states[i], actions[i], scope)
  }

  /** Exactly when every vector in scope can be read in every state of a run: whenever the worker drains a non-empty queue,
      or a compaction fails to rename, no record in scope is mapped. */
  lemma {:induction false} RunKeepsPointersIff(states: seq<State>, actions: seq<Action>, log: seq<Record>, scope: Scope,
                                               dim: nat, n: nat)
    requires IsRun(states, actions, dim) && n <= |actions|
    requires Inv(states[0], log, dim) && PointersValid(states[0], scope, dim)
    ensures forall i :: 0 <= i <= n ==> states[i].mapped <= |states[i].file|
    ensures (forall i :: 0 <= i <= n ==> PointersValid(states[i], scope, dim)) <==> MappingsKept(states, actions, scope, n)
  {
    hide Inv, Apply, Enabled, Defined, PointersValid, KeepsMapping, LogAfter;
    InvDefined(states[0], log, dim);
    MappedInFile(states[0]);
    if n > 0 {
      RunKeepsPointersIff(states, actions, log, scope, dim, n - 1);
      RunRefines(states, actions, log, dim, n - 1);
      assert Next(states[n - 1], actions[n - 1], states[n], dim);
      var before := LogAfter(states, actions, log, dim, n - 1);
      RunRefines(states, actions, log, dim, n);
      InvDefined(states[n], LogAfter(states, actions, log, dim, n), dim);
      MappedInFile(states[n]);
      if PointersValid(states[n - 1], scope, dim) {
        StepKeepsPointers(states[n - 1], actions[n - 1], before, scope, dim);
      }
    }
  }

  lemma MappedInFile(s: State)
    requires Defined(s)
    ensures s.mapped <= |s.file|
  {
  }

  /** A table without mapped records in scope, such as a new one, never loses a pointer. */
  lemma {:induction false} HeapTablesKeepPointers(states: seq<State>, actions: seq<Action>, log: seq<Record>, scope: Scope,
                                                  dim: nat, n: nat)
    requires IsRun(states, actions, dim) && n <= |actions| && Inv(states[0], log, dim)
    requires Unmapped(states[0].records, scope)
    ensures states[n].mapped <= |states[n].file| && PointersValid(states[n], scope, dim)
    ensures Unmapped(states[n].records, scope)
  {
    hide Inv, Apply, Enabled, Defined, PointersValid, LogAfter;
    RunRefines(states, actions, log, dim, n);
    var reached := LogAfter(states, actions, log, dim, n);
    InvDefined(states[n], reached, dim);
    MappedInFile(states[n]);
    if n > 0 {
      HeapTablesKeepPointers(states, actions, log, scope, dim, n - 1);
      assert Next(states[n - 1], actions[n - 1], states[n], dim);
      RunRefines(states, actions, log, dim, n - 1);
      HeapStep(states[n - 1], actions[n - 1], LogAfter(states, actions, log, dim, n - 1), scope, dim);
    }
    PointersValidWhenCurrent(states[n], reached, scope, dim);
  }

  lemma HeapStep(s: State, a: Action, log: seq<Record>, scope: Scope, dim: nat)
    requires Inv(s, log, dim) && Defined(s) && Enabled(s, a, dim) && Unmapped(s.records, scope)
    ensures Unmapped(Apply(s, a, dim).records, scope)
  {
    hide EncodeAll, Mirrors, Offset, RecordReadable, Patch, Encode;
    if a == Compact {
      LiveOnlyEmpty(s.records);
    }
  }

  lemma {:induction false} LiveOnlyEmpty(rs: seq<RamRecord>)
    requires forall i :: 0 <= i < |rs| ==> rs[i].deleted
    ensures LiveOnly(rs) == []
  {
    if rs != [] {
      LiveOnlyEmpty(rs[..|rs| - 1]);
    }
  }

  // ---- acknowledged inserts ----

  /** The array entry of an acknowledged insert: its own vector and metadata, and the place in the file where it went. */
  function EntryOf(s: State, a: Action): RamRecord
    requires a.Insert?
  {
    RamRecord(a.id, Heap(a.vector), a.metadata, false, |s.file|)
  }

  /** From the insert to the next drain the entry waits in the queue, whatever else happens. */
  lemma {:induction false} QueuedUntilDrained(states: seq<State>, actions: seq<Action>, dim: nat, i: nat, j: nat)
    requires IsRun(states, actions, dim) && i < j <= |actions|
    requires actions[i].Insert? && |actions[i].vector| == dim
    requires forall m :: i < m < j ==> actions[m] != Drain
    ensures EntryOf(states[i], actions[i]) in states[j].queue
  {
    hide Defined, EncodeAll, Encode, Relocate;
    var e := EntryOf(states[i], actions[i]);
    assert Next(states[j - 1], actions[j - 1], states[j], dim);
    if j == i + 1 {
      assert states[j].queue[|states[i].queue|] == e;
    } else {
      QueuedUntilDrained(states, actions, dim, i, j - 1);
      QueueKept(states[j - 1], actions[j - 1], dim, e);
    }
  }

  lemma QueueKept(s: State, a: Action, dim: nat, e: RamRecord)
    requires Defined(s) && Enabled(s, a, dim) && a != Drain && e in s.queue
    ensures e in Apply(s, a, dim).queue
  {
    hide EncodeAll, Encode, Relocate, RecordReadable, Patch;
  }

  /** A live heap entry stays in the array through every step but a delete of its id; while it is there, the table cannot
      be compacted safely. */
  lemma EntryKept(s: State, a: Action, dim: nat, e: RamRecord)
    requires Defined(s) && Enabled(s, a, dim) && e in s.records && !e.deleted && e.vector.Heap? && a != Delete(e.id)
    ensures e in Apply(s, a, dim).records
  {
    hide EncodeAll, Encode, Relocate, RecordReadable, Patch;
    var k :| 0 <= k < |s.records| && s.records[k] == e;
    var s' := Apply(s, a, dim);
    if a != Compact {
      assert s'.records[k] == e;
    }
  }

  /** An acknowledged insert is in the live array after the next drain, whatever happens in between, deletes of its id
      included; and there it stays, with the vector and metadata it was sent with and its place in the file, until its id
      is deleted after that drain. */
  lemma {:induction false} AcknowledgedInsertStays(states: seq<State>, actions: seq<Action>, dim: nat, i: nat, j: nat, m: nat)
    requires IsRun(states, actions, dim) && i < j < m <= |actions|
    requires actions[i].Insert? && |actions[i].vector| == dim
    requires actions[j] == Drain && forall t :: i < t < j ==> actions[t] != Drain
    requires forall t :: j < t < m ==> actions[t] != Delete(actions[i].id)
    ensures EntryOf(states[i], actions[i]) in states[m].records
  {
    hide Defined, Enabled, EncodeAll, Encode, Relocate;
    var e := EntryOf(states[i], actions[i]);
    assert Next(states[m - 1], actions[m - 1], states[m], dim);
    if m == j + 1 {
      QueuedUntilDrained(states, actions, dim, i, j);
      var k :| 0 <= k < |states[j].queue| && states[j].queue[k] == e;
      assert states[m].records[|states[j].records| + k] == e;
    } else {
      AcknowledgedInsertStays(states, actions, dim, i, j, m - 1);
      EntryKept(states[m - 1], actions[m - 1], dim, e);
    }
  }
}
