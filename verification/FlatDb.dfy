/** The database object: the record array over a store, and its operations. */
module FlatDatabase {
  import opened Bytes
  import opened RecordLog
  import opened Tombstone
  import opened RamTable
  import opened Storage
  import opened BatchDelete
  import opened PendingDelete
  import opened TableProtocol

  // ---- the effect of a scheduled run ----

  lemma DeleteKeepsDefined(s: State, id: Word64)
    requires Defined(s)
    ensures Defined(AfterDelete(s, id))
  {
    var s' := AfterDelete(s, id);
    assert |s'.file| == |s.file|;
    assert forall i :: 0 <= i < |s.records| ==> s'.records[i].byteOffset == s.records[i].byteOffset;
  }

  /** The table after every queued deletion has been carried out. */
  function AfterQueue(s: State, ids: seq<Word64>): (s': State)
    requires Defined(s)
    ensures Defined(s') && s'.records == DeleteQueued(s.records, ids)
  {
    if ids == [] then s
    else
      var before := AfterQueue(s, ids[..|ids| - 1]);
      DeleteKeepsDefined(before, ids[|ids| - 1]);
      AfterDelete(before, ids[|ids| - 1])
  }

  /** The table after an attempt to compact it. Without room for the new file nothing has happened. When the new file
      cannot replace the old one, the old one has been unmapped and mapped again by then: its bytes are as before, but the
      vectors of mapped records point into the old mapping. */
  function AfterAttempt(s: State, room: nat, renamed: bool, dim: nat): State
    requires Defined(s) && PointersValid(s, LiveRecords, dim)
  {
    if |EncodeAll(Survivors(s, dim), dim)| > room then s
    else if !renamed then Remapped(s)
    else AfterCompact(s, dim)
  }

  /** A table that a scheduled run may work on: if any of its deletions finds a record, the survivors can be read. */
  predicate QueueReady(s: State, ids: seq<Word64>, dim: nat) {
    Defined(s) && (Executed(s.records, ids) > 0 ==> PointersValid(AfterQueue(s, ids), LiveRecords, dim))
  }

  /** The table after a scheduled run: the queue, and the attempt to compact when a deletion has found its record. */
  function AfterAutoDelete(s: State, ids: seq<Word64>, room: nat, renamed: bool, dim: nat): State
    requires QueueReady(s, ids, dim)
  {
    var deleted := AfterQueue(s, ids);
    if Executed(s.records, ids) > 0 then AfterAttempt(deleted, room, renamed, dim) else deleted
  }

  lemma {:induction false} SameIds(a: seq<RamRecord>, b: seq<RamRecord>)
    requires |a| == |b| && forall i :: 0 <= i < |a| ==> a[i].id == b[i].id && a[i].deleted == b[i].deleted
    ensures LiveIds(a) == LiveIds(b)
  {
    if a != [] {
      SameIds(a[1..], b[1..]);
    }
  }

  /** Compaction, whether it succeeds or not, conserves the live ids that the deletions left. */
  lemma AutoDeleteKeepsIds(s: State, ids: seq<Word64>, room: nat, renamed: bool, dim: nat)
    requires QueueReady(s, ids, dim)
    ensures LiveIds(AfterAutoDelete(s, ids, room, renamed, dim).records) == LiveIds(DeleteQueued(s.records, ids))
  {
    hide EncodeAll, Readable, Floats, Encode;
    var deleted := AfterQueue(s, ids);
    SurvivorIds(deleted.records);
    if Executed(s.records, ids) > 0 {
      SameIds(AfterCompact(deleted, dim).records, LiveOnly(deleted.records));
    }
  }

  /** Exactly when a failed attempt leaves the pointers of the live records, or of all records, valid: there was no room for
      the new file, or none of them is mapped. */
  lemma FailedAttemptIff(s: State, log: seq<Record>, room: nat, scope: Scope, dim: nat)
    requires Inv(s, log, dim) && PointersValid(s, LiveRecords, dim) && PointersValid(s, scope, dim)
    ensures Defined(s)
    ensures Inv(AfterAttempt(s, room, false, dim), log, dim)
    ensures PointersValid(AfterAttempt(s, room, false, dim), scope, dim) <==>
              |EncodeAll(Survivors(s, dim), dim)| > room || Unmapped(s.records, scope)
  {
    hide EncodeAll, Mirrors, Survivors, Offset, RecordReadable;
    InvDefined(s, log, dim);
    RemapSafeIff(s, log, scope, dim);
  }

  // ---- loop lemmas ----

  lemma LoadedAllStep(view: seq<Byte>, pos: nat, generation: nat, dim: nat)
    ensures var d := Decode(view, pos, dim);
            var rest := if d.None? then [] else
              [Loaded(Located(d.value, pos), generation)]
              + LoadedAll(Replay(view, pos + PaddedSize(dim, |MetaBytes(d.value)|), dim), generation);
            LoadedAll(Replay(view, pos, dim), generation) == rest
  {
    hide Decode, PaddedSize;
  }

  lemma Rejoined<T>(front: seq<T>, x: T, rest: seq<T>)
    ensures front + ([x] + rest) == (front + [x]) + rest
  {
  }

  lemma {:induction false} FirstLiveIs(rs: seq<RamRecord>, id: Word64, i: nat)
    requires i < |rs| && rs[i].id == id && !rs[i].deleted
    requires forall j :: 0 <= j < i ==> rs[j].id != id || rs[j].deleted
    ensures FirstLive(rs, id) == i
  {
    var k := FirstLive(rs, id);
    assert !(k < i) && !(i < k);
  }

  lemma LiveStep(rs: seq<RamRecord>, i: nat)
    requires i < |rs|
    ensures LiveOnly(rs[..i + 1]) == LiveOnly(rs[..i]) + (if rs[i].deleted then [] else [rs[i]])
  {
    assert rs[..i + 1][..i] == rs[..i];
  }

  lemma AppendStored(rs: seq<RamRecord>, r: RamRecord, view: Mapping, dim: nat)
    requires AllReadable(rs, view, dim) && RecordReadable(r, view, dim)
    ensures AllReadable(rs + [r], view, dim)
    ensures var log := StoredAll(rs, view, dim); var log' := StoredAll(rs + [r], view, dim);
            && log' == log + [Stored(r, view, dim)]
            && EncodeAll(log', dim) == EncodeAll(log, dim) + Encode(Stored(r, view, dim), dim)
            && Offset(log', dim, |log|) == |EncodeAll(log, dim)|
            && forall j :: 0 <= j < |log| ==> Offset(log', dim, j) == Offset(log, dim, j)
  {
    hide RecordReadable, Floats, Encode;
    var log, log' := StoredAll(rs, view, dim), StoredAll(rs + [r], view, dim);
    assert log' == log + [Stored(r, view, dim)];
    assert log'[..|log|] == log;
    assert forall j :: 0 <= j < |log| ==> log'[..j] == log[..j];
  }

  /** What has been written so far never exceeds what the whole compacted file will hold. */
  lemma {:induction false} SurvivorsBound(rs: seq<RamRecord>, i: nat, view: Mapping, dim: nat)
    requires LiveReadable(rs, view, dim) && i < |rs|
    ensures AllReadable(LiveOnly(rs), view, dim) && AllReadable(LiveOnly(rs[..i + 1]), view, dim)
    ensures |EncodeAll(StoredAll(LiveOnly(rs[..i + 1]), view, dim), dim)|
         <= |EncodeAll(StoredAll(LiveOnly(rs), view, dim), dim)|
    decreases |rs|
  {
    hide RecordReadable, Floats, Encode, EncodeAll;
    LiveOnlyReadable(rs, view, dim);
    LiveOnlyReadable(rs[..i + 1], view, dim);
    if i + 1 < |rs| {
      var front, last := rs[..|rs| - 1], rs[|rs| - 1];
      SurvivorsBound(front, i, view, dim);
      assert front[..i + 1] == rs[..i + 1];
      LiveOnlyReadable(front, view, dim);
      LiveStep(rs, |front|);
      assert rs[..|rs|] == rs && front == rs[..|front|];
      if last.deleted {
        assert LiveOnly(rs) == LiveOnly(front);
      } else {
        AppendStored(LiveOnly(front), last, view, dim);
      }
    } else {
      assert rs[..i + 1] == rs;
    }
  }

  lemma EmptyLog(dim: nat)
    ensures EncodeAll([], dim) == []
  {
  }

  lemma SomethingQueued(queue: seq<Byte>)
    ensures SortedIds(QueuedIds(queue)) == [] <==> QueuedIds(queue) == []
  {
    var a, b := SortedIds(QueuedIds(queue)), QueuedIds(queue);
    assert |a| == |multiset(a)| && |b| == |multiset(b)|;
  }

  lemma NothingQueued(s: State, queue: seq<Byte>, room: nat, renamed: bool, dim: nat)
    requires Defined(s) && SortedIds(QueuedIds(queue)) == []
    ensures QueuedIds(queue) == [] && AfterAutoDelete(s, [], room, renamed, dim) == s
  {
    SomethingQueued(queue);
  }

  class FlatDb {
    const dim: nat
    const store: Store
    var records: seq<RamRecord>
    var capacity: nat
    var pending: seq<Word64>
    var ownsArray: bool

    /** The array's memory is there, among the rest. */
    predicate Valid()
      reads this, store
    {
      store.Valid() && |records| <= capacity && Ascending(pending) && ownsArray
    }

    /** The table state of this database with nothing queued. */
    function Table(): State
      reads this, store
    {
      State(store.file, store.mapped, store.generation, records, capacity, [], 1)
    }

    /** Loads every record from the store's cursor on, doubling the array as needed. */
    static method LoadRecords(store: Store, dim: nat, initialCapacity: nat)
      returns (records: seq<RamRecord>, capacity: nat)
      requires store.Valid()
      modifies store`cursor
      ensures records == LoadedAll(Replay(store.View(), old(store.cursor), dim), store.generation)
      ensures |records| <= capacity && initialCapacity <= capacity
      ensures capacity == initialCapacity || capacity == 8 || capacity < 2 * |records|
    {
      hide Decode, PaddedSize, Replay, Loaded, LoadedAll;
      records, capacity := [], initialCapacity;
      ghost var all := LoadedAll(Replay(store.View(), store.cursor, dim), store.generation);
      while true
        invariant store.Valid() && store.file == old(store.file) && store.mapped == old(store.mapped)
        invariant |records| <= capacity && initialCapacity <= capacity
        invariant capacity == initialCapacity || capacity == 8 || capacity < 2 * |records|
        invariant all == records + LoadedAll(Replay(store.View(), store.cursor, dim), store.generation)
        decreases store.mapped - store.cursor
      {
        LoadedAllStep(store.View(), store.cursor, store.generation, dim);
        var next := store.LoadRecord(dim);
        if next.None? {
          return;
        }
        if |records| == capacity {
          capacity := if capacity > 0 then capacity * 2 else 8;
        }
        Rejoined(records, next.value, LoadedAll(Replay(store.View(), store.cursor, dim), store.generation));
        records := records + [next.value];
      }
    }

    constructor (dim: nat, store: Store, initialCapacity: nat, pendingFile: seq<Byte>)
      requires store.Valid()
      modifies store`cursor
      ensures Valid() && this.dim == dim && this.store == store
      ensures records == LoadedAll(Replay(store.View(), old(store.cursor), dim), store.generation)
      ensures initialCapacity <= capacity
      ensures pending == SortedIds(QueuedIds(pendingFile))
    {
      this.dim, this.store := dim, store;
      new;
      records, capacity := LoadRecords(store, dim, initialCapacity);
      pending := LoadPendingDeletes(pendingFile);
      ownsArray := true;
    }

    /** Appends to the log and to the array. On a failed write the array is unchanged and the file has a torn tail. An
        array of capacity 0 doubles to nothing: `realloc` gives its block back, the insert fails, and the database is no
        longer valid. */
    method Insert(id: Word32, vector: seq<Word32>, metadata: Option<seq<Byte>>, room: nat) returns (ok: bool)
      requires Valid()
      requires |vector| == dim && MetaFits(metadata)
      modifies this`records, this`capacity, this`ownsArray, store`file, store`cursor
      ensures Valid() <==> old(capacity) > 0
      ensures store.Valid() && store.mapped == old(store.mapped)
      ensures ok <==> old(capacity) > 0 && |Encode(Record(id, false, vector, metadata), dim)| <= room
      ensures ok ==> store.file == old(store.file) + Encode(Record(id, false, vector, metadata), dim)
      ensures ok ==> records == old(records) + [RamRecord(id, Heap(vector), metadata, false, |old(store.file)|)]
      ensures !ok ==> records == old(records)
      ensures !ok && old(capacity) > 0 ==>
                store.file == old(store.file) + Encode(Record(id, false, vector, metadata), dim)[..room]
      ensures old(capacity) == 0 ==> store.file == old(store.file)
      ensures capacity == if old(|records| == capacity) then 2 * old(capacity) else old(capacity)
    {
      if |records| == capacity {
        var newCapacity := capacity * 2;
        if newCapacity == 0 {
          ownsArray := false;
          return false;
        }
        capacity := newCapacity;
      }
      var offset := store.CurrentOffset();
      var r := Record(id, false, vector, metadata);
      ok := store.WriteRecord(r, dim, room);
      assert Encode(r, dim)[..|Encode(r, dim)|] == Encode(r, dim);
      if ok {
        records := records + [RamRecord(id, Heap(vector), metadata, false, offset)];
      }
    }

    /** Marks the first live record with this id, in the array and by one byte on disk. */
    method Delete(id: Word64, writable: bool) returns (ok: bool)
      requires Valid() && Defined(Table())
      modifies this`records, store`file, store`cursor
      ensures Valid() && Defined(Table())
      ensures ok <==> writable && FirstLive(old(records), id) < |old(records)|
      ensures Table() == if writable then AfterDelete(old(Table()), id) else old(Table())
      ensures writable ==> records == DeleteFirst(old(records), id)
    {
      ghost var before := Table();
      var i := 0;
      while i < |records|
        invariant i <= |records| && Table() == before
        invariant forall j :: 0 <= j < i ==> records[j].id != id || records[j].deleted
      {
        if records[i].id == id && !records[i].deleted {
          FirstLiveIs(records, id, i);
          records := records[i := records[i].(deleted := true)];
          var offset := records[i].byteOffset;
          store.cursor := offset + FLAG_OFFSET;
          ok := store.PatchFlag(offset, writable);
          if !ok {
            records := records[i := records[i].(deleted := false)];
            assert records == before.records;
          } else {
            DeleteKeepsDefined(before, id);
          }
          return;
        }
        i := i + 1;
      }
      return false;
    }

    /** Writes the live records to the new file, in order, noting where each one starts. */
    method WriteSurvivors(out: Store, room: nat)
      returns (newRecords: seq<RamRecord>, newOffsets: seq<nat>, ok: bool)
      requires Valid() && LiveReadable(records, store.CurrentMapping(), dim)
      requires out != store && out.file == []
      modifies out
      ensures AllReadable(LiveOnly(records), store.CurrentMapping(), dim)
      ensures var log := StoredAll(LiveOnly(records), store.CurrentMapping(), dim);
              && (ok <==> |EncodeAll(log, dim)| <= room)
              && (ok ==> out.file == EncodeAll(log, dim) && newRecords == LiveOnly(records)
                         && newOffsets == seq(|log|, i requires 0 <= i < |log| => Offset(log, dim, i)))
    {
      hide Encode, PaddedSize, RecordReadable, Floats, EncodeAll;
      ghost var view := store.CurrentMapping();
      newRecords, newOffsets := [], [];
      LiveOnlyReadable(records, view, dim);
      EmptyLog(dim);
      var i := 0;
      while i < |records|
        invariant i <= |records| && unchanged(store)
        invariant newRecords == LiveOnly(records[..i]) && |newOffsets| == |newRecords|
        invariant AllReadable(newRecords, view, dim)
        invariant out.file == EncodeAll(StoredAll(newRecords, view, dim), dim) && |out.file| <= room
        invariant forall j :: 0 <= j < |newOffsets| ==> newOffsets[j] == Offset(StoredAll(newRecords, view, dim), dim, j)
      {
        LiveStep(records, i);
        if !records[i].deleted {
          var newOffset := |out.file|;
          var r := Stored(records[i], store.CurrentMapping(), dim);
          AppendStored(newRecords, records[i], view, dim);
          var written := out.WriteRecord(r, dim, room - |out.file|);
          if !written {
            SurvivorsBound(records, i, view, dim);
            return newRecords, newOffsets, false;
          }
          assert Encode(r, dim)[..|Encode(r, dim)|] == Encode(r, dim);
          newRecords := newRecords + [records[i]];
          newOffsets := newOffsets + [newOffset];
        }
        i := i + 1;
      }
      assert records[..|records|] == records;
      ok := true;
    }

    /** Points the survivors at their new offsets, and the mapped ones at their vectors in the new mapping. */
    static method Repoint(survivors: seq<RamRecord>, newOffsets: seq<nat>, generation: nat, ghost log: seq<Record>,
                          dim: nat)
      returns (moved: seq<RamRecord>)
      requires |survivors| == |log| && AllStorable(log, dim)
      requires newOffsets == seq(|log|, i requires 0 <= i < |log| => Offset(log, dim, i))
      ensures moved == Relocate(survivors, log, generation, dim)
    {
      hide EncodeAll;
      moved := survivors;
      for i := 0 to |survivors|
        invariant |moved| == |survivors|
        invariant forall j :: i <= j < |survivors| ==> moved[j] == survivors[j]
        invariant forall j :: 0 <= j < i ==> moved[j] == Relocate(survivors, log, generation, dim)[j]
      {
        var r := moved[i].(byteOffset := newOffsets[i]);
        if r.vector.Mapped? {
          r := r.(vector := Mapped(generation, newOffsets[i] + HEADER_BYTES));
        } else {
          r := r.(vector := Missing);
        }
        moved := moved[i := r];
      }
    }

    /** Rewrites the file with the live records only. `room` bytes fit into the new file, and `renamed` says whether it
        could replace the old one. A failure to write leaves file, mapping and array as they were; a failure to rename
        comes after the old mapping has been given up. */
    method Compact(room: nat, renamed: bool) returns (ok: bool)
      requires Valid() && Defined(Table()) && PointersValid(Table(), LiveRecords, dim)
      modifies this`records, this`capacity, store
      ensures Valid()
      ensures ok <==> |EncodeAll(Survivors(old(Table()), dim), dim)| <= room && renamed
      ensures Table() == AfterAttempt(old(Table()), room, renamed, dim)
      ensures !ok ==> store.file == old(store.file) && records == old(records) && capacity == old(capacity)
      ensures ok ==> store.file == EncodeAll(Survivors(old(Table()), dim), dim) && store.mapped == |store.file|
      ensures ok ==> |records| == |LiveOnly(old(records))| && capacity == if |records| > 0 then |records| else 1
    {
      hide EncodeAll, RecordReadable, LiveOnly;
      LiveOnlyReadable(records, store.CurrentMapping(), dim);
      ghost var log := StoredAll(LiveOnly(records), store.CurrentMapping(), dim);
      assert log == Survivors(Table(), dim);
      var out := new Store([]);
      var newRecords, newOffsets, written := WriteSurvivors(out, room);
      if !written {
        return false;
      }
      store.generation := store.generation + 1;
      if !renamed {
        store.cursor := 0;
        return false;
      }
      store.file, store.mapped, store.cursor := out.file, |out.file|, |out.file|;
      records := Repoint(newRecords, newOffsets, store.generation, log, dim);
      capacity := if |records| > 0 then |records| else 1;
      return true;
    }

    /** Carries out the queued deletions one after another. */
    method RunQueue(ids: seq<Word64>) returns (executed: nat)
      requires Valid() && Defined(Table())
      modifies this`records, store`file, store`cursor
      ensures Valid() && Defined(Table())
      ensures Table() == AfterQueue(old(Table()), ids)
      ensures executed == Executed(old(records), ids)
    {
      hide AfterDelete, DeleteFirst;
      executed := 0;
      for i := 0 to |ids|
        invariant Valid() && Defined(Table())
        invariant Table() == AfterQueue(old(Table()), ids[..i])
        invariant executed == Executed(old(records), ids[..i])
      {
        assert ids[..i + 1][..i] == ids[..i];
        var ok := Delete(ids[i], true);
        if ok {
          executed := executed + 1;
        }
      }
      assert ids[..|ids|] == ids;
    }

    /** Runs the queued deletions once the scheduled time has come, then compacts. Returns the number of deletions that
        found a live record; `schedule` 0 means none is set. */
    method RunAutoDelete(schedule: Word64, now: Word64, queue: seq<Byte>, room: nat, renamed: bool)
      returns (executed: nat, schedule': Word64, queue': seq<Byte>)
      requires Valid() && Defined(Table())
      requires schedule != 0 && schedule <= now ==> QueueReady(Table(), SortedIds(QueuedIds(queue)), dim)
      modifies this`records, this`capacity, store
      ensures Valid()
      ensures schedule == 0 || now < schedule ==>
                executed == 0 && schedule' == schedule && queue' == queue && Table() == old(Table())
      ensures schedule != 0 && schedule <= now ==>
                && schedule' == 0 && (queue' == if QueuedIds(queue) == [] then queue else [])
                && Table() == AfterAutoDelete(old(Table()), SortedIds(QueuedIds(queue)), room, renamed, dim)
                && LiveIds(records) == LiveIds(old(records)) - multiset(QueuedIds(queue))
                && executed == |LiveIds(old(records)) * multiset(QueuedIds(queue))|
      ensures schedule != 0 && schedule <= now ==>
                forall entries, tail :: |tail| < 16 && queue == QueueFile(entries) + tail ==>
                  && LiveIds(records) == LiveIds(old(records)) - multiset(IdsOf(entries))
                  && executed == |LiveIds(old(records)) * multiset(IdsOf(entries))|
    {
      hide QueueFile, IdsOf, QueuedIds;
      forall entries, tail | |tail| < 16 && queue == QueueFile(entries) + tail
        ensures QueuedIds(queue) == IdsOf(entries)
      {
        QueuedAreRequested(entries, tail);
      }
      if schedule == 0 || now < schedule {
        return 0, schedule, queue;
      }
      hide AfterDelete, AfterAttempt, PointersValid, LiveOnly, DeleteQueued, IdAt, AfterQueue;
      var ids := LoadPendingDeletes(queue);
      BatchConservation(records, ids);
      AutoDeleteKeepsIds(Table(), ids, room, renamed, dim);
      if |ids| == 0 {
        NothingQueued(Table(), queue, room, renamed, dim);
        return 0, 0, queue;
      }
      executed := RunQueue(ids);
      schedule', queue' := 0, [];
      SomethingQueued(queue);
      if executed > 0 {
        var ok := Compact(room, renamed);
      }
    }
  }
}
