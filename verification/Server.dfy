/** The server's open table: the insert route and the background worker's section, each run under the table lock. */
module ServerTable {
  import opened Bytes
  import opened RecordLog
  import opened RamTable
  import opened Storage
  import opened PendingDelete
  import opened TableProtocol
  import opened FlatDatabase

  class OpenTable {
    const db: FlatDb
    var queue: seq<RamRecord>
    var queueCapacity: nat
    var pendingDirty: bool

    function State(): State
      reads this, db, db.store
    {
      db.Table().(queue := queue, queueCapacity := queueCapacity)
    }

    constructor (db: FlatDb)
      ensures this.db == db && queue == [] && queueCapacity == 1024 && !pendingDirty
    {
      this.db, queue, queueCapacity, pendingDirty := db, [], 1024, false;
    }

    /** The insert route: the record goes to disk and, once it is there, to the queue. */
    method Insert(id: Word64, vector: seq<Word32>, metadata: Option<seq<Byte>>, room: nat) returns (ok: bool)
      requires db.Valid() && MetaFits(metadata)
      modifies this`queue, this`queueCapacity, db.store`file, db.store`cursor
      ensures db.Valid()
      ensures ok <==> |vector| == db.dim && |Encode(Record(id, false, vector, metadata), db.dim)| <= room
      ensures ok || |vector| != db.dim ==> State() == AfterInsert(old(State()), id, vector, metadata, db.dim)
      ensures queueCapacity == if ok && old(|queue| == queueCapacity) then 2 * old(queueCapacity) else old(queueCapacity)
      ensures !ok && |vector| == db.dim ==>
                var torn := Encode(Record(id, false, vector, metadata), db.dim)[..room];
                State() == old(State()).(file := old(db.store.file) + torn)
    {
      if db.dim != |vector| {
        return false;
      }
      var r := Record(id, false, vector, metadata);
      var offset := db.store.CurrentOffset();
      ok := db.store.WriteRecord(r, db.dim, room);
      assert Encode(r, db.dim)[..|Encode(r, db.dim)|] == Encode(r, db.dim);
      if !ok {
        return;
      }
      if |queue| == queueCapacity {
        queueCapacity := queueCapacity * 2;
      }
      queue := queue + [RamRecord(id, Heap(vector), metadata, false, offset)];
    }

    /** The worker moves the whole queue into the live array, growing it by doubling, and maps the grown file. */
    method Drain()
      requires db.Valid() && db.capacity >= 1
      requires forall i :: 0 <= i < |queue| ==> queue[i].vector.Heap? && !queue[i].deleted
      modifies this`queue, db`records, db`capacity, db.store`cursor, db.store`mapped, db.store`generation
      ensures db.Valid()
      ensures State() == AfterDrain(old(State()))
    {
      var n := |queue|;
      if n > 0 {
        if |db.records| + n > db.capacity {
          var newCapacity := db.capacity;
          while newCapacity < |db.records| + n
            invariant newCapacity >= 1
            invariant Grown(newCapacity, |db.records| + n) == Grown(db.capacity, |db.records| + n)
            decreases |db.records| + n - newCapacity
          {
            newCapacity := newCapacity * 2;
          }
          db.capacity := newCapacity;
        }
        for j := 0 to n
          invariant queue == old(queue) && db.records == old(db.records) + queue[..j]
          invariant db.capacity == Grown(old(db.capacity), |old(db.records)| + n) && unchanged(db.store)
        {
          var q := queue[j];
          db.records := db.records + [RamRecord(q.id, q.vector, q.metadata, false, q.byteOffset)];
        }
        db.store.Remap();
        queue := [];
      }
    }

    method MarkPendingDirty()
      modifies this`pendingDirty
      ensures pendingDirty
    {
      pendingDirty := true;
    }

    /** Reloads the ids hidden from searches when a delete request has been queued since the last pass. */
    method RefreshPending(file: seq<Byte>)
      requires db.Valid()
      modifies this`pendingDirty, db`pending
      ensures db.Valid() && !pendingDirty && State() == old(State())
      ensures db.pending == if old(pendingDirty) then SortedIds(QueuedIds(file)) else old(db.pending)
    {
      if pendingDirty {
        db.pending := LoadPendingDeletes(file);
        pendingDirty := false;
      }
    }
  }

  // ---- where runs of the protocol start ----

  function NormalLog(log: seq<Record>): (n: seq<Record>)
    ensures |n| == |log|
  {
    seq(|log|, i requires 0 <= i < |log| => Normal(log[i]))
  }

  lemma {:induction false} NormalSameBytes(log: seq<Record>, dim: nat)
    requires AllStorable(log, dim)
    ensures AllStorable(NormalLog(log), dim)
    ensures EncodeAll(NormalLog(log), dim) == EncodeAll(log, dim)
  {
    hide Encode;
    if log != [] {
      NormalSameBytes(log[..|log| - 1], dim);
      assert NormalLog(log)[..|log| - 1] == NormalLog(log[..|log| - 1]);
      EncodeNormal(log[|log| - 1], dim);
    }
  }

  lemma EncodeNormal(r: Record, dim: nat)
    requires Storable(r, dim)
    ensures Storable(Normal(r), dim) && Encode(Normal(r), dim) == Encode(r, dim)
  {
    assert MetaBytes(Normal(r)) == MetaBytes(r);
  }

  /** A table opened on an intact log and replayed from its start satisfies the protocol invariant, and all its pointers
      are valid. */
  lemma ReplayedTableSatisfiesInv(log: seq<Record>, dim: nat, generation: nat, capacity: nat)
    requires AllStorable(log, dim)
    requires |log| <= capacity && 1 <= capacity
    ensures var file := EncodeAll(log, dim);
            var s := State(file, |file|, generation, LoadedAll(Replay(file, 0, dim), generation), capacity, [], 1024);
            Inv(s, NormalLog(log), dim) && PointersValid(s, AllRecords, dim)
  {
    hide EncodeAll, Replay, VectorOf, RecordReadable;
    var file := EncodeAll(log, dim);
    var n := NormalLog(log);
    ReplayWholeLog(log, dim);
    NormalSameBytes(log, dim);
    var rs := LoadedAll(Replay(file, 0, dim), generation);
    forall i | 0 <= i < |rs|
      ensures StandsFor(rs[i], n[i], Offset(n, dim, i), |file|, dim)
    {
      assert n[..i] == NormalLog(log[..i]);
      NormalSameBytes(log[..i], dim);
      VectorInLog(log, dim, i);
    }
    assert rs + [] == rs;
    EndOfLog(n, dim);
    PointersValidWhenCurrent(State(file, |file|, generation, rs, capacity, [], 1024), n, AllRecords, dim);
  }

  /** As the code stands, opening leaves the cursor at the end of the file, and replay from there loads nothing. */
  lemma ReplayFromEndLoadsNothing(file: seq<Byte>, dim: nat)
    ensures Replay(file, |file|, dim) == []
  {
  }
}
