/** The in-memory record array of a table, and how its entries stand for records of the log. */
module RamTable {
  import opened Bytes
  import opened RecordLog
  import opened Tombstone

  /** Where a record's floats live: on the heap, at a position of the file as it was mapped the `generation`-th time, or
      nowhere (a null pointer). */
  datatype VectorRef = Heap(data: seq<Word32>) | Mapped(generation: nat, at: nat) | Missing

  datatype RamRecord = RamRecord(id: Word64, vector: VectorRef, metadata: Option<seq<Byte>>, deleted: bool,
                                 byteOffset: nat)

  /** The current mapping. The kernel picks a new address whenever the file is mapped again, so a pointer into an earlier
      mapping leads nowhere. */
  datatype Mapping = Mapping(bytes: seq<Byte>, generation: nat)

  predicate Readable(v: VectorRef, view: Mapping, dim: nat) {
    match v
    case Heap(data) => |data| == dim
    case Mapped(generation, at) => generation == view.generation && at + 4 * dim <= |view.bytes|
    case Missing => false
  }

  function Floats(v: VectorRef, view: Mapping, dim: nat): (f: seq<Word32>)
    requires Readable(v, view, dim)
    ensures |f| == dim
  {
    if v.Heap? then v.data else VectorOf(view.bytes[v.at..v.at + 4 * dim], dim)
  }

  predicate RecordReadable(r: RamRecord, view: Mapping, dim: nat) {
    Readable(r.vector, view, dim) && MetaFits(r.metadata)
  }

  predicate AllReadable(rs: seq<RamRecord>, view: Mapping, dim: nat) {
    forall i :: 0 <= i < |rs| ==> RecordReadable(rs[i], view, dim)
  }

  /** Every record that a search or a compaction may look at can be read. */
  predicate LiveReadable(rs: seq<RamRecord>, view: Mapping, dim: nat) {
    forall i :: 0 <= i < |rs| && !rs[i].deleted ==> RecordReadable(rs[i], view, dim)
  }

  predicate MetaFits(m: Option<seq<Byte>>) {
    m.Some? ==> |m.value| < 0x1_0000_0000_0000_0000
  }

  /** The record that writing `r` to a log would store. */
  function Stored(r: RamRecord, view: Mapping, dim: nat): (rec: Record)
    requires RecordReadable(r, view, dim)
    ensures Storable(rec, dim)
  {
    Record(r.id, r.deleted, Floats(r.vector, view, dim), r.metadata)
  }

  function StoredAll(rs: seq<RamRecord>, view: Mapping, dim: nat): (log: seq<Record>)
    requires AllReadable(rs, view, dim)
    ensures |log| == |rs| && AllStorable(log, dim)
  {
    seq(|rs|, i requires 0 <= i < |rs| => Stored(rs[i], view, dim))
  }

  /** `r` stands for `rec`, which sits at `offset` of a file whose first `mapped` bytes are mapped. Whether a mapped vector
      belongs to the current mapping is another matter. */
  predicate StandsFor(r: RamRecord, rec: Record, offset: nat, mapped: nat, dim: nat) {
    && r.id == rec.id && r.deleted == rec.deleted && r.metadata == rec.metadata && r.byteOffset == offset
    && match r.vector
       case Heap(data) => data == rec.vector
       case Mapped(_, at) => at == offset + HEADER_BYTES && at + 4 * dim <= mapped
       case Missing => false
  }

  /** The record array `rs` stands for the log `log` stored in `file`. */
  ghost predicate Mirrors(rs: seq<RamRecord>, log: seq<Record>, file: seq<Byte>, mapped: nat, dim: nat) {
    && |rs| == |log| && AllStorable(log, dim)
    && file == EncodeAll(log, dim) && mapped <= |file|
    && forall i :: 0 <= i < |rs| ==> StandsFor(rs[i], log[i], Offset(log, dim, i), mapped, dim)
  }

  /** Index of the first live record with this id, or the length of the array. */
  function FirstLive(rs: seq<RamRecord>, id: Word64): (i: nat)
    ensures i <= |rs|
    ensures i < |rs| ==> rs[i].id == id && !rs[i].deleted
    ensures forall j :: 0 <= j < i ==> rs[j].id != id || rs[j].deleted
  {
    if rs == [] then 0
    else if rs[0].id == id && !rs[0].deleted then 0
    else 1 + FirstLive(rs[1..], id)
  }

  function LiveOnly(rs: seq<RamRecord>): (live: seq<RamRecord>)
    ensures |live| <= |rs|
  {
    if rs == [] then []
    else LiveOnly(rs[..|rs| - 1]) + (if rs[|rs| - 1].deleted then [] else [rs[|rs| - 1]])
  }

  function LiveLog(log: seq<Record>): seq<Record>
  {
    if log == [] then []
    else LiveLog(log[..|log| - 1]) + (if log[|log| - 1].deleted then [] else [log[|log| - 1]])
  }

  /** The survivors of a compaction, pointed at their new places in the next mapping. */
  function Relocate(live: seq<RamRecord>, log: seq<Record>, generation: nat, dim: nat): (rs: seq<RamRecord>)
    requires |live| == |log| && AllStorable(log, dim)
    ensures |rs| == |live|
  {
    seq(|live|, i requires 0 <= i < |live| =>
      var at := Offset(log, dim, i);
      live[i].(byteOffset := at,
               vector := if live[i].vector.Mapped? then Mapped(generation, at + HEADER_BYTES) else Missing))
  }

  // ---- reading a mirrored array ----

  /** The vector bytes of record `i` sit 24 bytes after its offset. */
  lemma VectorInLog(log: seq<Record>, dim: nat, i: nat)
    requires AllStorable(log, dim) && i < |log|
    ensures Offset(log, dim, i) + HEADER_BYTES + 4 * dim <= Offset(log, dim, i + 1) <= |EncodeAll(log, dim)|
    ensures var at := Offset(log, dim, i) + HEADER_BYTES;
            VectorOf(EncodeAll(log, dim)[at..at + 4 * dim], dim) == log[i].vector
  {
    hide PaddedSize, Encode, EncodeAll, EncodeWords, DecodeWords, Pow256, LittleEndian;
    Pow256Values();
    var e := Encode(log[i], dim);
    EncodeAllSlice(log, dim, i);
    EncodedFields(log[i], dim);
    SliceOfSlice(EncodeAll(log, dim), Offset(log, dim, i), e, HEADER_BYTES, HEADER_BYTES + 4 * dim);
    WordsRoundTrip(log[i].vector, 4);
  }

  /** The vector does not point into an earlier mapping. */
  predicate Current(v: VectorRef, generation: nat) {
    v.Mapped? ==> v.generation == generation
  }

  lemma SliceOfPrefix(file: seq<Byte>, mapped: nat, from: nat, to: nat)
    requires from <= to <= mapped <= |file|
    ensures file[..mapped][from..to] == file[from..to]
  {
  }

  /** A mirrored record can be read exactly when its vector is current, and then reads back as the record that it stands
      for, whether its floats are on the heap or mapped. */
  lemma MirrorReads(rs: seq<RamRecord>, log: seq<Record>, file: seq<Byte>, mapped: nat, generation: nat, dim: nat, i: nat)
    requires Mirrors(rs, log, file, mapped, dim) && i < |rs|
    ensures RecordReadable(rs[i], Mapping(file[..mapped], generation), dim) <==> Current(rs[i].vector, generation)
    ensures Current(rs[i].vector, generation) ==> Stored(rs[i], Mapping(file[..mapped], generation), dim) == log[i]
  {
    hide EncodeAll, VectorOf;
    assert StandsFor(rs[i], log[i], Offset(log, dim, i), mapped, dim);
    assert Storable(log[i], dim);
    if rs[i].vector.Mapped? {
      VectorInLog(log, dim, i);
      var at := rs[i].vector.at;
      SliceOfPrefix(file, mapped, at, at + 4 * dim);
    }
  }

  /** Reading every live record of a mirrored array gives the live part of its log. */
  lemma MirrorReadsLive(rs: seq<RamRecord>, log: seq<Record>, file: seq<Byte>, mapped: nat, generation: nat, dim: nat)
    requires Mirrors(rs, log, file, mapped, dim)
    requires LiveReadable(rs, Mapping(file[..mapped], generation), dim)
    ensures var view := Mapping(file[..mapped], generation);
            AllReadable(LiveOnly(rs), view, dim) && StoredAll(LiveOnly(rs), view, dim) == LiveLog(log)
  {
    hide EncodeAll, RecordReadable;
    var view := Mapping(file[..mapped], generation);
    forall i | 0 <= i < |rs|
      ensures rs[i].deleted == log[i].deleted
      ensures !rs[i].deleted ==> RecordReadable(rs[i], view, dim) && Stored(rs[i], view, dim) == log[i]
    {
      assert StandsFor(rs[i], log[i], Offset(log, dim, i), mapped, dim);
      MirrorReads(rs, log, file, mapped, generation, dim, i);
    }
    LiveStoredAs(rs, log, view, dim);
  }

  /** Setting a record's flag in the array and patching its byte in the file keep the two in step. */
  lemma TombstoneMirror(rs: seq<RamRecord>, log: seq<Record>, file: seq<Byte>, mapped: nat, dim: nat, k: nat)
    requires Mirrors(rs, log, file, mapped, dim) && k < |rs|
    ensures rs[k].byteOffset + FLAG_OFFSET < |file|
    ensures Mirrors(rs[k := rs[k].(deleted := true)], log[k := Dead(log[k])], Patch(file, rs[k].byteOffset), mapped, dim)
  {
    hide EncodeAll;
    var rs', log' := rs[k := rs[k].(deleted := true)], log[k := Dead(log[k])];
    assert StandsFor(rs[k], log[k], Offset(log, dim, k), mapped, dim);
    PatchRefinesReencoding(log, dim, k);
    forall i | 0 <= i < |rs'|
      ensures StandsFor(rs'[i], log'[i], Offset(log', dim, i), mapped, dim)
    {
      PatchKeepsOffsets(log, dim, k, i);
      assert StandsFor(rs[i], log[i], Offset(log, dim, i), mapped, dim);
    }
  }

  // ---- live records ----

  lemma {:induction false} LiveStoredAs(rs: seq<RamRecord>, log: seq<Record>, view: Mapping, dim: nat)
    requires |rs| == |log| && forall i :: 0 <= i < |rs| ==> rs[i].deleted == log[i].deleted
    requires forall i :: 0 <= i < |rs| && !rs[i].deleted ==>
               RecordReadable(rs[i], view, dim) && Stored(rs[i], view, dim) == log[i]
    ensures AllReadable(LiveOnly(rs), view, dim) && StoredAll(LiveOnly(rs), view, dim) == LiveLog(log)
  {
    hide RecordReadable, Stored;
    if rs != [] {
      var n := |rs| - 1;
      LiveStoredAs(rs[..n], log[..n], view, dim);
    }
  }

  /** Reading the live records one by one is possible exactly when each of them is readable. */
  lemma {:induction false} LiveOnlyReadable(rs: seq<RamRecord>, view: Mapping, dim: nat)
    ensures AllReadable(LiveOnly(rs), view, dim) <==> LiveReadable(rs, view, dim)
  {
    hide RecordReadable;
    if rs != [] {
      var front, last := rs[..|rs| - 1], rs[|rs| - 1];
      LiveOnlyReadable(front, view, dim);
      var live, all := LiveOnly(front), LiveOnly(rs);
      assert forall i :: 0 <= i < |live| ==> all[i] == live[i];
      assert !last.deleted ==> all[|live|] == last;
      assert forall i :: 0 <= i < |front| ==> front[i] == rs[i];
    }
  }
}
