/** The storage object: an open data file with a read cursor and a read-only mapping of a prefix of it. */
module Storage {
  import opened Bytes
  import opened RecordLog
  import opened Tombstone
  import opened RamTable

  function Min(a: nat, b: nat): (m: nat)
    ensures m <= a && m <= b && (m == a || m == b)
  {
    if a <= b then a else b
  }

  /** The array entry that loading a record out of a mapping produces: its floats stay in that mapping. */
  function Loaded(l: Located, generation: nat): RamRecord {
    RamRecord(l.record.id, Mapped(generation, l.offset + HEADER_BYTES), l.record.metadata, l.record.deleted, l.offset)
  }

  function LoadedAll(ls: seq<Located>, generation: nat): (rs: seq<RamRecord>)
    ensures |rs| == |ls|
  {
    seq(|ls|, i requires 0 <= i < |ls| => Loaded(ls[i], generation))
  }

  lemma FieldPositions(r: Record, dim: nat)
    requires Storable(r, dim)
    ensures var e := Encode(r, dim); var meta := HEADER_BYTES + 4 * dim; var used := meta + |MetaBytes(r)|;
            && used <= PaddedSize(dim, |MetaBytes(r)|) == |e|
            && e[0..0 + 8] == LittleEndian(r.id, 8)
            && e[8..8 + 8] == LittleEndian(if r.deleted then 1 else 0, 8)
            && e[16..16 + 8] == LittleEndian(|MetaBytes(r)|, 8)
            && e[HEADER_BYTES..HEADER_BYTES + 4 * dim] == EncodeWords(r.vector, 4)
            && e[meta..meta + |MetaBytes(r)|] == MetaBytes(r)
            && e[used..|e|] == Zeros(|e| - used)
  {
    EncodedFields(r, dim);
  }

  lemma ExtendPrefix(start: seq<Byte>, e: seq<Byte>, p: nat, s: seq<Byte>, n: nat)
    requires p + |s| <= |e| && e[p..p + |s|] == s && n <= |s|
    ensures (start + e[..p]) + s[..n] == start + e[..p + n]
  {
    SliceOfSlice(e, p, s, 0, n);
    assert e[..p + n] == e[..p] + e[p..p + n];
  }

  class Store {
    var file: seq<Byte>
    var cursor: nat
    var mapped: nat
    var generation: nat

    predicate Valid()
      reads this
    {
      mapped <= |file|
    }

    /** What the mapping shows. It is shared with the file, so patches of the mapped part are visible in it. */
    function View(): seq<Byte>
      requires Valid()
      reads this
    {
      file[..mapped]
    }

    /** Opening maps the whole file and leaves the cursor at its end. */
    constructor (contents: seq<Byte>)
      ensures Valid() && file == contents && mapped == |contents| && cursor == |contents| && generation == 0
    {
      file, mapped, cursor, generation := contents, |contents|, |contents|, 0;
    }

    /** The mapping as the vector pointers see it. */
    function CurrentMapping(): Mapping
      requires Valid()
      reads this
    {
      Mapping(View(), generation)
    }

    method CurrentOffset() returns (offset: nat)
      modifies `cursor
      ensures offset == |file| == cursor
    {
      cursor := |file|;
      offset := cursor;
    }

    /** Appends the field `s` of the encoding `e`, which is on disk up to position `p`; only `room` more bytes fit. */
    method WriteField(s: seq<Byte>, room: nat, ghost start: seq<Byte>, ghost e: seq<Byte>, ghost p: nat)
      returns (left: nat, ok: bool)
      requires p + |s| <= |e| && e[p..p + |s|] == s
      requires file == start + e[..p]
      modifies `file, `cursor
      ensures ok <==> |s| <= room
      ensures ok ==> left == room - |s| && file == start + e[..p + |s|]
      ensures !ok ==> file == start + e[..p + room]
    {
      var n := Min(room, |s|);
      ExtendPrefix(start, e, p, s, n);
      file := file + s[..n];
      cursor := |file|;
      left := room - n;
      ok := n == |s|;
    }

    /** The three 64-bit words in front of the vector. */
    method WriteHeader(r: Record, dim: nat, room: nat) returns (left: nat, ok: bool)
      requires Storable(r, dim)
      modifies `file, `cursor
      ensures ok <==> HEADER_BYTES <= room
      ensures ok ==> left == room - HEADER_BYTES && file == old(file) + Encode(r, dim)[..HEADER_BYTES]
      ensures !ok ==> file == old(file) + Encode(r, dim)[..room]
    {
      hide Encode, PaddedSize, LittleEndian, EncodeWords, Zeros, MetaBytes;
      ghost var start, e := file, Encode(r, dim);
      FieldPositions(r, dim);
      assert start + e[..0] == start;
      left, ok := WriteField(LittleEndian(r.id, 8), room, start, e, 0);
      if !ok { return; }
      var flags := if r.deleted then 1 else 0;
      left, ok := WriteField(LittleEndian(flags, 8), left, start, e, 8);
      if !ok { return; }
      left, ok := WriteField(LittleEndian(|MetaBytes(r)|, 8), left, start, e, 16);
    }

    /** Appends one record field by field. When the device fills up the write fails and leaves a torn prefix. */
    method WriteRecord(r: Record, dim: nat, room: nat) returns (ok: bool)
      requires Storable(r, dim)
      modifies `file, `cursor
      ensures ok <==> |Encode(r, dim)| <= room
      ensures file == old(file) + Encode(r, dim)[..Min(room, |Encode(r, dim)|)]
    {
      hide Encode, PaddedSize, LittleEndian, EncodeWords, Zeros, MetaBytes;
      ghost var start, e := file, Encode(r, dim);
      FieldPositions(r, dim);
      cursor := |file|;
      var left: nat;
      left, ok := WriteHeader(r, dim, room);
      if !ok { return; }
      left, ok := WriteField(EncodeWords(r.vector, 4), left, start, e, HEADER_BYTES);
      if !ok { return; }
      var len := |MetaBytes(r)|;
      var used := HEADER_BYTES + 4 * dim + len;
      if len > 0 {
        left, ok := WriteField(MetaBytes(r), left, start, e, used - len);
        if !ok { return; }
      }
      var pad := PaddedSize(dim, len) - used;
      if pad > 0 {
        left, ok := WriteField(Zeros(pad), left, start, e, used);
      }
    }

    /** Reads the record under the cursor and steps past it; at the end, or at a torn record, nothing moves. */
    method LoadRecord(dim: nat) returns (r: Option<RamRecord>)
      requires Valid()
      modifies `cursor
      ensures var d := Decode(View(), old(cursor), dim);
              if d.Some? then r == Some(Loaded(Located(d.value, old(cursor)), generation))
                              && cursor == old(cursor) + PaddedSize(dim, |MetaBytes(d.value)|)
              else r == None && cursor == old(cursor)
    {
      if cursor >= mapped || cursor + HEADER_BYTES > mapped {
        return None;
      }
      Pow256Values();
      var ptr := cursor;
      var id := FromLittleEndian(file[..mapped][ptr..ptr + 8]);
      ptr := ptr + 8;
      var flags := FromLittleEndian(file[..mapped][ptr..ptr + 8]);
      ptr := ptr + 8;
      var len := FromLittleEndian(file[..mapped][ptr..ptr + 8]);
      ptr := ptr + 8;
      var total := PaddedSize(dim, len);
      if cursor + total > mapped {
        return None;
      }
      var vector := Mapped(generation, ptr);
      ptr := ptr + 4 * dim;
      var metadata := if len > 0 then Some(file[..mapped][ptr..ptr + len]) else None;
      r := Some(RamRecord(id, vector, metadata, flags % 2 == 1, cursor));
      cursor := cursor + total;
    }

    /** Random access through a byte offset, as the approximate search uses it. */
    method FetchByOffset(offset: nat, dim: nat) returns (r: Option<Record>)
      requires Valid()
      ensures r == Decode(View(), offset, dim)
    {
      if offset >= mapped || offset + HEADER_BYTES > mapped {
        return None;
      }
      Pow256Values();
      var ptr := offset;
      var id := FromLittleEndian(file[..mapped][ptr..ptr + 8]);
      ptr := ptr + 8;
      var flags := FromLittleEndian(file[..mapped][ptr..ptr + 8]);
      ptr := ptr + 8;
      var len := FromLittleEndian(file[..mapped][ptr..ptr + 8]);
      ptr := ptr + 8;
      if offset + PaddedSize(dim, len) > mapped {
        return None;
      }
      var vector := VectorOf(file[..mapped][ptr..ptr + 4 * dim], dim);
      ptr := ptr + 4 * dim;
      return Some(Record(id, flags % 2 == 1, vector, if len > 0 then Some(file[..mapped][ptr..ptr + len]) else None));
    }

    /** Maps whatever the file has grown to, at a new address. If it has not grown, the mapping stays. */
    method Remap()
      requires Valid()
      modifies `cursor, `mapped, `generation
      ensures Valid() && mapped == |file| == cursor
      ensures generation == if |file| == old(mapped) then old(generation) else old(generation) + 1
    {
      cursor := |file|;
      if |file| == mapped {
        return;
      }
      mapped, generation := |file|, generation + 1;
    }

    /** Overwrites the flag byte of the record at `offset`; `writable` says whether the file could be written. */
    method PatchFlag(offset: nat, writable: bool) returns (ok: bool)
      requires Valid() && offset + FLAG_OFFSET < |file|
      modifies `file
      ensures Valid() && ok == writable
      ensures file == if writable then Patch(old(file), offset) else old(file)
    {
      if !writable {
        return false;
      }
      file := file[offset + FLAG_OFFSET := 1];
      return true;
    }
  }
}
