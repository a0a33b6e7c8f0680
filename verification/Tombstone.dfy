/** Deleting a record in place: one byte of the log is overwritten, and nothing else moves. */
module Tombstone {
  import opened Bytes
  import opened RecordLog

  const FLAG_OFFSET: nat := 8

  function Dead(r: Record): Record {
    r.(deleted := true)
  }

  /** The file after the flag byte of the record at `offset` has been patched. */
  function Patch(file: seq<Byte>, offset: nat): seq<Byte>
    requires offset + FLAG_OFFSET < |file|
  {
    file[offset + FLAG_OFFSET := 1]
  }

  lemma HighByteOfSmall(v: nat, i: nat)
    requires v < 256 && i > 0
    ensures v / Pow256(i) == 0
    ensures Pow256(0) == 1
  {
    QuotientUnique(v, Pow256(i), 0, v);
  }

  lemma FlagByte(flag: nat)
    requires flag <= 1
    ensures LittleEndian(1, 8) == LittleEndian(flag, 8)[0 := 1]
  {
    hide Pow256;
    forall i | 1 <= i < 8
      ensures LittleEndian(1, 8)[i] == LittleEndian(flag, 8)[i]
    {
      HighByteOfSmall(1, i);
      HighByteOfSmall(flag, i);
    }
    HighByteOfSmall(1, 1);
  }

  /** Patching the flag byte of one encoding gives the encoding of the dead record. */
  lemma PatchOne(r: Record, dim: nat)
    requires Storable(r, dim)
    ensures Encode(Dead(r), dim) == Patch(Encode(r, dim), 0)
  {
    hide PaddedSize, EncodeWords;
    FlagByte(if r.deleted then 1 else 0);
    var h, h' := Header(r, dim), Header(Dead(r), dim);
    assert h' == h[8 := 1];
    assert Encode(r, dim)[..24] == h && Encode(Dead(r), dim)[..24] == h';
    assert Encode(r, dim)[24..] == Encode(Dead(r), dim)[24..];
  }

  lemma SplitLog(rs: seq<Record>, dim: nat, i: nat)
    requires AllStorable(rs, dim) && i < |rs|
    ensures EncodeAll(rs, dim) == EncodeAll(rs[..i], dim) + Encode(rs[i], dim) + EncodeAll(rs[i + 1..], dim)
  {
    hide Encode, PaddedSize, EncodeAll;
    EncodeAllAppend(rs[..i], [rs[i]], dim);
    EncodeOne(rs[i], dim);
    EncodeAllAppend(rs[..i] + [rs[i]], rs[i + 1..], dim);
    assert rs[..i] + [rs[i]] + rs[i + 1..] == rs;
  }

  lemma PatchMiddle(a: seq<Byte>, b: seq<Byte>, c: seq<Byte>)
    requires FLAG_OFFSET < |b|
    ensures Patch(a + b + c, |a|) == a + Patch(b, 0) + c
  {
  }

  /** The one-byte patch refines rewriting the whole log with that record's flag set. */
  lemma PatchRefinesReencoding(rs: seq<Record>, dim: nat, i: nat)
    requires AllStorable(rs, dim) && i < |rs|
    ensures AllStorable(rs[i := Dead(rs[i])], dim)
    ensures Offset(rs, dim, i) + FLAG_OFFSET < |EncodeAll(rs, dim)|
    ensures Patch(EncodeAll(rs, dim), Offset(rs, dim, i)) == EncodeAll(rs[i := Dead(rs[i])], dim)
  {
    hide Encode, PaddedSize, EncodeAll;
    var rs' := rs[i := Dead(rs[i])];
    SplitLog(rs, dim, i);
    SplitLog(rs', dim, i);
    assert rs'[..i] == rs[..i] && rs'[i + 1..] == rs[i + 1..];
    PatchOne(rs[i], dim);
    PatchMiddle(EncodeAll(rs[..i], dim), Encode(rs[i], dim), EncodeAll(rs[i + 1..], dim));
  }

  /** ... and no record moves. */
  lemma {:induction false} PatchKeepsOffsets(rs: seq<Record>, dim: nat, i: nat, j: nat)
    requires AllStorable(rs, dim) && i < |rs| && j <= |rs|
    ensures AllStorable(rs[i := Dead(rs[i])], dim)
    ensures Offset(rs[i := Dead(rs[i])], dim, j) == Offset(rs, dim, j)
    decreases j
  {
    hide Encode, PaddedSize;
    if j > 0 {
      PatchKeepsOffsets(rs, dim, i, j - 1);
      OffsetStep(rs, dim, j - 1);
      OffsetStep(rs[i := Dead(rs[i])], dim, j - 1);
    }
  }

  /** Seen through the decoder: the patched record is dead, every other record decodes as before at its old offset. */
  lemma PatchSeenByFetch(rs: seq<Record>, dim: nat, i: nat, j: nat)
    requires AllStorable(rs, dim) && i < |rs| && j < |rs|
    ensures Offset(rs, dim, i) + FLAG_OFFSET < |EncodeAll(rs, dim)|
    ensures var r := if j == i then Dead(rs[j]) else rs[j];
            Decode(Patch(EncodeAll(rs, dim), Offset(rs, dim, i)), Offset(rs, dim, j), dim) == Some(Normal(r))
  {
    hide Encode, PaddedSize, EncodeAll, Decode;
    PatchRefinesReencoding(rs, dim, i);
    PatchKeepsOffsets(rs, dim, i, j);
    FetchFindsRecord(rs[i := Dead(rs[i])], dim, j);
  }
}
