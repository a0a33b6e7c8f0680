/** The queue file of requested deletions: 16-byte entries of an id and a time stamp. */
module PendingDelete {
  import opened Bytes

  const ENTRY_BYTES: nat := 16

  function IdAt(file: seq<Byte>, cursor: nat): (id: Word64)
    requires cursor + 8 <= |file|
  {
    Pow256Values();
    FromLittleEndian(file[cursor..cursor + 8])
  }

  function EntryCount(file: seq<Byte>): (n: nat)
    ensures ENTRY_BYTES * n <= |file| < ENTRY_BYTES * (n + 1)
  {
    |file| / ENTRY_BYTES
  }

  function QueuedIds(file: seq<Byte>): (ids: seq<Word64>)
    ensures |ids| == EntryCount(file)
  {
    seq(EntryCount(file), i requires 0 <= i < EntryCount(file) => IdAt(file, ENTRY_BYTES * i))
  }

  predicate Ascending(s: seq<Word64>) {
    forall i, j :: 0 <= i < j < |s| ==> s[i] <= s[j]
  }

  function Place(x: Word64, s: seq<Word64>): (r: seq<Word64>)
    requires Ascending(s)
    ensures r != [] && r[0] == (if s == [] || x <= s[0] then x else s[0])
    ensures Ascending(r)
    ensures multiset(r) == multiset(s) + multiset{x}
  {
    if s == [] || x <= s[0] then [x] + s
    else
      assert s == [s[0]] + s[1..];
      [s[0]] + Place(x, s[1..])
  }

  /** The ascending arrangement that `qsort` leaves behind. */
  function SortedIds(s: seq<Word64>): (r: seq<Word64>)
    ensures Ascending(r) && multiset(r) == multiset(s)
  {
    if s == [] then [] else
      assert s == [s[0]] + s[1..];
      Place(s[0], SortedIds(s[1..]))
  }

  /** Reads the ids of the queue file, one entry after another, and sorts them. An empty result stands for the null
      pointer that the original returns. A trailing partial entry is ignored. */
  method LoadPendingDeletes(file: seq<Byte>) returns (ids: seq<Word64>)
    ensures ids == SortedIds(QueuedIds(file))
    ensures forall entries, tail :: |tail| < 16 && file == QueueFile(entries) + tail ==> ids == SortedIds(IdsOf(entries))
  {
    forall entries, tail | |tail| < 16 && file == QueueFile(entries) + tail
      ensures QueuedIds(file) == IdsOf(entries)
    {
      QueuedAreRequested(entries, tail);
    }
    var count := EntryCount(file);
    hide IdAt, EntryCount;
    ids := [];
    var cursor := 0;
    for i := 0 to count
      invariant cursor == ENTRY_BYTES * i
      invariant ids == QueuedIds(file)[..i]
    {
      ids := ids + [IdAt(file, cursor)];
      cursor := cursor + 8;
      cursor := cursor + 8;
    }
    assert ids == QueuedIds(file);
    ids := SortedIds(ids);
  }

  /** Binary search in the sorted ids. */
  method IsPendingDelete(id: Word64, ids: seq<Word64>) returns (found: bool)
    requires Ascending(ids)
    ensures found <==> id in ids
  {
    var lo, hi := 0, |ids|;
    while lo < hi
      invariant 0 <= lo <= hi <= |ids|
      invariant forall i :: 0 <= i < lo ==> ids[i] < id
      invariant forall i :: hi <= i < |ids| ==> id < ids[i]
    {
      var mid := (lo + hi) / 2;
      if id < ids[mid] {
        hi := mid;
      } else if ids[mid] < id {
        lo := mid + 1;
      } else {
        return true;
      }
    }
    return false;
  }

  // ---- what the queue file holds ----

  /** A request: the id to delete, and when the request was made. */
  datatype Entry = Entry(id: Word64, stamp: Word64)

  /** The queue file of a list of requests: eight bytes for the id and eight for the time stamp of each, least significant
      byte first. */
  function QueueFile(entries: seq<Entry>): (file: seq<Byte>)
    ensures |file| == 16 * |entries|
  {
    if entries == [] then []
    else LittleEndian(entries[0].id, 8) + LittleEndian(entries[0].stamp, 8) + QueueFile(entries[1..])
  }

  function IdsOf(entries: seq<Entry>): (ids: seq<Word64>)
    ensures |ids| == |entries|
  {
    seq(|entries|, i requires 0 <= i < |entries| => entries[i].id)
  }

  lemma FirstId(e: Entry, rest: seq<Byte>)
    ensures IdAt(LittleEndian(e.id, 8) + LittleEndian(e.stamp, 8) + rest, 0) == e.id
  {
    hide LittleEndian, FromLittleEndian, Pow256;
    Pow256Values();
    LittleEndianRoundTrip(e.id, 8);
    assert (LittleEndian(e.id, 8) + LittleEndian(e.stamp, 8) + rest)[0..8] == LittleEndian(e.id, 8);
  }

  lemma IdBehind(first: seq<Byte>, file: seq<Byte>, i: nat)
    requires |first| == 16 && 16 * i + 8 <= |file|
    ensures IdAt(first + file, 16 * (i + 1)) == IdAt(file, 16 * i)
  {
    hide FromLittleEndian, Pow256;
    assert (first + file)[16 * (i + 1)..16 * (i + 1) + 8] == file[16 * i..16 * i + 8];
  }

  /** The ids queued in a file of requests, torn at its end or not, are theirs. */
  lemma {:induction false} QueuedAreRequested(entries: seq<Entry>, tail: seq<Byte>)
    requires |tail| < 16
    ensures QueuedIds(QueueFile(entries) + tail) == IdsOf(entries)
  {
    hide IdAt, LittleEndian;
    var file := QueueFile(entries) + tail;
    assert EntryCount(file) == |entries|;
    if entries != [] {
      var e, rest := entries[0], QueueFile(entries[1..]) + tail;
      var first := LittleEndian(e.id, 8) + LittleEndian(e.stamp, 8);
      assert file == first + rest;
      QueuedAreRequested(entries[1..], tail);
      FirstId(e, rest);
      forall i | 0 < i < |entries|
        ensures IdAt(file, 16 * i) == entries[i].id
      {
        IdBehind(first, rest, i - 1);
        assert QueuedIds(rest)[i - 1] == entries[1..][i - 1].id;
      }
    }
  }

  /** Every queue file is such a file. */
  lemma {:induction false} EveryFileIsAQueue(file: seq<Byte>) returns (entries: seq<Entry>, tail: seq<Byte>)
    ensures file == QueueFile(entries) + tail && |tail| < 16
    decreases |file|
  {
    if |file| < 16 {
      entries, tail := [], file;
      assert [] + file == file;
    } else {
      entries, tail := EveryFileIsAQueue(file[16..]);
      Pow256Values();
      var e := Entry(FromLittleEndian(file[..8]), FromLittleEndian(file[8..16]));
      BytesOfNumber(file[..8]);
      BytesOfNumber(file[8..16]);
      assert ([e] + entries)[1..] == entries;
      entries := [e] + entries;
      assert file == file[..8] + file[8..16] + file[16..];
    }
  }

  /** Sorting before searching loses nothing: an id is found exactly when some whole entry of the file queues it. */
  lemma SortingKeepsMembership(file: seq<Byte>, ids: seq<Word64>, id: Word64)
    requires multiset(ids) == multiset(QueuedIds(file))
    ensures id in ids <==> exists i :: 0 <= i < EntryCount(file) && QueuedIds(file)[i] == id
  {
    assert id in ids <==> id in multiset(ids);
    assert id in QueuedIds(file) <==> id in multiset(QueuedIds(file));
  }
}
