/** The append-only record log: its binary layout, random fetch, sequential replay and torn tails. */
module RecordLog {
  import opened Bytes

  const HEADER_BYTES: nat := 24

  /** A record as the log stores it. Floats are kept as their 32-bit patterns; metadata is a C string without its
      terminator, `None` standing for a null pointer. */
  datatype Record = Record(id: Word64, deleted: bool, vector: seq<Word32>, metadata: Option<seq<Byte>>)

  datatype Located = Located(record: Record, offset: nat)

  function MetaBytes(r: Record): seq<Byte> {
    if r.metadata.Some? then r.metadata.value else []
  }

  /** What a caller may hand to the log: the table's dimension and a metadata length that fits its 64-bit field. */
  predicate Storable(r: Record, dim: nat) {
    |r.vector| == dim && |MetaBytes(r)| < 0x1_0000_0000_0000_0000
  }

  predicate AllStorable(rs: seq<Record>, dim: nat) {
    forall i :: 0 <= i < |rs| ==> Storable(rs[i], dim)
  }

  /** Reading back loses one distinction: the empty string comes back as a null pointer. */
  function Normal(r: Record): Record {
    if r.metadata == Some([]) then r.(metadata := None) else r
  }

  /** The header, the vector and the metadata, rounded up to a multiple of eight. */
  function PaddedSize(dim: nat, metaLen: nat): (n: nat)
    ensures n % 8 == 0
    ensures HEADER_BYTES + 4 * dim + metaLen <= n < HEADER_BYTES + 4 * dim + metaLen + 8
  {
    var n := HEADER_BYTES + 4 * dim + metaLen + 7;
    n - n % 8
  }

  function Header(r: Record, dim: nat): (s: seq<Byte>)
    ensures |s| == HEADER_BYTES
  {
    LittleEndian(r.id, 8) + LittleEndian(if r.deleted then 1 else 0, 8) + LittleEndian(|MetaBytes(r)|, 8)
  }

  function Encode(r: Record, dim: nat): (s: seq<Byte>)
    requires Storable(r, dim)
    ensures |s| == PaddedSize(dim, |MetaBytes(r)|)
  {
    var used := HEADER_BYTES + 4 * dim + |MetaBytes(r)|;
    Header(r, dim) + EncodeWords(r.vector, 4) + MetaBytes(r) + Zeros(PaddedSize(dim, |MetaBytes(r)|) - used)
  }

  function EncodeAll(rs: seq<Record>, dim: nat): seq<Byte>
    requires AllStorable(rs, dim)
  {
    if rs == [] then [] else EncodeAll(rs[..|rs| - 1], dim) + Encode(rs[|rs| - 1], dim)
  }

  /** Where record `i` of the log starts; `Offset(rs, |rs|)` is the size of the log. */
  function Offset(rs: seq<Record>, dim: nat, i: nat): nat
    requires AllStorable(rs, dim) && i <= |rs|
  {
    |EncodeAll(rs[..i], dim)|
  }

  function VectorOf(s: seq<Byte>, dim: nat): (v: seq<Word32>)
    requires |s| == 4 * dim
    ensures |v| == dim
  {
    Pow256Values();
    DecodeWords(s, 4, dim)
  }

  /** Decoding the record that starts at `pos`: `None` when it does not lie wholly inside `data`. */
  function Decode(data: seq<Byte>, pos: nat, dim: nat): (r: Option<Record>)
    ensures r.Some? ==> Storable(r.value, dim)
    ensures r.Some? ==> pos + PaddedSize(dim, |MetaBytes(r.value)|) <= |data|
  {
    if pos >= |data| then None
    else if pos + HEADER_BYTES > |data| then None
    else
      Pow256Values();
      var flags := FromLittleEndian(data[pos + 8..pos + 16]);
      var len := FromLittleEndian(data[pos + 16..pos + 24]);
      if pos + PaddedSize(dim, len) > |data| then None
      else
        var meta := pos + HEADER_BYTES + 4 * dim;
        Some(Record(FromLittleEndian(data[pos..pos + 8]),
                    flags % 2 == 1,
                    VectorOf(data[pos + HEADER_BYTES..meta], dim),
                    if len > 0 then Some(data[meta..meta + len]) else None))
  }

  /** Sequential replay from `pos`, as the loading loop performs it. */
  function Replay(data: seq<Byte>, pos: nat, dim: nat): seq<Located>
    decreases |data| - pos
  {
    match Decode(data, pos, dim)
    case None => []
    case Some(r) =>
      [Located(r, pos)] + Replay(data, pos + PaddedSize(dim, |MetaBytes(r)|), dim)
  }

  /** The log `rs`, each record at its offset, as replay reports it. */
  function LocatedLog(rs: seq<Record>, dim: nat): (ls: seq<Located>)
    requires AllStorable(rs, dim)
    ensures |ls| == |rs|
  {
    seq(|rs|, i requires 0 <= i < |rs| => Located(Normal(rs[i]), Offset(rs, dim, i)))
  }

  /** How many records of `rs` lie wholly inside the first `n` bytes of their log. */
  function WholeRecords(rs: seq<Record>, dim: nat, n: nat): (k: nat)
    requires AllStorable(rs, dim)
    ensures k <= |rs|
    ensures Offset(rs, dim, k) <= n
    ensures k < |rs| ==> n < Offset(rs, dim, k + 1)
  {
    if rs == [] then 0
    else if Offset(rs, dim, |rs|) <= n then |rs|
    else
      var front := rs[..|rs| - 1];
      var k := WholeRecords(front, dim, n);
      assert front[..k] == rs[..k];
      assert k < |front| ==> front[..k + 1] == rs[..k + 1];
      k
  }

  lemma Associative(a: seq<Byte>, b: seq<Byte>, c: seq<Byte>)
    ensures (a + b) + c == a + (b + c)
  {
  }

  // ---- one record ----

  lemma SliceOfSlice(data: seq<Byte>, pos: nat, e: seq<Byte>, a: nat, b: nat)
    requires pos + |e| <= |data| && data[pos..pos + |e|] == e
    requires a <= b <= |e|
    ensures data[pos + a..pos + b] == e[a..b]
  {
    forall i | 0 <= i < b - a
      ensures data[pos + a..pos + b][i] == e[a..b][i]
    {
      assert data[pos..pos + |e|][a + i] == data[pos + a + i];
    }
  }

  /** Where each field of an encoded record sits. */
  lemma EncodedFields(r: Record, dim: nat)
    requires Storable(r, dim)
    ensures var e := Encode(r, dim); var meta := HEADER_BYTES + 4 * dim;
            && e[..8] == LittleEndian(r.id, 8)
            && e[8..16] == LittleEndian(if r.deleted then 1 else 0, 8)
            && e[16..24] == LittleEndian(|MetaBytes(r)|, 8)
            && e[24..meta] == EncodeWords(r.vector, 4)
            && e[meta..meta + |MetaBytes(r)|] == MetaBytes(r)
            && e[meta + |MetaBytes(r)|..] == Zeros(|e| - (meta + |MetaBytes(r)|))
  {
    hide PaddedSize;
    var e := Encode(r, dim);
    var h := Header(r, dim);
    assert e[..24] == h;
    assert e[..8] == h[..8];
    assert e[8..16] == h[8..16];
    assert e[16..24] == h[16..24];
  }

  /** Decoding undoes encoding wherever the encoding sits in the file. */
  lemma DecodeEncoded(data: seq<Byte>, pos: nat, r: Record, dim: nat)
    requires Storable(r, dim)
    requires pos + |Encode(r, dim)| <= |data|
    requires data[pos..pos + |Encode(r, dim)|] == Encode(r, dim)
    ensures Decode(data, pos, dim) == Some(Normal(r))
  {
    hide PaddedSize, Encode, EncodeWords, DecodeWords, LittleEndian, FromLittleEndian, Pow256;
    var e := Encode(r, dim);
    var len := |MetaBytes(r)|;
    var meta := HEADER_BYTES + 4 * dim;
    Pow256Values();
    EncodedFields(r, dim);
    assert data[pos..pos + 8] == LittleEndian(r.id, 8) by { SliceOfSlice(data, pos, e, 0, 8); }
    assert data[pos + 8..pos + 16] == e[8..16] by { SliceOfSlice(data, pos, e, 8, 16); }
    assert data[pos + 16..pos + 24] == LittleEndian(len, 8) by { SliceOfSlice(data, pos, e, 16, 24); }
    assert data[pos + 24..pos + meta] == EncodeWords(r.vector, 4) by { SliceOfSlice(data, pos, e, 24, meta); }
    assert data[pos + meta..pos + meta + len] == MetaBytes(r) by { SliceOfSlice(data, pos, e, meta, meta + len); }
    LittleEndianRoundTrip(r.id, 8);
    LittleEndianRoundTrip(if r.deleted then 1 else 0, 8);
    LittleEndianRoundTrip(len, 8);
    WordsRoundTrip(r.vector, 4);
  }

  /** A record cut short by the end of the file decodes to nothing. */
  lemma DecodeTorn(data: seq<Byte>, pos: nat, r: Record, dim: nat)
    requires Storable(r, dim)
    requires pos <= |data| < pos + |Encode(r, dim)|
    requires data[pos..] == Encode(r, dim)[..|data| - pos]
    ensures Decode(data, pos, dim) == None
  {
    if pos + HEADER_BYTES <= |data| {
      var len := |MetaBytes(r)|;
      Pow256Values();
      LittleEndianRoundTrip(len, 8);
      assert data[pos + 16..pos + 24] == data[pos..][16..24] == Encode(r, dim)[16..24];
      assert Encode(r, dim)[16..24] == Header(r, dim)[16..24] == LittleEndian(len, 8);
    }
  }

  // ---- the whole log ----

  lemma OffsetStep(rs: seq<Record>, dim: nat, i: nat)
    requires AllStorable(rs, dim) && i < |rs|
    ensures Offset(rs, dim, i + 1) == Offset(rs, dim, i) + |Encode(rs[i], dim)|
  {
    assert rs[..i + 1][..i] == rs[..i];
  }

  lemma {:induction false} EncodeAllPrefix(rs: seq<Record>, dim: nat, i: nat)
    requires AllStorable(rs, dim) && i <= |rs|
    ensures Offset(rs, dim, i) <= |EncodeAll(rs, dim)|
    ensures EncodeAll(rs, dim)[..Offset(rs, dim, i)] == EncodeAll(rs[..i], dim)
    decreases |rs|
  {
    if i < |rs| {
      var front := rs[..|rs| - 1];
      EncodeAllPrefix(front, dim, i);
      assert front[..i] == rs[..i];
    } else {
      assert rs[..i] == rs;
    }
  }

  /** Record `i` occupies exactly the bytes from its offset to the next one. */
  lemma EncodeAllSlice(rs: seq<Record>, dim: nat, i: nat)
    requires AllStorable(rs, dim) && i < |rs|
    ensures Offset(rs, dim, i) + |Encode(rs[i], dim)| == Offset(rs, dim, i + 1) <= |EncodeAll(rs, dim)|
    ensures EncodeAll(rs, dim)[Offset(rs, dim, i)..Offset(rs, dim, i + 1)] == Encode(rs[i], dim)
  {
    OffsetStep(rs, dim, i);
    EncodeAllPrefix(rs, dim, i + 1);
    var e := EncodeAll(rs[..i + 1], dim);
    assert rs[..i + 1][..i] == rs[..i];
    assert e == EncodeAll(rs[..i], dim) + Encode(rs[i], dim);
    assert EncodeAll(rs, dim)[Offset(rs, dim, i)..Offset(rs, dim, i + 1)] == e[Offset(rs, dim, i)..];
  }

  lemma EncodeOne(r: Record, dim: nat)
    requires Storable(r, dim)
    ensures EncodeAll([r], dim) == Encode(r, dim)
  {
    hide Encode, PaddedSize;
    assert [r][..0] == [];
    assert [] + Encode(r, dim) == Encode(r, dim);
  }

  lemma {:induction false} EncodeAllAppend(rs: seq<Record>, ts: seq<Record>, dim: nat)
    requires AllStorable(rs, dim) && AllStorable(ts, dim)
    ensures AllStorable(rs + ts, dim)
    ensures EncodeAll(rs + ts, dim) == EncodeAll(rs, dim) + EncodeAll(ts, dim)
    decreases |ts|
  {
    hide Encode, PaddedSize;
    if ts == [] {
      assert rs + ts == rs;
    } else {
      var front, last := ts[..|ts| - 1], ts[|ts| - 1];
      EncodeAllAppend(rs, front, dim);
      assert (rs + ts)[..|rs + ts| - 1] == rs + front && (rs + ts)[|rs + ts| - 1] == last;
      Associative(EncodeAll(rs, dim), EncodeAll(front, dim), Encode(last, dim));
    }
  }

  /** Fetching by byte offset finds exactly the record that was appended there. */
  lemma FetchFindsRecord(rs: seq<Record>, dim: nat, i: nat)
    requires AllStorable(rs, dim) && i < |rs|
    ensures Decode(EncodeAll(rs, dim), Offset(rs, dim, i), dim) == Some(Normal(rs[i]))
  {
    hide Encode, PaddedSize, EncodeAll, Decode;
    EncodeAllSlice(rs, dim, i);
    DecodeEncoded(EncodeAll(rs, dim), Offset(rs, dim, i), rs[i], dim);
  }

  lemma SumOfMultiples(a: nat, b: nat)
    requires a % 8 == 0 && b % 8 == 0
    ensures (a + b) % 8 == 0
  {
  }

  /** Every record, and so every vector handed out of the mapping, starts on an eight-byte boundary. */
  lemma {:induction false} OffsetsAligned(rs: seq<Record>, dim: nat, i: nat)
    requires AllStorable(rs, dim) && i <= |rs|
    ensures Offset(rs, dim, i) % 8 == 0
    decreases i
  {
    hide Encode, PaddedSize;
    if i > 0 {
      OffsetsAligned(rs, dim, i - 1);
      OffsetStep(rs, dim, i - 1);
      SumOfMultiples(Offset(rs, dim, i - 1), |Encode(rs[i - 1], dim)|);
    }
  }

  lemma {:induction false} OffsetMonotone(rs: seq<Record>, dim: nat, i: nat, j: nat)
    requires AllStorable(rs, dim) && i <= j <= |rs|
    ensures Offset(rs, dim, i) <= Offset(rs, dim, j)
    ensures i < j ==> Offset(rs, dim, i) + HEADER_BYTES <= Offset(rs, dim, j)
    decreases j
  {
    hide Encode, PaddedSize, EncodeAll;
    if i < j {
      OffsetMonotone(rs, dim, i, j - 1);
      OffsetStep(rs, dim, j - 1);
    }
  }

  /** Inside a prefix of the log, record `i` decodes when it is whole and reads as the end otherwise. */
  lemma DecodeInPrefix(rs: seq<Record>, dim: nat, n: nat, i: nat)
    requires AllStorable(rs, dim) && i < |rs|
    requires Offset(rs, dim, i) <= n <= |EncodeAll(rs, dim)|
    ensures Decode(EncodeAll(rs, dim)[..n], Offset(rs, dim, i), dim)
         == if Offset(rs, dim, i + 1) <= n then Some(Normal(rs[i])) else None
  {
    hide Encode, PaddedSize, EncodeAll, Decode;
    EncodeAllSlice(rs, dim, i);
    var log := EncodeAll(rs, dim);
    var pos, next := Offset(rs, dim, i), Offset(rs, dim, i + 1);
    if next <= n {
      assert log[..n][pos..next] == log[pos..next];
      DecodeEncoded(log[..n], pos, rs[i], dim);
    } else {
      SliceOfSlice(log, pos, log[pos..next], 0, n - pos);
      assert log[..n][pos..] == log[pos..n];
      DecodeTorn(log[..n], pos, rs[i], dim);
    }
  }

  /** Replaying a prefix of a log from its record `i` on. */
  lemma {:induction false} ReplayPrefixFrom(rs: seq<Record>, dim: nat, n: nat, i: nat)
    requires AllStorable(rs, dim) && n <= |EncodeAll(rs, dim)|
    requires i <= WholeRecords(rs, dim, n)
    ensures Replay(EncodeAll(rs, dim)[..n], Offset(rs, dim, i), dim)
         == LocatedLog(rs, dim)[i..WholeRecords(rs, dim, n)]
    decreases |rs| - i
  {
    hide Encode, PaddedSize, EncodeAll, Decode, Replay, WholeRecords, LocatedLog, Offset;
    var data, pos, k := EncodeAll(rs, dim)[..n], Offset(rs, dim, i), WholeRecords(rs, dim, n);
    OffsetMonotone(rs, dim, i, k);
    ReplayStep(data, pos, dim);
    if i == |rs| {
      EndOfLog(rs, dim);
      DecodePastEnd(data, dim);
    } else {
      DecodeInPrefix(rs, dim, n, i);
      if i < k {
        OffsetMonotone(rs, dim, i + 1, k);
        OffsetStep(rs, dim, i);
        ReplayPrefixFrom(rs, dim, n, i + 1);
        LocatedStep(rs, dim, i, k);
      }
    }
  }

  lemma ReplayStep(data: seq<Byte>, pos: nat, dim: nat)
    ensures Replay(data, pos, dim) == match Decode(data, pos, dim)
                                      case None => []
                                      case Some(r) =>
                                        [Located(r, pos)] + Replay(data, pos + PaddedSize(dim, |MetaBytes(r)|), dim)
  {
  }

  lemma EndOfLog(rs: seq<Record>, dim: nat)
    requires AllStorable(rs, dim)
    ensures Offset(rs, dim, |rs|) == |EncodeAll(rs, dim)|
  {
    assert rs[..|rs|] == rs;
  }

  lemma LocatedStep(rs: seq<Record>, dim: nat, i: nat, k: nat)
    requires AllStorable(rs, dim) && i < k <= |rs|
    ensures LocatedLog(rs, dim)[i..k]
         == [Located(Normal(rs[i]), Offset(rs, dim, i))] + LocatedLog(rs, dim)[i + 1..k]
  {
    hide Offset;
  }

  lemma DecodePastEnd(data: seq<Byte>, dim: nat)
    ensures Decode(data, |data|, dim) == None
  {
  }

  /** A crash leaves a byte prefix of the log. Replay of that prefix yields exactly the records that were written
      whole, in order and at their offsets, and then stops. */
  lemma CrashPrefixReplay(rs: seq<Record>, dim: nat, n: nat)
    requires AllStorable(rs, dim) && n <= |EncodeAll(rs, dim)|
    ensures Replay(EncodeAll(rs, dim)[..n], 0, dim) == LocatedLog(rs, dim)[..WholeRecords(rs, dim, n)]
  {
    assert rs[..0] == [];
    ReplayPrefixFrom(rs, dim, n, 0);
  }

  /** Replay of an intact log returns the whole of it. */
  lemma ReplayWholeLog(rs: seq<Record>, dim: nat)
    requires AllStorable(rs, dim)
    ensures Replay(EncodeAll(rs, dim), 0, dim) == LocatedLog(rs, dim)
  {
    var log := EncodeAll(rs, dim);
    assert rs[..|rs|] == rs;
    assert log[..|log|] == log;
    var k := WholeRecords(rs, dim, |log|);
    if k < |rs| {
      OffsetMonotone(rs, dim, k + 1, |rs|);
    }
    CrashPrefixReplay(rs, dim, |log|);
  }

  // ---- the size check ----

  const TWO_64: nat := 0x1_0000_0000_0000_0000

  /** The padded size as 64-bit arithmetic computes it from a stored length. */
  function WrappedSize(dim: nat, metaLen: nat): nat {
    (HEADER_BYTES + 4 * dim + metaLen + 7) % TWO_64 / 8 * 8
  }

  /** Whether the loaders accept a record that starts at `pos`, in 64-bit arithmetic. */
  predicate SizeAccepted(pos: nat, dim: nat, metaLen: nat, size: nat) {
    (pos + WrappedSize(dim, metaLen)) % TWO_64 <= size
  }

  lemma WrapsTo(dim: nat, metaLen: nat)
    ensures WrappedSize(dim, metaLen) == PaddedSize(dim, metaLen) % TWO_64
  {
    RoundedRemainder(HEADER_BYTES + 4 * dim + metaLen + 7);
  }

  /** Rounding down to a multiple of 8 and taking the remainder of 2^64 commute. */
  lemma RoundedRemainder(n: nat)
    ensures n % TWO_64 / 8 * 8 == (n - n % 8) % TWO_64
  {
    var q, m := n / TWO_64, n % TWO_64;
    assert n == 8 * (0x2000_0000_0000_0000 * q) + m;
    assert n % 8 == m % 8;
    assert m / 8 * 8 == m - m % 8;
    assert n - n % 8 == TWO_64 * q + (m - m % 8);
  }

  /** Exactly when the size check is right about a record lying wholly inside the mapping: its end does not wrap around to
      a position inside it. */
  lemma SizeCheckIff(pos: nat, dim: nat, metaLen: nat, size: nat)
    requires size < TWO_64
    ensures var end := pos + PaddedSize(dim, metaLen);
            (SizeAccepted(pos, dim, metaLen, size) <==> end <= size) <==> (end < TWO_64 || end % TWO_64 > size)
  {
    hide PaddedSize, WrappedSize;
    WrapsTo(dim, metaLen);
    var end := pos + PaddedSize(dim, metaLen);
    assert (pos + PaddedSize(dim, metaLen) % TWO_64) % TWO_64 == end % TWO_64;
  }

  /** On a log of less than 2^64 bytes, cut off anywhere, the check is right about every record. */
  lemma LogSizesAreChecked(rs: seq<Record>, dim: nat, n: nat, i: nat)
    requires AllStorable(rs, dim) && n <= |EncodeAll(rs, dim)| < TWO_64 && i < |rs|
    ensures SizeAccepted(Offset(rs, dim, i), dim, |MetaBytes(rs[i])|, n) <==> Offset(rs, dim, i + 1) <= n
  {
    hide EncodeAll, Encode, PaddedSize, SizeAccepted;
    EncodeAllSlice(rs, dim, i);
    EncodedSize(rs[i], dim);
    SizeCheckIff(Offset(rs, dim, i), dim, |MetaBytes(rs[i])|, n);
  }

  lemma EncodedSize(r: Record, dim: nat)
    requires Storable(r, dim)
    ensures |Encode(r, dim)| == PaddedSize(dim, |MetaBytes(r)|)
  {
    hide PaddedSize;
  }

  /** For every dimension there is a stored length for which the check lets a record through that does not fit: with it, the
      end of the record wraps around to 0. */
  lemma SizeCheckWitness(dim: nat)
    requires HEADER_BYTES + 4 * dim < TWO_64
    ensures var len := TWO_64 - HEADER_BYTES - 4 * dim;
            len < TWO_64 && SizeAccepted(0, dim, len, HEADER_BYTES) && PaddedSize(dim, len) > HEADER_BYTES
  {
    var len := TWO_64 - HEADER_BYTES - 4 * dim;
    assert HEADER_BYTES + 4 * dim + len + 7 == TWO_64 + 7;
    WrapsTo(dim, len);
  }
}
