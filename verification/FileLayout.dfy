/** Where every number of the data file and of the index file lies, byte by byte. */
module FileLayout {
  import opened Bytes
  import opened RecordLog
  import opened IndexFile

  /** The number in four bytes, least significant byte first. */
  function Number4(s: seq<Byte>, at: nat): nat
    requires at + 4 <= |s|
  {
    var b0: nat, b1: nat, b2: nat, b3: nat := s[at], s[at + 1], s[at + 2], s[at + 3];
    b0 + 0x100 * b1 + 0x1_0000 * b2 + 0x100_0000 * b3
  }

  /** The number in eight bytes. */
  function Number8(s: seq<Byte>, at: nat): nat
    requires at + 8 <= |s|
  {
    Number4(s, at) + 0x1_0000_0000 * Number4(s, at + 4)
  }

  // ---- words ----

  lemma FromFour(s: seq<Byte>)
    requires |s| == 4
    ensures FromLittleEndian(s) == Number4(s, 0)
  {
    assert s[1..][1..] == s[2..] && s[2..][1..] == s[3..] && s[3..][1..] == [];
    assert FromLittleEndian(s[3..]) == s[3];
    assert FromLittleEndian(s[2..]) == s[2] + 256 * FromLittleEndian(s[3..]);
    assert FromLittleEndian(s[1..]) == s[1] + 256 * FromLittleEndian(s[2..]);
  }

  lemma FourMore(s: seq<Byte>)
    requires |s| >= 4
    ensures FromLittleEndian(s) == Number4(s, 0) + 0x1_0000_0000 * FromLittleEndian(s[4..])
  {
    assert s[1..][1..] == s[2..] && s[2..][1..] == s[3..] && s[3..][1..] == s[4..];
    assert FromLittleEndian(s[3..]) == s[3] + 256 * FromLittleEndian(s[4..]);
    assert FromLittleEndian(s[2..]) == s[2] + 256 * FromLittleEndian(s[3..]);
    assert FromLittleEndian(s[1..]) == s[1] + 256 * FromLittleEndian(s[2..]);
  }

  lemma FromEight(s: seq<Byte>)
    requires |s| == 8
    ensures FromLittleEndian(s) == Number8(s, 0)
  {
    hide FromLittleEndian;
    FourMore(s);
    FromFour(s[4..]);
  }

  /** A machine word is read from its bytes wherever they lie. */
  lemma WordIsRead(s: seq<Byte>, at: nat)
    ensures at + 4 <= |s| ==> FromLittleEndian(s[at..at + 4]) == Number4(s, at)
    ensures at + 8 <= |s| ==> FromLittleEndian(s[at..at + 8]) == Number8(s, at)
  {
    if at + 4 <= |s| {
      FromFour(s[at..at + 4]);
    }
    if at + 8 <= |s| {
      FromEight(s[at..at + 8]);
    }
  }

  /** A 64-bit word is laid out, and read back, as its eight bytes; a 32-bit word as its four. */
  lemma WordsAreLaidOut(w: Word64, v: Word32)
    ensures Number8(LittleEndian(w, 8), 0) == w && Number4(LittleEndian(v, 4), 0) == v
  {
    hide LittleEndian, FromLittleEndian, Pow256;
    Pow256Values();
    LittleEndianRoundTrip(w, 8);
    LittleEndianRoundTrip(v, 4);
    FromEight(LittleEndian(w, 8));
    FromFour(LittleEndian(v, 4));
  }

  /** An array is laid out element by element. */
  lemma {:induction false} ElementAt(ws: seq<nat>, width: nat, i: nat)
    requires i < |ws| && (width == 4 || width == 8)
    ensures EncodeWords(ws, width)[width * i..width * i + width] == LittleEndian(ws[i], width)
  {
    hide LittleEndian;
    var s, first, rest := EncodeWords(ws, width), LittleEndian(ws[0], width), EncodeWords(ws[1..], width);
    assert s == first + rest;
    if i > 0 {
      ElementAt(ws[1..], width, i - 1);
      var at := width * (i - 1);
      assert width * i == width + at;
      assert s[width + at..width + at + width] == rest[at..at + width];
    }
  }

  lemma Float4At(ws: seq<Word32>, i: nat)
    requires i < |ws|
    ensures Number4(EncodeWords(ws, 4), 4 * i) == ws[i]
  {
    hide EncodeWords, LittleEndian;
    ElementAt(ws, 4, i);
    WordsAreLaidOut(0, ws[i]);
    var s := EncodeWords(ws, 4);
    assert s[4 * i..4 * i + 4] == LittleEndian(ws[i], 4);
    assert forall k :: 0 <= k < 4 ==> s[4 * i + k] == LittleEndian(ws[i], 4)[k];
  }

  lemma Word8At(ws: seq<Word64>, i: nat)
    requires i < |ws|
    ensures Number8(EncodeWords(ws, 8), 8 * i) == ws[i]
  {
    hide EncodeWords, LittleEndian;
    ElementAt(ws, 8, i);
    WordsAreLaidOut(ws[i], 0);
    var s := EncodeWords(ws, 8);
    assert s[8 * i..8 * i + 8] == LittleEndian(ws[i], 8);
    assert forall k :: 0 <= k < 8 ==> s[8 * i + k] == LittleEndian(ws[i], 8)[k];
  }

  lemma Number8InSlice(s: seq<Byte>, from: nat, to: nat, at: nat)
    requires from + at + 8 <= to <= |s|
    ensures Number8(s[from..to], at) == Number8(s, from + at)
  {
  }

  lemma Number4InSlice(s: seq<Byte>, from: nat, to: nat, at: nat)
    requires from + at + 4 <= to <= |s|
    ensures Number4(s[from..to], at) == Number4(s, from + at)
  {
  }

  // ---- records ----

  /** A record in the data file: id, flag word, metadata length, vector and metadata without a gap, and zeros up to the next
      multiple of eight. */
  lemma RecordLayout(r: Record, dim: nat)
    requires Storable(r, dim)
    ensures var e := Encode(r, dim);
            var meta := match r.metadata case None => [] case Some(m) => m;
            && |e| % 8 == 0 && 24 + 4 * dim + |meta| <= |e| < 24 + 4 * dim + |meta| + 8
            && Number8(e, 0) == r.id && Number8(e, 8) == (if r.deleted then 1 else 0) && Number8(e, 16) == |meta|
            && (forall i :: 0 <= i < dim ==> Number4(e, 24 + 4 * i) == r.vector[i])
            && e[24 + 4 * dim..24 + 4 * dim + |meta|] == meta
            && forall k :: 24 + 4 * dim + |meta| <= k < |e| ==> e[k] == 0
  {
    hide Encode, EncodeWords, LittleEndian, Number4, Number8;
    var e := Encode(r, dim);
    EncodedFields(r, dim);
    WordsAreLaidOut(r.id, 0);
    WordsAreLaidOut(if r.deleted then 1 else 0, 0);
    WordsAreLaidOut(|MetaBytes(r)|, 0);
    Number8InSlice(e, 0, 8, 0);
    Number8InSlice(e, 8, 16, 0);
    Number8InSlice(e, 16, 24, 0);
    forall i | 0 <= i < dim
      ensures Number4(e, 24 + 4 * i) == r.vector[i]
    {
      Float4At(r.vector, i);
      Number4InSlice(e, 24, 24 + 4 * dim, 4 * i);
    }
    var used := 24 + 4 * dim + |MetaBytes(r)|;
    assert forall k :: used <= k < |e| ==> e[k] == e[used..][k - used];
  }

  lemma LowBit(data: seq<Byte>, at: nat)
    requires at + 8 <= |data|
    ensures Number8(data, at) % 2 == data[at] % 2
  {
  }

  /** And how such bytes are read, whoever wrote them: a record is deleted when its flag word is odd. */
  lemma RecordReading(data: seq<Byte>, pos: nat, dim: nat)
    ensures Decode(data, pos, dim).Some? <==>
              pos + 24 <= |data| && pos + PaddedSize(dim, Number8(data, pos + 16)) <= |data|
    ensures Decode(data, pos, dim).Some? ==>
              var r, len := Decode(data, pos, dim).value, Number8(data, pos + 16);
              && r.id == Number8(data, pos) && (r.deleted <==> data[pos + 8] % 2 == 1) && |r.vector| == dim
              && pos + 24 + 4 * dim + len <= |data|
              && (forall i :: 0 <= i < dim ==> r.vector[i] == Number4(data, pos + 24 + 4 * i))
              && r.metadata == if len == 0 then None else Some(data[pos + 24 + 4 * dim..pos + 24 + 4 * dim + len])
  {
    hide FromLittleEndian, VectorOf, Number4, Number8, PaddedSize;
    if pos + 24 <= |data| {
      WordIsRead(data, pos);
      WordIsRead(data, pos + 8);
      WordIsRead(data, pos + 16);
      LowBit(data, pos + 8);
      var len := Number8(data, pos + 16);
      if pos + PaddedSize(dim, len) <= |data| {
        VectorReading(data, pos + 24, dim);
      }
    }
  }

  lemma {:induction false} WordsReading(s: seq<Byte>, n: nat, i: nat)
    requires |s| == 4 * n && i < n
    ensures DecodeWords(s, 4, n)[i] == FromLittleEndian(s[4 * i..4 * i + 4])
    decreases n
  {
    hide FromLittleEndian;
    if i > 0 {
      WordsReading(s[4..], n - 1, i - 1);
      assert s[4..][4 * (i - 1)..4 * (i - 1) + 4] == s[4 * i..4 * i + 4];
    }
  }

  lemma VectorReading(data: seq<Byte>, at: nat, dim: nat)
    requires at + 4 * dim <= |data|
    ensures forall i :: 0 <= i < dim ==> VectorOf(data[at..at + 4 * dim], dim)[i] == Number4(data, at + 4 * i)
  {
    hide FromLittleEndian, DecodeWords;
    var s := data[at..at + 4 * dim];
    forall i | 0 <= i < dim
      ensures VectorOf(s, dim)[i] == Number4(data, at + 4 * i)
    {
      WordsReading(s, dim, i);
      WordIsRead(s, 4 * i);
      Number4InSlice(data, at, at + 4 * dim, 4 * i);
    }
  }

  // ---- the index ----

  /** A cluster in the index file: centroid, number of offsets, capacity, offsets. */
  lemma ClusterLayout(c: StoredCluster, dim: nat)
    requires Saveable(c, dim)
    ensures var e, n := EncodeCluster(c), |c.offsets|;
            && |e| == 4 * dim + 16 + 8 * n
            && (forall i :: 0 <= i < dim ==> Number4(e, 4 * i) == c.centroid[i])
            && Number8(e, 4 * dim) == n && Number8(e, 4 * dim + 8) == c.capacity
            && forall i :: 0 <= i < n ==> Number8(e, 4 * dim + 16 + 8 * i) == c.offsets[i]
  {
    hide EncodeCluster, EncodeWords, LittleEndian, Number4, Number8;
    var e, p, n := EncodeCluster(c), 4 * dim, |c.offsets|;
    EncodedClusterFields(c, dim);
    WordsAreLaidOut(n, 0);
    WordsAreLaidOut(c.capacity, 0);
    Number8InSlice(e, p, p + 8, 0);
    Number8InSlice(e, p + 8, p + 16, 0);
    forall i | 0 <= i < dim
      ensures Number4(e, 4 * i) == c.centroid[i]
    {
      Float4At(c.centroid, i);
      Number4InSlice(e, 0, p, 4 * i);
    }
    forall i | 0 <= i < n
      ensures Number8(e, p + 16 + 8 * i) == c.offsets[i]
    {
      Word8At(c.offsets, i);
      Number8InSlice(e, p + 16, p + 16 + 8 * n, 8 * i);
    }
  }

  /** The index file: the number of clusters, the dimension, and the clusters one after another. */
  lemma IndexLayout(cl: seq<StoredCluster>, dim: Word64, c: StoredCluster)
    requires |cl| < 0x1_0000_0000_0000_0000
    ensures var file := EncodeIndex(cl, dim);
            && |file| >= 16 && Number8(file, 0) == |cl| && Number8(file, 8) == dim
            && EncodeIndex(cl + [c], dim)[16..] == file[16..] + EncodeCluster(c)
            && (cl == [] ==> |file| == 16)
  {
    hide EncodeCluster, LittleEndian, Number8;
    var file := EncodeIndex(cl, dim);
    WordsAreLaidOut(|cl|, 0);
    WordsAreLaidOut(dim, 0);
    assert file[0..8] == LittleEndian(|cl|, 8) && file[8..16] == LittleEndian(dim, 8);
    Number8InSlice(file, 0, 8, 0);
    Number8InSlice(file, 8, 16, 0);
    assert (cl + [c])[..|cl|] == cl;
  }
}
