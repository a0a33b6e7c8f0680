/** The file that keeps trained clusters between runs. */
module IndexFile {
  import opened Bytes
  import opened RecordLog

  /** A cluster as the file holds it; `count` is the number of offsets. */
  datatype StoredCluster = StoredCluster(centroid: seq<Word32>, capacity: Word64, offsets: seq<Word64>)

  datatype Index = Index(clusters: seq<StoredCluster>, dim: nat)

  predicate Saveable(c: StoredCluster, dim: nat) {
    |c.centroid| == dim && |c.offsets| < 0x1_0000_0000_0000_0000
  }

  predicate AllSaveable(cl: seq<StoredCluster>, dim: nat) {
    forall i :: 0 <= i < |cl| ==> Saveable(cl[i], dim)
  }

  function EncodeCluster(c: StoredCluster): seq<Byte> {
    EncodeWords(c.centroid, 4) + LittleEndian(|c.offsets|, 8) + LittleEndian(c.capacity, 8) + EncodeWords(c.offsets, 8)
  }

  function EncodeClusters(cl: seq<StoredCluster>): seq<Byte> {
    if cl == [] then [] else EncodeClusters(cl[..|cl| - 1]) + EncodeCluster(cl[|cl| - 1])
  }

  function EncodeIndex(cl: seq<StoredCluster>, dim: nat): seq<Byte> {
    LittleEndian(|cl|, 8) + LittleEndian(dim, 8) + EncodeClusters(cl)
  }

  /** Writes `k`, the dimension and then each cluster field by field. */
  method SaveIvfIndex(clusters: seq<StoredCluster>, dim: nat) returns (file: seq<Byte>)
    ensures file == EncodeIndex(clusters, dim)
  {
    file := LittleEndian(|clusters|, 8);
    file := file + LittleEndian(dim, 8);
    ghost var head := file;
    for i := 0 to |clusters|
      invariant file == head + EncodeClusters(clusters[..i])
    {
      ghost var before := EncodeClusters(clusters[..i]);
      assert clusters[..i + 1][..i] == clusters[..i];
      var c := clusters[i];
      file := file + EncodeWords(c.centroid, 4);
      file := file + LittleEndian(|c.offsets|, 8);
      file := file + LittleEndian(c.capacity, 8);
      file := file + EncodeWords(c.offsets, 8);
      Rejoin(head, before, EncodeWords(c.centroid, 4), LittleEndian(|c.offsets|, 8), LittleEndian(c.capacity, 8),
             EncodeWords(c.offsets, 8));
    }
    assert clusters[..|clusters|] == clusters;
  }

  lemma Rejoin(h: seq<Byte>, x: seq<Byte>, a: seq<Byte>, b: seq<Byte>, c: seq<Byte>, d: seq<Byte>)
    ensures h + x + a + b + c + d == h + (x + (a + b + c + d))
  {
  }

  // ---- reading ----

  function WordAt(file: seq<Byte>, pos: nat): (w: Word64)
    requires pos + 8 <= |file|
  {
    Pow256Values();
    FromLittleEndian(file[pos..pos + 8])
  }

  function OffsetsAt(s: seq<Byte>, n: nat): (ws: seq<Word64>)
    requires |s| == 8 * n
  {
    Pow256Values();
    DecodeWords(s, 8, n)
  }

  /** The cluster that starts at `pos` and the position behind it; `None` when a read comes up short. */
  function ClusterAt(file: seq<Byte>, pos: nat, dim: nat): (r: Option<(StoredCluster, nat)>)
    ensures r.Some? ==> pos <= r.value.1 <= |file|
  {
    var p := pos + 4 * dim;
    if p > |file| || p + 8 > |file| || p + 16 > |file| then None
    else
      var count := WordAt(file, p);
      if p + 16 + 8 * count > |file| then None
      else Some((StoredCluster(VectorOf(file[pos..p], dim), WordAt(file, p + 8),
                               OffsetsAt(file[p + 16..p + 16 + 8 * count], count)),
                 p + 16 + 8 * count))
  }

  function ClustersAt(file: seq<Byte>, pos: nat, dim: nat, n: nat): (r: Option<seq<StoredCluster>>)
    decreases n
  {
    if n == 0 then Some([])
    else
      match ClusterAt(file, pos, dim)
      case None => None
      case Some((c, next)) =>
        match ClustersAt(file, next, dim, n - 1)
        case None => None
        case Some(rest) => Some([c] + rest)
  }

  function LoadedIndex(file: seq<Byte>): Option<Index> {
    if |file| < 8 || |file| < 16 then None
    else
      match ClustersAt(file, 16, WordAt(file, 8), WordAt(file, 0))
      case None => None
      case Some(cl) => Some(Index(cl, WordAt(file, 8)))
  }

  /** Reads one cluster field by field; every read that comes up short gives up. */
  method ReadCluster(file: seq<Byte>, start: nat, dim: nat) returns (r: Option<(StoredCluster, nat)>)
    ensures r == ClusterAt(file, start, dim)
  {
    var cursor: nat := start;
    if cursor + 4 * dim > |file| {
      return None;
    }
    var centroid := VectorOf(file[cursor..cursor + 4 * dim], dim);
    cursor := cursor + 4 * dim;
    if cursor + 8 > |file| {
      return None;
    }
    var count: nat := WordAt(file, cursor);
    cursor := cursor + 8;
    if cursor + 8 > |file| {
      return None;
    }
    var capacity := WordAt(file, cursor);
    cursor := cursor + 8;
    if count > 0 && cursor + 8 * count > |file| {
      return None;
    }
    var offsets := OffsetsAt(file[cursor..cursor + 8 * count], count);
    return Some((StoredCluster(centroid, capacity, offsets), cursor + 8 * count));
  }

  method LoadIvfIndex(file: seq<Byte>) returns (r: Option<Index>)
    ensures r == LoadedIndex(file)
  {
    hide ClusterAt;
    if |file| < 8 {
      return None;
    }
    var k: nat := WordAt(file, 0);
    if |file| < 16 {
      return None;
    }
    var dim: nat := WordAt(file, 8);
    var cursor: nat, clusters: seq<StoredCluster> := 16, [];
    ghost var goal := ClustersAt(file, 16, dim, k);
    assert goal.Some? ==> [] + goal.value == goal.value;
    for i := 0 to k
      invariant goal == Prepend(clusters, ClustersAt(file, cursor, dim, k - i))
    {
      var c := ReadCluster(file, cursor, dim);
      if c.None? {
        return None;
      }
      ghost var rest := ClustersAt(file, c.value.1, dim, k - i - 1);
      assert rest.Some? ==> clusters + ([c.value.0] + rest.value) == (clusters + [c.value.0]) + rest.value;
      clusters := clusters + [c.value.0];
      cursor := c.value.1;
    }
    assert clusters + [] == clusters;
    return Some(Index(clusters, dim));
  }

  function Prepend(cl: seq<StoredCluster>, rest: Option<seq<StoredCluster>>): Option<seq<StoredCluster>> {
    if rest.Some? then Some(cl + rest.value) else None
  }

  // ---- round trip ----

  lemma EncodedClusterFields(c: StoredCluster, dim: nat)
    requires Saveable(c, dim)
    ensures var e := EncodeCluster(c); var p := 4 * dim; var n := |c.offsets|;
            && |e| == p + 16 + 8 * n
            && e[0..p] == EncodeWords(c.centroid, 4) && e[p..p + 8] == LittleEndian(n, 8)
            && e[p + 8..p + 16] == LittleEndian(c.capacity, 8) && e[p + 16..p + 16 + 8 * n] == EncodeWords(c.offsets, 8)
  {
    hide EncodeWords, LittleEndian;
  }

  lemma ClusterRoundTrip(file: seq<Byte>, pos: nat, c: StoredCluster, dim: nat)
    requires Saveable(c, dim) && pos + |EncodeCluster(c)| <= |file|
    requires file[pos..pos + |EncodeCluster(c)|] == EncodeCluster(c)
    ensures ClusterAt(file, pos, dim) == Some((c, pos + |EncodeCluster(c)|))
  {
    hide EncodeCluster, EncodeWords, DecodeWords, LittleEndian, FromLittleEndian, Pow256;
    var e, p, n := EncodeCluster(c), 4 * dim, |c.offsets|;
    Pow256Values();
    EncodedClusterFields(c, dim);
    assert file[pos..pos + p] == EncodeWords(c.centroid, 4) by { SliceOfSlice(file, pos, e, 0, p); }
    assert file[pos + p..pos + p + 8] == LittleEndian(n, 8) by { SliceOfSlice(file, pos, e, p, p + 8); }
    assert file[pos + p + 8..pos + p + 16] == LittleEndian(c.capacity, 8) by { SliceOfSlice(file, pos, e, p + 8, p + 16); }
    assert file[pos + p + 16..pos + p + 16 + 8 * n] == EncodeWords(c.offsets, 8) by {
      SliceOfSlice(file, pos, e, p + 16, p + 16 + 8 * n);
    }
    LittleEndianRoundTrip(n, 8);
    LittleEndianRoundTrip(c.capacity, 8);
    WordsRoundTrip(c.centroid, 4);
    WordsRoundTrip(c.offsets, 8);
  }

  lemma ClusterTorn(file: seq<Byte>, pos: nat, c: StoredCluster, dim: nat)
    requires Saveable(c, dim) && pos <= |file| < pos + |EncodeCluster(c)|
    requires file[pos..] == EncodeCluster(c)[..|file| - pos]
    ensures ClusterAt(file, pos, dim) == None
  {
    hide EncodeCluster, EncodeWords, DecodeWords, LittleEndian, FromLittleEndian, Pow256;
    var e, p, n := EncodeCluster(c), 4 * dim, |c.offsets|;
    EncodedClusterFields(c, dim);
    if pos + p + 16 <= |file| {
      Pow256Values();
      assert file[pos + p..pos + p + 8] == file[pos..][p..p + 8] == e[p..p + 8];
      LittleEndianRoundTrip(n, 8);
    }
  }

  /** Where cluster `i` starts in the encoding of `cl`. */
  function StartOf(cl: seq<StoredCluster>, i: nat): nat
    requires i <= |cl|
  {
    |EncodeClusters(cl[..i])|
  }

  lemma {:induction false} ClusterSlice(cl: seq<StoredCluster>, i: nat)
    requires i < |cl|
    ensures StartOf(cl, i) + |EncodeCluster(cl[i])| == StartOf(cl, i + 1) <= |EncodeClusters(cl)|
    ensures EncodeClusters(cl)[StartOf(cl, i)..StartOf(cl, i + 1)] == EncodeCluster(cl[i])
    decreases |cl|
  {
    hide EncodeCluster;
    var front := cl[..|cl| - 1];
    assert cl[..i + 1][..i] == cl[..i];
    if i < |front| {
      ClusterSlice(front, i);
      assert front[..i] == cl[..i] && front[..i + 1] == cl[..i + 1];
    } else {
      assert cl[..i + 1] == cl;
    }
  }

  /** In a prefix of the file, cluster `i` reads back when it is whole and reads as nothing otherwise. */
  lemma ClusterInPrefix(head: seq<Byte>, cl: seq<StoredCluster>, dim: nat, size: nat, i: nat)
    requires AllSaveable(cl, dim) && i < |cl|
    requires |head| + StartOf(cl, i) <= size <= |head + EncodeClusters(cl)|
    ensures var next := |head| + StartOf(cl, i + 1);
            ClusterAt((head + EncodeClusters(cl))[..size], |head| + StartOf(cl, i), dim)
            == if next <= size then Some((cl[i], next)) else None
  {
    hide EncodeCluster, EncodeClusters, ClusterAt, StartOf;
    ClusterSlice(cl, i);
    var all := head + EncodeClusters(cl);
    var file := all[..size];
    var pos, next := |head| + StartOf(cl, i), |head| + StartOf(cl, i + 1);
    SliceBehind(head, EncodeClusters(cl), StartOf(cl, i), StartOf(cl, i + 1));
    if next <= size {
      PrefixSlice(all, size, pos, next);
      ClusterRoundTrip(file, pos, cl[i], dim);
    } else {
      SliceOfSlice(all, pos, EncodeCluster(cl[i]), 0, size - pos);
      PrefixSlice(all, size, pos, size);
      ClusterTorn(file, pos, cl[i], dim);
    }
  }

  lemma SliceBehind(head: seq<Byte>, s: seq<Byte>, from: nat, to: nat)
    requires from <= to <= |s|
    ensures (head + s)[|head| + from..|head| + to] == s[from..to]
  {
  }

  lemma PrefixSlice(s: seq<Byte>, size: nat, from: nat, to: nat)
    requires from <= to <= size <= |s|
    ensures s[..size][from..to] == s[from..to] && (to == size ==> s[..size][from..] == s[from..to])
  {
  }

  /** Reading the clusters of a prefix of the file, from cluster `i` on. */
  lemma {:induction false} ClustersOfPrefix(head: seq<Byte>, cl: seq<StoredCluster>, dim: nat, size: nat, i: nat)
    requires AllSaveable(cl, dim) && i <= |cl|
    requires |head| + StartOf(cl, i) <= size <= |head + EncodeClusters(cl)|
    ensures ClustersAt((head + EncodeClusters(cl))[..size], |head| + StartOf(cl, i), dim, |cl| - i)
         == if size == |head + EncodeClusters(cl)| then Some(cl[i..]) else None
    decreases |cl| - i
  {
    hide EncodeCluster, ClusterAt, EncodeClusters;
    LastStart(cl);
    if i == |cl| {
      assert cl[i..] == [];
    } else {
      ClusterInPrefix(head, cl, dim, size, i);
      if |head| + StartOf(cl, i + 1) <= size {
        ClustersOfPrefix(head, cl, dim, size, i + 1);
        assert cl[i..] == [cl[i]] + cl[i + 1..];
      } else {
        StartAtMost(cl, i + 1);
      }
    }
  }

  lemma StartAtMost(cl: seq<StoredCluster>, i: nat)
    requires 0 < i <= |cl|
    ensures StartOf(cl, i) <= |EncodeClusters(cl)|
  {
    hide EncodeClusters;
    ClusterSlice(cl, i - 1);
  }

  lemma LastStart(cl: seq<StoredCluster>)
    ensures StartOf(cl, |cl|) == |EncodeClusters(cl)|
  {
    assert cl[..|cl|] == cl;
  }

  /** Loading what was saved returns it, empty clusters included, and every strict prefix of the file loads as nothing. */
  lemma IndexRoundTrip(cl: seq<StoredCluster>, dim: nat, size: nat)
    requires AllSaveable(cl, dim) && 1 <= |cl| < 0x1_0000_0000_0000_0000 && dim < 0x1_0000_0000_0000_0000
    requires size <= |EncodeIndex(cl, dim)|
    ensures LoadedIndex(EncodeIndex(cl, dim)[..size])
         == if size == |EncodeIndex(cl, dim)| then Some(Index(cl, dim)) else None
  {
    hide LittleEndian, FromLittleEndian, Pow256, EncodeClusters, ClusterAt;
    var head := LittleEndian(|cl|, 8) + LittleEndian(dim, 8);
    var file := EncodeIndex(cl, dim)[..size];
    if size >= 16 {
      Pow256Values();
      assert file[0..8] == LittleEndian(|cl|, 8);
      assert file[8..16] == LittleEndian(dim, 8);
      LittleEndianRoundTrip(|cl|, 8);
      LittleEndianRoundTrip(dim, 8);
      FirstStart(cl);
      ClustersOfPrefix(head, cl, dim, size, 0);
      assert cl[0..] == cl;
    }
  }

  lemma FirstStart(cl: seq<StoredCluster>)
    ensures StartOf(cl, 0) == 0
  {
    assert cl[..0] == [];
  }
}
